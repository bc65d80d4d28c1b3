/** The shadow sync table of a Shadow Sync Sample Box (`stsh`, section 8.6.3
    of ISO/IEC 14496-12): after the entry count come `entryCount` records of
    8 bytes, a big-endian uint32 shadowedSampleNumber followed by a big-endian
    uint32 syncSampleNumber.

    Two decoders of the record bytes are defined here:
    - `Intended` reads record i from bytes [8i, 8i + 8), the layout the
      standard and the class documentation describe;
    - `Literal` reads entry i exactly as the PHP loop does, through `substr`
      at offsets (i - 1) * 8 and i * 8 - 4, negative offsets included. */
module ShadowSyncTable {
  import opened Outcomes
  import opened BigEndian
  import PhpString

  /** Bytes per record: two 32-bit fields. */
  const Stride: nat := 8

  /** Bytes per field. */
  const FieldWidth: nat := 4

  /** One row of the table: the sample that gets a shadow sync, and the
      sync sample that may stand in for it when seeking. */
  datatype Entry = Entry(shadowed: nat, sync: nat)

  /** Both sample numbers fit the 32-bit fields they are read from. */
  predicate IsUint32Entry(e: Entry) {
    e.shadowed < Two32 && e.sync < Two32
  }

  predicate AllUint32(t: seq<Entry>) {
    forall i :: 0 <= i < |t| ==> IsUint32Entry(t[i])
  }

  // ---------------------------------------------------------------------
  // The documented layout

  /** The record stored at stride index `i`. */
  function RecordAt(data: seq<Byte>, i: nat): (e: Entry)
    requires Stride * i + Stride <= |data|
    ensures IsUint32Entry(e)
  {
    Entry(Uint32(data[Stride * i..Stride * i + FieldWidth]),
          Uint32(data[Stride * i + FieldWidth..Stride * i + Stride]))
  }

  /** Dropping the first record moves every later record one index down. */
  lemma RecordAtShift(data: seq<Byte>, i: nat)
    requires 1 <= i && Stride * i + Stride <= |data|
    ensures RecordAt(data[Stride..], i - 1) == RecordAt(data, i)
  {
    assert data[Stride..][Stride * (i - 1)..Stride * (i - 1) + FieldWidth]
        == data[Stride * i..Stride * i + FieldWidth];
    assert data[Stride..][Stride * (i - 1) + FieldWidth..Stride * (i - 1) + Stride]
        == data[Stride * i + FieldWidth..Stride * i + Stride];
  }

  /** The first `n` records, read front to back. */
  function Records(data: seq<Byte>, n: nat): (t: seq<Entry>)
    requires Stride * n <= |data|
    ensures |t| == n
    ensures forall i :: 0 <= i < n ==> t[i] == RecordAt(data, i)
  {
    if n == 0 then []
    else
      var rest := Records(data[Stride..], n - 1);
      assert forall i :: 1 <= i < n ==> RecordAt(data[Stride..], i - 1) == RecordAt(data, i) by {
        forall i | 1 <= i < n {
          RecordAtShift(data, i);
        }
      }
      [RecordAt(data, 0)] + rest
  }

  /** The table the box is meant to carry: `n` records in file order, or
      `TruncatedTable` when fewer than 8 * n bytes are available.  Bytes
      after the n-th record are padding and are not read. */
  function Intended(data: seq<Byte>, n: nat): (r: Result<seq<Entry>>)
    ensures r.Success? <==> Stride * n <= |data|
    ensures r.Failure? ==> r.error == TruncatedTable
    ensures r.Success? ==> |r.value| == n && AllUint32(r.value)
    ensures r.Success? ==> forall i :: 0 <= i < n ==> r.value[i] == RecordAt(data, i)
  {
    if |data| < Stride * n then Failure(TruncatedTable)
    else Success(Records(data, n))
  }

  /** The bytes of a table in the documented layout. */
  function Encode(t: seq<Entry>): (b: seq<Byte>)
    requires AllUint32(t)
    ensures |b| == Stride * |t|
  {
    if |t| == 0 then []
    else Uint32Bytes(t[0].shadowed) + Uint32Bytes(t[0].sync) + Encode(t[1..])
  }

  /** Decoding an encoded table, whatever padding follows it, gives the table back. */
  lemma {:induction false} RecordsOfEncode(t: seq<Entry>, pad: seq<Byte>)
    requires AllUint32(t)
    ensures Records(Encode(t) + pad, |t|) == t
    decreases |t|
  {
    if |t| > 0 {
      var rest := Encode(t[1..]) + pad;
      var b := Encode(t) + pad;
      assert b == Uint32Bytes(t[0].shadowed) + Uint32Bytes(t[0].sync) + rest;
      RecordAtOfEncoded(t[0], rest);
      assert b[Stride..] == rest;
      RecordsOfEncode(t[1..], pad);
      assert Records(b, |t|) == [t[0]] + t[1..];
    }
  }

  /** The first record of encoded bytes is the entry encoded there. */
  lemma RecordAtOfEncoded(e: Entry, rest: seq<Byte>)
    requires IsUint32Entry(e)
    ensures RecordAt(Uint32Bytes(e.shadowed) + Uint32Bytes(e.sync) + rest, 0) == e
  {
    var b := Uint32Bytes(e.shadowed) + Uint32Bytes(e.sync) + rest;
    Uint32OfBytes(e.shadowed);
    Uint32OfBytes(e.sync);
    assert b[..FieldWidth] == Uint32Bytes(e.shadowed);
    assert b[FieldWidth..Stride] == Uint32Bytes(e.sync);
  }

  /** Round trip from tables: `Intended` inverts `Encode`, padding ignored. */
  lemma {:induction false} IntendedOfEncode(t: seq<Entry>, pad: seq<Byte>)
    requires AllUint32(t)
    ensures Intended(Encode(t) + pad, |t|) == Success(t)
  {
    RecordsOfEncode(t, pad);
  }

  /** Re-encoding decoded records reproduces exactly the bytes they were read from. */
  lemma {:induction false} EncodeOfRecords(data: seq<Byte>, n: nat)
    requires Stride * n <= |data|
    ensures Encode(Records(data, n)) == data[..Stride * n]
    decreases n
  {
    if n > 0 {
      var t := Records(data, n);
      assert t == [RecordAt(data, 0)] + Records(data[Stride..], n - 1);
      assert t[1..] == Records(data[Stride..], n - 1);
      EncodeOfRecords(data[Stride..], n - 1);
      BytesOfUint32(data[..FieldWidth]);
      BytesOfUint32(data[FieldWidth..Stride]);
      assert data[..Stride * n]
          == data[..FieldWidth] + data[FieldWidth..Stride] + data[Stride..][..Stride * (n - 1)];
    }
  }

  /** Round trip from bytes: a successful `Intended` decode, re-encoded,
      is the first 8 * n bytes of its input. */
  lemma {:induction false} EncodeOfIntended(data: seq<Byte>, n: nat)
    requires Intended(data, n).Success?
    ensures Encode(Intended(data, n).value) == data[..Stride * n]
  {
    EncodeOfRecords(data, n);
  }

  /** Padding after the last record never changes the intended table. */
  lemma IntendedIgnoresPadding(data: seq<Byte>, pad: seq<Byte>, n: nat)
    requires Stride * n <= |data|
    ensures Intended(data + pad, n) == Intended(data, n)
  {
    var a := Intended(data + pad, n).value;
    var b := Intended(data, n).value;
    forall i | 0 <= i < n
      ensures a[i] == b[i]
    {
      assert (data + pad)[Stride * i..Stride * i + Stride] == data[Stride * i..Stride * i + Stride];
      assert (data + pad)[Stride * i..Stride * i + FieldWidth] == data[Stride * i..Stride * i + FieldWidth];
      assert (data + pad)[Stride * i + FieldWidth..Stride * i + Stride]
          == data[Stride * i + FieldWidth..Stride * i + Stride];
    }
    assert a == b;
  }

  // ---------------------------------------------------------------------
  // The layout the PHP loop actually reads

  /** Offset handed to `substr` for the shadowedSampleNumber of entry `i`;
      entry 0 is the only one given a negative offset. */
  function ShadowedStart(i: nat): (o: int)
    ensures o < 0 <==> i == 0
  {
    (i - 1) * Stride
  }

  /** Offset handed to `substr` for the syncSampleNumber of entry `i`: the
      four bytes right after the shadowed window, negative only for entry 0. */
  function SyncStart(i: nat): (o: int)
    ensures o == ShadowedStart(i) + FieldWidth
    ensures o < 0 <==> i == 0
  {
    i * Stride - FieldWidth
  }

  /** One field: the integer decoder sees a 4-byte window, or the field fails. */
  function Field(w: Option<seq<Byte>>): (v: Option<nat>)
    ensures v.Some? <==> w.Some? && |w.value| == FieldWidth
    ensures v.Some? ==> v.value < Two32
  {
    if w.Some? && |w.value| == FieldWidth then Some(Uint32(w.value)) else None
  }

  /** Entry `i` as the loop body builds it. */
  function LiteralEntry(data: seq<Byte>, i: nat): (r: Option<Entry>)
    ensures r.Some? ==> IsUint32Entry(r.value)
  {
    var a := Field(PhpString.Substr(data, ShadowedStart(i), FieldWidth));
    var b := Field(PhpString.Substr(data, SyncStart(i), FieldWidth));
    if a.Some? && b.Some? then Some(Entry(a.value, b.value)) else None
  }

  /** The table the loop builds for `n` entries, keyed 0 .. n - 1 in order;
      the first entry whose window is not 4 bytes long stops decoding. */
  function Literal(data: seq<Byte>, n: nat): (r: Result<seq<Entry>>)
    ensures r.Success? ==> |r.value| == n
    ensures r.Success? ==> forall i :: 0 <= i < n ==> LiteralEntry(data, i) == Some(r.value[i])
    ensures r.Failure? ==> r.error.ShortField? && r.error.index < n
    ensures r.Failure? ==> LiteralEntry(data, r.error.index).None?
    ensures r.Failure? ==> forall j :: 0 <= j < r.error.index ==> LiteralEntry(data, j).Some?
  {
    if n == 0 then Success([])
    else
      match Literal(data, n - 1)
      case Failure(e) => Failure(e)
      case Success(t) =>
        match LiteralEntry(data, n - 1)
        case None => Failure(ShortField(n - 1))
        case Some(e) => Success(t + [e])
  }

  /** The loop of the constructor, statement by statement. */
  method BuildTable(data: seq<Byte>, entryCount: nat) returns (r: Result<seq<Entry>>)
    ensures r == Literal(data, entryCount)
    ensures r.Success? ==> |r.value| == entryCount
  {
    var table: seq<Entry> := [];
    var i := 0;
    while i < entryCount
      invariant 0 <= i <= entryCount
      invariant Literal(data, i) == Success(table)
    {
      var e := LiteralEntry(data, i);
      if e.None? {
        LiteralStopsAt(data, i, entryCount);
        return Failure(ShortField(i));
      }
      table := table + [e.value];
      i := i + 1;
    }
    return Success(table);
  }

  /** Once entry `i` fails, every longer table fails at entry `i`. */
  lemma {:induction false} LiteralStopsAt(data: seq<Byte>, i: nat, n: nat)
    requires i < n
    requires Literal(data, i).Success? && LiteralEntry(data, i).None?
    ensures Literal(data, n) == Failure(ShortField(i))
    decreases n
  {
    if n == i + 1 {
      assert Literal(data, n) == Failure(ShortField(i));
    } else {
      LiteralStopsAt(data, i, n - 1);
      assert Literal(data, n - 1) == Failure(ShortField(i));
    }
  }

  /** An empty count yields the empty table, whatever bytes follow. */
  lemma LiteralEmpty(data: seq<Byte>)
    ensures Literal(data, 0) == Success([])
  {
  }

  /** The two windows of every entry are adjacent, sync after shadowed,
      whenever entry 0 has the 8 bytes its negative offsets reach back over. */
  lemma WindowsAdjacent(data: seq<Byte>, i: nat)
    requires i >= 1 || Stride <= |data|
    ensures PhpString.StartIndex(|data|, SyncStart(i))
         == PhpString.StartIndex(|data|, ShadowedStart(i)) + FieldWidth
  {
  }

  /** With 4 to 7 bytes, entry 0 still decodes: its shadowed window is
      clamped to the start and overlaps its sync window. */
  lemma EntryZeroOverlaps(data: seq<Byte>)
    requires FieldWidth <= |data| < Stride
    ensures LiteralEntry(data, 0)
         == Some(Entry(Uint32(data[..FieldWidth]), Uint32(data[|data| - FieldWidth..])))
    ensures PhpString.StartIndex(|data|, SyncStart(0))
          < PhpString.StartIndex(|data|, ShadowedStart(0)) + FieldWidth
  {
    PhpString.SubstrClamped(data, Stride, FieldWidth);
    PhpString.SubstrFromEnd(data, FieldWidth, FieldWidth);
  }

  /** Entry `i` decodes exactly when both of its windows are 4 bytes long. */
  lemma LiteralEntryDefined(data: seq<Byte>, i: nat)
    ensures LiteralEntry(data, i).Some?
        <==> (if i == 0 then FieldWidth <= |data| else Stride * i <= |data|)
  {
  }

  /** When the loop succeeds: exactly for an empty count, for one entry with
      at least 4 bytes, and otherwise with at least 8 * (n - 1) bytes -- one
      record fewer than the count declares. */
  lemma {:induction false} LiteralDefinedIff(data: seq<Byte>, n: nat)
    ensures Literal(data, n).Success?
        <==> (n == 0 || (n == 1 && FieldWidth <= |data|) || (n >= 2 && Stride * (n - 1) <= |data|))
  {
    if n >= 2 && Stride * (n - 1) <= |data| {
      forall i | 0 <= i < n
        ensures LiteralEntry(data, i).Some?
      {
        LiteralEntryDefined(data, i);
      }
    } else if n >= 2 {
      LiteralEntryDefined(data, n - 1);
    } else if n == 1 {
      LiteralEntryDefined(data, 0);
    }
  }

  /** Shift: entry i >= 1 of the loop is the record at stride index i - 1. */
  lemma LiteralLagsByOne(data: seq<Byte>, i: nat)
    requires 1 <= i && Stride * i <= |data|
    ensures LiteralEntry(data, i) == Some(RecordAt(data, i - 1))
  {
    PhpString.SubstrInside(data, Stride * (i - 1), FieldWidth);
    PhpString.SubstrInside(data, Stride * i - FieldWidth, FieldWidth);
  }

  /** Wrap-around: entry 0 of the loop decodes the last 8 bytes of the data. */
  lemma LiteralEntryZeroReadsTail(data: seq<Byte>)
    requires Stride <= |data|
    ensures LiteralEntry(data, 0) == Some(RecordAt(data[|data| - Stride..], 0))
  {
    PhpString.SubstrFromEnd(data, Stride, FieldWidth);
    PhpString.SubstrFromEnd(data, FieldWidth, FieldWidth);
    assert data[|data| - Stride..][..FieldWidth] == data[|data| - Stride..|data| - FieldWidth];
    assert data[|data| - Stride..][FieldWidth..Stride] == data[|data| - FieldWidth..];
  }

  /** For data that is exactly the table, the loop's table is the intended
      table rotated right by one: the last record comes first and every
      other record moves one place down. */
  lemma {:induction false} LiteralIsRotation(data: seq<Byte>, n: nat)
    requires n >= 1 && |data| == Stride * n
    ensures Intended(data, n).Success? && Literal(data, n).Success?
    ensures Literal(data, n).value
         == [Intended(data, n).value[n - 1]] + Intended(data, n).value[..n - 1]
  {
    var want := Intended(data, n).value;
    LiteralDefinedIff(data, n);
    var got := Literal(data, n).value;
    forall i | 0 <= i < n
      ensures got[i] == ([want[n - 1]] + want[..n - 1])[i]
    {
      RotatedEntry(data, n, i);
    }
  }

  /** Entry `i` of the loop over exactly n records is record i - 1, or the
      last record for i = 0. */
  lemma RotatedEntry(data: seq<Byte>, n: nat, i: nat)
    requires i < n && |data| == Stride * n
    ensures LiteralEntry(data, i) == Some(RecordAt(data, if i == 0 then n - 1 else i - 1))
  {
    if i == 0 {
      LiteralEntryZeroReadsTail(data);
      assert |data| - Stride == Stride * (n - 1);
      assert data[|data| - Stride..][..Stride] == data[Stride * (n - 1)..Stride * (n - 1) + Stride];
    } else {
      LiteralLagsByOne(data, i);
    }
  }

  /** With exactly one record and no padding the rotation is the identity,
      so the loop and the documented layout agree on a one-entry table. */
  lemma LiteralAgreesOnSingleRecord(data: seq<Byte>)
    requires |data| == Stride
    ensures Literal(data, 1) == Intended(data, 1)
  {
    LiteralIsRotation(data, 1);
    var want := Intended(data, 1).value;
    assert [want[0]] + want[..0] == want;
  }
}
