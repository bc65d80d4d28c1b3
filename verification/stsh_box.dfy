/** The Shadow Sync Sample Box as its constructor reads it from a stream:
    the FullBox prefix has already been consumed, the stream stands at
    `pos`, and the box spans [offset, offset + size) of `source`. */
module StshBox {
  import opened Outcomes
  import opened BigEndian
  import opened ShadowSyncTable

  /** What the constructor reads after the FullBox prefix: the entry count
      and every remaining byte of the box. */
  datatype Body = Body(entryCount: nat, data: seq<Byte>)

  /** A decoded box: where it lies in the stream and its table. */
  datatype Box = Box(offset: nat, size: nat, table: seq<Entry>)

  /** Reads the 32-bit entry count at `pos`, then the bytes from just after
      it up to the end of the box.  A read that would pass the box end or the
      end of the source fails with `OutOfBounds`. */
  function ReadBody(source: seq<Byte>, offset: nat, size: nat, pos: nat): (r: Result<Body>)
    requires pos <= offset + size
    ensures r.Success? <==> pos + FieldWidth <= offset + size <= |source|
    ensures r.Failure? ==> r.error == OutOfBounds
    ensures r.Success? ==> r.value.entryCount < Two32
    ensures r.Success? ==> |r.value.data| == offset + size - pos - FieldWidth
    ensures r.Success? ==>
      Uint32Bytes(r.value.entryCount) + r.value.data == source[pos..offset + size]
  {
    if offset + size < pos + FieldWidth || |source| < offset + size then Failure(OutOfBounds)
    else
      var count := source[pos..pos + FieldWidth];
      BytesOfUint32(count);
      assert source[pos..offset + size] == count + source[pos + FieldWidth..offset + size];
      Success(Body(Uint32(count), source[pos + FieldWidth..offset + size]))
  }

  /** The constructor as written: the table is built by the PHP loop.  It
      fails only where a stream read leaves the box or the source, or where
      an entry's window is not 4 bytes long. */
  function Construct(source: seq<Byte>, offset: nat, size: nat, pos: nat): (r: Result<Box>)
    requires pos <= offset + size
    ensures r.Success? <==>
      (ReadBody(source, offset, size, pos).Success?
       && Literal(ReadBody(source, offset, size, pos).value.data,
                  ReadBody(source, offset, size, pos).value.entryCount).Success?)
    ensures r.Failure? && ReadBody(source, offset, size, pos).Failure? ==> r.error == OutOfBounds
    ensures r.Failure? && ReadBody(source, offset, size, pos).Success? ==> r.error.ShortField?
    ensures r.Success? ==> r.value.offset == offset && r.value.size == size
    ensures r.Success? ==>
      (r.value.table
         == Literal(ReadBody(source, offset, size, pos).value.data,
                    ReadBody(source, offset, size, pos).value.entryCount).value)
    ensures r.Success? ==> |r.value.table| == ReadBody(source, offset, size, pos).value.entryCount
    ensures r.Success? ==> AllUint32(r.value.table)
  {
    var body :- ReadBody(source, offset, size, pos);
    var table :- Literal(body.data, body.entryCount);
    Success(Box(offset, size, table))
  }

  /** The constructor with the documented record layout. */
  function ConstructCorrected(source: seq<Byte>, offset: nat, size: nat, pos: nat): (r: Result<Box>)
    requires pos <= offset + size
    ensures r.Success? <==>
      (pos + FieldWidth <= offset + size <= |source|
       && Stride * ReadBody(source, offset, size, pos).value.entryCount <= offset + size - pos - FieldWidth)
    ensures r.Success? ==> r.value.offset == offset && r.value.size == size
    ensures r.Failure? && ReadBody(source, offset, size, pos).Failure? ==> r.error == OutOfBounds
    ensures r.Failure? && ReadBody(source, offset, size, pos).Success? ==> r.error == TruncatedTable
    ensures r.Success? ==>
      (r.value.table
         == Intended(ReadBody(source, offset, size, pos).value.data,
                     ReadBody(source, offset, size, pos).value.entryCount).value)
    ensures r.Success? ==> |r.value.table| == ReadBody(source, offset, size, pos).value.entryCount
  {
    var body :- ReadBody(source, offset, size, pos);
    var table :- Intended(body.data, body.entryCount);
    Success(Box(offset, size, table))
  }

  /** `getShadowSyncSampleTable`: the table exactly as construction left it. */
  function ShadowSyncSampleTable(box: Box): seq<Entry> {
    box.table
  }

  /** The accessor hands back the table the constructor's loop built from
      the box body, unchanged. */
  lemma AccessorReturnsLoopTable(source: seq<Byte>, offset: nat, size: nat, pos: nat)
    requires pos <= offset + size
    requires Construct(source, offset, size, pos).Success?
    ensures var body := ReadBody(source, offset, size, pos).value;
            Literal(body.data, body.entryCount).Success?
            && ShadowSyncSampleTable(Construct(source, offset, size, pos).value)
               == Literal(body.data, body.entryCount).value
  {
  }

  /** A zero count gives an empty table, whatever else the box holds. */
  lemma ZeroCountEmptyTable(source: seq<Byte>, offset: nat, size: nat, pos: nat)
    requires pos + FieldWidth <= offset + size <= |source|
    requires source[pos..pos + FieldWidth] == [0, 0, 0, 0]
    ensures Construct(source, offset, size, pos) == Success(Box(offset, size, []))
    ensures ConstructCorrected(source, offset, size, pos) == Success(Box(offset, size, []))
  {
  }

  /** Round trip for the corrected constructor: a box whose last `hdr` bytes
      before the count (box header and FullBox prefix) are already consumed,
      holding the count of a table, its records and any padding, with any
      bytes after the box, decodes to that table. */
  lemma {:induction false} CorrectedRoundTrip(t: seq<Entry>, pad: seq<Byte>, before: seq<Byte>, after: seq<Byte>, hdr: nat)
    requires AllUint32(t) && |t| < Two32
    requires hdr <= |before|
    ensures var size := hdr + FieldWidth + Stride * |t| + |pad|;
            ConstructCorrected(before + Uint32Bytes(|t|) + Encode(t) + pad + after, |before| - hdr, size, |before|)
              == Success(Box(|before| - hdr, size, t))
  {
    var source := before + Uint32Bytes(|t|) + Encode(t) + pad + after;
    assert source == before + Uint32Bytes(|t|) + (Encode(t) + pad) + after;
    ReadBodyOfLayout(before, |t|, Encode(t) + pad, after, hdr);
    IntendedOfEncode(t, pad);
  }

  /** A box starting `hdr` bytes before its count field, laid out as header,
      count and body, with any bytes before and after it, reads back as that
      count and exactly that body. */
  lemma ReadBodyOfLayout(before: seq<Byte>, count: nat, rest: seq<Byte>, after: seq<Byte>, hdr: nat)
    requires count < Two32
    requires hdr <= |before|
    ensures ReadBody(before + Uint32Bytes(count) + rest + after,
                     |before| - hdr, hdr + FieldWidth + |rest|, |before|)
         == Success(Body(count, rest))
  {
    var source := before + Uint32Bytes(count) + rest + after;
    Uint32OfBytes(count);
    assert source[|before|..|before| + FieldWidth] == Uint32Bytes(count);
    assert source[|before| + FieldWidth..|before| + FieldWidth + |rest|] == rest;
  }

  /** When the as-written constructor succeeds, in terms of the box alone:
      the count field fits in the box, and the remaining L bytes hold at
      least 4 bytes for a count of 1, or 8 * (count - 1) for a larger count. */
  lemma ConstructSucceedsIff(source: seq<Byte>, offset: nat, size: nat, pos: nat)
    requires pos <= offset + size
    ensures Construct(source, offset, size, pos).Success?
        <==> (pos + FieldWidth <= offset + size <= |source|
              && var count := Uint32(source[pos..pos + FieldWidth]);
                 var len := offset + size - pos - FieldWidth;
                 (count == 0 || (count == 1 && FieldWidth <= len) || (count >= 2 && Stride * (count - 1) <= len)))
  {
    var rb := ReadBody(source, offset, size, pos);
    if rb.Success? {
      assert rb.value.entryCount == Uint32(source[pos..pos + FieldWidth]);
      LiteralDefinedIff(rb.value.data, rb.value.entryCount);
    }
  }

  /** When the box holds exactly its records, the as-written constructor
      returns the corrected constructor's table rotated right by one. */
  lemma ConstructIsRotation(source: seq<Byte>, offset: nat, size: nat, pos: nat)
    requires pos + FieldWidth <= offset + size <= |source|
    requires Uint32(source[pos..pos + FieldWidth]) >= 1
    requires offset + size - pos - FieldWidth == Stride * Uint32(source[pos..pos + FieldWidth])
    ensures Construct(source, offset, size, pos).Success?
    ensures ConstructCorrected(source, offset, size, pos).Success?
    ensures var n := Uint32(source[pos..pos + FieldWidth]);
            var fixed := ConstructCorrected(source, offset, size, pos).value.table;
            Construct(source, offset, size, pos).value.table == [fixed[n - 1]] + fixed[..n - 1]
  {
    var body := ReadBody(source, offset, size, pos).value;
    assert body.entryCount == Uint32(source[pos..pos + FieldWidth]);
    LiteralIsRotation(body.data, body.entryCount);
  }

  // ---------------------------------------------------------------------
  // How the loop as written departs from the documented layout

  /** The two-entry table (1, 10), (3, 11) in the documented layout. */
  function TwoRecords(): (b: seq<Byte>)
    ensures |b| == 2 * Stride
  {
    Encode([Entry(1, 10), Entry(3, 11)])
  }

  /** The loop returns the two records of a two-entry table swapped. */
  lemma LiteralSwapsTwoRecords()
    ensures Intended(TwoRecords(), 2) == Success([Entry(1, 10), Entry(3, 11)])
    ensures Literal(TwoRecords(), 2) == Success([Entry(3, 11), Entry(1, 10)])
  {
    var t := [Entry(1, 10), Entry(3, 11)];
    IntendedOfEncode(t, []);
    assert Encode(t) + [] == TwoRecords();
    LiteralIsRotation(TwoRecords(), 2);
    var want := Intended(TwoRecords(), 2).value;
    assert want == t;
    assert [want[1]] + want[..1] == [Entry(3, 11), Entry(1, 10)];
  }

  /** A count of 3 with only 16 bytes of records: the documented layout
      reports a truncated table, the loop as written accepts it. */
  lemma LiteralAcceptsTruncatedTable(data: seq<Byte>)
    requires |data| == 2 * Stride
    ensures Intended(data, 3) == Failure(TruncatedTable)
    ensures Literal(data, 3).Success? && |Literal(data, 3).value| == 3
  {
    LiteralDefinedIff(data, 3);
  }

  /** One entry followed by padding: the loop reads the last 8 bytes of the
      padding instead of the record. */
  lemma {:induction false} LiteralReadsPaddingForOneEntry(e: Entry, pad: seq<Byte>)
    requires IsUint32Entry(e) && Stride <= |pad|
    ensures Intended(Encode([e]) + pad, 1) == Success([e])
    ensures Literal(Encode([e]) + pad, 1) == Success([RecordAt(pad[|pad| - Stride..], 0)])
  {
    var b := Encode([e]);
    var data := b + pad;
    IntendedOfEncode([e], pad);
    LiteralDefinedIff(data, 1);
    LiteralEntryZeroReadsTail(data);
    assert |b| == Stride;
    assert data[|data| - Stride..] == pad[|pad| - Stride..];
    var got := Literal(data, 1).value;
    assert got[0] == RecordAt(pad[|pad| - Stride..], 0);
    assert got == [RecordAt(pad[|pad| - Stride..], 0)];
  }
}
