# Shadow Sync Sample Box table decoder

A Dafny model of the body decoder of the ISO Base Media *Shadow Sync Sample
Box* (`stsh`, section 8.6.3 of ISO/IEC 14496-12) in the PHP Reader library,
class `ISO14496_Box_STSH`. After the FullBox prefix the box holds a uint32
`entry_count` and then `entry_count` pairs of uint32
`shadowed_sample_number` / `sync_sample_number`, all big-endian.

The constructor reads the entry count, slices every byte up to the end of the
box, and builds the table with a loop whose entry `i` reads
`substr($data, ($i - 1) * 8, 4)` and `substr($data, $i * 8 - 4, 4)`.
The model keeps two decoders side by side:

- `ShadowSyncTable.Intended` reads record `i` from bytes `[8i, 8i + 8)`,
  the layout the standard and the class documentation describe. It is the
  inverse of `ShadowSyncTable.Encode`, proved in both directions.
- `ShadowSyncTable.Literal` reads entry `i` exactly as the PHP loop does.
  It goes through a model of PHP `substr` in which a negative start counts
  back from the end of the string (`PhpString.Substr`).

The lemmas relate the two decoders. Entry `i >= 1` of the loop is record
`i - 1`. Entry 0 decodes the last 8 bytes of the slice. So when the slice is
exactly the table, the loop's table is the intended table rotated right by one.

Files:

- `outcomes.dfy`: `Option`, `Result` and the decode errors.
- `big_endian.dfy`: bytes and unsigned 32-bit big-endian decoding. This
  stands in for `Transform::fromUInt32BE`.
- `php_substr.dfy`: PHP `substr` for a non-negative length.
- `shadow_sync_table.dfy`: the entry datatype, both decoders, the encoder and
  the lemmas relating them.
- `stsh_box.dfy`: the constructor's stream reads and the constructor as
  written. It also has a corrected constructor, the accessor, and the lemmas
  that exhibit where the code departs from the documented layout.

The stream is modelled as a byte sequence `source`. The box occupies
`[offset, offset + size)` of it, and `pos` is the stream position right
after the FullBox prefix. All three are given as inputs.

## Model

| member | source | states |
|---|---|---|
| BigEndian.Uint32 | adapters/ffmpeg-php/php-reader/src/ISO14496/Box/STSH.php:99-101 | a 4-byte big-endian field is an unsigned value below 2^32 |
| BigEndian.Uint32OfBytes | adapters/ffmpeg-php/php-reader/src/ISO14496/Box/STSH.php:99-101 | decoding the 4 big-endian bytes of a uint32 gives the value back |
| BigEndian.BytesOfUint32 | adapters/ffmpeg-php/php-reader/src/ISO14496/Box/STSH.php:99-101 | re-encoding a decoded 4-byte field gives the same 4 bytes |
| PhpString.StartIndex | adapters/ffmpeg-php/php-reader/src/ISO14496/Box/STSH.php:99-101 | a negative start never lands past the end, and leaves at most -start characters before the end; it leaves exactly -start of them unless it was clamped to index 0 |
| PhpString.Substr | adapters/ffmpeg-php/php-reader/src/ISO14496/Box/STSH.php:99-101 | substr is false (PHP 5 to 7) exactly when the start is past the end; otherwise it is a contiguous window of at most the length, and it is full length exactly when the window fits |
| PhpString.SubstrInside | adapters/ffmpeg-php/php-reader/src/ISO14496/Box/STSH.php:99 | a window inside the string is exactly that slice |
| PhpString.SubstrFromEnd | adapters/ffmpeg-php/php-reader/src/ISO14496/Box/STSH.php:99-101 | a negative start reads the same window as the start that lies that many bytes before the end |
| PhpString.SubstrClamped | adapters/ffmpeg-php/php-reader/src/ISO14496/Box/STSH.php:99 | a negative start reaching before the beginning reads from index 0 |
| ShadowSyncTable.RecordAt | adapters/ffmpeg-php/php-reader/src/ISO14496/Box/STSH.php:47-52 | the record at a stride index holds two 32-bit sample numbers |
| ShadowSyncTable.Records | adapters/ffmpeg-php/php-reader/src/ISO14496/Box/STSH.php:47-52 | the first n records in order: record i is the pair at bytes [8i, 8i+8) |
| ShadowSyncTable.Intended | adapters/ffmpeg-php/php-reader/src/ISO14496/Box/STSH.php:47-52 | the documented decode succeeds exactly when 8n bytes are present, otherwise it fails with TruncatedTable; on success it has n uint32 entries, entry i read from bytes [8i, 8i+8) |
| ShadowSyncTable.Encode | adapters/ffmpeg-php/php-reader/src/ISO14496/Box/STSH.php:47-52 | the documented layout uses 8 bytes per entry |
| ShadowSyncTable.RecordsOfEncode | adapters/ffmpeg-php/php-reader/src/ISO14496/Box/STSH.php:47-52 | decoding an encoded table, with any padding after it, gives the table back |
| ShadowSyncTable.IntendedOfEncode | adapters/ffmpeg-php/php-reader/src/ISO14496/Box/STSH.php:47-52 | the documented decoder inverts the encoder whatever padding follows |
| ShadowSyncTable.EncodeOfRecords | adapters/ffmpeg-php/php-reader/src/ISO14496/Box/STSH.php:47-52 | re-encoding decoded records gives exactly the first 8n bytes |
| ShadowSyncTable.EncodeOfIntended | adapters/ffmpeg-php/php-reader/src/ISO14496/Box/STSH.php:47-52 | re-encoding a successful documented decode gives exactly the first 8n input bytes |
| ShadowSyncTable.IntendedIgnoresPadding | adapters/ffmpeg-php/php-reader/src/ISO14496/Box/STSH.php:94-96 | bytes after the last record never change the documented table |
| ShadowSyncTable.ShadowedStart | adapters/ffmpeg-php/php-reader/src/ISO14496/Box/STSH.php:99 | the shadowed offset (i-1)*8 is negative for entry 0 only |
| ShadowSyncTable.SyncStart | adapters/ffmpeg-php/php-reader/src/ISO14496/Box/STSH.php:101 | the sync offset i*8-4 is always the shadowed offset plus 4, and is negative for entry 0 only |
| ShadowSyncTable.Field | adapters/ffmpeg-php/php-reader/src/ISO14496/Box/STSH.php:99-101 | a field decodes exactly when substr gave a 4-byte window, and it is then below 2^32 |
| ShadowSyncTable.LiteralEntry | adapters/ffmpeg-php/php-reader/src/ISO14496/Box/STSH.php:97-101 | an entry the loop builds holds two uint32 sample numbers |
| ShadowSyncTable.Literal | adapters/ffmpeg-php/php-reader/src/ISO14496/Box/STSH.php:96-101 | on success the table has exactly n entries keyed 0..n-1 in order, entry i being what the loop body builds for i; a failure names an entry that did not decode, and every entry before it did decode |
| ShadowSyncTable.LiteralStopsAt | adapters/ffmpeg-php/php-reader/src/ISO14496/Box/STSH.php:96-101 | once entry i fails to decode, the table for any larger count fails at that same entry i |
| ShadowSyncTable.BuildTable | adapters/ffmpeg-php/php-reader/src/ISO14496/Box/STSH.php:96-101 | the statement-by-statement loop computes the table that Literal describes and has entryCount entries |
| ShadowSyncTable.LiteralEmpty | adapters/ffmpeg-php/php-reader/src/ISO14496/Box/STSH.php:96 | a zero count gives the empty table whatever bytes follow |
| ShadowSyncTable.WindowsAdjacent | adapters/ffmpeg-php/php-reader/src/ISO14496/Box/STSH.php:99-101 | the sync window starts exactly 4 bytes after the shadowed window, for every entry i >= 1, and for entry 0 once the slice has 8 bytes |
| ShadowSyncTable.EntryZeroOverlaps | adapters/ffmpeg-php/php-reader/src/ISO14496/Box/STSH.php:99-101 | with 4 to 7 bytes, entry 0 still decodes, but its shadowed window clamps to the start and overlaps its sync window |
| ShadowSyncTable.LiteralEntryDefined | adapters/ffmpeg-php/php-reader/src/ISO14496/Box/STSH.php:99-101 | entry 0 decodes exactly when the slice has at least 4 bytes; entry i >= 1 decodes exactly when it has at least 8i bytes |
| ShadowSyncTable.LiteralDefinedIff | adapters/ffmpeg-php/php-reader/src/ISO14496/Box/STSH.php:96-101 | the loop succeeds exactly when n = 0, or n = 1 with at least 4 bytes, or n >= 2 with at least 8(n-1) bytes |
| ShadowSyncTable.LiteralLagsByOne | adapters/ffmpeg-php/php-reader/src/ISO14496/Box/STSH.php:99-101 | entry i >= 1 of the loop is the record stored at stride index i-1 |
| ShadowSyncTable.LiteralEntryZeroReadsTail | adapters/ffmpeg-php/php-reader/src/ISO14496/Box/STSH.php:99-101 | entry 0 of the loop decodes the last 8 bytes of the slice |
| ShadowSyncTable.LiteralIsRotation | adapters/ffmpeg-php/php-reader/src/ISO14496/Box/STSH.php:96-101 | when the slice is exactly 8n bytes, the loop's table is the documented table rotated right by one |
| ShadowSyncTable.RotatedEntry | adapters/ffmpeg-php/php-reader/src/ISO14496/Box/STSH.php:99-101 | over exactly n records, entry i of the loop is record i-1, and entry 0 is record n-1 |
| ShadowSyncTable.LiteralAgreesOnSingleRecord | adapters/ffmpeg-php/php-reader/src/ISO14496/Box/STSH.php:96-101 | for a single record with no padding, the loop and the documented layout agree |
| StshBox.ReadBody | adapters/ffmpeg-php/php-reader/src/ISO14496/Box/STSH.php:93-95 | the count is a uint32; the slice runs from just after the count to the box end, so its length is offset + size - position - 4; count bytes plus slice are exactly the rest of the box; reading past the box or the source fails |
| StshBox.ReadBodyOfLayout | adapters/ffmpeg-php/php-reader/src/ISO14496/Box/STSH.php:93-95 | a box whose header and FullBox prefix (any length) precede a count field and a body, with any bytes before and after the box, reads back as exactly that count and that body |
| StshBox.Construct | adapters/ffmpeg-php/php-reader/src/ISO14496/Box/STSH.php:89-102 | the constructor succeeds exactly when the count and slice reads stay inside the box and the source and the loop decodes every entry; a failed read is OutOfBounds and a failed entry is ShortField; on success the box keeps its offset and size, and its table is the loop's table, with exactly entryCount uint32 entries |
| StshBox.ConstructSucceedsIff | adapters/ffmpeg-php/php-reader/src/ISO14496/Box/STSH.php:93-101 | in terms of the box bytes alone, the constructor succeeds exactly when the count field fits in the box and the L bytes after it number at least 4 for a count of 1, or at least 8(count-1) for a larger count (any L for a count of 0) |
| StshBox.ConstructIsRotation | adapters/ffmpeg-php/php-reader/src/ISO14496/Box/STSH.php:93-101 | when the box holds exactly count records, the constructor's table is the corrected constructor's table rotated right by one |
| StshBox.ConstructCorrected | adapters/ffmpeg-php/php-reader/src/ISO14496/Box/STSH.php:93-101 | the corrected constructor succeeds exactly when the count field fits and 8 * entryCount bytes follow it; a failed read is OutOfBounds and a short table is TruncatedTable; on success its table is the documented decode of the slice, with entryCount entries |
| StshBox.ShadowSyncSampleTable | adapters/ffmpeg-php/php-reader/src/ISO14496/Box/STSH.php:113-116 | getShadowSyncSampleTable returns the box's table as stored (its contract is stated by AccessorReturnsLoopTable) |
| StshBox.AccessorReturnsLoopTable | adapters/ffmpeg-php/php-reader/src/ISO14496/Box/STSH.php:113-116 | getShadowSyncSampleTable returns, unchanged, the table the loop built from the box slice |
| StshBox.ZeroCountEmptyTable | adapters/ffmpeg-php/php-reader/src/ISO14496/Box/STSH.php:93-96 | a zero count yields an empty table under both constructors |
| StshBox.CorrectedRoundTrip | adapters/ffmpeg-php/php-reader/src/ISO14496/Box/STSH.php:93-101 | a box with a consumed header and FullBox prefix of any length, then a count, that many records and any padding, with any bytes before and after the box, decodes with the corrected constructor to those records |
| StshBox.LiteralSwapsTwoRecords | adapters/ffmpeg-php/php-reader/src/ISO14496/Box/STSH.php:96-101 | the records (1,10),(3,11) are decoded as (3,11),(1,10) by the loop and correctly by the documented layout |
| StshBox.LiteralAcceptsTruncatedTable | adapters/ffmpeg-php/php-reader/src/ISO14496/Box/STSH.php:96-101 | a count of 3 over 16 bytes is TruncatedTable in the documented layout, but the loop returns three entries |
| StshBox.LiteralReadsPaddingForOneEntry | adapters/ffmpeg-php/php-reader/src/ISO14496/Box/STSH.php:94-101 | for one entry followed by 8 or more padding bytes, the loop returns the last 8 padding bytes instead of the record |

## Findings

| source | as written | input that shows it | evidently intended | confidence | as-written member | corrected member |
|---|---|---|---|---|---|---|
| adapters/ffmpeg-php/php-reader/src/ISO14496/Box/STSH.php:99-101 | entry i reads offsets (i-1)*8 and i*8-4, so entry i >= 1 gets record i-1 and entry 0 gets the last 8 bytes | count 2, records (1,10) and (3,11): table (3,11),(1,10) | entry i reads bytes [8i, 8i+8) | high; not executed | StshBox.LiteralSwapsTwoRecords | ShadowSyncTable.IntendedOfEncode |
| adapters/ffmpeg-php/php-reader/src/ISO14496/Box/STSH.php:94-101 | entry 0 decodes the last 8 bytes of the slice, which include any padding after the records | one entry (5,10) followed by 8 padding bytes: entry 0 is the padding | padding after the records is ignored | high; not executed | StshBox.LiteralReadsPaddingForOneEntry | ShadowSyncTable.IntendedIgnoresPadding |
| adapters/ffmpeg-php/php-reader/src/ISO14496/Box/STSH.php:96-101 | no check that 8 * entryCount bytes follow the count: entries i >= 1 reach only stride index count-2, and entry 0 reads whatever the last 8 bytes of the slice are, so the last record never has to exist | count 3 with 16 bytes of records: three entries are returned | the count promises that many 8-byte records (section 8.6.3 of ISO/IEC 14496-12), so a shorter table is reported as truncated | high; not executed | StshBox.LiteralAcceptsTruncatedTable | StshBox.ConstructCorrected |

`StshBox.Construct` models the code as written. `StshBox.ConstructCorrected`
uses the documented layout. It is the decoder the round trip
`StshBox.CorrectedRoundTrip` is proved for. `StshBox.ConstructIsRotation`
states the first finding at the level of whole boxes.

## Left out

- The `Reader` stream object (`readUInt32BE`, `read`, `getOffset`) is
  not part of this model. The stream is a byte sequence with explicit
  offsets. A read past the source end, or past the box end, is the error
  `OutOfBounds`, since what the Reader does there is not shown. This includes
  a count field that crosses the box end, which would hand `read` a negative
  length.
- `ISO14496_Box_Full` and the generic box header parsing are not part of this
  model. The box offset, size and the post-prefix position are inputs, with
  `pos <= offset + size` required. Version and flags are not kept.
- `Transform::fromUInt32BE` is not part of this model. It is replaced by the
  standard 4-byte big-endian decoding `BigEndian.Uint32`. A `substr` window
  of any length other than 4 is the error `ShortField`, because the unseen
  function's behaviour on such input is unknown.
- PhpString.Substr: negative lengths are not modelled, because the decoder
  only passes 4. The `false` result is PHP 5 to 7 behaviour. PHP 8 returns the
  empty string for a start past the end, and PHP 5 also returns `false` for a
  start exactly at the end. Decoded results are the same under all of these,
  since every window other than 4 bytes is a `ShortField` failure.
- The `$options` constructor parameter is not modelled. It is only passed on
  to the parent constructor.
- The table is a sequence of `Entry` values instead of a PHP associative
  array. Sequence position is the array key.
- The seeking and playback semantics in the class documentation (lines 54-69)
  are not modelled. They are descriptive and have no code.
- The box registry, the container traversal and the other box types are not
  part of this model.
