# picoquantio core, modelled in Dafny

picoquantio reads the time-tagged photon data that PicoQuant instruments write.
This project models the four parts of the package that hold its decoding logic: identification
and dispatch, overflow correction, the unified header reader and the HydraHarp T2 loaders.

- **Identification and dispatch** (`__init__.py`). A file is recognised by its leading
  magic bytes: the unified formats (`PQTTTR`, `PQHIST`) by their first six bytes, and the
  legacy formats (`PicoHarp 300`, `TimeHarp 200`, `HydraHarp`) by their whole 16-byte
  ident. The resulting identity then selects a loader.
- **Overflow correction** (`__init__.py`). This is shared by the record decoders. Records on
  the overflow channel mark a wrap of the hardware counter. A running total of those marks,
  times the overflow period, is added to every timestamp in place, in numpy `uint64`.
- **The unified header reader** (`unified.py`). It reads the 16-byte magic block, then a
  stream of 48-byte tags (ident, index, type code, inline value), with a payload after the
  variable-length types. It stops after the `Header_End` tag. The tag list is then folded
  into a dictionary: a tag with a negative index is a scalar, and tags with indices
  0, 1, 2, … form a list.
- **The HydraHarp T2 record loaders** (`hydraharp.py`). Each record is a 32-bit word split
  into a 25-bit time, a 6-bit channel and a special bit. The times are then corrected for
  overflow. A (version, mode) table picks the loader, and the two T3 loaders raise
  `NotImplementedError`.

Modules:

- `Bytes` (bytes.dfy): little-endian integers and NUL stripping.
- `Common` (common.dfy): `Result` and one `Error` constructor per raise site.
- `PicoQuant` (picoquant.dfy): identification, loader dispatch and the overflow correction.
- `Unified` (unified.dfy): the magic block, tags, the tag list and the tag dictionary.
- `HydraHarp` (hydraharp.dfy): the record words, the T2 loaders and the loader table.

The parts of the source that change state in place are imperative Dafny, proved against a
specification function:

- `CorrectOverflow` works on arrays, with its three numpy steps as three loops.
- `ReadTagsToList` and `TagListToDict` are the source's loops. `TagsLoop` and `TagsWith` take
  the per-tag reader as a parameter; `ReadTagsToList` and `ReadTagsFrom` instantiate them
  with `ReadTag`.
- The T2 loaders fill arrays and correct them in place.

Python semantics that matter are written out:

- `rstrip(b"\x00")`;
- slicing that clips its bounds;
- `read(n)` for a count n ≥ 0, which returns short data at the end of the stream (every branch that reads rejects a negative count first);
- `struct.calcsize` rejecting a negative repeat count;
- two's-complement `<i`/`<q` fields;
- uint64 wrap-around.

The code's `except EOFError` handler (unified.py:130) suggests truncated input was meant to
fail; the code does not make it fail, and the model follows the code:

- A string payload cut short by the end of the stream is returned partially
  (`Unified.TruncatedStringIsPartial`). An array payload cut short is returned partially
  only in the corrected reading: as written, every array tag fails first (see "## Findings").
- A short tag header is a `struct.error` (`ShortRead`), not an `EOFError`: the `except
  EOFError` around the loop never fires.

## Model

| member | source | states |
|---|---|---|
| Bytes.RStripNul | src/picoquantio/unified.py:55 | `rstrip(b"\x00")` gives a prefix of its input with no trailing NUL, and every dropped byte is NUL |
| Bytes.RStripPadded | src/picoquantio/unified.py:55 | stripping a NUL-padded field gives back the unpadded text when that text has no trailing NUL |
| Bytes.LeUnsignedOfLeBytes | src/picoquantio/unified.py:15 | reading back the k little-endian bytes of any n < 256^k gives n |
| Bytes.LeSignedOfTwosComplement | src/picoquantio/unified.py:15 | a signed field written in two's complement reads back as the same integer, for every value in range |
| PicoQuant.IdentifyByHeader | src/picoquantio/__init__.py:47-74 | identification fails (UnrecognizedFormat) exactly when the first six bytes are neither PQHIST nor PQTTTR and the NUL-stripped 16-byte ident is none of the three legacy idents |
| PicoQuant.IdentifyUnified | src/picoquantio/__init__.py:63-65 | a unified file with a NUL-padded ident and version in its 16 magic bytes is identified as exactly that ident and version |
| PicoQuant.IdentifyLegacy | src/picoquantio/__init__.py:66-68 | a legacy file with a padded 16-byte hardware ident and a padded 6-byte version after it is identified as that pair |
| PicoQuant.GetLoader | src/picoquantio/__init__.py:90-109 | a returned loader is the one registered for the identity's hardware string; PQHIST fails with NotImplemented, and every other unknown ident fails with NoLoader |
| PicoQuant.GetLoaderComplete | src/picoquantio/__init__.py:97-107 | each of the four loaders is selected by its own identity, whatever the version |
| PicoQuant.IdentifiedAsPtu | src/picoquantio/__init__.py:62-98 | identification followed by dispatch picks the unified loader exactly when the first eight bytes are PQTTTR followed only by NULs |
| PicoQuant.MarkOverflows | src/picoquantio/__init__.py:126-131 | the fresh work array holds 1 (or, with nsync, the record's own timestamp) at records on the overflow channel and 0 elsewhere |
| PicoQuant.CumulativeSumInPlace | src/picoquantio/__init__.py:132 | each element becomes the inclusive running total of the old array, modulo 2^64 |
| PicoQuant.CorrectOverflow | src/picoquantio/__init__.py:112-133 | only the timestamp array changes, and each timestamp becomes its raw value plus the overflow value times the overflow periods elapsed as of that record, modulo 2^64 |
| PicoQuant.WrappedAddScaled | src/picoquantio/__init__.py:133 | adding the scaled running total in uint64 agrees, modulo 2^64, with adding the exact scaled total |
| PicoQuant.CorrectedWithoutWrap | src/picoquantio/__init__.py:126-133 | where the absolute time fits in 64 bits, the corrected timestamp equals raw time plus overflow value times the elapsed overflow total |
| PicoQuant.OffsetNonDecreasing | src/picoquantio/__init__.py:132-133 | the amount added to a record never decreases along the stream |
| PicoQuant.ElapsedStep | src/picoquantio/__init__.py:132 | the running total is inclusive: a record's total is its predecessor's plus its own mark |
| PicoQuant.MarksCountOverflows | src/picoquantio/__init__.py:130-132 | without nsync, the marks up to a record sum to the number of overflow-channel records so far |
| PicoQuant.MarksSumOverflowCounts | src/picoquantio/__init__.py:128-132 | with nsync, the marks sum to the counts carried by the overflow records themselves, taken before correction |
| PicoQuant.UnchangedBeforeFirstOverflow | src/picoquantio/__init__.py:126-133 | records before the first overflow record keep their raw timestamp |
| PicoQuant.PhotonTimesNonDecreasing | src/picoquantio/__init__.py:126-133 | when photon raw times are below the overflow period and photons within one period arrive in order, the absolute times of photon records never decrease |
| PicoQuant.Slice | src/picoquantio/__init__.py:62-68 | Python slicing never fails: it gives s[lo:hi] when the bounds fit and is clipped to the sequence otherwise |
| Unified.ReadMagic | src/picoquantio/unified.py:46-56 | fails (ShortRead) exactly when fewer than 16 bytes are available, and otherwise consumes exactly 16 |
| Unified.ReadMagicPadded | src/picoquantio/unified.py:46-56 | a magic block made of two NUL-padded 8-byte fields reads back as those two fields |
| Unified.KindOfCode | src/picoquantio/unified.py:18-30 | a recognised type code is the code of the kind it is recognised as |
| Unified.KindOfCodeInverse | src/picoquantio/unified.py:18-30 | every tag kind's code is recognised as that kind, so the eleven codes are distinct |
| Unified.UnknownCode | src/picoquantio/unified.py:87-123 | a code falls to the unknown-type branch exactly when it is the code of no tag kind |
| Unified.DecodeTagHeader | src/picoquantio/unified.py:83-86 | the decoded ident has no trailing NUL and at most 32 bytes; the index is a signed and the code an unsigned 32-bit value; the inline value has 8 bytes |
| Unified.TagHeaderRoundTrip | src/picoquantio/unified.py:83-86 | decoding the 48 bytes written for any representable header gives that header back |
| Unified.ReadPayload | src/picoquantio/unified.py:87-123 | never consumes more than is left; fixed-size kinds always succeed and consume nothing; a length-carrying kind fails (NegativeLength) exactly on a negative length, and otherwise consumes the announced bytes (8 per double for Float8Array), or all that is left if fewer, and builds its value from exactly those bytes |
| Unified.PaddedString | src/picoquantio/unified.py:104-117 | an Ansi or wide string stored as its text plus NUL padding, with the padded length inline, reads back as the text and consumes the padding |
| Unified.Read | src/picoquantio/unified.py:103-119 | `read(n)` returns the first n bytes of what is left, or all of it when fewer remain |
| Unified.ReadPayloadAsWritten | src/picoquantio/unified.py:87-123 | the dispatch as written agrees with the intended one on every kind except Float8Array and BinaryBlob |
| Unified.ArrayKindsAsWritten | src/picoquantio/unified.py:102-119 | as written, every Float8Array and BinaryBlob tag fails, although the intended reading accepts each of them with a non-negative count |
| Unified.EmptyFloatArrayAsWritten | src/picoquantio/unified.py:102-103 | an empty Float8Array is rejected as written and read as an empty array as intended |
| Unified.Bool8Value | src/picoquantio/unified.py:89-90 | a Bool8 tag is true exactly when some inline byte is non-zero |
| Unified.TruncatedStringIsPartial | src/picoquantio/unified.py:104-117 | a string payload longer than the remaining stream is not an error: the remaining bytes are consumed and returned, NUL-stripped |
| Unified.ReadTag | src/picoquantio/unified.py:83-125 | one tag occupies at least its 48-byte header and no more than is available; fewer than 48 bytes is ShortRead |
| Unified.ReadTagHeaderFields | src/picoquantio/unified.py:83-125 | a tag read carries the ident, index and type code of its header |
| Unified.ReadTagUnknownType | src/picoquantio/unified.py:120-123 | a header whose code is in no table entry gives the unknown-tag-type error with that code |
| Unified.PayloadRoundTrip | src/picoquantio/unified.py:87-123 | for every kind, a value written with its inline bytes and payload reads back as that value and consumes the whole payload, whatever follows |
| Unified.ReadTagRoundTrip | src/picoquantio/unified.py:83-125 | any encodable tag reads back as itself, consuming exactly its encoding, whatever follows |
| Unified.TagsWithShape | src/picoquantio/unified.py:81-128 | with any reader, a successful tag list is non-empty, ends with the only Header_End tag, and stays within the data |
| Unified.ReadTagsFromShape | src/picoquantio/unified.py:81-128 | the list read_tags_to_list returns is non-empty, ends with the only Header_End tag, and stays within the data |
| Unified.TagsWithNext | src/picoquantio/unified.py:124-128 | reading on past a tag that is not Header_End is that tag followed by what is read from just after it |
| Unified.TagsLoop | src/picoquantio/unified.py:72-135 | the cursor loop returns the tags up to Header_End and the position after them, or the first error, for any reader that consumes bytes |
| Unified.ReadTagsToList | src/picoquantio/unified.py:72-135 | read_tags_to_list returns the tag list read from the bytes at the cursor and the position after it, or the first error |
| Unified.TagsWithRoundTrip | src/picoquantio/unified.py:81-128 | with any reader that decodes each chunk to its tag, reading the chunks laid end to end gives back every tag in order and stops after Header_End |
| Unified.ReadTagsRoundTrip | src/picoquantio/unified.py:72-135 | reading an encoded header gives back every tag in order, stops after Header_End, and leaves the records that follow unread |
| Unified.Insert | src/picoquantio/unified.py:146-166 | filing one tag adds its ident and changes no other entry; a negative or zero index succeeds exactly when the ident is new (as a scalar, or as a one-element list); index k > 0 succeeds exactly when the ident already holds a list of k values, and appends to it |
| Unified.InsertStep | src/picoquantio/unified.py:146-166 | filing a tag keeps the dictionary describing the tags so far exactly when its ident's tags stay well numbered |
| Unified.AssembleSpec | src/picoquantio/unified.py:138-168 | the dictionary is built exactly when every ident's tags are one negative-index tag or are numbered 0, 1, 2, … in order; it then maps each ident of the list, and nothing else, to its scalar or its list of values |
| Unified.FirstErrorWins | src/picoquantio/unified.py:146-166 | once a prefix of the tags fails, the whole list fails with that same error |
| Unified.TagListToDict | src/picoquantio/unified.py:138-168 | the loop succeeds exactly when every ident is well numbered, and its result describes the tag list |
| Unified.GroupContents | src/picoquantio/unified.py:159-162 | a list entry has one value per tag of its ident, and element i is the value of the tag with index i |
| HydraHarp.Words | src/picoquantio/hydraharp.py:24-31 | the stream gives one word per whole 4-byte group, each below 2^32 |
| HydraHarp.WordsRoundTrip | src/picoquantio/hydraharp.py:24-31 | words written little-endian, followed by fewer than four spare bytes, read back as the same words |
| HydraHarp.TimeField | src/picoquantio/hydraharp.py:68-70 | the time field is below 2^25 |
| HydraHarp.ChannelField | src/picoquantio/hydraharp.py:71-73 | the channel field is below 64 |
| HydraHarp.FieldsOfPackWord | src/picoquantio/hydraharp.py:68-74 | the time, channel and special fields read back what was packed into the word |
| HydraHarp.PackWordOfFields | src/picoquantio/hydraharp.py:68-74 | every 32-bit word is the packing of its three fields, so the split loses no bit |
| HydraHarp.RawTimes | src/picoquantio/hydraharp.py:35-40 | one time per word, below 2^24 when halved (v1.0) and below 2^25 otherwise |
| HydraHarp.T2Of | src/picoquantio/hydraharp.py:56-83 | the three output arrays have one element per whole word |
| HydraHarp.LoadT2 | src/picoquantio/hydraharp.py:21-83 | the shared loader body: the spare-bytes flag is set exactly when the length is not a multiple of 4, and the arrays built and corrected in place equal the T2 records of the stream |
| HydraHarp.LoadV10T2 | src/picoquantio/hydraharp.py:21-53 | returns the v1.0 records (halved times, half the overflow period, one period per overflow record) and flags spare bytes exactly when the length is not a multiple of 4 |
| HydraHarp.LoadV20T2 | src/picoquantio/hydraharp.py:56-83 | returns the v2.0 records (full overflow period, with each overflow record counting its periods) and flags spare bytes exactly when the length is not a multiple of 4 |
| HydraHarp.T2Fields | src/picoquantio/hydraharp.py:41-48 | correction changes only the times: each record keeps its word's channel and special bit, and only channel-63 records count as overflows |
| HydraHarp.OverflowRecordStep | src/picoquantio/hydraharp.py:46-78 | a v2.0 overflow record advances the elapsed total by its own time field, and a v1.0 overflow record by one |
| HydraHarp.GetRecordLoader | src/picoquantio/hydraharp.py:260-273 | a loader is found exactly for versions "1.0" and "2.0" in mode 2 or 3, and it is the one stored under that key; any other key is NotImplemented |
| HydraHarp.GetRecordLoaderComplete | src/picoquantio/hydraharp.py:94-99 | every loader in the table is found under its own key |
| HydraHarp.RunRecordLoader | src/picoquantio/hydraharp.py:86-99 | exactly the T3 loaders fail with NotImplemented; the T2 loaders return their version's records and the spare-bytes flag |

## Left out

- Text decoding: idents and string values stay as their NUL-stripped bytes, tagged with the codec (UTF-8 or UTF-16) they would be decoded with. Invalid UTF-8/UTF-16 errors are not modelled.
- Floating point: Float8 and TDateTime values keep their 8 raw bytes. The `time.gmtime` conversion of TDateTime is not modelled.
- Dictionary insertion order: the tag dictionary is a Dafny `map`, so the order Python dicts keep is not captured.
- Stream plumbing: `peek` and `read` on a buffered reader are modelled as the bytes from the cursor on. The model assumes the whole file is visible, so a `peek` that returns fewer bytes than asked is not covered. Opening files, `identify`, `load`, `load_ptu`, `_load_hxx`, `read_hh_header` and `_merge_arrays_to_header` are not part of this model.
- PicoQuant.IdentifyByHeader: the unrecognised-file branch formats the message with a name that is not yet bound, so Python raises NameError rather than the intended ValueError. Both are modelled as the one failure `UnrecognizedFormat`.
- Unified.Insert: an index k > 0 on an ident that holds a scalar raises TypeError, AttributeError or ValueError depending on the scalar's type. All three are the one error `ScalarNotGroup`.
- Unified.ReadPayload: a negative BinaryBlob length is rejected as NegativeLength, like the other length-carrying kinds. Passing the decoded length to `read` would read to the end of the file for -1 and raise ValueError below -1.
- Unified.ReadPayload: WideString payloads are NUL-stripped byte-wise before UTF-16 decoding, as the code does. The odd length this can leave is a decoding error, which is not modelled.
- Exception types: errors are `Common.Error` constructors, one per raise site, not Python exception classes or messages.
- HydraHarp.LoadT2: the `warnings.warn` for spare bytes is the returned `spare` flag. The warning text is not modelled.
- HydraHarp.Words: numpy reads `uint32` in native byte order; the model fixes it to little-endian.
- The PicoHarp and TimeHarp record decoders and the T3 record formats are not part of this model. The T3 HydraHarp loaders are modelled as the stubs they are.

## Findings

| source | as written | input that shows it | evidently intended | confidence | as-written member | corrected member |
|---|---|---|---|---|---|---|
| src/picoquantio/unified.py:102-103 | the Float8Array branch builds the struct format from the 8-byte `bytes` value (`f"{value}d"`), which `struct.calcsize` rejects | any Float8Array tag, e.g. an empty array with 8 zero inline bytes | read 8 × count bytes, where the count is the inline value read as a signed 64-bit integer | not executed | Unified.EmptyFloatArrayAsWritten | Unified.ReadPayload |
| src/picoquantio/unified.py:118-119 | the BinaryBlob branch passes the 8-byte `bytes` value to `read`, which raises TypeError | any BinaryBlob tag | read as many bytes as the inline value gives as a non-negative signed 64-bit integer | not executed | Unified.ArrayKindsAsWritten | Unified.PayloadRoundTrip |
