/** The unified (PTU/PHU) header reader of `unified.py`: the 16-byte magic block,
    and the tag stream that follows it. Each tag is a fixed 48-byte header
    (`<32siI8s`: ident, signed index, unsigned type code, 8 inline bytes) and, for
    the variable-length types, a payload whose length the inline bytes give. */
module Unified {
  import opened Bytes
  import opened Common
  import opened PicoQuant

  // ---------------------------------------------------------------------------
  // read_magic
  // ---------------------------------------------------------------------------

  /** `read_magic`: reads 16 bytes and splits them into an 8-byte ident and an 8-byte
      version, each stripped of trailing NULs. Returns the identity and the number
      of bytes consumed; fewer than 16 bytes make `struct.unpack` fail. */
  function ReadMagic(s: seq<Byte>): (r: Result<(Identity, nat)>)
    ensures r.Success? <==> |s| >= 16
    ensures r.Failure? ==> r.error == ShortRead
    ensures r.Success? ==> r.value.1 == 16
  {
    if |s| < 16 then Failure(ShortRead)
    else Success((Identity(RStripNul(s[..8]), RStripNul(s[8..16])), 16))
  }

  /** A magic block written as two NUL-padded 8-byte fields reads back as those fields. */
  lemma ReadMagicPadded(ident: seq<Byte>, version: seq<Byte>, rest: seq<Byte>)
    requires |ident| <= 8 && NoTrailingNul(ident)
    requires |version| <= 8 && NoTrailingNul(version)
    ensures ReadMagic(Pad(ident, 8) + Pad(version, 8) + rest) == Success((Identity(ident, version), 16))
  {
    var s := Pad(ident, 8) + Pad(version, 8) + rest;
    assert RStripNul(s[..8]) == ident by {
      assert s[..8] == ident + Zeros(8 - |ident|);
      RStripPadded(ident, 8 - |ident|);
    }
    assert RStripNul(s[8..16]) == version by {
      assert s[8..16] == version + Zeros(8 - |version|);
      RStripPadded(version, 8 - |version|);
    }
  }

  // ---------------------------------------------------------------------------
  // _pu_tag: the closed set of tag types
  // ---------------------------------------------------------------------------

  datatype TagKind =
    | Empty8 | Bool8 | Int8 | BitSet64 | Color8 | Float8 | TDateTime
    | Float8Array | AnsiString | WideString | BinaryBlob

  /** The type code each tag kind is stored under. */
  function TagCode(k: TagKind): (c: nat)
    ensures c < Pow256(4)
  {
    Pow256Widths();
    match k
    case Empty8 => 0xFFFF0008
    case Bool8 => 0x00000008
    case Int8 => 0x10000008
    case BitSet64 => 0x11000008
    case Color8 => 0x12000008
    case Float8 => 0x20000008
    case TDateTime => 0x21000008
    case Float8Array => 0x2001FFFF
    case AnsiString => 0x4001FFFF
    case WideString => 0x4002FFFF
    case BinaryBlob => 0xFFFFFFFF
  }

  /** The branch of the type dispatch a code selects; None is the "unknown tag type" branch. */
  function KindOfCode(code: nat): (r: Option<TagKind>)
    ensures r.Some? ==> TagCode(r.value) == code
  {
    if code == 0xFFFF0008 then Some(Empty8)
    else if code == 0x00000008 then Some(Bool8)
    else if code == 0x10000008 then Some(Int8)
    else if code == 0x11000008 then Some(BitSet64)
    else if code == 0x12000008 then Some(Color8)
    else if code == 0x20000008 then Some(Float8)
    else if code == 0x21000008 then Some(TDateTime)
    else if code == 0x2001FFFF then Some(Float8Array)
    else if code == 0x4001FFFF then Some(AnsiString)
    else if code == 0x4002FFFF then Some(WideString)
    else if code == 0xFFFFFFFF then Some(BinaryBlob)
    else None
  }

  /** Every kind's code is recognised as that kind, so the eleven codes are distinct
      and a code is unknown exactly when it is none of them. */
  lemma KindOfCodeInverse(k: TagKind)
    ensures KindOfCode(TagCode(k)) == Some(k)
  {
  }

  lemma UnknownCode(code: nat)
    ensures KindOfCode(code).None? <==> forall k: TagKind :: TagCode(k) != code
  {
    if KindOfCode(code).None? {
      forall k: TagKind ensures TagCode(k) != code {
        KindOfCodeInverse(k);
      }
    }
  }

  // ---------------------------------------------------------------------------
  // The 48-byte tag header
  // ---------------------------------------------------------------------------

  const TAG_HEADER_SIZE: nat := 48

  datatype TagHeader = TagHeader(ident: seq<Byte>, index: int, code: nat, inline: seq<Byte>)

  /** `UnifiedTagStruct.unpack` followed by stripping the ident: bytes 0..32 are the
      ident, 32..36 the signed index, 36..40 the unsigned type code and 40..48 the
      inline value, all little-endian. */
  function DecodeTagHeader(h: seq<Byte>): (r: TagHeader)
    requires |h| == TAG_HEADER_SIZE
    ensures |r.inline| == 8 && |r.ident| <= 32 && NoTrailingNul(r.ident)
    ensures -(Pow256(4) / 2) <= r.index < Pow256(4) / 2 && r.code < Pow256(4)
  {
    TagHeader(RStripNul(h[..32]), LeSigned(h[32..36]), LeUnsigned(h[36..40]), h[40..48])
  }

  predicate HeaderFits(th: TagHeader) {
    && |th.ident| <= 32 && NoTrailingNul(th.ident)
    && -(Pow256(4) / 2) <= th.index < Pow256(4) / 2
    && th.code < Pow256(4)
    && |th.inline| == 8
  }

  /** The 48 bytes that `UnifiedTagStruct.pack` would write for a header. */
  function EncodeTagHeader(th: TagHeader): (h: seq<Byte>)
    requires HeaderFits(th)
    ensures |h| == TAG_HEADER_SIZE
  {
    Pad(th.ident, 32) + LeBytes(TwosComplement(th.index, 4), 4) + LeBytes(th.code, 4) + th.inline
  }

  lemma {:induction false} TagHeaderRoundTrip(th: TagHeader)
    requires HeaderFits(th)
    ensures DecodeTagHeader(EncodeTagHeader(th)) == th
  {
    var h := EncodeTagHeader(th);
    assert h[..32] == th.ident + Zeros(32 - |th.ident|);
    assert h[32..36] == LeBytes(TwosComplement(th.index, 4), 4);
    assert h[36..40] == LeBytes(th.code, 4);
    assert h[40..48] == th.inline;
    RStripPadded(th.ident, 32 - |th.ident|);
    LeSignedOfTwosComplement(th.index, 4);
    LeUnsignedOfLeBytes(th.code, 4);
  }

  // ---------------------------------------------------------------------------
  // Tag values and payloads
  // ---------------------------------------------------------------------------

  datatype Encoding = Utf8 | Utf16

  /** A decoded tag value. Floating-point values and dates keep their 8 bytes, and
      text keeps its NUL-stripped bytes with the codec it is decoded with. */
  datatype Value =
    | NoValue
    | BoolValue(b: bool)
    | IntValue(i: int)
    | FloatValue(bits: seq<Byte>)
    | DateTimeValue(bits: seq<Byte>)
    | FloatArrayValue(raw: seq<Byte>)
    | TextValue(encoding: Encoding, text: seq<Byte>)
    | BlobValue(raw: seq<Byte>)

  /** `UnifiedTag(ident, index, type, value)`; the type is kept as its kind. */
  datatype Tag = Tag(ident: seq<Byte>, index: int, kind: TagKind, value: Value)

  function Min(a: int, b: int): int {
    if a <= b then a else b
  }

  /** `rawdata.read(n)` for a count n >= 0: at most n bytes, fewer when the stream
      ends first. Every branch that reads checks its count for a negative value
      before it gets here. */
  function Read(rest: seq<Byte>, n: nat): (r: seq<Byte>)
    ensures |r| == Min(n, |rest|) && r == rest[..|r|]
  {
    if n >= |rest| then rest else rest[..n]
  }

  predicate FixedSize(k: TagKind) {
    k in {Empty8, Bool8, Int8, BitSet64, Color8, Float8, TDateTime}
  }

  /** The number of payload bytes a length-carrying tag announces: `count` doubles
      of 8 bytes for Float8Array, `count` bytes otherwise. */
  function Span(kind: TagKind, count: int): int {
    if kind == Float8Array then 8 * count else count
  }

  /** The value of a length-carrying tag whose payload bytes are `bs`: strings are
      stripped of their NUL padding, arrays and blobs are kept whole. */
  function ValueOf(kind: TagKind, bs: seq<Byte>): Value {
    match kind
    case Float8Array => FloatArrayValue(bs)
    case AnsiString => TextValue(Utf8, RStripNul(bs))
    case WideString => TextValue(Utf16, RStripNul(bs))
    case _ => BlobValue(bs)
  }

  /** The type dispatch of `read_tags_to_list`: the value a tag of the given kind
      carries, and how many payload bytes after its header it consumes. A
      length-carrying kind consumes the bytes its length announces (fewer when the
      stream ends first) and builds its value from exactly those bytes.
      Float8Array and BinaryBlob take their count from the inline bytes read as a
      signed 64-bit integer, which is the evident intent of the source (it passes
      the undecoded bytes, see ReadPayloadAsWritten); a negative count is rejected
      for every kind that carries one. */
  function ReadPayload(kind: TagKind, inline: seq<Byte>, rest: seq<Byte>): (r: Result<(Value, nat)>)
    requires |inline| == 8
    ensures r.Success? ==> r.value.1 <= |rest|
    ensures FixedSize(kind) ==> r.Success? && r.value.1 == 0
    ensures !FixedSize(kind) ==> (r.Success? <==> LeSigned(inline) >= 0)
    ensures !FixedSize(kind) && r.Failure? ==> r.error == NegativeLength(LeSigned(inline))
    ensures !FixedSize(kind) && r.Success? ==>
              && r.value.1 == Min(Span(kind, LeSigned(inline)), |rest|)
              && r.value.0 == ValueOf(kind, rest[..r.value.1])
  {
    match kind
    case Empty8 => Success((NoValue, 0))
    case Bool8 => Success((BoolValue(LeSigned(inline) != 0), 0))
    case Int8 => Success((IntValue(LeSigned(inline)), 0))
    case BitSet64 => Success((IntValue(LeSigned(inline)), 0))
    case Color8 => Success((IntValue(LeSigned(inline)), 0))
    case Float8 => Success((FloatValue(inline), 0))
    case TDateTime => Success((DateTimeValue(inline), 0))
    case _ =>
      var count := LeSigned(inline);
      if count < 0 then Failure(NegativeLength(count))
      else
        var bs := Read(rest, Span(kind, count));
        Success((ValueOf(kind, bs), |bs|))
  }

  /** The type dispatch exactly as written: the Float8Array branch formats the 8-byte
      `bytes` object into a struct format string, which `struct.calcsize` rejects, and
      the BinaryBlob branch passes the `bytes` object to `read`, which raises TypeError. */
  function ReadPayloadAsWritten(kind: TagKind, inline: seq<Byte>, rest: seq<Byte>): (r: Result<(Value, nat)>)
    requires |inline| == 8
    ensures kind !in {Float8Array, BinaryBlob} ==> r == ReadPayload(kind, inline, rest)
  {
    match kind
    case Float8Array => Failure(BadStructFormat)
    case BinaryBlob => Failure(ReadSizeNotInteger)
    case _ => ReadPayload(kind, inline, rest)
  }

  /** The two array kinds fail on every input as written, while the intended reading
      accepts every one of them with a non-negative count. */
  lemma ArrayKindsAsWritten(kind: TagKind, inline: seq<Byte>, rest: seq<Byte>)
    requires |inline| == 8 && kind in {Float8Array, BinaryBlob}
    ensures ReadPayloadAsWritten(kind, inline, rest).Failure?
    ensures LeSigned(inline) >= 0 ==> ReadPayload(kind, inline, rest).Success?
  {
  }

  /** A Float8Array of zero doubles: rejected as written, read as an empty array
      as intended. */
  lemma EmptyFloatArrayAsWritten()
    ensures ReadPayloadAsWritten(Float8Array, Zeros(8), []) == Failure(BadStructFormat)
    ensures ReadPayload(Float8Array, Zeros(8), []) == Success((FloatArrayValue([]), 0))
  {
    LeUnsignedZero(Zeros(8));
  }

  /** Boolean tags are true exactly when some inline byte is non-zero. */
  lemma Bool8Value(inline: seq<Byte>, rest: seq<Byte>)
    requires |inline| == 8
    ensures ReadPayload(Bool8, inline, rest)
            == Success((BoolValue(exists k :: 0 <= k < 8 && inline[k] != 0), 0))
  {
    LeSignedNonZero(inline);
  }

  /** A string payload cut short by the end of the stream is not an error: the
      reader returns the bytes that are there and moves past them. */
  lemma TruncatedStringIsPartial(kind: TagKind, inline: seq<Byte>, rest: seq<Byte>)
    requires |inline| == 8 && kind in {AnsiString, WideString}
    requires LeSigned(inline) > |rest|
    ensures ReadPayload(kind, inline, rest).Success?
    ensures ReadPayload(kind, inline, rest).value.1 == |rest|
    ensures ReadPayload(kind, inline, rest).value.0.text == RStripNul(rest)
  {
    var r := ReadPayload(kind, inline, rest);
    assert r.Success? && r.value.1 == |rest|;
    assert rest[..|rest|] == rest;
    assert r.value.0 == ValueOf(kind, rest);
  }

  /** A string written as its text followed by NUL padding, with the padded length
      in the inline bytes, reads back as the text and consumes the padding too. */
  lemma PaddedString(kind: TagKind, inline: seq<Byte>, text: seq<Byte>, pad: nat, rest: seq<Byte>)
    requires kind in {AnsiString, WideString} && NoTrailingNul(text)
    requires |inline| == 8 && LeSigned(inline) == |text| + pad
    ensures ReadPayload(kind, inline, text + Zeros(pad) + rest)
            == Success((TextValue(if kind == AnsiString then Utf8 else Utf16, text), |text| + pad))
  {
    var n, p := |text| + pad, text + Zeros(pad);
    assert (p + rest)[..n] == p;
    RStripPadded(text, pad);
    var r := ReadPayload(kind, inline, p + rest);
    assert r.Success? && r.value.1 == n;
    assert r.value.0 == ValueOf(kind, p);
    assert r == Success((r.value.0, r.value.1));
  }

  // ---------------------------------------------------------------------------
  // One tag
  // ---------------------------------------------------------------------------

  /** One iteration of the `read_tags_to_list` loop on the bytes at the cursor: the
      tag and the number of bytes it occupies. */
  function ReadTag(s: seq<Byte>): (r: Result<(Tag, nat)>)
    ensures r.Success? ==> TAG_HEADER_SIZE <= r.value.1 <= |s|
    ensures |s| < TAG_HEADER_SIZE ==> r == Failure(ShortRead)
  {
    if |s| < TAG_HEADER_SIZE then Failure(ShortRead)
    else
      var h := DecodeTagHeader(s[..TAG_HEADER_SIZE]);
      match KindOfCode(h.code)
      case None => Failure(UnknownTagType(h.code))
      case Some(kind) =>
        match ReadPayload(kind, h.inline, s[TAG_HEADER_SIZE..])
        case Failure(e) => Failure(e)
        case Success((v, n)) => Success((Tag(h.ident, h.index, kind, v), TAG_HEADER_SIZE + n))
  }

  /** A tag read successfully carries the ident, index and type code of its header. */
  lemma ReadTagHeaderFields(s: seq<Byte>)
    requires ReadTag(s).Success?
    ensures var h := DecodeTagHeader(s[..TAG_HEADER_SIZE]);
            var t := ReadTag(s).value.0;
            t.ident == h.ident && t.index == h.index && TagCode(t.kind) == h.code
  {
  }

  /** A header with a code outside the table is an unknown-tag-type error. */
  lemma ReadTagUnknownType(s: seq<Byte>)
    requires |s| >= TAG_HEADER_SIZE
    requires forall k: TagKind :: TagCode(k) != DecodeTagHeader(s[..TAG_HEADER_SIZE]).code
    ensures ReadTag(s) == Failure(UnknownTagType(DecodeTagHeader(s[..TAG_HEADER_SIZE]).code))
  {
    UnknownCode(DecodeTagHeader(s[..TAG_HEADER_SIZE]).code);
  }

  /** A value that the tag kind can carry and that the writer can encode. */
  predicate ValueFits(kind: TagKind, v: Value) {
    match kind
    case Empty8 => v == NoValue
    case Bool8 => v.BoolValue?
    case Int8 => v.IntValue? && -(Pow256(8) / 2) <= v.i < Pow256(8) / 2
    case BitSet64 => v.IntValue? && -(Pow256(8) / 2) <= v.i < Pow256(8) / 2
    case Color8 => v.IntValue? && -(Pow256(8) / 2) <= v.i < Pow256(8) / 2
    case Float8 => v.FloatValue? && |v.bits| == 8
    case TDateTime => v.DateTimeValue? && |v.bits| == 8
    case Float8Array => v.FloatArrayValue? && |v.raw| % 8 == 0 && |v.raw| < Pow256(8) / 2
    case AnsiString => v.TextValue? && v.encoding == Utf8 && NoTrailingNul(v.text) && |v.text| < Pow256(8) / 2
    case WideString => v.TextValue? && v.encoding == Utf16 && NoTrailingNul(v.text) && |v.text| < Pow256(8) / 2
    case BinaryBlob => v.BlobValue? && |v.raw| < Pow256(8) / 2
  }

  predicate Encodable(t: Tag) {
    && |t.ident| <= 32 && NoTrailingNul(t.ident)
    && -(Pow256(4) / 2) <= t.index < Pow256(4) / 2
    && ValueFits(t.kind, t.value)
  }

  /** The inline 8 bytes a writer stores for a value: the value itself for the fixed
      kinds, the element count or byte length for the others. */
  function InlineOf(kind: TagKind, v: Value): (inline: seq<Byte>)
    requires ValueFits(kind, v)
    ensures |inline| == 8
  {
    match kind
    case Empty8 => Zeros(8)
    case Bool8 => LeBytes(if v.b then 1 else 0, 8)
    case Int8 => LeBytes(TwosComplement(v.i, 8), 8)
    case BitSet64 => LeBytes(TwosComplement(v.i, 8), 8)
    case Color8 => LeBytes(TwosComplement(v.i, 8), 8)
    case Float8 => v.bits
    case TDateTime => v.bits
    case Float8Array => LeBytes(|v.raw| / 8, 8)
    case AnsiString => LeBytes(|v.text|, 8)
    case WideString => LeBytes(|v.text|, 8)
    case BinaryBlob => LeBytes(|v.raw|, 8)
  }

  function PayloadOf(v: Value): seq<Byte> {
    match v
    case FloatArrayValue(raw) => raw
    case TextValue(_, text) => text
    case BlobValue(raw) => raw
    case _ => []
  }

  /** The bytes of one tag as a writer lays it out. */
  function EncodeTag(t: Tag): (bs: seq<Byte>)
    requires Encodable(t)
    ensures |bs| == TAG_HEADER_SIZE + |PayloadOf(t.value)|
  {
    EncodeTagHeader(TagHeader(t.ident, t.index, TagCode(t.kind), InlineOf(t.kind, t.value)))
      + PayloadOf(t.value)
  }

  /** Decoding the inline bytes and payload a writer produced gives the value back,
      consuming exactly the payload. */
  lemma PayloadRoundTrip(kind: TagKind, v: Value, rest: seq<Byte>)
    requires ValueFits(kind, v)
    ensures ReadPayload(kind, InlineOf(kind, v), PayloadOf(v) + rest) == Success((v, |PayloadOf(v)|))
  {
    var p := PayloadOf(v);
    Pow256Widths();
    match kind
    case Empty8 =>
    case Bool8 =>
      LeSignedOfTwosComplement(if v.b then 1 else 0, 8);
    case Int8 =>
      LeSignedOfTwosComplement(v.i, 8);
    case BitSet64 =>
      LeSignedOfTwosComplement(v.i, 8);
    case Color8 =>
      LeSignedOfTwosComplement(v.i, 8);
    case Float8 =>
    case TDateTime =>
    case Float8Array =>
      LeSignedOfTwosComplement(|v.raw| / 8, 8);
      assert Read(p + rest, 8 * (|v.raw| / 8)) == p;
    case AnsiString =>
      LeSignedOfTwosComplement(|v.text|, 8);
      assert Read(p + rest, |v.text|) == p;
      RStripPadded(v.text, 0);
      assert p + Zeros(0) == p;
    case WideString =>
      LeSignedOfTwosComplement(|v.text|, 8);
      assert Read(p + rest, |v.text|) == p;
      RStripPadded(v.text, 0);
      assert p + Zeros(0) == p;
    case BinaryBlob =>
      LeSignedOfTwosComplement(|v.raw|, 8);
      assert Read(p + rest, |v.raw|) == p;
  }

  /** Reading an encoded tag gives the tag back and moves the cursor past exactly
      its header and payload, whatever follows. */
  lemma ReadTagRoundTrip(t: Tag, rest: seq<Byte>)
    requires Encodable(t)
    ensures ReadTag(EncodeTag(t) + rest) == Success((t, |EncodeTag(t)|))
  {
    var th := TagHeader(t.ident, t.index, TagCode(t.kind), InlineOf(t.kind, t.value));
    var s := EncodeTag(t) + rest;
    assert s[..TAG_HEADER_SIZE] == EncodeTagHeader(th);
    assert s[TAG_HEADER_SIZE..] == PayloadOf(t.value) + rest;
    TagHeaderRoundTrip(th);
    KindOfCodeInverse(t.kind);
    PayloadRoundTrip(t.kind, t.value, rest);
  }

  // ---------------------------------------------------------------------------
  // read_tags_to_list
  // ---------------------------------------------------------------------------

  /** "Header_End" */
  const HEADER_END: seq<Byte> := [0x48, 0x65, 0x61, 0x64, 0x65, 0x72, 0x5F, 0x45, 0x6E, 0x64]

  /** A per-tag reader: the tag at the start of the bytes and how many bytes it
      occupies. */
  type TagReader = seq<Byte> -> Result<(Tag, nat)>

  /** A reader that consumes at least one byte per tag and never more than it has. */
  ghost predicate Consumes(read: TagReader) {
    forall s: seq<Byte> :: read(s).Success? ==> 0 < read(s).value.1 <= |s|
  }

  lemma ReadTagConsumes()
    ensures Consumes(ReadTag)
  {
  }

  /** The loop of `read_tags_to_list` with the tag reader as a parameter: tags are
      read one after another up to and including the first whose ident is
      `Header_End`, and the result holds them with the number of bytes consumed.
      The first error ends the loop. */
  function TagsWith(read: TagReader, s: seq<Byte>): Result<(seq<Tag>, nat)>
    requires Consumes(read)
    decreases |s|
  {
    match read(s)
    case Failure(e) => Failure(e)
    case Success((t, n)) =>
      if t.ident == HEADER_END then Success(([t], n))
      else
        match TagsWith(read, s[n..])
        case Failure(e) => Failure(e)
        case Success((ts, m)) => Success(([t] + ts, n + m))
  }

  /** The tag list `read_tags_to_list` returns from the bytes at the cursor. */
  function ReadTagsFrom(s: seq<Byte>): Result<(seq<Tag>, nat)> {
    ReadTagConsumes();
    TagsWith(ReadTag, s)
  }

  /** A tag list read with any reader is never empty, ends with the `Header_End` tag
      and holds no earlier `Header_End` tag; it never reads past the end of the data. */
  lemma {:induction false} TagsWithShape(read: TagReader, s: seq<Byte>)
    requires Consumes(read) && TagsWith(read, s).Success?
    ensures var (ts, n) := TagsWith(read, s).value;
            && n <= |s| && |ts| > 0
            && ts[|ts| - 1].ident == HEADER_END
            && forall i :: 0 <= i < |ts| - 1 ==> ts[i].ident != HEADER_END
    decreases |s|
  {
    var (t, n) := read(s).value;
    if t.ident != HEADER_END {
      TagsWithShape(read, s[n..]);
      var (ts, m) := TagsWith(read, s[n..]).value;
      assert TagsWith(read, s).value.0 == [t] + ts;
    }
  }

  /** What `read_tags_to_list` returns is never empty, ends with the `Header_End` tag
      and holds no earlier `Header_End` tag; it never reads past the end of the data. */
  lemma ReadTagsFromShape(s: seq<Byte>)
    requires ReadTagsFrom(s).Success?
    ensures var (ts, n) := ReadTagsFrom(s).value;
            && n <= |s| && |ts| > 0
            && ts[|ts| - 1].ident == HEADER_END
            && forall i :: 0 <= i < |ts| - 1 ==> ts[i].ident != HEADER_END
  {
    ReadTagConsumes();
    TagsWithShape(ReadTag, s);
  }

  /** The result of reading `tags` first (occupying `n` bytes) and then `r`. */
  function Then(tags: seq<Tag>, n: nat, r: Result<(seq<Tag>, nat)>): Result<(seq<Tag>, nat)> {
    match r
    case Failure(e) => Failure(e)
    case Success((ts, m)) => Success((tags + ts, n + m))
  }

  lemma ThenThen(a: seq<Tag>, n: nat, b: seq<Tag>, m: nat, r: Result<(seq<Tag>, nat)>)
    ensures Then(a, n, Then(b, m, r)) == Then(a + b, n + m, r)
  {
    if r.Success? {
      assert a + (b + r.value.0) == (a + b) + r.value.0;
    }
  }

  /** One step of the loop at `cursor`: a tag that is not `Header_End` is followed
      by the list read from just past it. */
  lemma TagsWithNext(read: TagReader, data: seq<Byte>, cursor: nat, tags: seq<Tag>, tag: Tag, size: nat)
    requires Consumes(read) && cursor <= |data|
    requires read(data[cursor..]) == Success((tag, size)) && tag.ident != HEADER_END
    ensures cursor + size <= |data|
    ensures Then(tags, cursor, TagsWith(read, data[cursor..]))
            == Then(tags + [tag], cursor + size, TagsWith(read, data[cursor + size..]))
  {
    assert data[cursor..][size..] == data[cursor + size..];
    ThenThen(tags, cursor, [tag], size, TagsWith(read, data[cursor + size..]));
  }

  /** The `read_tags_to_list` loop over any reader that consumes bytes: read one
      tag at the cursor, append it, stop after the `Header_End` tag. Returns the
      tags and the cursor position after them. */
  method TagsLoop(read: TagReader, data: seq<Byte>, start: nat) returns (r: Result<(seq<Tag>, nat)>)
    requires Consumes(read) && start <= |data|
    ensures r == Then([], start, TagsWith(read, data[start..]))
  {
    ghost var whole := Then([], start, TagsWith(read, data[start..]));
    var tags: seq<Tag> := [];
    var cursor := start;
    while true
      invariant start <= cursor <= |data|
      invariant whole == Then(tags, cursor, TagsWith(read, data[cursor..]))
      decreases |data| - cursor
    {
      var step := read(data[cursor..]);
      if step.Failure? {
        return Failure(step.error);
      }
      var (tag, size) := step.value;
      if tag.ident == HEADER_END {
        return Success((tags + [tag], cursor + size));
      }
      TagsWithNext(read, data, cursor, tags, tag, size);
      tags := tags + [tag];
      cursor := cursor + size;
    }
  }

  /** `read_tags_to_list` on the data from `start`: the tags up to `Header_End` and
      the position after them, or the first error. */
  method ReadTagsToList(data: seq<Byte>, start: nat) returns (r: Result<(seq<Tag>, nat)>)
    requires start <= |data|
    ensures r == Then([], start, ReadTagsFrom(data[start..]))
  {
    ReadTagConsumes();
    r := TagsLoop(ReadTag, data, start);
  }

  /** The chunks laid end to end. */
  function Concat(chunks: seq<seq<Byte>>): (bs: seq<Byte>)
  {
    if chunks == [] then [] else chunks[0] + Concat(chunks[1..])
  }

  lemma ConcatFirst(chunks: seq<seq<Byte>>, rest: seq<Byte>)
    requires |chunks| > 0
    ensures Concat(chunks) + rest == chunks[0] + (Concat(chunks[1..]) + rest)
    ensures |Concat(chunks)| == |chunks[0]| + |Concat(chunks[1..])|
  {
  }

  /** The bytes of a tag list as a writer lays it out: each tag's encoding in turn. */
  function EncodeTags(ts: seq<Tag>): seq<Byte>
    requires forall i :: 0 <= i < |ts| ==> Encodable(ts[i])
  {
    Concat(seq(|ts|, i requires 0 <= i < |ts| && Encodable(ts[i]) => EncodeTag(ts[i])))
  }

  /** A well-formed header: encodable tags, ending with the only `Header_End` tag. */
  predicate HeaderShaped(ts: seq<Tag>) {
    && |ts| > 0
    && (forall i :: 0 <= i < |ts| ==> Encodable(ts[i]))
    && ts[|ts| - 1].ident == HEADER_END
    && (forall i :: 0 <= i < |ts| - 1 ==> ts[i].ident != HEADER_END)
  }

  /** `read` decodes `chunk` to `t`, whatever follows the chunk. */
  ghost predicate Decodes(read: TagReader, chunk: seq<Byte>, t: Tag) {
    forall rest: seq<Byte> :: read(chunk + rest) == Success((t, |chunk|))
  }

  /** Reading chunks laid end to end, the first of which the reader decodes to `t`:
      `t` alone if it is `Header_End`, and otherwise `t` followed by what the
      remaining chunks read to. */
  lemma FirstChunk(read: TagReader, t: Tag, chunks: seq<seq<Byte>>, rest: seq<Byte>)
    requires Consumes(read) && |chunks| > 0 && Decodes(read, chunks[0], t)
    ensures |Concat(chunks)| == |chunks[0]| + |Concat(chunks[1..])|
    ensures t.ident == HEADER_END ==> TagsWith(read, Concat(chunks) + rest) == Success(([t], |chunks[0]|))
    ensures t.ident != HEADER_END ==>
              TagsWith(read, Concat(chunks) + rest) == Then([t], |chunks[0]|, TagsWith(read, Concat(chunks[1..]) + rest))
  {
    var tail := Concat(chunks[1..]) + rest;
    ConcatFirst(chunks, rest);
    assert read(chunks[0] + tail) == Success((t, |chunks[0]|));
    assert (chunks[0] + tail)[|chunks[0]|..] == tail;
  }

  /** `read` decodes the chunks one by one to the tags, whatever follows each chunk. */
  ghost predicate ChunksDecode(read: TagReader, ts: seq<Tag>, chunks: seq<seq<Byte>>)
    decreases |ts|
  {
    && |ts| == |chunks|
    && (ts != [] ==> Decodes(read, chunks[0], ts[0]) && ChunksDecode(read, ts[1..], chunks[1..]))
  }

  /** The tags end with the first `Header_End` tag. */
  predicate EndsAtHeaderEnd(ts: seq<Tag>)
    decreases |ts|
  {
    ts != [] && (if ts[0].ident == HEADER_END then |ts| == 1 else EndsAtHeaderEnd(ts[1..]))
  }

  lemma {:induction false} ChunksDecodeAll(read: TagReader, ts: seq<Tag>, chunks: seq<seq<Byte>>)
    requires |ts| == |chunks| && forall i :: 0 <= i < |ts| ==> Decodes(read, chunks[i], ts[i])
    ensures ChunksDecode(read, ts, chunks)
    decreases |ts|
  {
    if ts != [] {
      ChunksDecodeAll(read, ts[1..], chunks[1..]);
    }
  }

  lemma {:induction false} HeaderShapedEnds(ts: seq<Tag>)
    requires |ts| > 0 && ts[|ts| - 1].ident == HEADER_END
    requires forall i :: 0 <= i < |ts| - 1 ==> ts[i].ident != HEADER_END
    ensures EndsAtHeaderEnd(ts)
    decreases |ts|
  {
    if ts[0].ident != HEADER_END {
      HeaderShapedEnds(ts[1..]);
    }
  }

  lemma ThenCons(ts: seq<Tag>, n: nat, m: nat)
    requires |ts| > 0
    ensures Then([ts[0]], n, Success((ts[1..], m))) == Success((ts, n + m))
  {
    assert [ts[0]] + ts[1..] == ts;
  }

  /** Reading chunks that the reader decodes one by one, the last and only the last
      being `Header_End`, gives exactly those tags and stops at the end of the chunks. */
  lemma {:induction false} TagsWithRoundTrip(read: TagReader, ts: seq<Tag>, chunks: seq<seq<Byte>>, rest: seq<Byte>)
    requires Consumes(read) && ChunksDecode(read, ts, chunks) && EndsAtHeaderEnd(ts)
    ensures TagsWith(read, Concat(chunks) + rest) == Success((ts, |Concat(chunks)|))
    decreases |ts|
  {
    FirstChunk(read, ts[0], chunks, rest);
    if ts[0].ident != HEADER_END {
      TagsWithRoundTrip(read, ts[1..], chunks[1..], rest);
      ThenCons(ts, |chunks[0]|, |Concat(chunks[1..])|);
    } else {
      assert chunks[1..] == [];
      assert ts == [ts[0]];
    }
  }

  /** Reading an encoded header gives every tag back in order, stops after
      `Header_End` and leaves whatever follows (the records) unread. */
  lemma ReadTagsRoundTrip(ts: seq<Tag>, rest: seq<Byte>)
    requires HeaderShaped(ts)
    ensures ReadTagsFrom(EncodeTags(ts) + rest) == Success((ts, |EncodeTags(ts)|))
  {
    ReadTagConsumes();
    var chunks := seq(|ts|, i requires 0 <= i < |ts| && Encodable(ts[i]) => EncodeTag(ts[i]));
    forall i | 0 <= i < |ts|
      ensures Decodes(ReadTag, chunks[i], ts[i])
    {
      forall r: seq<Byte> ensures ReadTag(chunks[i] + r) == Success((ts[i], |chunks[i]|)) {
        ReadTagRoundTrip(ts[i], r);
      }
    }
    ChunksDecodeAll(ReadTag, ts, chunks);
    HeaderShapedEnds(ts);
    TagsWithRoundTrip(ReadTag, ts, chunks, rest);
  }

  // ---------------------------------------------------------------------------
  // _tag_list_to_dict
  // ---------------------------------------------------------------------------

  /** A dictionary entry: the value of a tag with a negative index, or the list of
      values of the tags numbered 0, 1, 2, ... */
  datatype Entry = Scalar(value: Value) | Group(values: seq<Value>)

  type TagDict = map<seq<Byte>, Entry>

  /** One iteration of the `_tag_list_to_dict` loop: file tag `t` into `m`. */
  function Insert(m: TagDict, t: Tag): (r: Result<TagDict>)
    ensures r.Success? ==> r.value.Keys == m.Keys + {t.ident}
    ensures r.Success? ==> forall id :: id in m && id != t.ident ==> r.value[id] == m[id]
    ensures t.index < 0 ==> (r.Success? <==> t.ident !in m)
    ensures t.index < 0 && r.Success? ==> r.value[t.ident] == Scalar(t.value)
    ensures t.index == 0 ==> (r.Success? <==> t.ident !in m)
    ensures t.index == 0 && r.Success? ==> r.value[t.ident] == Group([t.value])
    ensures t.index > 0 ==> (r.Success? <==> t.ident in m && m[t.ident].Group? && t.index == |m[t.ident].values|)
    ensures t.index > 0 && r.Success? ==> r.value[t.ident] == Group(m[t.ident].values + [t.value])
  {
    if t.index < 0 then
      if t.ident in m then Failure(DuplicateScalar(t.ident))
      else Success(m[t.ident := Scalar(t.value)])
    else if t.index == 0 then
      if t.ident in m then Failure(IndexZeroNotFirst(t.ident))
      else Success(m[t.ident := Group([t.value])])
    else if t.ident !in m then Failure(MissingFirstElement(t.ident, t.index))
    else
      match m[t.ident]
      case Scalar(_) => Failure(ScalarNotGroup(t.ident, t.index))
      case Group(vs) =>
        if t.index == |vs| then Success(m[t.ident := Group(vs + [t.value])])
        else Failure(IndexOutOfOrder(t.ident, t.index, |vs|))
  }

  /** The dictionary built from `tags` in order, or the error of the first tag
      that breaks the index rules. */
  function Assemble(tags: seq<Tag>): Result<TagDict> {
    if tags == [] then Success(map[])
    else
      match Assemble(tags[..|tags| - 1])
      case Failure(e) => Failure(e)
      case Success(m) => Insert(m, tags[|tags| - 1])
  }

  /** The tags with ident `id`, in input order. */
  function Filter(tags: seq<Tag>, id: seq<Byte>): (fs: seq<Tag>)
    ensures forall j :: 0 <= j < |fs| ==> fs[j].ident == id
  {
    if tags == [] then []
    else if tags[|tags| - 1].ident == id then Filter(tags[..|tags| - 1], id) + [tags[|tags| - 1]]
    else Filter(tags[..|tags| - 1], id)
  }

  /** The tags of one ident are a single scalar tag (negative index), or are
      numbered 0, 1, 2, ... in order. */
  predicate GroupOk(fs: seq<Tag>) {
    (|fs| == 1 && fs[0].index < 0) || forall j :: 0 <= j < |fs| ==> fs[j].index == j
  }

  /** The entry a well-numbered run of tags of one ident stands for. */
  function EntryOf(fs: seq<Tag>): Entry {
    if |fs| == 1 && fs[0].index < 0 then Scalar(fs[0].value)
    else Group(seq(|fs|, j requires 0 <= j < |fs| => fs[j].value))
  }

  /** Every ident's tags are well numbered. */
  ghost predicate Grouped(tags: seq<Tag>) {
    forall id :: GroupOk(Filter(tags, id))
  }

  /** `m` holds exactly the idents of `tags`, each with the entry its tags stand for. */
  ghost predicate Describes(m: TagDict, tags: seq<Tag>) {
    forall id :: (id in m <==> Filter(tags, id) != []) && (id in m ==> m[id] == EntryOf(Filter(tags, id)))
  }

  lemma GroupOkPrefix(fs: seq<Tag>, t: Tag)
    requires GroupOk(fs + [t])
    ensures GroupOk(fs)
  {
    if !(|fs + [t]| == 1 && (fs + [t])[0].index < 0) {
      assert forall j :: 0 <= j < |fs| ==> fs[j] == (fs + [t])[j];
    }
  }

  /** Appending `t` adds it to the tags of its own ident and leaves every other
      ident's tags as they were. */
  lemma FilterSnoc(p: seq<Tag>, t: Tag)
    ensures Filter(p + [t], t.ident) == Filter(p, t.ident) + [t]
    ensures forall id :: id != t.ident ==> Filter(p + [t], id) == Filter(p, id)
  {
    assert (p + [t])[..|p + [t]| - 1] == p;
  }

  /** What the entry for `t.ident` in a dictionary describing `p` tells about the
      tags of that ident so far. */
  lemma EntryOfFilter(m: TagDict, p: seq<Tag>, t: Tag)
    requires Describes(m, p) && GroupOk(Filter(p, t.ident))
    ensures t.ident !in m <==> Filter(p, t.ident) == []
    ensures t.ident in m && m[t.ident].Scalar? ==> |Filter(p, t.ident)| == 1 && Filter(p, t.ident)[0].index < 0
    ensures t.ident in m && m[t.ident].Group? ==>
              && !(|Filter(p, t.ident)| == 1 && Filter(p, t.ident)[0].index < 0)
              && m[t.ident].values == seq(|Filter(p, t.ident)|, j requires 0 <= j < |Filter(p, t.ident)| => Filter(p, t.ident)[j].value)
  {
  }

  /** The entry a successful filing leaves for `t.ident` is the one the tags of that
      ident, `t` included, stand for. */
  lemma InsertEntry(m: TagDict, p: seq<Tag>, t: Tag)
    requires Describes(m, p) && GroupOk(Filter(p, t.ident)) && Insert(m, t).Success?
    ensures Insert(m, t).value[t.ident] == EntryOf(Filter(p, t.ident) + [t])
  {
    var fs := Filter(p, t.ident);
    var gs := fs + [t];
    EntryOfFilter(m, p, t);
    if t.index < 0 {
      assert gs == [t];
    } else if t.index == 0 {
      assert gs == [t];
      assert EntryOf(gs).values == [t.value];
    } else {
      var vs := m[t.ident].values;
      assert vs + [t.value] == seq(|gs|, j requires 0 <= j < |gs| => gs[j].value);
    }
  }

  /** Filing tag `t` into a dictionary that describes `p` succeeds exactly when the
      tags of `t`'s ident stay well numbered, and then describes `p + [t]`. */
  lemma InsertStep(m: TagDict, p: seq<Tag>, t: Tag)
    requires Describes(m, p) && GroupOk(Filter(p, t.ident))
    ensures Insert(m, t).Success? <==> GroupOk(Filter(p, t.ident) + [t])
    ensures Insert(m, t).Success? ==> Describes(Insert(m, t).value, p + [t])
  {
    var fs := Filter(p, t.ident);
    var gs := fs + [t];
    FilterSnoc(p, t);
    EntryOfFilter(m, p, t);
    if Insert(m, t).Success? {
      InsertEntry(m, p, t);
    } else if t.index != |fs| {
      assert gs[|fs|].index != |fs|;
    }
  }

  /** `_tag_list_to_dict` succeeds exactly when every ident's tags are a single
      scalar tag or are numbered 0, 1, 2, ... in order; it then maps each ident
      of the list, and nothing else, to the entry its tags stand for. */
  lemma {:induction false} AssembleSpec(tags: seq<Tag>)
    ensures Assemble(tags).Success? <==> Grouped(tags)
    ensures Assemble(tags).Success? ==> Describes(Assemble(tags).value, tags)
  {
    if tags != [] {
      var p, t := tags[..|tags| - 1], tags[|tags| - 1];
      assert tags == p + [t];
      AssembleSpec(p);
      assert forall id :: Filter(tags, id) == Filter(p, id) + (if t.ident == id then [t] else []);
      if Assemble(p).Success? {
        InsertStep(Assemble(p).value, p, t);
        if !GroupOk(Filter(tags, t.ident)) {
          assert !Grouped(tags);
        }
      } else {
        var id :| !GroupOk(Filter(p, id));
        if id == t.ident {
          if GroupOk(Filter(tags, id)) {
            GroupOkPrefix(Filter(p, id), t);
          }
        }
        assert !GroupOk(Filter(tags, id));
      }
    }
  }

  /** Once a prefix of the tags fails, the whole list fails with the same error:
      the loop raises at the first offending tag. */
  lemma {:induction false} FirstErrorWins(tags: seq<Tag>, i: nat)
    requires i <= |tags| && Assemble(tags[..i]).Failure?
    ensures Assemble(tags) == Assemble(tags[..i])
    decreases |tags| - i
  {
    if i < |tags| {
      assert tags[..i + 1][..i] == tags[..i];
      FirstErrorWins(tags, i + 1);
    } else {
      assert tags[..i] == tags;
    }
  }

  /** `_tag_list_to_dict`: a loop that files each tag into the dictionary in turn,
      raising on the first tag that breaks the index rules. */
  method TagListToDict(tags: seq<Tag>) returns (r: Result<TagDict>)
    ensures r == Assemble(tags)
    ensures r.Success? <==> Grouped(tags)
    ensures r.Success? ==> Describes(r.value, tags)
  {
    AssembleSpec(tags);
    var result: TagDict := map[];
    for i := 0 to |tags|
      invariant Assemble(tags[..i]) == Success(result)
    {
      var t := tags[i];
      assert tags[..i + 1][..i] == tags[..i];
      if t.index < 0 {
        if t.ident in result {
          FirstErrorWins(tags, i + 1);
          return Failure(DuplicateScalar(t.ident));
        }
        result := result[t.ident := Scalar(t.value)];
      } else if t.index == 0 {
        if t.ident in result {
          FirstErrorWins(tags, i + 1);
          return Failure(IndexZeroNotFirst(t.ident));
        }
        result := result[t.ident := Group([t.value])];
      } else {
        if t.ident !in result {
          FirstErrorWins(tags, i + 1);
          return Failure(MissingFirstElement(t.ident, t.index));
        }
        match result[t.ident]
        case Scalar(_) =>
          FirstErrorWins(tags, i + 1);
          return Failure(ScalarNotGroup(t.ident, t.index));
        case Group(vs) =>
          if t.index != |vs| {
            FirstErrorWins(tags, i + 1);
            return Failure(IndexOutOfOrder(t.ident, t.index, |vs|));
          }
          result := result[t.ident := Group(vs + [t.value])];
      }
    }
    assert tags[..|tags|] == tags;
    return Success(result);
  }

  /** A list entry has one value per tag of its ident, and element i is the value
      of the tag with index i. */
  lemma GroupContents(tags: seq<Tag>, id: seq<Byte>)
    requires Assemble(tags).Success? && id in Assemble(tags).value
    requires Assemble(tags).value[id].Group?
    ensures var vs := Assemble(tags).value[id].values;
            var fs := Filter(tags, id);
            && |vs| == |fs|
            && forall i :: 0 <= i < |vs| ==> fs[i].index == i && vs[i] == fs[i].value
  {
    AssembleSpec(tags);
  }
}
