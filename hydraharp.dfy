/** The HydraHarp T2 record loaders of `hydraharp.py`: the record stream is read as
    little-endian 32-bit words, each word is split into a 25-bit time, a 6-bit
    channel and a special bit, and the times are then corrected for overflow in
    place. The (version, mode) table selects a loader; the T3 loaders are stubs. */
module HydraHarp {
  import opened Bytes
  import opened Common
  import opened PicoQuant

  /** `_t2_overflow`: the number of time units between two overflow records. */
  const T2_OVERFLOW: nat := 33552000

  /** `2**6 - 1`: the channel number that marks an overflow record. */
  const OVERFLOW_CHANNEL: nat := 63

  const WORD: nat := 0x1_0000_0000
  const TIME_LIMIT: nat := 0x200_0000

  // ---------------------------------------------------------------------------
  // Record words and their fields
  // ---------------------------------------------------------------------------

  /** `np.frombuffer(raw, dtype="uint32", count=len(raw) // 4)`: the whole 4-byte
      groups of the stream, read as little-endian words; trailing spare bytes are
      ignored. */
  function Words(raw: seq<Byte>): (ws: seq<nat>)
    ensures |ws| == |raw| / 4
    ensures forall i :: 0 <= i < |ws| ==> ws[i] < WORD
  {
    Pow256Widths();
    seq(|raw| / 4, i requires 0 <= i < |raw| / 4 => LeUnsigned(raw[4 * i..4 * i + 4]))
  }

  /** The record stream a writer produces for a list of 32-bit words. */
  function EncodeWords(ws: seq<nat>): (bs: seq<Byte>)
    requires forall i :: 0 <= i < |ws| ==> ws[i] < WORD
    ensures |bs| == 4 * |ws|
  {
    Pow256Widths();
    if ws == [] then [] else LeBytes(ws[0], 4) + EncodeWords(ws[1..])
  }

  lemma {:induction false} EncodeWordsAt(ws: seq<nat>, i: nat)
    requires forall k :: 0 <= k < |ws| ==> ws[k] < WORD
    requires i < |ws|
    ensures Pow256(4) == WORD && EncodeWords(ws)[4 * i..4 * i + 4] == LeBytes(ws[i], 4)
  {
    Pow256Widths();
    if i > 0 {
      EncodeWordsAt(ws[1..], i - 1);
      assert EncodeWords(ws)[4 * i..4 * i + 4] == EncodeWords(ws[1..])[4 * (i - 1)..4 * (i - 1) + 4];
    }
  }

  lemma SliceOfPrefix(a: seq<Byte>, b: seq<Byte>, lo: nat, hi: nat)
    requires lo <= hi <= |a|
    ensures (a + b)[lo..hi] == a[lo..hi]
  {
    assert forall k :: lo <= k < hi ==> (a + b)[k] == a[k];
  }

  lemma WordsRoundTripAt(ws: seq<nat>, spare: seq<Byte>, i: nat)
    requires forall k :: 0 <= k < |ws| ==> ws[k] < WORD
    requires |spare| < 4 && i < |ws|
    ensures i < |Words(EncodeWords(ws) + spare)| && Words(EncodeWords(ws) + spare)[i] == ws[i]
  {
    var raw := EncodeWords(ws) + spare;
    assert |raw| / 4 == |ws|;
    EncodeWordsAt(ws, i);
    SliceOfPrefix(EncodeWords(ws), spare, 4 * i, 4 * i + 4);
    LeUnsignedOfLeBytes(ws[i], 4);
  }

  /** Reading the words back from their encoding, followed by fewer than four spare
      bytes, gives every word back. */
  lemma WordsRoundTrip(ws: seq<nat>, spare: seq<Byte>)
    requires forall i :: 0 <= i < |ws| ==> ws[i] < WORD
    requires |spare| < 4
    ensures Words(EncodeWords(ws) + spare) == ws
  {
    var got := Words(EncodeWords(ws) + spare);
    assert |got| == |ws|;
    forall i | 0 <= i < |ws|
      ensures got[i] == ws[i]
    {
      WordsRoundTripAt(ws, spare, i);
    }
  }

  /** `w & (2**25 - 1)`: the time field, bits 0..24. */
  function TimeField(w: nat): (t: nat)
    ensures t < TIME_LIMIT
  {
    w % TIME_LIMIT
  }

  /** `(w >> 25) & (2**6 - 1)`: the channel field, bits 25..30. */
  function ChannelField(w: nat): (c: nat)
    ensures c < 64
  {
    (w / TIME_LIMIT) % 64
  }

  /** `((w >> 31) & 1).astype(bool)`: the special bit, bit 31. */
  function SpecialField(w: nat): bool {
    (w / 0x8000_0000) % 2 == 1
  }

  /** The word a writer stores for a time, a channel and a special bit. */
  function PackWord(t: nat, c: nat, special: bool): (w: nat)
    requires t < TIME_LIMIT && c < 64
    ensures w < WORD
  {
    t + TIME_LIMIT * c + (if special then 0x8000_0000 else 0)
  }

  /** The three fields read back what was packed. */
  lemma FieldsOfPackWord(t: nat, c: nat, special: bool)
    requires t < TIME_LIMIT && c < 64
    ensures TimeField(PackWord(t, c, special)) == t
    ensures ChannelField(PackWord(t, c, special)) == c
    ensures SpecialField(PackWord(t, c, special)) == special
  {
    var s := if special then 1 else 0;
    var w := PackWord(t, c, special);
    assert w == t + TIME_LIMIT * (c + 64 * s);
    assert w / TIME_LIMIT == c + 64 * s;
    assert w / 0x8000_0000 == s;
  }

  /** Every 32-bit word is the packing of its three fields, so no bit of a record
      is lost by the split. */
  lemma PackWordOfFields(w: nat)
    requires w < WORD
    ensures PackWord(TimeField(w), ChannelField(w), SpecialField(w)) == w
  {
    var hi := w / TIME_LIMIT;
    assert w == TimeField(w) + TIME_LIMIT * hi;
    assert hi < 128;
    assert hi == ChannelField(w) + 64 * (hi / 64);
    assert w / 0x8000_0000 == hi / 64;
  }

  // ---------------------------------------------------------------------------
  // The T2 loaders
  // ---------------------------------------------------------------------------

  /** The three arrays a T2 loader returns: `timestamps`, `channels`, `specials`. */
  datatype T2Records = T2Records(timestamps: seq<Uint64>, channels: seq<Uint64>, specials: seq<bool>)

  /** The time field of each word, halved (v1.0 counts in half picoseconds) or not. */
  function RawTimes(ws: seq<nat>, halve: bool): (ts: seq<Uint64>)
    ensures |ts| == |ws|
    ensures forall i :: 0 <= i < |ts| ==> ts[i] < (if halve then TIME_LIMIT / 2 else TIME_LIMIT)
  {
    seq(|ws|, i requires 0 <= i < |ws| => if halve then TimeField(ws[i]) / 2 else TimeField(ws[i]))
  }

  /** The channel field of each word. */
  function Channels(ws: seq<nat>): (cs: seq<Uint64>)
    ensures |cs| == |ws|
    ensures forall i :: 0 <= i < |cs| ==> cs[i] < 64
  {
    seq(|ws|, i requires 0 <= i < |ws| => ChannelField(ws[i]))
  }

  /** The special bit of each word. */
  function Specials(ws: seq<nat>): (ss: seq<bool>)
    ensures |ss| == |ws|
  {
    seq(|ws|, i requires 0 <= i < |ws| => SpecialField(ws[i]))
  }

  /** What a T2 loader returns for the record bytes `raw`: the fields of each
      record, with the times corrected for overflow on channel 63. */
  function T2Of(raw: seq<Byte>, halve: bool, overflowValue: nat, nsync: bool): (r: T2Records)
    ensures |r.timestamps| == |r.channels| == |r.specials| == |raw| / 4
  {
    var ws := Words(raw);
    T2Records(Corrected(RawTimes(ws, halve), Channels(ws), OVERFLOW_CHANNEL, overflowValue, nsync),
              Channels(ws), Specials(ws))
  }

  /** `load_v10_t2`: half-picosecond times, half the overflow period, and one
      period per overflow record. */
  function T2V10(raw: seq<Byte>): T2Records {
    T2Of(raw, true, T2_OVERFLOW / 2, false)
  }

  /** `load_v20_t2`: times as stored, the full overflow period, and an overflow
      record's time field counting the periods it stands for. */
  function T2V20(raw: seq<Byte>): T2Records {
    T2Of(raw, false, T2_OVERFLOW, true)
  }

  /** The body shared by both T2 loaders: split every word into its fields, then
      correct the times in place. `spare` is true when the stream has bytes left
      over after its last whole word (the loader then warns). */
  method LoadT2(raw: seq<Byte>, halve: bool, overflowValue: Uint64, nsync: bool)
    returns (records: T2Records, spare: bool)
    ensures spare <==> |raw| % 4 != 0
    ensures records == T2Of(raw, halve, overflowValue, nsync)
  {
    var n := |raw| / 4;
    spare := |raw| - n * 4 != 0;
    var words := Words(raw);
    var timestamps := new Uint64[n](i requires 0 <= i < n => if halve then TimeField(words[i]) / 2 else TimeField(words[i]));
    var channels := new Uint64[n](i requires 0 <= i < n => ChannelField(words[i]));
    var specials := new bool[n](i requires 0 <= i < n => SpecialField(words[i]));
    assert timestamps[..] == RawTimes(words, halve);
    assert channels[..] == Channels(words);
    CorrectOverflow(timestamps, channels, OVERFLOW_CHANNEL, overflowValue, nsync);
    records := T2Records(timestamps[..], channels[..], specials[..]);
  }

  method LoadV10T2(raw: seq<Byte>) returns (records: T2Records, spare: bool)
    ensures spare <==> |raw| % 4 != 0
    ensures records == T2V10(raw)
  {
    records, spare := LoadT2(raw, true, T2_OVERFLOW / 2, false);
  }

  method LoadV20T2(raw: seq<Byte>) returns (records: T2Records, spare: bool)
    ensures spare <==> |raw| % 4 != 0
    ensures records == T2V20(raw)
  {
    records, spare := LoadT2(raw, false, T2_OVERFLOW, true);
  }

  /** Correction touches only the times: each record keeps the channel and the
      special bit of its word, and only records on channel 63 are overflow
      records; the special bit plays no part in that. */
  lemma T2Fields(raw: seq<Byte>, halve: bool, overflowValue: nat, nsync: bool, i: nat)
    requires i < |raw| / 4
    ensures var r := T2Of(raw, halve, overflowValue, nsync);
            && r.channels[i] == ChannelField(Words(raw)[i])
            && r.specials[i] == SpecialField(Words(raw)[i])
            && (OverflowMarks(RawTimes(Words(raw), halve), r.channels, OVERFLOW_CHANNEL, nsync)[i] != 0
                ==> r.channels[i] == OVERFLOW_CHANNEL)
  {
  }

  /** A v2.0 overflow record counting k periods moves every record from it on by
      k full periods, before wrap-around; a v1.0 overflow record moves them by
      one half period (v1.0 times are in half-picosecond units halved). */
  lemma OverflowRecordStep(raw: seq<Byte>, i: nat)
    requires 0 < i < |raw| / 4
    requires ChannelField(Words(raw)[i]) == OVERFLOW_CHANNEL
    ensures var ws := Words(raw);
            Elapsed(RawTimes(ws, false), Channels(ws), OVERFLOW_CHANNEL, true, i)
              == Elapsed(RawTimes(ws, false), Channels(ws), OVERFLOW_CHANNEL, true, i - 1) + TimeField(ws[i])
    ensures var ws := Words(raw);
            Elapsed(RawTimes(ws, true), Channels(ws), OVERFLOW_CHANNEL, false, i)
              == Elapsed(RawTimes(ws, true), Channels(ws), OVERFLOW_CHANNEL, false, i - 1) + 1
  {
    var ws := Words(raw);
    ElapsedStep(RawTimes(ws, false), Channels(ws), OVERFLOW_CHANNEL, true, i);
    ElapsedStep(RawTimes(ws, true), Channels(ws), OVERFLOW_CHANNEL, false, i);
  }

  // ---------------------------------------------------------------------------
  // _loaders and _get_record_loader
  // ---------------------------------------------------------------------------

  /** `_modes["t2"]` and `_modes["t3"]`. */
  const MODE_T2: int := 2
  const MODE_T3: int := 3

  /** "1.0" and "2.0" */
  const V10: seq<Byte> := [0x31, 0x2E, 0x30]
  const V20: seq<Byte> := [0x32, 0x2E, 0x30]

  /** The four entries of `_loaders`. */
  datatype RecordLoader = V10T2 | V10T3 | V20T2 | V20T3

  /** The (version, mode) key each loader is stored under. */
  function KeyOf(l: RecordLoader): (seq<Byte>, int) {
    match l
    case V10T2 => (V10, MODE_T2)
    case V10T3 => (V10, MODE_T3)
    case V20T2 => (V20, MODE_T2)
    case V20T3 => (V20, MODE_T3)
  }

  /** `_get_record_loader`: the loader stored under (version, mode), or
      NotImplementedError for any other key. */
  function GetRecordLoader(version: seq<Byte>, mode: int): (r: Result<RecordLoader>)
    ensures r.Success? ==> KeyOf(r.value) == (version, mode)
    ensures r.Failure? ==> r.error == NotImplemented
    ensures r.Success? <==> (version == V10 || version == V20) && (mode == MODE_T2 || mode == MODE_T3)
  {
    if version == V10 && mode == MODE_T2 then Success(V10T2)
    else if version == V10 && mode == MODE_T3 then Success(V10T3)
    else if version == V20 && mode == MODE_T2 then Success(V20T2)
    else if version == V20 && mode == MODE_T3 then Success(V20T3)
    else Failure(NotImplemented)
  }

  /** Every loader in the table is found under its own key. */
  lemma GetRecordLoaderComplete(l: RecordLoader)
    ensures GetRecordLoader(KeyOf(l).0, KeyOf(l).1) == Success(l)
  {
  }

  /** Running the selected loader on the record bytes: the T2 loaders return their
      records (and whether spare bytes were found), `load_v10_t3` and `load_v20_t3`
      always raise NotImplementedError. */
  method RunRecordLoader(l: RecordLoader, raw: seq<Byte>) returns (r: Result<(T2Records, bool)>)
    ensures l in {V10T3, V20T3} <==> r == Failure(NotImplemented)
    ensures l == V10T2 ==> r == Success((T2V10(raw), |raw| % 4 != 0))
    ensures l == V20T2 ==> r == Success((T2V20(raw), |raw| % 4 != 0))
  {
    match l
    case V10T2 =>
      var records, spare := LoadV10T2(raw);
      r := Success((records, spare));
    case V20T2 =>
      var records, spare := LoadV20T2(raw);
      r := Success((records, spare));
    case V10T3 =>
      r := Failure(NotImplemented);
    case V20T3 =>
      r := Failure(NotImplemented);
  }
}
