/** The package-level helpers of picoquantio: identification of a file by its
    leading magic bytes, the choice of loader for an identity, and the in-place
    overflow correction shared by every time-tagged record decoder. */
module PicoQuant {
  import opened Bytes
  import opened Common

  /** numpy `uint64`, the dtype of timestamps and of the HydraHarp channel array. */
  type Uint64 = x: int | 0 <= x < 0x1_0000_0000_0000_0000

  const U64: nat := 0x1_0000_0000_0000_0000

  /** The (hardware, version) pair read from the magic bytes, with the text kept as
      its NUL-stripped bytes (decoding to `str` is not modelled). */
  datatype Identity = Identity(ident: seq<Byte>, version: seq<Byte>)

  // The magic strings, as their ASCII bytes.
  /** "PQTTTR" */
  const PQTTTR: seq<Byte> := [0x50, 0x51, 0x54, 0x54, 0x54, 0x52]
  /** "PQHIST" */
  const PQHIST: seq<Byte> := [0x50, 0x51, 0x48, 0x49, 0x53, 0x54]
  /** "PicoHarp 300" */
  const PICOHARP_300: seq<Byte> := [0x50, 0x69, 0x63, 0x6F, 0x48, 0x61, 0x72, 0x70, 0x20, 0x33, 0x30, 0x30]
  /** "TimeHarp 200" */
  const TIMEHARP_200: seq<Byte> := [0x54, 0x69, 0x6D, 0x65, 0x48, 0x61, 0x72, 0x70, 0x20, 0x32, 0x30, 0x30]
  /** "HydraHarp" */
  const HYDRAHARP: seq<Byte> := [0x48, 0x79, 0x64, 0x72, 0x61, 0x48, 0x61, 0x72, 0x70]

  /** Python slicing `s[lo:hi]`, which clips its bounds to the sequence. */
  function Slice(s: seq<Byte>, lo: nat, hi: nat): (r: seq<Byte>)
    ensures |r| <= |s| && (lo <= hi <= |s| ==> r == s[lo..hi])
  {
    var h := if hi <= |s| then hi else |s|;
    var l := if lo <= h then lo else h;
    s[l..h]
  }

  // ---------------------------------------------------------------------------
  // _identify_by_header
  // ---------------------------------------------------------------------------

  /** `_identify_by_header` over the bytes at the start of the file: a unified file is
      recognised by its first six bytes, a legacy file by its whole 16-byte ident. */
  function IdentifyByHeader(file: seq<Byte>): (r: Result<Identity>)
    ensures r.Failure? <==>
              !(|file| >= 6 && file[..6] in {PQHIST, PQTTTR})
              && RStripNul(Slice(file, 0, 16)) !in {PICOHARP_300, TIMEHARP_200, HYDRAHARP}
    ensures r.Failure? ==> r.error == UnrecognizedFormat
  {
    var raw := Slice(file, 0, 16);
    assert |file| >= 6 ==> raw[..6] == file[..6];
    if |raw| >= 6 && raw[..6] in {PQHIST, PQTTTR} then
      Success(Identity(RStripNul(Slice(raw, 0, 8)), RStripNul(Slice(raw, 8, 16))))
    else if RStripNul(raw) in {PICOHARP_300, TIMEHARP_200, HYDRAHARP} then
      Success(Identity(RStripNul(raw), RStripNul(Slice(file, 16, 22))))
    else
      Failure(UnrecognizedFormat)
  }

  /** A unified file whose 16 magic bytes are an 8-byte ident and an 8-byte version,
      each NUL padded, is identified as exactly that pair. */
  lemma IdentifyUnified(ident: seq<Byte>, version: seq<Byte>, rest: seq<Byte>)
    requires ident in {PQTTTR, PQHIST}
    requires |version| <= 8 && NoTrailingNul(version)
    ensures IdentifyByHeader(Pad(ident, 8) + Pad(version, 8) + rest) == Success(Identity(ident, version))
  {
    var file := Pad(ident, 8) + Pad(version, 8) + rest;
    var raw := Slice(file, 0, 16);
    assert raw == file[..16];
    assert raw[..6] == ident;
    assert Slice(raw, 0, 8) == ident + Zeros(2);
    assert Slice(raw, 8, 16) == version + Zeros(8 - |version|);
    RStripPadded(ident, 2);
    RStripPadded(version, 8 - |version|);
  }

  /** The fields of a legacy magic block, as `_identify_by_header` slices them. */
  lemma LegacyFields(ident: seq<Byte>, version: seq<Byte>, rest: seq<Byte>)
    requires ident in {PICOHARP_300, TIMEHARP_200, HYDRAHARP}
    requires |version| <= 6 && NoTrailingNul(version)
    ensures var file := Pad(ident, 16) + Pad(version, 6) + rest;
            && Slice(file, 0, 16)[..6] !in {PQHIST, PQTTTR}
            && RStripNul(Slice(file, 0, 16)) == ident
            && RStripNul(Slice(file, 16, 22)) == version
  {
    var file := Pad(ident, 16) + Pad(version, 6) + rest;
    assert Slice(file, 0, 16) == ident + Zeros(16 - |ident|);
    assert ident[1] != 0x51 by {
      if ident == PICOHARP_300 {} else if ident == TIMEHARP_200 {} else {}
    }
    assert Slice(file, 0, 16)[..6][1] == ident[1];
    RStripPadded(ident, 16 - |ident|);
    assert Slice(file, 16, 22) == version + Zeros(6 - |version|);
    RStripPadded(version, 6 - |version|);
  }

  /** A legacy file with a NUL-padded 16-byte hardware ident followed by a NUL-padded
      6-byte format version is identified as that pair. */
  lemma IdentifyLegacy(ident: seq<Byte>, version: seq<Byte>, rest: seq<Byte>)
    requires ident in {PICOHARP_300, TIMEHARP_200, HYDRAHARP}
    requires |version| <= 6 && NoTrailingNul(version)
    ensures IdentifyByHeader(Pad(ident, 16) + Pad(version, 6) + rest) == Success(Identity(ident, version))
  {
    LegacyFields(ident, version, rest);
  }

  // ---------------------------------------------------------------------------
  // _get_loader
  // ---------------------------------------------------------------------------

  /** The loaders `_get_loader` can return: `unified.load_ptu`, `picoharp.load`,
      `timeharp.load` and `hydraharp._load_hxx`. */
  datatype Loader = LoadPtu | PicoHarpLoad | TimeHarpLoad | HydraHarpLoadHxx

  /** The identity string each loader is registered for. */
  function LoaderIdent(l: Loader): seq<Byte> {
    match l
    case LoadPtu => PQTTTR
    case PicoHarpLoad => PICOHARP_300
    case TimeHarpLoad => TIMEHARP_200
    case HydraHarpLoadHxx => HYDRAHARP
  }

  /** `_get_loader`: the loader for the identity's hardware string; the unified
      histogram format is known but not implemented; anything else has no loader. */
  function GetLoader(id: Identity): (r: Result<Loader>)
    ensures r.Success? ==> LoaderIdent(r.value) == id.ident
    ensures r.Failure? ==> r.error == (if id.ident == PQHIST then NotImplemented else NoLoader)
  {
    if id.ident == PQTTTR then Success(LoadPtu)
    else if id.ident == PQHIST then Failure(NotImplemented)
    else if id.ident == PICOHARP_300 then Success(PicoHarpLoad)
    else if id.ident == TIMEHARP_200 then Success(TimeHarpLoad)
    else if id.ident == HYDRAHARP then Success(HydraHarpLoadHxx)
    else Failure(NoLoader)
  }

  /** Every loader is reached from its own identity, whatever the version. */
  lemma GetLoaderComplete(l: Loader, version: seq<Byte>)
    ensures GetLoader(Identity(LoaderIdent(l), version)) == Success(l)
  {
  }

  /** Six to eight bytes strip to `PQTTTR` exactly when they are `PQTTTR` and NULs. */
  lemma StripsToPtu(head: seq<Byte>)
    requires 6 <= |head| <= 8
    ensures RStripNul(head) == PQTTTR <==> head in {PQTTTR, PQTTTR + [0], PQTTTR + [0, 0]}
  {
    if head in {PQTTTR, PQTTTR + [0], PQTTTR + [0, 0]} {
      assert head == PQTTTR + Zeros(|head| - 6);
      RStripPadded(PQTTTR, |head| - 6);
    }
    if RStripNul(head) == PQTTTR {
      assert head[..6] == PQTTTR;
      if |head| == 7 {
        assert head == PQTTTR + [0];
      } else if |head| == 8 {
        assert head == PQTTTR + [0, 0];
      }
    }
  }

  /** Identification followed by dispatch selects the unified loader exactly for
      files whose first eight bytes (or all of a shorter file) are `PQTTTR`
      followed only by NUL bytes. */
  lemma IdentifiedAsPtu(file: seq<Byte>)
    requires IdentifyByHeader(file).Success?
    ensures GetLoader(IdentifyByHeader(file).value) == Success(LoadPtu)
            <==> Slice(file, 0, 8) in {PQTTTR, PQTTTR + [0], PQTTTR + [0, 0]}
  {
    var raw := Slice(file, 0, 16);
    var head := Slice(file, 0, 8);
    assert Slice(raw, 0, 8) == head;
    if |raw| >= 6 && raw[..6] in {PQHIST, PQTTTR} {
      StripsToPtu(head);
    } else {
      assert RStripNul(raw) != PQTTTR;
      assert head !in {PQTTTR, PQTTTR + [0], PQTTTR + [0, 0]} by {
        if |head| >= 6 {
          assert head[..6] == raw[..6];
        }
      }
    }
  }

  // ---------------------------------------------------------------------------
  // _correct_overflow
  // ---------------------------------------------------------------------------

  /** `cum_overflows` before the cumulative sum: zero except at records on the
      overflow channel, which hold 1, or their own timestamp when `nsync` is set. */
  function OverflowMarks(ts: seq<Uint64>, ch: seq<Uint64>, oc: int, nsync: bool): (marks: seq<Uint64>)
    requires |ts| == |ch|
    ensures |marks| == |ts|
  {
    seq(|ts|, j requires 0 <= j < |ts| => if ch[j] == oc then (if nsync then ts[j] else 1) else 0)
  }

  function Sum(s: seq<nat>): nat {
    if s == [] then 0 else Sum(s[..|s| - 1]) + s[|s| - 1]
  }

  /** Overflow periods elapsed as of and including record i: the exact (unwrapped)
      value of `np.cumsum(cum_overflows)[i]`. */
  function Elapsed(ts: seq<Uint64>, ch: seq<Uint64>, oc: int, nsync: bool, i: nat): nat
    requires |ts| == |ch| && i < |ts|
  {
    Sum(OverflowMarks(ts, ch, oc, nsync)[..i + 1])
  }

  /** The absolute time of record i in exact arithmetic. */
  function Absolute(ts: seq<Uint64>, ch: seq<Uint64>, oc: int, ov: nat, nsync: bool, i: nat): nat
    requires |ts| == |ch| && i < |ts|
  {
    ts[i] + ov * Elapsed(ts, ch, oc, nsync, i)
  }

  /** The timestamps after `_correct_overflow`: every uint64 operation wraps, so each
      record holds its absolute time modulo 2^64. */
  function Corrected(ts: seq<Uint64>, ch: seq<Uint64>, oc: int, ov: nat, nsync: bool): (r: seq<Uint64>)
    requires |ts| == |ch|
    ensures |r| == |ts|
  {
    seq(|ts|, i requires 0 <= i < |ts| => Absolute(ts, ch, oc, ov, nsync, i) % U64)
  }

  lemma ModAddMod(a: int, b: int)
    ensures (a + b % U64) % U64 == (a + b) % U64
  {
  }

  /** One uint64 step of `timestamps += cum_overflows * overflow_value`, where the
      running sum was itself kept modulo 2^64. */
  lemma WrappedAddScaled(t: Uint64, total: nat, v: Uint64)
    ensures (t + ((total % U64) * v) % U64) % U64 == (t + v * total) % U64
  {
    var r, q := total % U64, total / U64;
    assert v * total == r * v + (q * v) * U64 by {
      assert total == q * U64 + r;
    }
    ModAddMod(t, r * v);
    ModShift(t + r * v, q * v);
  }

  lemma ModShift(a: int, k: int)
    ensures (a + k * U64) % U64 == a % U64
  {
  }

  /** `cum_overflows = np.zeros(...)` followed by the assignment at `overflow_index`. */
  method MarkOverflows(timestamps: array<Uint64>, channels: array<Uint64>, overflowChannel: int, nsync: bool)
    returns (cum: array<Uint64>)
    requires channels.Length == timestamps.Length
    ensures fresh(cum)
    ensures cum[..] == OverflowMarks(timestamps[..], channels[..], overflowChannel, nsync)
  {
    var n := timestamps.Length;
    cum := new Uint64[n](_ => 0);
    for j := 0 to n
      invariant forall k :: 0 <= k < j ==> cum[k] == OverflowMarks(timestamps[..], channels[..], overflowChannel, nsync)[k]
      invariant forall k :: j <= k < n ==> cum[k] == 0
    {
      if channels[j] == overflowChannel {
        cum[j] := if nsync then timestamps[j] else 1;
      }
    }
  }

  /** `np.cumsum(a, out=a)` on a uint64 array: each element becomes the running
      total up to and including itself, modulo 2^64. */
  method CumulativeSumInPlace(a: array<Uint64>)
    modifies a
    ensures forall k :: 0 <= k < a.Length ==> a[k] == Sum(old(a[..])[..k + 1]) % U64
  {
    ghost var s: seq<nat> := a[..];
    if a.Length == 0 {
      return;
    }
    assert s[..1] == [s[0]];
    for j := 1 to a.Length
      invariant forall k :: 0 <= k < j ==> a[k] == Sum(s[..k + 1]) % U64
      invariant forall k :: j <= k < a.Length ==> a[k] == s[k]
    {
      assert s[..j + 1][..j] == s[..j];
      ModAddMod(s[j], Sum(s[..j]));
      a[j] := (a[j - 1] + a[j]) % U64;
    }
  }

  /** `_correct_overflow`: marks the overflow records in a zeroed work array, takes
      its running sum in place, and adds `overflow_value` times it to every
      timestamp, all in uint64. Only the timestamp array changes. */
  method CorrectOverflow(timestamps: array<Uint64>, channels: array<Uint64>,
                         overflowChannel: int, overflowValue: Uint64, nsync: bool)
    requires channels.Length == timestamps.Length && channels != timestamps
    modifies timestamps
    ensures timestamps[..] == Corrected(old(timestamps[..]), channels[..], overflowChannel, overflowValue, nsync)
  {
    ghost var ts := timestamps[..];
    ghost var marks: seq<nat> := OverflowMarks(ts, channels[..], overflowChannel, nsync);
    var cum := MarkOverflows(timestamps, channels, overflowChannel, nsync);
    CumulativeSumInPlace(cum);
    assert forall k :: 0 <= k < cum.Length ==> cum[k] == Sum(marks[..k + 1]) % U64;
    for j := 0 to timestamps.Length
      modifies timestamps
      invariant forall k :: 0 <= k < j ==>
        timestamps[k] == Absolute(ts, channels[..], overflowChannel, overflowValue, nsync, k) % U64
      invariant forall k :: j <= k < timestamps.Length ==> timestamps[k] == ts[k]
    {
      assert cum[j] == Sum(marks[..j + 1]) % U64;
      WrappedAddScaled(ts[j], Sum(marks[..j + 1]), overflowValue);
      timestamps[j] := (timestamps[j] + (cum[j] * overflowValue) % U64) % U64;
    }
  }

  // ---------------------------------------------------------------------------
  // What the correction means
  // ---------------------------------------------------------------------------

  /** Without wrap-around, the corrected timestamp is the raw one plus
      `overflow_value` times the running overflow total. */
  lemma CorrectedWithoutWrap(ts: seq<Uint64>, ch: seq<Uint64>, oc: int, ov: nat, nsync: bool, i: nat)
    requires |ts| == |ch| && i < |ts|
    requires Absolute(ts, ch, oc, ov, nsync, i) < U64
    ensures Corrected(ts, ch, oc, ov, nsync)[i] == ts[i] + ov * Elapsed(ts, ch, oc, nsync, i)
  {
  }

  /** The running sum of non-negative marks never decreases. */
  lemma {:induction false} SumPrefixMonotone(s: seq<nat>, i: nat, j: nat)
    requires i <= j <= |s|
    ensures Sum(s[..i]) <= Sum(s[..j])
  {
    if i < j {
      SumPrefixMonotone(s, i, j - 1);
      assert s[..j][..j - 1] == s[..j - 1];
    }
  }

  /** The amount added to a record never decreases along the stream. */
  lemma OffsetNonDecreasing(ts: seq<Uint64>, ch: seq<Uint64>, oc: int, ov: nat, nsync: bool, i: nat, j: nat)
    requires |ts| == |ch| && i <= j < |ts|
    ensures Elapsed(ts, ch, oc, nsync, i) <= Elapsed(ts, ch, oc, nsync, j)
    ensures ov * Elapsed(ts, ch, oc, nsync, i) <= ov * Elapsed(ts, ch, oc, nsync, j)
  {
    SumPrefixMonotone(OverflowMarks(ts, ch, oc, nsync), i + 1, j + 1);
  }

  /** The sum is inclusive: a record's elapsed total is its predecessor's plus its own mark. */
  lemma ElapsedStep(ts: seq<Uint64>, ch: seq<Uint64>, oc: int, nsync: bool, i: nat)
    requires |ts| == |ch| && 0 < i < |ts|
    ensures Elapsed(ts, ch, oc, nsync, i)
            == Elapsed(ts, ch, oc, nsync, i - 1) + OverflowMarks(ts, ch, oc, nsync)[i]
  {
    var marks := OverflowMarks(ts, ch, oc, nsync);
    assert marks[..i + 1][..i] == marks[..i];
  }

  /** Number of records among `ch` on channel `oc`. */
  function CountChannel(ch: seq<Uint64>, oc: int): nat {
    if ch == [] then 0 else CountChannel(ch[..|ch| - 1], oc) + (if ch[|ch| - 1] == oc then 1 else 0)
  }

  /** Without `nsync`, the marks up to record k add up to the number of overflow records. */
  lemma {:induction false} MarksCountOverflows(ts: seq<Uint64>, ch: seq<Uint64>, oc: int, k: nat)
    requires |ts| == |ch| && k <= |ts|
    ensures Sum(OverflowMarks(ts, ch, oc, false)[..k]) == CountChannel(ch[..k], oc)
  {
    if k > 0 {
      MarksCountOverflows(ts, ch, oc, k - 1);
      assert OverflowMarks(ts, ch, oc, false)[..k][..k - 1] == OverflowMarks(ts, ch, oc, false)[..k - 1];
      assert ch[..k][..k - 1] == ch[..k - 1];
    }
  }

  /** The raw timestamps of the overflow records, in stream order. */
  function OverflowCounts(ts: seq<Uint64>, ch: seq<Uint64>, oc: int): seq<nat>
    requires |ts| == |ch|
  {
    if ts == [] then []
    else OverflowCounts(ts[..|ts| - 1], ch[..|ch| - 1], oc)
         + (if ch[|ch| - 1] == oc then [ts[|ts| - 1] as nat] else [])
  }

  lemma {:induction false} SumAppend(s: seq<nat>, t: seq<nat>)
    ensures Sum(s + t) == Sum(s) + Sum(t)
  {
    if t == [] {
      assert s + t == s;
    } else {
      SumAppend(s, t[..|t| - 1]);
      assert (s + t)[..|s + t| - 1] == s + t[..|t| - 1];
      assert (s + t)[|s + t| - 1] == t[|t| - 1];
    }
  }

  /** With `nsync`, the marks up to record k add up to the counts carried by the
      overflow records themselves, taken before correction. */
  lemma {:induction false} MarksSumOverflowCounts(ts: seq<Uint64>, ch: seq<Uint64>, oc: int, k: nat)
    requires |ts| == |ch| && k <= |ts|
    ensures Sum(OverflowMarks(ts, ch, oc, true)[..k]) == Sum(OverflowCounts(ts[..k], ch[..k], oc))
  {
    if k > 0 {
      MarksSumOverflowCounts(ts, ch, oc, k - 1);
      assert OverflowMarks(ts, ch, oc, true)[..k][..k - 1] == OverflowMarks(ts, ch, oc, true)[..k - 1];
      assert ts[..k][..k - 1] == ts[..k - 1];
      assert ch[..k][..k - 1] == ch[..k - 1];
      var tail: seq<nat> := if ch[k - 1] == oc then [ts[k - 1] as nat] else [];
      SumAppend(OverflowCounts(ts[..k - 1], ch[..k - 1], oc), tail);
    }
  }

  /** Records up to and including record i keep their raw timestamp when none of
      them is on the overflow channel. */
  lemma {:induction false} UnchangedBeforeFirstOverflow(ts: seq<Uint64>, ch: seq<Uint64>, oc: int, ov: nat, nsync: bool, i: nat)
    requires |ts| == |ch| && i < |ts|
    requires forall j :: 0 <= j <= i ==> ch[j] != oc
    ensures Elapsed(ts, ch, oc, nsync, i) == 0
    ensures Corrected(ts, ch, oc, ov, nsync)[i] == ts[i]
  {
    if i == 0 {
      assert OverflowMarks(ts, ch, oc, nsync)[..1][..0] == [];
    } else {
      UnchangedBeforeFirstOverflow(ts, ch, oc, ov, nsync, i - 1);
      ElapsedStep(ts, ch, oc, nsync, i);
    }
  }

  /** Photon records come out in time order: if every non-overflow raw timestamp is
      below the overflow period, and photons within one overflow period arrive in
      order, then the absolute times of the photon records never decrease. */
  lemma PhotonTimesNonDecreasing(ts: seq<Uint64>, ch: seq<Uint64>, oc: int, ov: nat, nsync: bool, p: nat, q: nat)
    requires |ts| == |ch| && p <= q < |ts|
    requires ch[p] != oc && ch[q] != oc
    requires ts[p] < ov
    requires Elapsed(ts, ch, oc, nsync, p) == Elapsed(ts, ch, oc, nsync, q) ==> ts[p] <= ts[q]
    ensures Absolute(ts, ch, oc, ov, nsync, p) <= Absolute(ts, ch, oc, ov, nsync, q)
  {
    var ep, eq := Elapsed(ts, ch, oc, nsync, p), Elapsed(ts, ch, oc, nsync, q);
    OffsetNonDecreasing(ts, ch, oc, ov, nsync, p, q);
    if ep < eq {
      assert ov * eq >= ov * (ep + 1);
    }
  }
}
