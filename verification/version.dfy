/**
 * Choosing the version (`#getVersion` in packages/core/src/qr.ts). The
 * three character-count regimes (versions up to 9, up to 26, up to 40) are
 * tried in order. Each regime optimizes the segments with its own count
 * widths and measures them: a mix of segments in bits, a single segment in
 * characters (bytes for Byte). If the measure fits the regime's largest
 * version, the versions from the regime's start upwards are tried and the
 * first that holds the measure is chosen. Version 0 means that no regime
 * holds the input.
 */
module Version {
  import opened Types
  import opened Constants
  import opened Utils
  import opened Segmentation
  import opened Codeword

  /** The bits a mix of segments needs in regime `cc`: per segment a mode indicator, a count field and the payload. */
  function MixedBits(segs: seq<Segment>, cc: nat): nat
    requires cc < 3
  {
    if |segs| == 0 then 0
    else ModeIndicatorBits + CharacterCountIndicator(segs[0].mode)[cc] + BitsLength(segs[0]) + MixedBits(segs[1..], cc)
  }

  /** `bitSize`: bits for a mix of segments; characters (UTF-8 bytes for Byte) for a single one. */
  function BitSize(segs: seq<Segment>, cc: nat): nat
    requires |segs| > 0 && cc < 3
  {
    if |segs| > 1 then MixedBits(segs, cc)
    else if segs[0].mode == Byte then |EncodedSegmentData(segs[0])|
    else |segs[0].value|
  }

  /** The capacity question the measure is asked against: `Mixed` or the single segment's mode. */
  function Measure(segs: seq<Segment>): CapacityMode
    requires |segs| > 0
  {
    if |segs| > 1 then Mixed else Single(segs[0].mode)
  }

  /** The first version the inner loop of regime `cc` tries: `CHARACTER_COUNT_MAX_VERSION[ccIndex - 1] || 1`. */
  function RegimeStart(cc: nat): nat
    requires cc < 3
  {
    if cc == 0 then 1 else CharacterCountMaxVersion[cc - 1]
  }

  /** `getOptimizedSegments` with regime `cc`'s count widths. */
  function Regime(basic: seq<Segment>, cc: nat): (segs: seq<Segment>)
    requires |basic| > 0 && AllCarried(basic) && cc < 3
    ensures Encoded(segs) && Concat(segs) == Concat(basic)
  {
    OptimizedSegmentsCorrect(basic, cc);
    OptimizedSegments(basic, cc)
  }

  /** The segments each regime would encode the runs as. */
  function Regimes(basic: seq<Segment>): (rs: seq<seq<Segment>>)
    requires |basic| > 0 && AllCarried(basic)
    ensures Encodings(rs) && SameText(rs, Concat(basic))
  {
    var r0, r1, r2 := Regime(basic, 0), Regime(basic, 1), Regime(basic, 2);
    EncodingsOf(r0, r1, r2, Concat(basic));
    [r0, r1, r2]
  }

  lemma EncodingsOf(r0: seq<Segment>, r1: seq<Segment>, r2: seq<Segment>, text: string)
    requires Encoded(r0) && Encoded(r1) && Encoded(r2)
    requires Concat(r0) == text && Concat(r1) == text && Concat(r2) == text
    ensures Encodings([r0, r1, r2]) && SameText([r0, r1, r2], text)
  {
  }

  /** Every list of segments spells out `text`. */
  predicate SameText(rs: seq<seq<Segment>>, text: string)
  {
    forall cc | 0 <= cc < |rs| :: Concat(rs[cc]) == text
  }

  /** One non-empty, encodable list of segments per regime. */
  predicate Encodings(rs: seq<seq<Segment>>)
  {
    |rs| == 3 && forall cc | 0 <= cc < 3 :: Encoded(rs[cc])
  }

  /** A non-empty list of segments, each of which its mode can encode. */
  predicate Encoded(segs: seq<Segment>)
  {
    |segs| > 0 && AllCarried(segs)
  }

  /** `u` is a version that holds regime `cc`'s segments as that regime measures them. */
  predicate FitsIn(rs: seq<seq<Segment>>, ec: EcLevel, cc: nat, u: nat)
    requires Encodings(rs) && cc < 3
  {
    ValidVersion(u) && BitSize(rs[cc], cc) <= Capacity(u, ec, Measure(rs[cc]))
  }

  /** The inner loop: the first version from `lo` to `hi` whose capacity holds `bits`, or 0. */
  function FirstFit(lo: nat, hi: nat, ec: EcLevel, mode: CapacityMode, bits: nat): (v: nat)
    requires 1 <= lo && hi <= MaxVersion
    ensures v != 0 ==> lo <= v <= hi && bits <= Capacity(v, ec, mode)
    ensures forall u | lo <= u <= hi && (v == 0 || u < v) :: bits > Capacity(u, ec, mode)
    decreases hi + 1 - lo
  {
    if lo > hi then 0
    else if bits <= Capacity(lo, ec, mode) then lo
    else FirstFit(lo + 1, hi, ec, mode, bits)
  }

  /**
   * One turn of the outer loop: the gate on the regime's largest version,
   * then the inner loop over the regime's versions. The result is the first
   * version of the regime that holds the regime's segments, or 0 when none
   * does.
   */
  function RegimeFit(rs: seq<seq<Segment>>, ec: EcLevel, cc: nat): (v: nat)
    requires Encodings(rs) && cc < 3
    ensures v != 0 ==> RegimeStart(cc) <= v <= CharacterCountMaxVersion[cc] && FitsIn(rs, ec, cc, v)
    ensures forall u | RegimeStart(cc) <= u <= CharacterCountMaxVersion[cc] && (v == 0 || u < v) :: !FitsIn(rs, ec, cc, u)
  {
    var segs := rs[cc];
    var maxVersion := CharacterCountMaxVersion[cc];
    var bits := BitSize(segs, cc);
    var mode := Measure(segs);
    CapacityBelow(maxVersion, ec, mode);
    if bits <= Capacity(maxVersion, ec, mode) then FirstFit(RegimeStart(cc), maxVersion, ec, mode, bits) else 0
  }

  /** The outer loop from regime `cc` on: it stops at the first version found, and after the last regime. */
  function Scan(rs: seq<seq<Segment>>, ec: EcLevel, cc: nat): (r: (nat, seq<Segment>))
    requires Encodings(rs) && cc < 3
    decreases 3 - cc
  {
    var v := RegimeFit(rs, ec, cc);
    if v != 0 || cc == 2 then (v, rs[cc]) else Scan(rs, ec, cc + 1)
  }

  /**
   * `#getVersion`, given each regime's segments `rs` (`Regimes`): the
   * version chosen, and the segments of the last regime tried
   * (`this.segments`).
   */
  function GetVersion(rs: seq<seq<Segment>>, ec: EcLevel): (nat, seq<Segment>)
    requires Encodings(rs)
  {
    Scan(rs, ec, 0)
  }

  // ---------------------------------------------------------------- the capacity grows with the version

  /** Euclidean division by a positive divisor is monotone. */
  lemma DivMonotone(a: int, b: int, d: int)
    requires a <= b && d > 0
    ensures a / d <= b / d
  {
    var p, q := a / d, b / d;
    assert d * (p - q) < d by {
      assert d * p + a % d == a && d * q + b % d == b;
      assert d * (p - q) == d * p - d * q;
    }
    ProductBelowFactor(d, p - q);
  }

  /** A multiple of a positive `d` that is below `d` has a factor below 1. */
  lemma ProductBelowFactor(d: int, k: int)
    requires d > 0 && d * k < d
    ensures k < 1
  {
    assert d * (k - 1) < 0 by {
      assert d * (k - 1) == d * k - d;
    }
  }

  /** The count field widens by at most a byte from one version to the next. */
  lemma CciStep(m: Mode, u: nat)
    ensures CharCountIndicator(m, u + 1) <= CharCountIndicator(m, u) + 8
  {
    var i, j := CciIndex(u), CciIndex(u + 1);
    assert i <= j <= i + 1;
    var w := CharacterCountIndicator(m);
    assert w[1] <= w[0] + 8 && w[2] <= w[1] + 8;
  }

  /** A larger version holds at least as much, for every capacity question. */
  lemma CapacityStep(u: nat, ec: EcLevel, mode: CapacityMode)
    requires 1 <= u < MaxVersion
    ensures Capacity(u, ec, mode) <= Capacity(u + 1, ec, mode)
  {
    DataCodewordsGrow(u, ec);
    if mode.Single? {
      var m := mode.mode;
      var a := DataBits(u, ec) - (CharCountIndicator(m, u) + ModeIndicatorBits);
      var b := DataBits(u + 1, ec) - (CharCountIndicator(m, u + 1) + ModeIndicatorBits);
      CciStep(m, u);
      assert a <= b;
      DivMonotone(a * 3, b * 3, 10);
      DivMonotone(a * 2, b * 2, 11);
      DivMonotone(a, b, 13);
      DivMonotone(a, b, 8);
    }
  }

  lemma {:induction false} CapacityMonotone(u: nat, w: nat, ec: EcLevel, mode: CapacityMode)
    requires 1 <= u <= w <= MaxVersion
    ensures Capacity(u, ec, mode) <= Capacity(w, ec, mode)
    decreases w - u
  {
    if u < w {
      CapacityStep(u, ec, mode);
      CapacityMonotone(u + 1, w, ec, mode);
    }
  }

  /** No version up to `w` holds more than `w`. */
  lemma CapacityBelow(w: nat, ec: EcLevel, mode: CapacityMode)
    requires 1 <= w <= MaxVersion
    ensures forall u | 1 <= u <= w :: Capacity(u, ec, mode) <= Capacity(w, ec, mode)
  {
    forall u | 1 <= u <= w
      ensures Capacity(u, ec, mode) <= Capacity(w, ec, mode)
    {
      CapacityMonotone(u, w, ec, mode);
    }
  }

  // ---------------------------------------------------------------- what the search returns

  /** The regime ranges cover the versions, overlapping at 9 and 26. */
  lemma RegimeRanges(cc: nat)
    requires cc < 3
    ensures 1 <= RegimeStart(cc) <= CharacterCountMaxVersion[cc] <= MaxVersion
    ensures cc > 0 ==> RegimeStart(cc) == CharacterCountMaxVersion[cc - 1]
  {
  }

  /**
   * The scan from regime `cc` on: it stops in some regime `last`; a
   * version it returns is the first of that regime's range that holds that
   * regime's segments; every version of an earlier regime, and every
   * version of `last` below the one returned, does not hold them; and it
   * returns 0 only when no version of any regime from `cc` on holds them.
   */
  lemma {:induction false} ScanSpec(rs: seq<seq<Segment>>, ec: EcLevel, cc: nat) returns (last: nat)
    requires Encodings(rs) && cc < 3
    ensures cc <= last < 3
    ensures Scan(rs, ec, cc).1 == rs[last]
    ensures var v := Scan(rs, ec, cc).0;
      && (v != 0 ==> RegimeStart(last) <= v <= CharacterCountMaxVersion[last] && FitsIn(rs, ec, last, v))
      && (v == 0 ==> last == 2)
      && (forall c, u | cc <= c <= last && RegimeStart(c) <= u <= CharacterCountMaxVersion[c] && (c < last || v == 0 || u < v)
            :: !FitsIn(rs, ec, c, u))
    decreases 3 - cc
  {
    RegimeRanges(cc);
    var v := RegimeFit(rs, ec, cc);
    if v != 0 || cc == 2 {
      last := cc;
    } else {
      last := ScanSpec(rs, ec, cc + 1);
    }
  }

  /**
   * `#getVersion`: in the regime `last` where the scan stops, a version it
   * returns holds the segments it returns, and every version scanned before
   * it (in this regime or an earlier one) does not hold that regime's
   * segments; it returns 0 only when no version of any regime holds them.
   */
  lemma GetVersionSpec(rs: seq<seq<Segment>>, ec: EcLevel) returns (last: nat)
    requires Encodings(rs)
    ensures last < 3
    ensures var (v, segs) := GetVersion(rs, ec);
      && segs == rs[last]
      && (v != 0 ==> RegimeStart(last) <= v <= CharacterCountMaxVersion[last] && FitsIn(rs, ec, last, v))
      && (v == 0 ==> forall c, u | 0 <= c < 3 && RegimeStart(c) <= u <= CharacterCountMaxVersion[c] :: !FitsIn(rs, ec, c, u))
      && (forall c, u | 0 <= c <= last && RegimeStart(c) <= u <= CharacterCountMaxVersion[c] && (c < last || u < v)
            :: !FitsIn(rs, ec, c, u))
  {
    last := ScanSpec(rs, ec, 0);
  }

  /**
   * The version chosen holds the data: the segments kept, written with that
   * version's count widths, take no more bits than the version's data
   * codewords hold.
   */
  lemma VersionHoldsData(rs: seq<seq<Segment>>, ec: EcLevel)
    requires Encodings(rs)
    ensures var (v, segs) := GetVersion(rs, ec);
      v != 0 ==> ValidVersion(v) && |SegmentsStream(segs, v)| <= DataBits(v, ec)
  {
    var last := GetVersionSpec(rs, ec);
    var (v, segs) := GetVersion(rs, ec);
    if v != 0 {
      RegimeRanges(last);
      FitHolds(segs, last, v, ec);
    }
  }

  /**
   * A measure that fits is a stream that fits: when version `v` belongs to
   * regime `cc` or an earlier one and holds the segments as regime `cc`
   * measures them, their bit stream fits the version's data codewords.
   */
  lemma FitHolds(segs: seq<Segment>, cc: nat, v: nat, ec: EcLevel)
    requires Encoded(segs) && cc < 3 && ValidVersion(v) && CciIndex(v) <= cc
    requires BitSize(segs, cc) <= Capacity(v, ec, Measure(segs))
    ensures |SegmentsStream(segs, v)| <= DataBits(v, ec)
  {
    if |segs| > 1 {
      StreamWithin(segs, v, cc);
    } else {
      var seg := segs[0];
      assert segs == [seg];
      assert Carries(seg.value, seg.mode);
      SegmentStreamLength(seg, v);
      assert SegmentsStream(segs, v) == SegmentStream(seg, v) + SegmentsStream([], v);
      var n := if seg.mode == Byte then |EncodedSegmentData(seg)| else |seg.value|;
      CapacityExact(v, ec, seg.mode, n);
    }
  }

  /** Written with a version's count widths, segments take no more bits than a mix of them measures in a regime at least that version's. */
  lemma {:induction false} StreamWithin(segs: seq<Segment>, v: nat, cc: nat)
    requires AllCarried(segs) && cc < 3 && CciIndex(v) <= cc
    ensures |SegmentsStream(segs, v)| <= MixedBits(segs, cc)
  {
    if |segs| > 0 {
      assert AllCarried(segs[1..]) by {
        assert forall i | 0 <= i < |segs| - 1 :: segs[1..][i] == segs[i + 1];
      }
      StreamWithin(segs[1..], v, cc);
      assert Carries(segs[0].value, segs[0].mode);
      SegmentStreamLength(segs[0], v);
      CciWidthsMonotone(segs[0].mode, CciIndex(v), cc);
    }
  }
}
