/** The reference score: gates, a weighted sum of features less a coverage penalty, a piecewise-linear
    calibration, and a confidence interval. */
module Score {
  import opened Wrappers
  import opened Text
  import opened Bps
  import opened Sorting

  // ---------- Calibration ----------

  datatype Point = Point(raw: int, calibrated: int)

  function ClampPoint(p: Point): Point {
    Point(ClampBps(p.raw), ClampBps(p.calibrated))
  }

  function Raw(p: Point): int {
    p.raw
  }

  function ClampAll(points: seq<Point>): (r: seq<Point>)
    ensures |r| == |points|
    ensures forall i | 0 <= i < |points| ::
      r[i].raw == ClampBps(points[i].raw) && r[i].calibrated == ClampBps(points[i].calibrated)
    ensures forall p | p in r :: 0 <= p.raw <= 10000 && 0 <= p.calibrated <= 10000
  {
    seq(|points|, i requires 0 <= i < |points| => ClampPoint(points[i]))
  }

  /** Raw values strictly increase and calibrated values do not decrease, from each point to the next. */
  predicate Rising(points: seq<Point>) {
    forall i | 0 < i < |points| :: RisingAt(points, i)
  }

  predicate RisingAt(points: seq<Point>, i: int)
    requires 0 < i < |points|
  {
    points[i - 1].raw < points[i].raw && points[i - 1].calibrated <= points[i].calibrated
  }

  ghost predicate Bounded(points: seq<Point>) {
    forall p | p in points :: 0 <= p.raw <= 10000 && 0 <= p.calibrated <= 10000
  }

  /** The clamped points in raw order, or nothing if they do not rise. */
  method PreparePoints(points: seq<Point>) returns (r: Option<seq<Point>>)
    ensures var sorted := StableSort(Raw, ClampAll(points));
      r == if Rising(sorted) then Some(sorted) else None
    ensures r.Some? ==> Bounded(r.value)
  {
    hide StableSort, ClampAll;
    var sorted := StableSort(Raw, ClampAll(points));
    SortKeepsMembers(Raw, ClampAll(points));
    var index := 1;
    while index < |sorted|
      invariant 1 <= index && forall i | 0 < i < index && i < |sorted| :: RisingAt(sorted, i)
    {
      if sorted[index].raw <= sorted[index - 1].raw || sorted[index].calibrated < sorted[index - 1].calibrated {
        assert !RisingAt(sorted, index);
        return None;
      }
      index := index + 1;
    }
    return Some(sorted);
  }

  /** The value on the line from one point to the next, rounded down. */
  function Interpolate(left: Point, right: Point, raw: int): int {
    var span := if right.raw - left.raw > 1 then right.raw - left.raw else 1;
    ClampBps(left.calibrated + (raw - left.raw) * (right.calibrated - left.calibrated) / span)
  }

  /** From point `i` on: the first segment whose right end reaches `raw`, or the last value. */
  function CalibrateFrom(points: seq<Point>, raw: int, i: nat): int
    requires 0 < i <= |points|
    decreases |points| - i
  {
    if i == |points| then points[i - 1].calibrated
    else if raw <= points[i].raw then Interpolate(points[i - 1], points[i], raw)
    else CalibrateFrom(points, raw, i + 1)
  }

  function Calibrated(points: seq<Point>, raw: int): int {
    if points == [] then raw
    else if raw <= points[0].raw then points[0].calibrated
    else CalibrateFrom(points, raw, 1)
  }

  method Calibrate(points: seq<Point>, raw: int) returns (r: int)
    ensures r == Calibrated(points, raw)
  {
    if |points| == 0 { return raw; }
    if raw <= points[0].raw { return points[0].calibrated; }
    for index := 1 to |points|
      invariant Calibrated(points, raw) == CalibrateFrom(points, raw, index)
    {
      var left, right := points[index - 1], points[index];
      if raw <= right.raw {
        var span := if right.raw - left.raw > 1 then right.raw - left.raw else 1;
        return ClampBps(left.calibrated + (raw - left.raw) * (right.calibrated - left.calibrated) / span);
      }
    }
    return points[|points| - 1].calibrated;
  }

  lemma Interpolated(left: Point, right: Point, raw: int)
    requires left.raw < right.raw && 0 <= left.calibrated <= right.calibrated <= 10000
    requires left.raw <= raw <= right.raw
    ensures left.calibrated <= Interpolate(left, right, raw) <= right.calibrated
    ensures raw == right.raw ==> Interpolate(left, right, raw) == right.calibrated
  {
    var span, rise, step := right.raw - left.raw, right.calibrated - left.calibrated, raw - left.raw;
    ProductMonotone(0, step, rise);
    ProductMonotone(step, span, rise);
    FloorMonotone(0 * rise, step * rise, span);
    FloorMonotone(step * rise, span * rise, span);
    WholeSpan(rise, span);
  }

  lemma WholeSpan(rise: int, span: int)
    requires span > 0
    ensures span * rise / span == rise && 0 * rise / span == 0
  {
    MulDiv(rise, span);
    assert span * rise == rise * span && 0 * rise == 0;
  }

  lemma InterpolateMonotone(left: Point, right: Point, raw: int, raw': int)
    requires left.raw < right.raw && left.calibrated <= right.calibrated && raw <= raw'
    ensures Interpolate(left, right, raw) <= Interpolate(left, right, raw')
  {
    var span, rise := right.raw - left.raw, right.calibrated - left.calibrated;
    ProductMonotone(raw - left.raw, raw' - left.raw, rise);
    FloorMonotone((raw - left.raw) * rise, (raw' - left.raw) * rise, span);
    ClampMonotone(left.calibrated + (raw - left.raw) * rise / span, left.calibrated + (raw' - left.raw) * rise / span);
  }

  /** Beyond point i-1, calibrated values are at least that point's and at most 10000. */
  lemma {:induction false} CalibrateFromBounds(points: seq<Point>, raw: int, i: nat)
    requires Rising(points) && Bounded(points) && 0 < i <= |points| && points[i - 1].raw <= raw
    ensures points[i - 1].calibrated <= CalibrateFrom(points, raw, i) <= 10000
    decreases |points| - i
  {
    assert points[i - 1] in points;
    if i < |points| {
      assert RisingAt(points, i) && points[i] in points;
      if raw <= points[i].raw {
        Interpolated(points[i - 1], points[i], raw);
      } else {
        CalibrateFromBounds(points, raw, i + 1);
      }
    }
  }

  lemma {:induction false} CalibrateFromMonotone(points: seq<Point>, raw: int, raw': int, i: nat)
    requires Rising(points) && Bounded(points) && 0 < i <= |points| && points[i - 1].raw <= raw <= raw'
    ensures CalibrateFrom(points, raw, i) <= CalibrateFrom(points, raw', i)
    decreases |points| - i
  {
    hide Interpolate;
    if i < |points| {
      assert RisingAt(points, i) && points[i - 1] in points && points[i] in points;
      if raw' <= points[i].raw {
        InterpolateMonotone(points[i - 1], points[i], raw, raw');
      } else if raw <= points[i].raw {
        Interpolated(points[i - 1], points[i], raw);
        CalibrateFromBounds(points, raw', i + 1);
      } else {
        CalibrateFromMonotone(points, raw, raw', i + 1);
      }
    }
  }

  /** Calibration is monotone and stays between 0 and 10000. */
  lemma CalibrationMonotone(points: seq<Point>, raw: int, raw': int)
    requires Rising(points) && Bounded(points) && 0 <= raw <= raw' <= 10000
    ensures 0 <= Calibrated(points, raw) <= Calibrated(points, raw') <= 10000
  {
    if points != [] {
      assert points[0] in points;
      if raw > points[0].raw {
        CalibrateFromBounds(points, raw, 1);
        CalibrateFromMonotone(points, raw, raw', 1);
      }
      if raw' > points[0].raw { CalibrateFromBounds(points, raw', 1); }
    }
  }

  /** Calibration hits every point exactly. */
  lemma CalibrationHitsKnots(points: seq<Point>, k: nat)
    requires Rising(points) && Bounded(points) && k < |points|
    ensures Calibrated(points, points[k].raw) == points[k].calibrated
  {
    if k > 0 {
      RawIncreases(points, 0, k);
      KnotFrom(points, k, 1);
    }
  }

  lemma {:induction false} KnotFrom(points: seq<Point>, k: nat, i: nat)
    requires Rising(points) && Bounded(points) && 0 < i <= k < |points|
    ensures CalibrateFrom(points, points[k].raw, i) == points[k].calibrated
    decreases k - i
  {
    if i < k {
      RawIncreases(points, i, k);
      KnotFrom(points, k, i + 1);
    } else {
      assert RisingAt(points, k) && points[k - 1] in points && points[k] in points;
      Interpolated(points[k - 1], points[k], points[k].raw);
    }
  }

  lemma {:induction false} RawIncreases(points: seq<Point>, i: nat, j: nat)
    requires Rising(points) && i < j < |points|
    ensures points[i].raw < points[j].raw
  {
    assert RisingAt(points, j);
    if i < j - 1 { RawIncreases(points, i, j - 1); }
  }

  /** c is the value of the line from one point to the next at `raw`, rounded down to a whole number. */
  ghost predicate OnLine(left: Point, right: Point, raw: int, c: int) {
    var span, rise := right.raw - left.raw, right.calibrated - left.calibrated;
    0 <= (raw - left.raw) * rise - (c - left.calibrated) * span < span
  }

  lemma InterpolatedOnLine(left: Point, right: Point, raw: int)
    requires left.raw < right.raw && 0 <= left.calibrated <= right.calibrated <= 10000
    requires left.raw <= raw <= right.raw
    ensures OnLine(left, right, raw, Interpolate(left, right, raw))
  {
    var span, rise, step := right.raw - left.raw, right.calibrated - left.calibrated, raw - left.raw;
    ProductMonotone(0, step, rise);
    ProductMonotone(step, span, rise);
    FloorMonotone(0 * rise, step * rise, span);
    FloorMonotone(step * rise, span * rise, span);
    WholeSpan(rise, span);
    var q := step * rise / span;
    assert 0 <= left.calibrated + q <= 10000;
    assert step * rise == span * q + step * rise % span;
    assert span * q == q * span;
  }

  lemma {:induction false} SegmentFrom(points: seq<Point>, raw: int, i: nat, k: nat)
    requires Rising(points) && Bounded(points) && 0 < i <= k < |points| && points[k - 1].raw < raw <= points[k].raw
    ensures CalibrateFrom(points, raw, i) == Interpolate(points[k - 1], points[k], raw)
    decreases k - i
  {
    if i < k {
      assert RisingAt(points, k);
      if i < k - 1 { RawIncreases(points, i, k - 1); }
      SegmentFrom(points, raw, i + 1, k);
    }
  }

  /** Between two neighbouring points, calibration is the straight line through them, rounded down. */
  lemma CalibrationOnLine(points: seq<Point>, raw: int, k: nat)
    requires Rising(points) && Bounded(points) && 0 < k < |points| && points[k - 1].raw <= raw <= points[k].raw
    ensures OnLine(points[k - 1], points[k], raw, Calibrated(points, raw))
  {
    hide Interpolate, CalibrateFrom;
    assert RisingAt(points, k) && points[k - 1] in points && points[k] in points;
    if raw == points[k - 1].raw {
      CalibrationHitsKnots(points, k - 1);
    } else {
      if k > 1 { RawIncreases(points, 0, k - 1); }
      SegmentFrom(points, raw, 1, k);
      InterpolatedOnLine(points[k - 1], points[k], raw);
    }
  }

  lemma {:induction false} LastFrom(points: seq<Point>, raw: int, i: nat)
    requires Rising(points) && 0 < i <= |points| && points[|points| - 1].raw < raw
    ensures CalibrateFrom(points, raw, i) == points[|points| - 1].calibrated
    decreases |points| - i
  {
    if i < |points| {
      if i < |points| - 1 { RawIncreases(points, i, |points| - 1); }
      LastFrom(points, raw, i + 1);
    }
  }

  /** Up to the first point and from the last one on, calibration is constant. */
  lemma CalibrationAtEnds(points: seq<Point>, raw: int)
    requires Rising(points) && Bounded(points) && points != []
    ensures raw <= points[0].raw ==> Calibrated(points, raw) == points[0].calibrated
    ensures raw >= points[|points| - 1].raw ==> Calibrated(points, raw) == points[|points| - 1].calibrated
  {
    if raw == points[|points| - 1].raw { CalibrationHitsKnots(points, |points| - 1); }
    if raw > points[|points| - 1].raw {
      if |points| > 1 { RawIncreases(points, 0, |points| - 1); }
      LastFrom(points, raw, 1);
    }
  }

  // ---------- The score ----------

  datatype Gate = Gate(
    schemaValid: bool, signatureValid: bool, keyActive: bool, notRevoked: bool,
    includedInLog: Option<bool>, checkpointValid: Option<bool>, settlementSatisfied: Option<bool>,
        delegationValid: Option<bool>)

  datatype Policy = Policy(requiresSettlement: bool, requiresDelegationCheck: bool, minCoverage: int)

  datatype Label =
    | CryptographicFailure | RevokedOrCompromised | UnsettledOrUnproven
    | SettlementMissing | DelegationMissing | InsufficientEvidence

  datatype Input = Input(
    gate: Gate, policy: Policy, coverage: int, adverse: bool,
    features: map<Text, int>, weights: map<Text, int>, penaltyWeight: Option<int>,
    points: seq<Point>, devConfidenceRejected: bool, minWidth: int, maxWidth: int, width: int)

  datatype Assessment =
    | Refused(reason: Label)
    | Thrown
    | Scored(score: int, lower: int, upper: int)

  /** The first gate that fails. */
  function FailedGate(x: Input): Option<Label> {
    if !x.gate.schemaValid || !x.gate.signatureValid then Some(CryptographicFailure)
    else if !x.gate.keyActive || !x.gate.notRevoked then Some(RevokedOrCompromised)
    else if x.gate.includedInLog == Some(false) || x.gate.checkpointValid == Some(false) then Some(UnsettledOrUnproven)
    else if x.policy.requiresSettlement && x.gate.settlementSatisfied != Some(true) then Some(SettlementMissing)
    else if x.policy.requiresDelegationCheck && x.gate.delegationValid == Some(false) then Some(DelegationMissing)
    else if x.coverage < x.policy.minCoverage && !x.adverse then Some(InsufficientEvidence)
    else None
  }

  function Feature(features: map<Text, int>, id: Text): int {
    if id in features then features[id] else 0
  }

  /** One feature's share, rounded down. */
  function Share(features: map<Text, int>, weights: map<Text, int>, id: Text): int
    requires id in weights
  {
    ClampBps(Feature(features, id)) * ClampBps(weights[id]) / 10000
  }

  ghost function Total(features: map<Text, int>, weights: map<Text, int>, ids: seq<Text>): int
    requires forall id | id in ids :: id in weights
  {
    if ids == [] then 0 else Total(features, weights, ids[..|ids| - 1]) + Share(features, weights, ids[|ids| - 1])
  }

  function Penalty(coverage: int, weight: Option<int>): int {
    (10000 - coverage) * ClampBps(if weight.Some? then weight.value else 1000) / 10000
  }

  ghost function RawScore(x: Input): int {
    var ids := SortedSet(x.weights.Keys);
    assert forall id | id in ids :: id in Elements(ids);
    ClampBps(Total(x.features, x.weights, ids) - Penalty(x.coverage, x.penaltyWeight))
  }

  function Width(x: Input): int {
    var capped := if x.width < x.maxWidth then x.width else x.maxWidth;
    ClampBps(if capped > x.minWidth then capped else x.minWidth)
  }

  /** The gate behind a label fails. */
  ghost predicate Fails(x: Input, reason: Label) {
    match reason
    case CryptographicFailure => !(x.gate.schemaValid && x.gate.signatureValid)
    case RevokedOrCompromised => !(x.gate.keyActive && x.gate.notRevoked)
    case UnsettledOrUnproven => Some(false) in {x.gate.includedInLog, x.gate.checkpointValid}
    case SettlementMissing => x.policy.requiresSettlement && x.gate.settlementSatisfied != Some(true)
    case DelegationMissing => x.policy.requiresDelegationCheck && x.gate.delegationValid == Some(false)
    case InsufficientEvidence => !(x.coverage >= x.policy.minCoverage || x.adverse)
  }

  ghost function Rank(reason: Label): nat {
    match reason
    case CryptographicFailure => 0
    case RevokedOrCompromised => 1
    case UnsettledOrUnproven => 2
    case SettlementMissing => 3
    case DelegationMissing => 4
    case InsufficientEvidence => 5
  }

  /** A refusal names the first label whose gate fails. */
  lemma RefusalMeans(x: Input, reason: Label)
    ensures FailedGate(x) == Some(reason) <==>
      Fails(x, reason) && forall earlier: Label | Rank(earlier) < Rank(reason) :: !Fails(x, earlier)
  {
    var first := FailedGate(x);
    if first.Some? {
      assert Fails(x, first.value);
      assert forall earlier: Label | Rank(earlier) < Rank(first.value) :: !Fails(x, earlier);
      assert Rank(first.value) == Rank(reason) ==> first.value == reason;
    }
  }

  /** What an assessment that passes the gates has. */
  lemma PassingMeans(x: Input)
    ensures FailedGate(x).None? <==>
      && x.gate.schemaValid && x.gate.signatureValid && x.gate.keyActive && x.gate.notRevoked
      && x.gate.includedInLog != Some(false) && x.gate.checkpointValid != Some(false)
      && (x.policy.requiresSettlement ==> x.gate.settlementSatisfied == Some(true))
      && (x.policy.requiresDelegationCheck ==> x.gate.delegationValid != Some(false))
      && (x.coverage >= x.policy.minCoverage || x.adverse)
  {
  }

  /** A feature's share is its clamped value weighted, rounded down; a missing feature has none. */
  lemma ShareIs(features: map<Text, int>, weights: map<Text, int>, id: Text)
    requires id in weights
    ensures var value := if id in features then ClampBps(features[id]) else 0;
      0 <= value * ClampBps(weights[id]) - 10000 * Share(features, weights, id) < 10000
  {
  }

  /** The penalty is the missing coverage weighted, a tenth of it unless set otherwise, rounded down. */
  lemma PenaltyIs(coverage: int, weight: Option<int>)
    ensures var w := ClampBps(if weight.Some? then weight.value else 1000);
      0 <= (10000 - coverage) * w - 10000 * Penalty(coverage, weight) < 10000
  {
  }

  /** The width lies between its limits, the lower one first, and is the given one if that does. */
  lemma WidthIs(x: Input)
    requires 0 <= x.minWidth <= x.maxWidth <= 10000
    ensures x.minWidth <= Width(x) <= x.maxWidth
    ensures x.minWidth <= x.width <= x.maxWidth ==> Width(x) == x.width
    ensures x.width < x.minWidth ==> Width(x) == x.minWidth
    ensures x.width > x.maxWidth ==> Width(x) == x.maxWidth
  {
  }

  method ComputeReferenceScore(x: Input) returns (r: Assessment)
    ensures FailedGate(x).Some? ==> r == Refused(FailedGate(x).value)
    ensures FailedGate(x).None? ==>
      var points := StableSort(Raw, ClampAll(x.points));
      if !Rising(points) || x.devConfidenceRejected then r == Thrown
      else r.Scored? && r.score == Calibrated(points, RawScore(x))
    ensures r.Scored? ==> 0 <= r.lower <= r.score <= r.upper <= 10000
    ensures r.Scored? ==> r.lower == if r.score > Width(x) then r.score - Width(x) else 0
    ensures r.Scored? ==> r.upper == if r.score + Width(x) < 10000 then r.score + Width(x) else 10000
  {
    hide StableSort, Calibrated, Rising, Total, Penalty, FailedGate, Width;
    var failed := FailedGate(x);
    if failed.Some? { return Refused(failed.value); }
    var raw := WeightedScore(x);
    var points := PreparePoints(x.points);
    if points.None? { return Thrown; }
    var calibrated := Calibrate(points.value, raw);
    CalibrationMonotone(points.value, raw, raw);
    if x.devConfidenceRejected { return Thrown; }
    var width := Width(x);
    WidthBound(x);
    r := Scored(calibrated,
                if calibrated - width > 0 then calibrated - width else 0,
                if calibrated + width < 10000 then calibrated + width else 10000);
  }

  lemma WidthBound(x: Input)
    ensures 0 <= Width(x) <= 10000
  {
  }

  lemma TotalOfNone(features: map<Text, int>, weights: map<Text, int>)
    ensures Total(features, weights, []) == 0
  {
  }

  lemma TotalNext(features: map<Text, int>, weights: map<Text, int>, ids: seq<Text>, i: nat)
    requires i < |ids| && forall id | id in ids :: id in weights
    ensures Total(features, weights, ids[..i + 1])
         == Total(features, weights, ids[..i]) + Share(features, weights, ids[i])
  {
    assert ids[..i + 1][..i] == ids[..i];
  }

  /** The sum over the weighted features, less the coverage penalty. */
  method WeightedScore(x: Input) returns (raw: int)
    ensures raw == RawScore(x) && 0 <= raw <= 10000
  {
    hide Share, Penalty, Total, SortedSet;
    var score := 0;
    var ids := SortSet(x.weights.Keys);
    assert forall id | id in ids :: id in Elements(ids);
    TotalOfNone(x.features, x.weights);
    for i := 0 to |ids|
      invariant score == Total(x.features, x.weights, ids[..i])
    {
      TotalNext(x.features, x.weights, ids, i);
      score := score + Share(x.features, x.weights, ids[i]);
    }
    assert ids[..|ids|] == ids;
    raw := ClampBps(score - Penalty(x.coverage, x.penaltyWeight));
  }

  // ---------- Monotonicity ----------

  /** The same assessment with features and coverage at least as high. */
  ghost predicate AtLeastAsGood(x: Input, y: Input) {
    && y.gate == x.gate && y.policy == x.policy && y.adverse == x.adverse
    && y.weights == x.weights && y.penaltyWeight == x.penaltyWeight && y.points == x.points
    && x.coverage <= y.coverage
    && forall id | id in x.weights :: Feature(x.features, id) <= Feature(y.features, id)
  }

  lemma {:induction false} TotalMonotone(x: Input, y: Input, ids: seq<Text>)
    requires AtLeastAsGood(x, y) && forall id | id in ids :: id in x.weights
    ensures Total(x.features, x.weights, ids) <= Total(y.features, x.weights, ids)
  {
    if ids != [] {
      var id := ids[|ids| - 1];
      TotalMonotone(x, y, ids[..|ids| - 1]);
      var a, b, w := ClampBps(Feature(x.features, id)), ClampBps(Feature(y.features, id)), ClampBps(x.weights[id]);
      ClampMonotone(Feature(x.features, id), Feature(y.features, id));
      ProductMonotone(a, b, w);
      FloorMonotone(a * w, b * w, 10000);
    }
  }

  lemma PenaltyFalls(coverage: int, coverage': int, weight: Option<int>)
    requires coverage <= coverage'
    ensures Penalty(coverage', weight) <= Penalty(coverage, weight)
  {
    var w := ClampBps(if weight.Some? then weight.value else 1000);
    ProductMonotone(10000 - coverage', 10000 - coverage, w);
    FloorMonotone((10000 - coverage') * w, (10000 - coverage) * w, 10000);
  }

  /** Raising features or coverage closes no gate and never lowers the score. */
  lemma ScoreMonotone(x: Input, y: Input)
    requires AtLeastAsGood(x, y) && FailedGate(x).None?
    requires Rising(StableSort(Raw, ClampAll(x.points)))
    ensures FailedGate(y).None?
    ensures var points := StableSort(Raw, ClampAll(x.points));
      Calibrated(points, RawScore(x)) <= Calibrated(points, RawScore(y))
  {
    hide Calibrated, Penalty, Total, StableSort;
    var ids, points := SortedSet(x.weights.Keys), StableSort(Raw, ClampAll(x.points));
    assert forall id | id in ids :: id in Elements(ids);
    TotalMonotone(x, y, ids);
    PenaltyFalls(x.coverage, y.coverage, x.penaltyWeight);
    ClampMonotone(Total(x.features, x.weights, ids) - Penalty(x.coverage, x.penaltyWeight),
                  Total(y.features, x.weights, ids) - Penalty(y.coverage, x.penaltyWeight));
    SortKeepsMembers(Raw, ClampAll(x.points));
    CalibrationMonotone(points, RawScore(x), RawScore(y));
  }
}
