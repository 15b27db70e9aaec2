/** SetTTot's search for the RMP and VSI settings of the eight discriminator chips of a slot
    (src/tests/TTot.cpp).

    Whether a channel's time over threshold is long enough is an arbitrary function of the measurement's
    number, the channel and the settings then loaded, so it may change from one measurement to the next. */
module TTot {
  const RMP_DEFAULT := 120
  const VSI_DEFAULT := 120
  const MAX_RMP_VALUE := 180
  const MIN_VSI_VALUE := 50
  const FLOOR := RMP_DEFAULT - 10
  const CHIPS := 8

  /** CheckTTot: diff > 0 for a channel, in the q-th measurement. */
  type Meter = (nat, nat, nat, nat) -> bool

  predicate Passes(m: Meter, q: nat, j: nat, rmp: nat, vsi: nat) {
    m(q, 4 * j, rmp, vsi) && m(q, 4 * j + 1, rmp, vsi) && m(q, 4 * j + 2, rmp, vsi) && m(q, 4 * j + 3, rmp, vsi)
  }

  /** All four channels of the chip are above the target. */
  lemma PassesMeans(m: Meter, q: nat, j: nat, rmp: nat, vsi: nat)
    ensures Passes(m, q, j, rmp, vsi) <==> forall ch: nat | ch / 4 == j :: m(q, ch, rmp, vsi)
  {
    forall ch: nat | ch / 4 == j && Passes(m, q, j, rmp, vsi) ensures m(q, ch, rmp, vsi) {
      assert ch == 4 * j || ch == 4 * j + 1 || ch == 4 * j + 2 || ch == 4 * j + 3;
    }
    FourthOf(j);
  }

  lemma FourthOf(j: nat)
    ensures (4 * j) / 4 == (4 * j + 1) / 4 == (4 * j + 2) / 4 == (4 * j + 3) / 4 == j
  {}

  // One chip as a state machine driven by its measurements.

  datatype Chip = Chip(low: nat, high: nat, rmp: nat, vsi: nat)

  datatype Status = Going | Finished | Failed

  datatype State = State(chip: Chip, status: Status)

  /** The middle of the bracket, rounded upwards. */
  function Middle(low: nat, high: nat): (r: nat)
    requires low <= high
    ensures low <= r <= high && (low < high ==> low < r) && (r == high <==> high - low <= 1)
    decreases high - low
  {
    if high == low || high == low + 1 then high else Middle(low + 1, high - 1)
  }

  /** It is what the source computes in floating point: half the sum plus 0.5, truncated. */
  lemma {:induction false} MiddleIsRoundedHalf(low: nat, high: nat)
    requires low <= high
    ensures Middle(low, high) == (low + high + 1) / 2
    decreases high - low
  {
    if high > low + 1 { MiddleIsRoundedHalf(low + 1, high - 1); }
  }

  const FIRST := Chip(FLOOR, MAX_RMP_VALUE, Middle(FLOOR, MAX_RMP_VALUE), VSI_DEFAULT)

  /** What every unfinished chip keeps. */
  predicate Bracket(c: Chip) {
    && FLOOR <= c.low < c.rmp <= c.high <= MAX_RMP_VALUE && c.rmp == Middle(c.low, c.high)
    && MIN_VSI_VALUE <= c.vsi <= VSI_DEFAULT && c.vsi % 2 == 0
  }

  function Step(c: Chip, pass: bool): (s: State)
    requires Bracket(c)
    ensures s.status.Going? ==> Bracket(s.chip)
    ensures !s.status.Going? ==> s.chip.rmp == c.rmp && s.chip.vsi == c.vsi
  {
    if pass then
      State(Chip(c.low, c.rmp, Middle(c.low, c.rmp), c.vsi), if c.rmp - c.low == 1 then Finished else Going)
    else if c.rmp == MAX_RMP_VALUE then
      if c.vsi > MIN_VSI_VALUE then State(Chip(FLOOR, MAX_RMP_VALUE, Middle(FLOOR, MAX_RMP_VALUE), c.vsi - 2), Going)
      else State(Chip(c.rmp, c.high, Middle(c.rmp, c.high), c.vsi), Failed)
    else
      var high := if c.rmp == c.high then c.high + 1 else c.high;
      State(Chip(c.rmp, high, Middle(c.rmp, high), c.vsi), Going)
  }

  /** A chip after p measurements, as long as no other chip has aborted the slot. */
  function After(m: Meter, j: nat, p: nat): (s: State)
    ensures s.status.Going? ==> Bracket(s.chip)
  {
    if p == 0 then State(FIRST, Going)
    else
      var s := After(m, j, p - 1);
      if s.status.Going? then Step(s.chip, Passes(m, p - 1, j, s.chip.rmp, s.chip.vsi)) else s
  }

  /** What is measured next, in numbers: half-way to the bound on the other side; one more when the upper bound itself,
      which had passed, now failed; or, when the largest RMP failed, 145 at the next VSI. */
  lemma NextMeasured(m: Meter, j: nat, p: nat)
    requires After(m, j, p).status.Going? && After(m, j, p + 1).status.Going?
    ensures var c, c' := After(m, j, p).chip, After(m, j, p + 1).chip;
      if Passes(m, p, j, c.rmp, c.vsi) then
        c'.vsi == c.vsi && c'.rmp == (c.low + c.rmp + 1) / 2 && c'.low == c.low && c'.high == c.rmp
      else if c.rmp == 180 then c'.vsi == c.vsi - 2 && c'.rmp == 145 && c'.low == 110 && c'.high == 180
      else if c.rmp == c.high then c'.vsi == c.vsi && c'.rmp == c.rmp + 1 == c'.high && c'.low == c.rmp
      else c'.vsi == c.vsi && c'.rmp == (c.rmp + c.high + 1) / 2 && c'.low == c.rmp && c'.high == c.high
  {
    var c := After(m, j, p).chip;
    MiddleIsRoundedHalf(110, 180);
    MiddleIsRoundedHalf(c.low, c.rmp);
    MiddleIsRoundedHalf(c.rmp, c.high);
  }

  // Termination: lexicographically vsi, the distance of the lower bound from the top, and the width of the
  // bracket go down with every measurement, whatever it says.

  function Measure(c: Chip): nat
    requires Bracket(c)
  {
    (c.vsi - MIN_VSI_VALUE) / 2 * 5041 + (MAX_RMP_VALUE - c.low) * 71 + (c.high - c.low)
  }

  lemma StepDescends(c: Chip, pass: bool)
    requires Bracket(c) && Step(c, pass).status.Going?
    ensures Measure(Step(c, pass).chip) < Measure(c)
  {
    var c' := Step(c, pass).chip;
    if c'.vsi < c.vsi {
      assert (c'.vsi - MIN_VSI_VALUE) / 2 + 1 == (c.vsi - MIN_VSI_VALUE) / 2;
    }
  }

  /** No chip is measured more often than this. */
  const MEASUREMENTS := 35 * 5041 + 70 * 71 + 70

  lemma {:induction false} GoingIsBounded(m: Meter, j: nat, p: nat)
    requires After(m, j, p).status.Going?
    ensures Measure(After(m, j, p).chip) + p <= MEASUREMENTS
  {
    if p > 0 {
      GoingIsBounded(m, j, p - 1);
      var c := After(m, j, p - 1).chip;
      StepDescends(c, Passes(m, p - 1, j, c.rmp, c.vsi));
    }
  }

  // What the result means.

  /** The chip was measured in the q-th measurement, with these settings and this outcome. */
  ghost predicate Measured(m: Meter, j: nat, q: nat, rmp: nat, vsi: nat, pass: bool) {
    var s := After(m, j, q);
    s.status.Going? && s.chip.rmp == rmp && s.chip.vsi == vsi && Passes(m, q, j, rmp, vsi) == pass
  }

  /** Among the first p measurements there was one of the chip with these settings and this outcome. */
  ghost predicate WasMeasured(m: Meter, j: nat, p: nat, rmp: nat, vsi: nat, pass: bool) {
    exists q :: 0 <= q < p && Measured(m, j, q, rmp, vsi, pass)
  }

  lemma MeasuredSince(m: Meter, j: nat, p: nat, rmp: nat, vsi: nat, pass: bool)
    ensures WasMeasured(m, j, p, rmp, vsi, pass) ==> WasMeasured(m, j, p + 1, rmp, vsi, pass)
    ensures Measured(m, j, p, rmp, vsi, pass) ==> WasMeasured(m, j, p + 1, rmp, vsi, pass)
  {}

  /** Every VSI above this one has failed at the top of the range. */
  ghost predicate LargerFailed(m: Meter, j: nat, p: nat, vsi: nat) {
    forall v {:trigger WasMeasured(m, j, p, MAX_RMP_VALUE, v, false)} | vsi < v <= VSI_DEFAULT && v % 2 == 0 ::
      WasMeasured(m, j, p, MAX_RMP_VALUE, v, false)
  }

  lemma LargerFailedSince(m: Meter, j: nat, p: nat, vsi: nat)
    requires LargerFailed(m, j, p, vsi)
    ensures LargerFailed(m, j, p + 1, vsi)
  {
    forall v | vsi < v <= VSI_DEFAULT && v % 2 == 0 ensures WasMeasured(m, j, p + 1, MAX_RMP_VALUE, v, false) {
      MeasuredSince(m, j, p, MAX_RMP_VALUE, v, false);
    }
  }

  lemma OneMoreFailed(m: Meter, j: nat, p: nat, vsi: nat)
    requires LargerFailed(m, j, p, vsi) && WasMeasured(m, j, p, MAX_RMP_VALUE, vsi, false) && vsi % 2 == 0 && vsi >= 2
    ensures LargerFailed(m, j, p, vsi - 2)
  {}

  ghost predicate Bounded(m: Meter, j: nat, p: nat, low: nat, vsi: nat) {
    (low == FLOOR || WasMeasured(m, j, p, low, vsi, false)) && LargerFailed(m, j, p, vsi)
  }

  /** How a measurement moves the lower bound and VSI of a chip that goes on. */
  lemma StepLow(c: Chip, pass: bool)
    requires Bracket(c) && Step(c, pass).status.Going?
    ensures var c' := Step(c, pass).chip;
      if pass then c'.low == c.low && c'.vsi == c.vsi
      else if c.rmp == MAX_RMP_VALUE then c'.low == FLOOR && c'.vsi == c.vsi - 2
      else c'.low == c.rmp && c'.vsi == c.vsi
  {}

  /** The lower bound is the floor, or has failed at this VSI; every larger VSI has failed at the top. */
  lemma {:induction false} LowerBound(m: Meter, j: nat, p: nat)
    requires After(m, j, p).status.Going?
    ensures Bounded(m, j, p, After(m, j, p).chip.low, After(m, j, p).chip.vsi)
  {
    if p > 0 {
      LowerBound(m, j, p - 1);
      LowerBoundStep(m, j, p - 1);
    }
  }

  lemma LowerBoundStep(m: Meter, j: nat, p: nat)
    requires After(m, j, p).status.Going? && After(m, j, p + 1).status.Going?
    requires Bounded(m, j, p, After(m, j, p).chip.low, After(m, j, p).chip.vsi)
    ensures Bounded(m, j, p + 1, After(m, j, p + 1).chip.low, After(m, j, p + 1).chip.vsi)
  {
    var c := After(m, j, p).chip;
    var pass := Passes(m, p, j, c.rmp, c.vsi);
    StepLow(c, pass);
    assert Measured(m, j, p, c.rmp, c.vsi, pass);
    BoundedNow(m, j, p, c, After(m, j, p + 1).chip, pass);
  }

  lemma BoundedNow(m: Meter, j: nat, p: nat, c: Chip, c': Chip, pass: bool)
    requires Bounded(m, j, p, c.low, c.vsi) && Measured(m, j, p, c.rmp, c.vsi, pass) && c.vsi % 2 == 0 && c.vsi >= 2
    requires
      if pass then c'.low == c.low && c'.vsi == c.vsi
      else if c.rmp == MAX_RMP_VALUE then c'.low == FLOOR && c'.vsi == c.vsi - 2
      else c'.low == c.rmp && c'.vsi == c.vsi
    ensures Bounded(m, j, p + 1, c'.low, c'.vsi)
  {
    MeasuredSince(m, j, p, c.rmp, c.vsi, pass);
    MeasuredSince(m, j, p, c.low, c.vsi, false);
    LargerFailedSince(m, j, p, c.vsi);
    if !pass && c.rmp == MAX_RMP_VALUE { OneMoreFailed(m, j, p + 1, c.vsi); }
  }

  /** The measurement that finishes a chip. */
  lemma FinishedNow(m: Meter, j: nat, p: nat)
    requires After(m, j, p).status.Going? && After(m, j, p + 1).status.Finished?
    ensures var c := After(m, j, p).chip;
      After(m, j, p + 1).chip.rmp == c.rmp == c.low + 1 && After(m, j, p + 1).chip.vsi == c.vsi
      && Measured(m, j, p, c.rmp, c.vsi, true)
  {}

  predicate Settings(rmp: nat, vsi: nat) {
    FLOOR < rmp <= MAX_RMP_VALUE && MIN_VSI_VALUE <= vsi <= VSI_DEFAULT && vsi % 2 == 0
  }

  /** What is known of the settings a chip ends with. */
  ghost predicate Justified(m: Meter, j: nat, p: nat, rmp: nat, vsi: nat) {
    && Settings(rmp, vsi) && WasMeasured(m, j, p, rmp, vsi, true)
    && (rmp - 1 == FLOOR || WasMeasured(m, j, p, rmp - 1, vsi, false))
    && LargerFailed(m, j, p, vsi)
  }

  lemma JustifiedNow(m: Meter, j: nat, p: nat)
    requires After(m, j, p).status.Going? && After(m, j, p + 1).status.Finished?
    ensures Justified(m, j, p + 1, After(m, j, p).chip.rmp, After(m, j, p).chip.vsi)
  {
    var c := After(m, j, p).chip;
    FinishedNow(m, j, p);
    LowerBound(m, j, p);
    MeasuredSince(m, j, p, c.rmp, c.vsi, true);
    MeasuredSince(m, j, p, c.low, c.vsi, false);
    LargerFailedSince(m, j, p, c.vsi);
  }

  lemma JustifiedSince(m: Meter, j: nat, p: nat, rmp: nat, vsi: nat)
    requires Justified(m, j, p, rmp, vsi)
    ensures Justified(m, j, p + 1, rmp, vsi)
  {
    MeasuredSince(m, j, p, rmp, vsi, true);
    MeasuredSince(m, j, p, rmp - 1, vsi, false);
    LargerFailedSince(m, j, p, vsi);
  }

  lemma FailedNow(m: Meter, j: nat, p: nat)
    requires After(m, j, p).status.Going? && After(m, j, p + 1).status.Failed?
    ensures Measured(m, j, p, MAX_RMP_VALUE, MIN_VSI_VALUE, false) && After(m, j, p).chip.vsi == MIN_VSI_VALUE
  {}

  ghost predicate AllFailed(m: Meter, j: nat, p: nat) { LargerFailed(m, j, p, MIN_VSI_VALUE - 2) }

  lemma AllFailedNow(m: Meter, j: nat, p: nat)
    requires After(m, j, p).status.Going? && After(m, j, p + 1).status.Failed?
    ensures AllFailed(m, j, p + 1)
  {
    FailedNow(m, j, p);
    LowerBound(m, j, p);
    MeasuredSince(m, j, p, MAX_RMP_VALUE, MIN_VSI_VALUE, false);
    LargerFailedSince(m, j, p, MIN_VSI_VALUE);
    OneMoreFailed(m, j, p + 1, MIN_VSI_VALUE);
  }

  /** Measurement q was the chip's last, and left it in state s. */
  ghost predicate Stops(m: Meter, j: nat, q: nat, s: State) {
    After(m, j, q).status.Going? && After(m, j, q + 1) == s && !s.status.Going?
  }

  lemma StaysStopped(m: Meter, j: nat, p: nat)
    requires !After(m, j, p).status.Going?
    ensures p > 0
    ensures if After(m, j, p - 1).status.Going? then Stops(m, j, p - 1, After(m, j, p))
            else After(m, j, p) == After(m, j, p - 1)
  {}

  /** When a chip stopped. */
  lemma {:induction false} StoppedAt(m: Meter, j: nat, p: nat, s: State) returns (q: nat)
    requires s == After(m, j, p) && !s.status.Going?
    ensures q < p && Stops(m, j, q, s)
  {
    StaysStopped(m, j, p);
    if After(m, j, p - 1).status.Going? {
      q := p - 1;
    } else {
      q := StoppedAt(m, j, p - 1, s);
    }
  }

  lemma {:induction false} LargerFailedLater(m: Meter, j: nat, q: nat, p: nat, vsi: nat)
    requires q <= p && LargerFailed(m, j, q, vsi)
    ensures LargerFailed(m, j, p, vsi)
    decreases p
  {
    if q < p {
      LargerFailedLater(m, j, q, p - 1, vsi);
      LargerFailedSince(m, j, p - 1, vsi);
    }
  }

  lemma {:induction false} JustifiedLater(m: Meter, j: nat, q: nat, p: nat, rmp: nat, vsi: nat)
    requires q <= p && Justified(m, j, q, rmp, vsi)
    ensures Justified(m, j, p, rmp, vsi)
    decreases p - q
  {
    if q < p {
      JustifiedSince(m, j, q, rmp, vsi);
      JustifiedLater(m, j, q + 1, p, rmp, vsi);
    }
  }

  /** A finished chip was measured passing with the settings it ends with, one RMP count lower either failed
      at that VSI or is the floor, and every larger VSI failed at the top. */
  lemma FinishedWasMeasured(m: Meter, j: nat, p: nat)
    requires After(m, j, p).status.Finished?
    ensures Justified(m, j, p, After(m, j, p).chip.rmp, After(m, j, p).chip.vsi)
  {
    var q := StoppedAt(m, j, p, After(m, j, p));
    FinishedNow(m, j, q);
    JustifiedNow(m, j, q);
    JustifiedLater(m, j, q + 1, p, After(m, j, p).chip.rmp, After(m, j, p).chip.vsi);
  }

  /** A chip that aborts the slot has failed at the top of the range at every VSI there is. */
  lemma FailedEverywhere(m: Meter, j: nat, p: nat)
    requires After(m, j, p).status.Failed?
    ensures AllFailed(m, j, p)
  {
    var q := StoppedAt(m, j, p, After(m, j, p));
    AllFailedNow(m, j, q);
    LargerFailedLater(m, j, q + 1, p, MIN_VSI_VALUE - 2);
  }

  /** The chip answers the same settings in the same way every time. */
  ghost predicate Deterministic(m: Meter) {
    forall q, ch, r, v {:trigger m(q, ch, r, v)} :: m(q, ch, r, v) == m(0, ch, r, v)
  }

  ghost predicate Responds(m: Meter, j: nat, rmp: nat, vsi: nat) { Passes(m, 0, j, rmp, vsi) }

  /** More RMP never spoils a pass. */
  ghost predicate Monotone(m: Meter, j: nat) {
    forall r, r', v | r <= r' && Responds(m, j, r, v) :: Responds(m, j, r', v)
  }

  lemma OutcomeIsResponse(m: Meter, j: nat, p: nat, rmp: nat, vsi: nat, pass: bool)
    requires Deterministic(m) && WasMeasured(m, j, p, rmp, vsi, pass)
    ensures Responds(m, j, rmp, vsi) == pass
  {
    var q :| 0 <= q < p && Measured(m, j, q, rmp, vsi, pass);
    assert Passes(m, q, j, rmp, vsi) == Passes(m, 0, j, rmp, vsi);
  }

  /** For a deterministic, monotone chip the result is the least passing RMP above 110, at the first VSI
      of 120, 118, ..., 50 at which the largest RMP passes. */
  lemma LeastPassing(m: Meter, j: nat, p: nat)
    requires Deterministic(m) && Monotone(m, j) && After(m, j, p).status.Finished?
    ensures var c := After(m, j, p).chip;
      && Responds(m, j, 180, c.vsi)
      && (forall v | c.vsi < v <= 120 && v % 2 == 0 :: !Responds(m, j, 180, v))
      && Responds(m, j, c.rmp, c.vsi)
      && (forall r | 110 < r < c.rmp :: !Responds(m, j, r, c.vsi))
  {
    FinishedWasMeasured(m, j, p);
    var c := After(m, j, p).chip;
    OutcomeIsResponse(m, j, p, c.rmp, c.vsi, true);
    forall v | c.vsi < v <= VSI_DEFAULT && v % 2 == 0 ensures !Responds(m, j, MAX_RMP_VALUE, v) {
      OutcomeIsResponse(m, j, p, MAX_RMP_VALUE, v, false);
    }
    if c.rmp - 1 != FLOOR { OutcomeIsResponse(m, j, p, c.rmp - 1, c.vsi, false); }
  }

  /** Such a chip finishes, and does not fail, exactly when the largest RMP passes at some VSI. */
  lemma FinishesWhenItCan(m: Meter, j: nat, p: nat)
    requires Deterministic(m) && Monotone(m, j) && !After(m, j, p).status.Going?
    ensures After(m, j, p).status.Finished?
            <==> exists v :: 50 <= v <= 120 && v % 2 == 0 && Responds(m, j, 180, v)
  {
    if After(m, j, p).status.Finished? {
      LeastPassing(m, j, p);
      FinishedWasMeasured(m, j, p);
    } else {
      forall v | MIN_VSI_VALUE <= v <= VSI_DEFAULT && v % 2 == 0 ensures !Responds(m, j, MAX_RMP_VALUE, v) {
        FailedEverywhere(m, j, p);
        OutcomeIsResponse(m, j, p, MAX_RMP_VALUE, v, false);
      }
    }
  }

  // The arrays and the loops.

  /** What the arrays hold of one chip. */
  datatype Row = Row(chip: Chip, allRmp: nat, allVsi: nat, left: bool)

  /** The chip has had q measurements, none of which failed it. */
  ghost predicate Shows(m: Meter, j: nat, q: nat, row: Row) {
    var s := After(m, j, q);
    && row.chip == s.chip && !s.status.Failed? && (row.left <==> s.status.Going?)
    && (s.status.Finished? ==> row.allRmp == s.chip.rmp && row.allVsi == s.chip.vsi)
  }

  /** Chip f failed in measurement p.  The settings of every chip are recorded as they were at that moment,
      when the chips up to f had been looked at. */
  ghost predicate Left(m: Meter, f: nat, p: nat, j: nat, row: Row) {
    var s := After(m, j, if j <= f then p + 1 else p);
    row.allRmp == s.chip.rmp && row.allVsi == s.chip.vsi && (s.status.Failed? <==> j == f) && !row.left
  }

  /** The chips before j have had measurement p, the others have not. */
  ghost predicate Through(m: Meter, p: nat, j: nat, rows: seq<Row>) {
    && |rows| == CHIPS
    && (forall i {:trigger rows[i]} | 0 <= i < CHIPS :: Shows(m, i, if i < j then p + 1 else p, rows[i]))
  }

  ghost predicate AllLeft(m: Meter, f: nat, p: nat, rows: seq<Row>) {
    |rows| == CHIPS && f < CHIPS && forall i {:trigger rows[i]} | 0 <= i < CHIPS :: Left(m, f, p, i, rows[i])
  }

  /** What an abort makes of a row. */
  function Frozen(row: Row): Row {
    if row.left then Row(row.chip, row.chip.rmp, row.chip.vsi, false) else row
  }

  lemma NextTurn(m: Meter, p: nat, j: nat, rows: seq<Row>, row: Row)
    requires j < CHIPS && Through(m, p, j, rows) && Shows(m, j, p + 1, row)
    ensures Through(m, p, j + 1, rows[j := row])
  {
    var rows' := rows[j := row];
    forall i | 0 <= i < CHIPS ensures Shows(m, i, if i < j + 1 then p + 1 else p, rows'[i]) {
      if i != j { assert rows'[i] == rows[i]; }
    }
  }

  lemma AbortLeaves(m: Meter, p: nat, j: nat, rows: seq<Row>, row: Row, rows': seq<Row>)
    requires j < CHIPS && Through(m, p, j, rows)
    requires row.left && After(m, j, p + 1) == State(row.chip, Failed)
    requires |rows'| == CHIPS && forall i | 0 <= i < CHIPS :: rows'[i] == Frozen(rows[j := row][i])
    ensures AllLeft(m, j, p, rows')
  {
    forall i | 0 <= i < CHIPS ensures Left(m, j, p, i, rows'[i]) {
      assert rows'[i] == Frozen(rows[j := row][i]);
      if i != j { ShowsThenLeft(m, i, if i < j then p + 1 else p, rows[i]); }
    }
  }

  lemma ShowsThenLeft(m: Meter, i: nat, q: nat, row: Row)
    requires Shows(m, i, q, row)
    ensures var s := After(m, i, q);
      Frozen(row).allRmp == s.chip.rmp && Frozen(row).allVsi == s.chip.vsi && !s.status.Failed? && !Frozen(row).left
  {}

  /** The marks of the channels after chip f has failed. */
  function Marked(marks: seq<nat>, f: nat): (r: seq<nat>)
    ensures |r| == |marks| && forall k | 0 <= k < |r| :: r[k] == if k / 4 == f then 1 else marks[k]
  {
    seq(|marks|, k requires 0 <= k < |marks| => if k / 4 == f then 1 else marks[k])
  }

  class Slot {
    const low: array<nat>
    const high: array<nat>
    const rmp: array<nat>
    const vsi: array<nat>
    const allRmps: array<nat>
    const allVsis: array<nat>
    const notFinished: array<bool>
    const errors: array<nat>

    ghost predicate Valid() {
      && low.Length == high.Length == rmp.Length == vsi.Length == allRmps.Length == allVsis.Length == CHIPS
      && notFinished.Length == CHIPS && errors.Length == 4 * CHIPS
      && errors !in {low, high, rmp, vsi, allRmps, allVsis}
      && low != high && low != rmp && low != vsi && low != allRmps && low != allVsis
      && high != rmp && high != vsi && high != allRmps && high != allVsis
      && rmp != vsi && rmp != allRmps && rmp != allVsis && vsi != allRmps && vsi != allVsis && allRmps != allVsis
    }

    function At(j: nat): Chip
      requires Valid() && j < CHIPS
      reads low, high, rmp, vsi
    {
      Chip(low[j], high[j], rmp[j], vsi[j])
    }

    function RowAt(j: nat): Row
      requires Valid() && j < CHIPS
      reads low, high, rmp, vsi, allRmps, allVsis, notFinished
    {
      Row(At(j), allRmps[j], allVsis[j], notFinished[j])
    }

    ghost function Rows(): (rows: seq<Row>)
      requires Valid()
      reads low, high, rmp, vsi, allRmps, allVsis, notFinished
      ensures |rows| == CHIPS && forall j | 0 <= j < CHIPS :: rows[j] == RowAt(j)
    {
      seq(CHIPS, j requires 0 <= j < CHIPS reads low, high, rmp, vsi, allRmps, allVsis, notFinished => RowAt(j))
    }

    constructor ()
      ensures Valid() && fresh({low, high, rmp, vsi, allRmps, allVsis, errors}) && fresh(notFinished)
      ensures forall j | 0 <= j < CHIPS :: At(j) == FIRST && notFinished[j]
      ensures forall k | 0 <= k < 4 * CHIPS :: errors[k] == 0
    {
      low := new nat[CHIPS](_ => FLOOR);
      high := new nat[CHIPS](_ => MAX_RMP_VALUE);
      rmp := new nat[CHIPS](_ => Middle(FLOOR, MAX_RMP_VALUE));
      vsi := new nat[CHIPS](_ => VSI_DEFAULT);
      allRmps := new nat[CHIPS](_ => 0);
      allVsis := new nat[CHIPS](_ => 0);
      notFinished := new bool[CHIPS](_ => true);
      errors := new nat[4 * CHIPS](_ => 0);
    }

    /** The check before the search: a channel without triggers is marked 2, the others 0. */
    method MarkTriggers(noTrigger: nat -> bool)
      requires Valid()
      modifies errors
      ensures forall k | 0 <= k < 4 * CHIPS :: errors[k] == if noTrigger(k) then 2 else 0
    {
      for k := 0 to 4 * CHIPS
        invariant forall i | 0 <= i < k :: errors[i] == if noTrigger(i) then 2 else 0
      {
        errors[k] := 0;
        if noTrigger(k) {
          errors[k] := 2;
        }
      }
    }

    /** CheckTTot on all 32 channels. */
    method MeasureAll(m: Meter, p: nat) returns (diff: seq<bool>)
      requires Valid()
      ensures |diff| == 4 * CHIPS
      ensures forall j | 0 <= j < CHIPS ::
        (diff[4 * j] && diff[4 * j + 1] && diff[4 * j + 2] && diff[4 * j + 3]) == Passes(m, p, j, rmp[j], vsi[j])
    {
      diff := [];
      for k := 0 to 4 * CHIPS
        invariant |diff| == k && forall i | 0 <= i < k :: diff[i] == m(p, i, rmp[i / 4], vsi[i / 4])
      {
        diff := diff + [m(p, k, rmp[k / 4], vsi[k / 4])];
      }
      forall j | 0 <= j < CHIPS
        ensures (diff[4 * j] && diff[4 * j + 1] && diff[4 * j + 2] && diff[4 * j + 3])
          == Passes(m, p, j, rmp[j], vsi[j])
      {
        FourthOf(j);
      }
    }

    /** The bracket of one chip. */
    method Adjust(j: nat, pass: bool) returns (status: Status)
      requires Valid() && j < CHIPS && Bracket(At(j))
      modifies low, high, rmp, vsi
      ensures State(At(j), status) == Step(old(At(j)), pass)
      ensures forall i {:trigger At(i)} | 0 <= i < CHIPS && i != j :: At(i) == old(At(i))
    {
      status := Going;
      if pass {
        high[j] := rmp[j];
        if rmp[j] - low[j] == 1 {
          status := Finished;
        }
      } else {
        low[j] := rmp[j];
        if rmp[j] == MAX_RMP_VALUE {
          if vsi[j] > MIN_VSI_VALUE {
            high[j] := MAX_RMP_VALUE;
            low[j] := RMP_DEFAULT - 10;
            vsi[j] := vsi[j] - 2;
          } else {
            status := Failed;
          }
        } else if rmp[j] == high[j] {
          high[j] := high[j] + 1;
        }
      }
      rmp[j] := Middle(low[j], high[j]);
    }

    /** One unfinished chip's turn.  Its settings are recorded when it finishes; recomputing the middle has not
        changed them. */
    method Turn(ghost m: Meter, ghost p: nat, j: nat, pass: bool) returns (status: Status)
      requires Valid() && j < CHIPS && notFinished[j] && Shows(m, j, p, RowAt(j))
      requires pass == Passes(m, p, j, rmp[j], vsi[j])
      modifies low, high, rmp, vsi, allRmps, allVsis, notFinished
      ensures State(At(j), status) == After(m, j, p + 1)
      ensures if status.Failed? then notFinished[j] else Shows(m, j, p + 1, RowAt(j))
      ensures Rows() == old(Rows())[j := RowAt(j)]
    {
      ghost var rows := Rows();
      status := Adjust(j, pass);
      assert State(At(j), status) == After(m, j, p + 1);
      if status.Finished? {
        notFinished[j] := false;
        allRmps[j] := rmp[j];
        allVsis[j] := vsi[j];
      }
      forall i | 0 <= i < CHIPS && i != j ensures RowAt(i) == rows[i] {
        assert At(i) == old(At(i));
      }
    }

    method MarkErrors(f: nat)
      requires Valid() && f < CHIPS
      modifies errors
      ensures errors[..] == Marked(old(errors[..]), f)
    {
      FourthOf(f);
      errors[4 * f] := 1;
      errors[4 * f + 1] := 1;
      errors[4 * f + 2] := 1;
      errors[4 * f + 3] := 1;
    }

    /** An abort: every unfinished chip is recorded as it is, and nothing is left to do. */
    method RecordUnfinished()
      requires Valid()
      modifies allRmps, allVsis, notFinished
      ensures forall i | 0 <= i < CHIPS :: Rows()[i] == Frozen(old(Rows())[i])
    {
      ghost var rows := Rows();
      for l := 0 to CHIPS
        invariant forall i {:trigger RowAt(i)} | 0 <= i < l :: RowAt(i) == Frozen(rows[i])
        invariant forall i {:trigger RowAt(i)} | l <= i < CHIPS :: RowAt(i) == rows[i]
      {
        assert RowAt(l) == rows[l];
        RecordChip(l);
      }
    }

    method RecordChip(l: nat)
      requires Valid() && l < CHIPS
      modifies allRmps, allVsis, notFinished
      ensures RowAt(l) == Frozen(old(RowAt(l)))
      ensures forall i {:trigger RowAt(i)} | 0 <= i < CHIPS && i != l :: RowAt(i) == old(RowAt(i))
    {
      if notFinished[l] {
        allRmps[l] := rmp[l];
        allVsis[l] := vsi[l];
      }
      notFinished[l] := false;
    }

    /** Chip f failed in measurement p: its four channels are marked 1, the others keep their marks. */
    ghost predicate Aborted(m: Meter, f: nat, p: nat, marks: seq<nat>)
      requires Valid()
      reads low, high, rmp, vsi, allRmps, allVsis, notFinished, errors
    {
      AllLeft(m, f, p, Rows()) && errors[..] == Marked(marks, f)
    }

    /** Where the search is after p measurements: every chip has had them all, or chip f has failed in the last. */
    ghost predicate Reached(m: Meter, f: nat, p: nat, marks: seq<nat>)
      requires Valid()
      reads low, high, rmp, vsi, allRmps, allVsis, notFinished, errors
    {
      f <= CHIPS
      && if f == CHIPS then errors[..] == marks && Through(m, p, 0, Rows())
         else p > 0 && Aborted(m, f, p - 1, marks)
    }

    /** The body of the loop over the chips, for an unfinished chip. */
    method TurnOrAbort(ghost m: Meter, ghost p: nat, j: nat, pass: bool) returns (failed: bool)
      requires Valid() && j < CHIPS && Through(m, p, j, Rows()) && notFinished[j]
      requires pass == Passes(m, p, j, rmp[j], vsi[j])
      modifies low, high, rmp, vsi, allRmps, allVsis, notFinished, errors
      ensures if failed then Aborted(m, j, p, old(errors[..]))
              else errors[..] == old(errors[..]) && Through(m, p, j + 1, Rows())
      ensures !failed ==> forall i | j < i < CHIPS :: Rows()[i] == old(Rows())[i]
    {
      ghost var rows := Rows();
      assert Shows(m, j, p, rows[j]);
      var status := Turn(m, p, j, pass);
      ghost var row := RowAt(j);
      failed := status.Failed?;
      if failed {
        MarkErrors(j);
        RecordUnfinished();
        AbortLeaves(m, p, j, rows, row, Rows());
      } else {
        NextTurn(m, p, j, rows, row);
      }
    }

    /** One turn of the search: a measurement of all chips, and each unfinished one's turn.  Afterwards every
        chip has had the measurement, or chip f has failed in it. */
    method Pass(m: Meter, p: nat) returns (ghost f: nat)
      requires Valid() && Through(m, p, 0, Rows())
      modifies low, high, rmp, vsi, allRmps, allVsis, notFinished, errors
      ensures Reached(m, f, p + 1, old(errors[..]))
    {
      ghost var marks := errors[..];
      var diff := MeasureAll(m, p);
      ghost var rows := Rows();
      f := CHIPS;
      for j := 0 to CHIPS
        invariant if f == CHIPS then errors[..] == marks && Through(m, p, j, Rows()) else Aborted(m, f, p, marks)
        invariant f == CHIPS ==> forall i | j <= i < CHIPS :: Rows()[i] == rows[i]
      {
        assert Rows()[j] == RowAt(j) && (f == CHIPS ==> RowAt(j) == rows[j]);
        assert f != CHIPS ==> Left(m, f, p, j, Rows()[j]);
        if notFinished[j] {
          var failed := TurnOrAbort(m, p, j, diff[4 * j] && diff[4 * j + 1] && diff[4 * j + 2] && diff[4 * j + 3]);
          if failed {
            f := j;
          }
        } else if f == CHIPS {
          NotItsTurn(m, p, j, Rows());
        }
      }
    }

    static lemma NotItsTurn(m: Meter, p: nat, j: nat, rows: seq<Row>)
      requires j < CHIPS && Through(m, p, j, rows) && !rows[j].left
      ensures Through(m, p, j + 1, rows)
    {
      assert Shows(m, j, p, rows[j]);
      assert After(m, j, p + 1) == After(m, j, p);
      NextTurn(m, p, j, rows, rows[j]);
      assert rows[j := rows[j]] == rows;
    }

    ghost predicate SomeLeft()
      requires Valid()
      reads notFinished
    {
      exists j :: 0 <= j < CHIPS && notFinished[j]
    }

    method AnyLeft() returns (some: bool)
      requires Valid()
      ensures some <==> SomeLeft()
    {
      some := false;
      for j := 0 to CHIPS
        invariant some <==> exists i :: 0 <= i < j && notFinished[i]
      {
        if notFinished[j] {
          some := true;
        }
      }
    }

    /** The search for a slot.  It ends, however the measurements come out.  Either every chip has finished and
        its settings are recorded, or some chip f has failed in the last measurement: then its four
        channels are marked 1, and every chip's settings are recorded as they were.  All other marks stay. */
    method Search(m: Meter) returns (p: nat, ghost f: nat)
      requires Valid() && forall j | 0 <= j < CHIPS :: At(j) == FIRST && notFinished[j]
      modifies low, high, rmp, vsi, allRmps, allVsis, notFinished, errors
      ensures p <= MEASUREMENTS + 1 && f <= CHIPS
      ensures f == CHIPS ==> errors[..] == old(errors[..]) && forall j | 0 <= j < 8 ::
        After(m, j, p).status.Finished? && allRmps[j] == After(m, j, p).chip.rmp
          && allVsis[j] == After(m, j, p).chip.vsi
      ensures f < CHIPS ==> p > 0 && Aborted(m, f, p - 1, old(errors[..]))
    {
      p, f := SearchLoop(m);
      if f == CHIPS { AllFinished(m, p); }
    }

    method SearchLoop(m: Meter) returns (p: nat, ghost f: nat)
      requires Valid() && forall j | 0 <= j < CHIPS :: At(j) == FIRST && notFinished[j]
      modifies low, high, rmp, vsi, allRmps, allVsis, notFinished, errors
      ensures p <= MEASUREMENTS + 1 && !SomeLeft()
      ensures Reached(m, f, p, old(errors[..]))
    {
      p, f := 0, CHIPS;
      ghost var marks := errors[..];
      NothingMeasured(m);
      var some := AnyLeft();
      while some
        invariant p <= MEASUREMENTS + 1 && Reached(m, f, p, marks)
        invariant some <==> SomeLeft()
        decreases some, MEASUREMENTS + 1 - p
      {
        StillGoing(m, f, p, marks);
        f := Pass(m, p);
        p := p + 1;
        some := AnyLeft();
      }
    }

    lemma NothingMeasured(m: Meter)
      requires Valid() && forall j | 0 <= j < CHIPS :: At(j) == FIRST && notFinished[j]
      ensures Reached(m, CHIPS, 0, errors[..])
    {
      forall j | 0 <= j < CHIPS ensures Shows(m, j, 0, RowAt(j)) {}
    }

    lemma AllFinished(m: Meter, p: nat)
      requires Valid() && Through(m, p, 0, Rows()) && !SomeLeft()
      ensures forall j | 0 <= j < CHIPS ::
        var s := After(m, j, p);
        s.status.Finished? && allRmps[j] == s.chip.rmp && allVsis[j] == s.chip.vsi
    {
      forall j | 0 <= j < CHIPS
        ensures After(m, j, p).status.Finished?
        ensures allRmps[j] == After(m, j, p).chip.rmp && allVsis[j] == After(m, j, p).chip.vsi
      {
        assert Rows()[j] == RowAt(j) && Shows(m, j, p, Rows()[j]);
      }
    }

    /** While a chip is left, nothing has been aborted and the bound has not been reached. */
    lemma StillGoing(m: Meter, f: nat, p: nat, marks: seq<nat>)
      requires Valid() && Reached(m, f, p, marks)
      requires SomeLeft()
      ensures f == CHIPS && p <= MEASUREMENTS
    {
      var j :| 0 <= j < CHIPS && notFinished[j];
      assert Rows()[j] == RowAt(j) && RowAt(j).left;
      assert f == CHIPS ==> Shows(m, j, p, Rows()[j]);
      if f == CHIPS { GoingIsBounded(m, j, p); }
    }
  }
}
