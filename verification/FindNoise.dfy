/** The search for thresholds in src/tests/FindNoise.cpp: all channels at once, step by step, until each is
    one count above its noise.

    What is counted is up to the hardware: a reading is an arbitrary function of the pass and the channel, so
    the theorems hold for every history of readings. */
module FindNoise {
  import opened Words

  /** 20 crates of 16 slots of 32 channels. */
  const CHANNELS: nat := 20 * 16 * 32

  const MAX_ITERATIONS: nat := 100

  /** The two counts of every pass and channel, and the pulser's frequency. */
  datatype Hardware = Hardware(first: (nat, nat) -> uint32, second: (nat, nat) -> uint32, frequency: real)

  /** The counts that the pulser alone may cause between the two measurements. */
  function Limit(frequency: real): real { frequency * 0.125 + 1.0 }

  /** readout_noise: the difference of the counts, or all ones when the counter went back. */
  function Reading(hw: Hardware, p: nat, c: nat): uint32 {
    if hw.first(p, c) > hw.second(p, c) then 0xFFFF_FFFF else hw.second(p, c) - hw.first(p, c)
  }

  predicate Noisy(hw: Hardware, p: nat, c: nat) { Reading(hw, p, c) as real > Limit(hw.frequency) }

  /** More counts than an eighth of a second of pulses, and one more; or a counter that went back, unless there are
      more pulses than a counter can hold. */
  lemma NoisyMeans(hw: Hardware, p: nat, c: nat)
    ensures Noisy(hw, p, c)
            <==> if hw.second(p, c) < hw.first(p, c) then hw.frequency < 8.0 * 4294967294.0
                 else hw.frequency < 8.0 * (hw.second(p, c) as real - hw.first(p, c) as real - 1.0)
  {}

  // One channel as a state machine.

  datatype Channel = Channel(vthr: uint32, above: bool, below: bool, done: bool, error: bool)

  function Start(zero: uint32): Channel {
    if zero >= 255 then Channel(255, false, false, true, true) else Channel(zero + 25, false, false, false, false)
  }

  predicate InRange(ch: Channel) { if ch.error then ch.vthr == 0 || ch.vthr == 255 else 1 <= ch.vthr <= 279 }

  function Up(ch: Channel): Channel
    requires ch.vthr <= 279
  {
    if ch.vthr + 1 >= 255 then ch.(vthr := 255, error := true) else ch.(vthr := ch.vthr + 1)
  }

  function Down(ch: Channel): Channel
    requires ch.vthr >= 1
  {
    if ch.vthr == 1 then ch.(vthr := 0, error := true) else ch.(vthr := ch.vthr - 1)
  }

  /** What a pass does to a channel. */
  function Step(ch: Channel, noisy: bool, iterations: nat): Channel
    requires InRange(ch)
  {
    if ch.error then ch
    else if !ch.done then
      if noisy then Up(ch.(below := true))
      else if ch.below then ch.(above := true, done := true)
      else Down(ch.(above := true))
    else if noisy then Up(ch.(done := false, above := false, below := ch.below && iterations >= MAX_ITERATIONS))
    else ch
  }

  /** The channel after p passes. */
  function After(hw: Hardware, zero: uint32, c: nat, p: nat): (ch: Channel)
    ensures InRange(ch)
  {
    if p == 0 then Start(zero) else Step(After(hw, zero, c, p - 1), Noisy(hw, p - 1, c), p - 1)
  }

  predicate Settled(ch: Channel) { ch.done || ch.error }

  // What the flags say about the past.

  /** In pass q the channel was noisy, and its threshold was one below v. */
  predicate NoisyBelow(hw: Hardware, zero: uint32, c: nat, q: nat, v: nat) {
    Noisy(hw, q, c) && After(hw, zero, c, q).vthr + 1 == v
  }

  lemma {:induction false} Meaning(hw: Hardware, zero: uint32, c: nat, p: nat)
    ensures var ch := After(hw, zero, c, p);
      !ch.error ==>
        && (ch.below ==> ch.vthr <= 254 && exists q | 0 <= q < p :: NoisyBelow(hw, zero, c, q, ch.vthr))
        && (ch.done ==> ch.below && p > 0 && !Noisy(hw, p - 1, c) && After(hw, zero, c, p - 1).vthr == ch.vthr)
  {
    if p > 0 {
      Meaning(hw, zero, c, p - 1);
      var was, ch := After(hw, zero, c, p - 1), After(hw, zero, c, p);
      if !ch.error && ch.below {
        if Noisy(hw, p - 1, c) {
          assert NoisyBelow(hw, zero, c, p - 1, ch.vthr);
        } else {
          var q :| 0 <= q < p - 1 && NoisyBelow(hw, zero, c, q, was.vthr);
          assert NoisyBelow(hw, zero, c, q, ch.vthr);
        }
      }
    }
  }

  lemma {:induction false} ErrorStays(hw: Hardware, zero: uint32, c: nat, q: nat, p: nat)
    requires q <= p && After(hw, zero, c, q).error
    ensures After(hw, zero, c, p) == After(hw, zero, c, q)
  {
    if q < p { ErrorStays(hw, zero, c, q, p - 1); }
  }

  /** A channel the search is finished with: given up at an end of the range, or quiet in the very last pass at
      exactly one count above a threshold at which it was noisy. */
  lemma AtRest(hw: Hardware, zero: uint32, c: nat, p: nat)
    requires Settled(After(hw, zero, c, p))
    ensures var ch := After(hw, zero, c, p);
      if ch.error then ch.vthr == 0 || ch.vthr == 255
      else
        && 2 <= ch.vthr <= 254 && p > 0 && After(hw, zero, c, p - 1).vthr == ch.vthr && !Noisy(hw, p - 1, c)
        && exists q | 0 <= q < p - 1 :: NoisyBelow(hw, zero, c, q, ch.vthr)
  {
    var ch := After(hw, zero, c, p);
    Meaning(hw, zero, c, p);
    if !ch.error {
      var q :| 0 <= q < p && NoisyBelow(hw, zero, c, q, ch.vthr);
      if After(hw, zero, c, q).error { ErrorStays(hw, zero, c, q, p); }
    }
  }

  /** Pass q takes the channel out of the range. */
  predicate LeavesRange(hw: Hardware, zero: uint32, c: nat, q: nat) {
    if Noisy(hw, q, c) then After(hw, zero, c, q).vthr >= 254 else After(hw, zero, c, q).vthr == 1
  }

  /** Why a channel is given up: its zero is too high, or it was noisy at a threshold of at least 254, or quiet at 1. */
  lemma {:induction false} WhyGivenUp(hw: Hardware, zero: uint32, c: nat, p: nat)
    ensures After(hw, zero, c, p).error <==> zero >= 255 || exists q | 0 <= q < p :: LeavesRange(hw, zero, c, q)
    ensures After(hw, zero, c, p).error && zero < 255 ==>
      exists q | 0 <= q < p ::
        LeavesRange(hw, zero, c, q) && After(hw, zero, c, p).vthr == if Noisy(hw, q, c) then 255 else 0
  {
    if p > 0 {
      WhyGivenUp(hw, zero, c, p - 1);
      Meaning(hw, zero, c, p - 1);
      var was, ch := After(hw, zero, c, p - 1), After(hw, zero, c, p);
      if !was.error && was.below && was.vthr == 1 {
        var q :| 0 <= q < p - 1 && NoisyBelow(hw, zero, c, q, 1);
        if After(hw, zero, c, q).error { ErrorStays(hw, zero, c, q, p - 1); }
      }
      if LeavesRange(hw, zero, c, p - 1) {
        assert ch.error;
      } else {
        assert ch.error <==> was.error;
      }
    }
  }

  // Readings that depend on the threshold.

  predicate NoisyBelowOnset(hw: Hardware, zero: uint32, c: nat, t: nat, p: nat) {
    Noisy(hw, p, c) <==> After(hw, zero, c, p).vthr as nat < t
  }

  /** The channel is noisy exactly at the thresholds below t. */
  ghost predicate Onset(hw: Hardware, zero: uint32, c: nat, t: nat) {
    forall p :: NoisyBelowOnset(hw, zero, c, t, p)
  }

  /** The channel after p passes that are noisy below t. */
  function Simulated(zero: uint32, t: nat, p: nat): (ch: Channel)
    ensures InRange(ch)
  {
    if p == 0 then Start(zero)
    else
      var ch := Simulated(zero, t, p - 1);
      Step(ch, ch.vthr as nat < t, p - 1)
  }

  lemma {:induction false} Simulates(hw: Hardware, zero: uint32, c: nat, t: nat, p: nat)
    requires Onset(hw, zero, c, t)
    ensures After(hw, zero, c, p) == Simulated(zero, t, p)
  {
    if p > 0 {
      Simulates(hw, zero, c, t, p - 1);
      assert NoisyBelowOnset(hw, zero, c, t, p - 1);
    }
  }

  /** How many passes the search takes from the threshold s. */
  function Length(s: nat, t: nat): nat {
    if t <= 1 then s
    else if t <= 254 then if s < t then t - s + 1 else s - t + 3
    else if s < t then if s < 254 then 255 - s else 1
    else s - t + 2
  }

  /** The thresholds on the way: up while noisy; or down while quiet, and one up again. */
  lemma {:induction false} OnTheWay(zero: uint32, t: nat, p: nat)
    requires zero < 255 && p < Length(zero as nat + 25, t)
    ensures var ch, s := Simulated(zero, t, p), zero as nat + 25;
      !Settled(ch) &&
      if s < t then ch.vthr as nat == s + p && (ch.below <==> p > 0)
      else if p + t <= s + 1 then ch.vthr as nat == s - p && !ch.below
      else p + t == s + 2 && ch.vthr as nat == t && ch.below
  {
    if p > 0 { OnTheWay(zero, t, p - 1); }
  }

  predicate Ended(ch: Channel, t: nat) {
    Settled(ch) &&
    if t <= 1 then ch.error && ch.vthr == 0
    else if t <= 254 then !ch.error && ch.vthr as nat == t
    else ch.error && ch.vthr == 255
  }

  /** The end of the way, and that it is not left any more. */
  lemma {:induction false} AtTheEnd(zero: uint32, t: nat, p: nat)
    requires zero < 255 && p >= Length(zero as nat + 25, t)
    ensures Ended(Simulated(zero, t, p), t)
  {
    if p > Length(zero as nat + 25, t) { AtTheEnd(zero, t, p - 1); } else { OnTheWay(zero, t, p - 1); }
  }

  /** Such a channel settles after exactly so many passes, at the least threshold at which it is quiet. */
  lemma FindsOnset(hw: Hardware, zero: uint32, c: nat, t: nat, p: nat)
    requires zero < 255 && Onset(hw, zero, c, t)
    ensures Settled(After(hw, zero, c, p)) <==> p >= Length(zero as nat + 25, t)
    ensures Settled(After(hw, zero, c, p)) ==>
      var ch := After(hw, zero, c, p);
      if t <= 1 then ch.error && ch.vthr == 0
      else if t <= 254 then !ch.error && ch.vthr as nat == t
      else ch.error && ch.vthr == 255
  {
    Simulates(hw, zero, c, t, p);
    if p < Length(zero as nat + 25, t) { OnTheWay(zero, t, p); } else { AtTheEnd(zero, t, p); }
  }

  /** From MAX_ITERATIONS on, a channel that has been below its noise is only stepped up. */
  lemma {:induction false} OnlyUp(hw: Hardware, zero: uint32, c: nat, q: nat, p: nat)
    requires 100 <= q <= p && After(hw, zero, c, q).below && !After(hw, zero, c, p).error
    ensures After(hw, zero, c, p).below && After(hw, zero, c, p).vthr >= After(hw, zero, c, q).vthr
  {
    if q < p {
      OnlyUp(hw, zero, c, q, p - 1);
      Meaning(hw, zero, c, p - 1);
    }
  }

  /** Before that, noise on a finished channel starts its search again: it goes up and, when quiet, down to the
      very threshold it had, unfinished. */
  lemma StartsOver(hw: Hardware, zero: uint32, c: nat, p: nat)
    requires p + 1 < 100
    requires var ch := After(hw, zero, c, p); ch.done && !ch.error && ch.vthr < 254
    requires Noisy(hw, p, c) && !Noisy(hw, p + 1, c)
    ensures var ch := After(hw, zero, c, p + 2);
      ch.vthr == After(hw, zero, c, p).vthr && !Settled(ch) && !ch.below
  {
    var ch := After(hw, zero, c, p);
    assert After(hw, zero, c, p + 1) == Step(ch, true, p);
    assert After(hw, zero, c, p + 2) == Step(After(hw, zero, c, p + 1), false, p + 1);
  }

  // The end of the search.

  /** How many passes may still change the channel, from MAX_ITERATIONS on. */
  function Potential(ch: Channel): nat {
    if ch.error then 0
    else if ch.done && ch.vthr <= 255 then 2 * (255 - ch.vthr)
    else if ch.below && ch.vthr <= 255 then 2 * (255 - ch.vthr) + 1
    else 1000 + ch.vthr
  }

  predicate Consistent(ch: Channel) {
    InRange(ch) && (!ch.error ==> (ch.below ==> ch.vthr <= 254) && (ch.done ==> ch.below))
  }

  lemma AlwaysConsistent(hw: Hardware, zero: uint32, c: nat, p: nat)
    ensures Consistent(After(hw, zero, c, p)) && Potential(After(hw, zero, c, p)) <= 1279
  {
    Meaning(hw, zero, c, p);
  }

  lemma StepDescends(ch: Channel, noisy: bool, iterations: nat)
    requires Consistent(ch) && iterations >= MAX_ITERATIONS
    ensures Potential(Step(ch, noisy, iterations)) <= Potential(ch)
    ensures !Settled(ch) ==> Potential(Step(ch, noisy, iterations)) < Potential(ch)
  {}

  type Selection = s: seq<bool> | |s| == CHANNELS witness seq(CHANNELS, _ => false)
  type Zeros = s: seq<uint32> | |s| == CHANNELS witness seq(CHANNELS, _ => 0)

  predicate AllSettled(hw: Hardware, zeros: Zeros, selected: Selection, p: nat) {
    forall c {:trigger After(hw, zeros[c], c, p)} | 0 <= c < CHANNELS && selected[c] ::
      Settled(After(hw, zeros[c], c, p))
  }

  /** The potentials of the selected channels below n. */
  function Total(hw: Hardware, zeros: Zeros, selected: Selection, p: nat, n: nat): nat
    requires n <= CHANNELS
  {
    if n == 0 then 0
    else
      Total(hw, zeros, selected, p, n - 1)
      + if selected[n - 1] then Potential(After(hw, zeros[n - 1], n - 1, p)) else 0
  }

  lemma {:induction false} TotalDescends(hw: Hardware, zeros: Zeros, selected: Selection, p: nat, n: nat)
    requires n <= CHANNELS && p >= MAX_ITERATIONS
    ensures Total(hw, zeros, selected, p + 1, n) <= Total(hw, zeros, selected, p, n) <= 1279 * n
    ensures (exists c | 0 <= c < n :: selected[c] && !Settled(After(hw, zeros[c], c, p)))
            ==> Total(hw, zeros, selected, p + 1, n) < Total(hw, zeros, selected, p, n)
  {
    if n > 0 {
      TotalDescends(hw, zeros, selected, p, n - 1);
      var ch := After(hw, zeros[n - 1], n - 1, p);
      AlwaysConsistent(hw, zeros[n - 1], n - 1, p);
      StepDescends(ch, Noisy(hw, p, n - 1), p);
      assert After(hw, zeros[n - 1], n - 1, p + 1) == Step(ch, Noisy(hw, p, n - 1), p);
    }
  }

  const PASSES: nat := MAX_ITERATIONS + 1 + 1279 * CHANNELS

  /** Passes that leave some channel unsettled use up the potential. */
  lemma {:induction false} SettlesBy(hw: Hardware, zeros: Zeros, selected: Selection, p: nat)
    requires p >= MAX_ITERATIONS
    requires forall q | MAX_ITERATIONS <= q < p :: !AllSettled(hw, zeros, selected, q)
    ensures Total(hw, zeros, selected, p, CHANNELS) + (p - MAX_ITERATIONS) <= 1279 * CHANNELS
  {
    if p == MAX_ITERATIONS {
      TotalDescends(hw, zeros, selected, p, CHANNELS);
    } else {
      SettlesBy(hw, zeros, selected, p - 1);
      assert !AllSettled(hw, zeros, selected, p - 1);
      TotalDescends(hw, zeros, selected, p - 1, CHANNELS);
    }
  }

  lemma FewPasses(hw: Hardware, zeros: Zeros, selected: Selection, p: nat)
    requires forall q | 1 <= q <= p :: !AllSettled(hw, zeros, selected, q)
    ensures p < PASSES
  {
    if p >= MAX_ITERATIONS { SettlesBy(hw, zeros, selected, p); }
  }

  // The arrays and the loops.

  class Search {
    const vthr: array<uint32>
    const readout: array<uint32>
    const above: array<bool>
    const below: array<bool>
    const done: array<bool>
    const error: array<bool>

    ghost predicate Valid() {
      && vthr.Length == readout.Length == above.Length == below.Length == done.Length == error.Length == CHANNELS
      && vthr != readout && above != below && above != done && above != error && below != done && below != error
      && done != error
    }

    function At(c: nat): Channel
      requires Valid() && c < CHANNELS
      reads vthr, above, below, done, error
    {
      Channel(vthr[c], above[c], below[c], done[c], error[c])
    }

    /** The start: 25 above zero, or given up at once. */
    constructor (zeros: Zeros)
      ensures Valid() && fresh(vthr) && fresh(readout) && fresh(above) && fresh(below) && fresh(done) && fresh(error)
      ensures forall c | 0 <= c < CHANNELS :: At(c) == Start(zeros[c])
    {
      vthr := new uint32[CHANNELS](_ => 0);
      readout := new uint32[CHANNELS](_ => 0);
      above := new bool[CHANNELS](_ => false);
      below := new bool[CHANNELS](_ => false);
      done := new bool[CHANNELS](_ => false);
      error := new bool[CHANNELS](_ => false);
      new;
      for c := 0 to CHANNELS
        invariant forall i | 0 <= i < c :: At(i) == Start(zeros[i])
        invariant forall i | c <= i < CHANNELS :: !above[i] && !below[i] && !done[i] && !error[i]
      {
        if zeros[c] >= 255 {
          error[c] := true;
          done[c] := true;
          vthr[c] := 255;
        } else {
          vthr[c] := zeros[c] + 25;
        }
      }
    }

    /** The counters are read twice; the noise is the difference. */
    method Measure(hw: Hardware, selected: Selection, p: nat)
      requires Valid()
      modifies readout
      ensures forall c | 0 <= c < CHANNELS && selected[c] :: readout[c] == Reading(hw, p, c)
    {
      for c := 0 to CHANNELS
        invariant forall i | 0 <= i < c && selected[i] :: readout[i] == hw.first(p, i)
      {
        if selected[c] {
          readout[c] := hw.first(p, c);
        }
      }
      for c := 0 to CHANNELS
        invariant forall i | 0 <= i < c && selected[i] :: readout[i] == Reading(hw, p, i)
        invariant forall i | c <= i < CHANNELS && selected[i] :: readout[i] == hw.first(p, i)
      {
        if selected[c] {
          if readout[c] > hw.second(p, c) {
            readout[c] := 0xFFFF_FFFF;
          } else {
            readout[c] := hw.second(p, c) - readout[c];
          }
        }
      }
    }

    method StepUp(c: nat)
      requires Valid() && c < CHANNELS && vthr[c] <= 279
      modifies vthr, error
      ensures At(c) == Up(old(At(c)))
      ensures forall i | 0 <= i < CHANNELS && i != c :: vthr[i] == old(vthr[i]) && error[i] == old(error[i])
    {
      vthr[c] := vthr[c] + 1;
      if vthr[c] >= 255 {
        vthr[c] := 255;
        error[c] := true;
      }
    }

    /** One channel's turn. */
    method Adjust(c: nat, noisy: bool, iterations: nat)
      requires Valid() && c < CHANNELS && InRange(At(c))
      modifies vthr, above, below, done, error
      ensures At(c) == Step(old(At(c)), noisy, iterations)
      ensures forall i | 0 <= i < CHANNELS && i != c :: At(i) == old(At(i))
    {
      if !error[c] {
        if !done[c] {
          if noisy {
            below[c] := true;
            StepUp(c);
          } else {
            above[c] := true;
            if below[c] {
              done[c] := true;
            } else {
              vthr[c] := vthr[c] - 1;
              if vthr[c] <= 0 {
                vthr[c] := 0;
                error[c] := true;
              }
            }
          }
        } else if noisy {
          done[c] := false;
          StepUp(c);
          above[c] := false;
          if iterations < MAX_ITERATIONS {
            below[c] := false;
          }
        }
      }
    }

    /** The selected channels in a range are where p passes take them. */
    ghost predicate Shows(hw: Hardware, selected: Selection, zeros: Zeros, p: nat, from: nat, to: nat)
      requires Valid() && to <= CHANNELS
      reads vthr, above, below, done, error
    {
      forall c {:trigger At(c)} | from <= c < to && selected[c] :: At(c) == After(hw, zeros[c], c, p)
    }

    method AdjustAll(hw: Hardware, selected: Selection, ghost zeros: Zeros, iterations: nat)
      requires Valid() && Shows(hw, selected, zeros, iterations, 0, CHANNELS)
      requires forall c | 0 <= c < CHANNELS && selected[c] :: readout[c] == Reading(hw, iterations, c)
      modifies vthr, above, below, done, error
      ensures Shows(hw, selected, zeros, iterations + 1, 0, CHANNELS)
    {
      ghost var noise := readout[..];
      for c := 0 to CHANNELS
        invariant readout[..] == noise
        invariant Shows(hw, selected, zeros, iterations + 1, 0, c)
        invariant Shows(hw, selected, zeros, iterations, c, CHANNELS)
      {
        if selected[c] {
          assert At(c) == After(hw, zeros[c], c, iterations) && readout[c] == noise[c] == Reading(hw, iterations, c);
          Adjust(c, readout[c] as real > Limit(hw.frequency), iterations);
          assert At(c) == After(hw, zeros[c], c, iterations + 1);
        }
      }
    }

    /** The test for the end. */
    method CheckDone(selected: Selection) returns (finished: bool)
      requires Valid()
      ensures finished <==> forall c {:trigger At(c)} | 0 <= c < CHANNELS && selected[c] :: Settled(At(c))
    {
      finished := true;
      for c := 0 to CHANNELS
        invariant finished <==> forall i {:trigger At(i)} | 0 <= i < c && selected[i] :: Settled(At(i))
      {
        assert Settled(At(c)) <==> done[c] || error[c];
        if selected[c] && !(done[c] || error[c]) {
          finished := false;
        }
      }
    }

    /** One turn of the main loop. */
    method Pass(hw: Hardware, selected: Selection, ghost zeros: Zeros, iterations: nat) returns (finished: bool)
      requires Valid() && Shows(hw, selected, zeros, iterations, 0, CHANNELS)
      modifies vthr, readout, above, below, done, error
      ensures Shows(hw, selected, zeros, iterations + 1, 0, CHANNELS)
      ensures finished <==> AllSettled(hw, zeros, selected, iterations + 1)
    {
      Measure(hw, selected, iterations);
      assert Shows(hw, selected, zeros, iterations, 0, CHANNELS);
      AdjustAll(hw, selected, zeros, iterations);
      finished := CheckDone(selected);
      assert forall c | 0 <= c < CHANNELS && selected[c] :: At(c) == After(hw, zeros[c], c, iterations + 1);
    }

    /** The channel has been given up for leaving the range at that end, or was quiet in the last of p passes at
        exactly one count above a threshold at which it was noisy. */
    ghost predicate Rests(hw: Hardware, zeros: Zeros, p: nat, c: nat)
      requires Valid() && c < CHANNELS
      reads vthr, error
    {
      if error[c] then
        if zeros[c] >= 255 then vthr[c] == 255
        else exists q | 0 <= q < p ::
          LeavesRange(hw, zeros[c], c, q) && vthr[c] == if Noisy(hw, q, c) then 255 else 0
      else
        && 2 <= vthr[c] <= 254 && p > 0 && !Noisy(hw, p - 1, c)
        && exists q | 0 <= q < p - 1 :: NoisyBelow(hw, zeros[c], c, q, vthr[c])
    }

    lemma AllRest(hw: Hardware, selected: Selection, zeros: Zeros, p: nat)
      requires Valid() && Shows(hw, selected, zeros, p, 0, CHANNELS) && AllSettled(hw, zeros, selected, p)
      ensures forall c | 0 <= c < CHANNELS && selected[c] :: Rests(hw, zeros, p, c)
    {
      forall c | 0 <= c < CHANNELS && selected[c] ensures Rests(hw, zeros, p, c) {
        assert At(c) == After(hw, zeros[c], c, p);
        AtRest(hw, zeros[c], c, p);
        WhyGivenUp(hw, zeros[c], c, p);
        if zeros[c] >= 255 { ErrorStays(hw, zeros[c], c, 0, p); }
      }
    }

    /** Where the channels end whose noise depends on the threshold. */
    lemma AllFound(hw: Hardware, selected: Selection, zeros: Zeros, p: nat)
      requires Valid() && Shows(hw, selected, zeros, p, 0, CHANNELS) && AllSettled(hw, zeros, selected, p)
      ensures forall c, t {:trigger Onset(hw, zeros[c], c, t)} |
        0 <= c < CHANNELS && selected[c] && zeros[c] < 255 && Onset(hw, zeros[c], c, t) ::
          if t <= 1 then error[c] && vthr[c] == 0
          else if t <= 254 then !error[c] && vthr[c] as nat == t
          else error[c] && vthr[c] == 255
    {
      forall c, t {:trigger Onset(hw, zeros[c], c, t)} |
        0 <= c < CHANNELS && selected[c] && zeros[c] < 255 && Onset(hw, zeros[c], c, t)
        ensures
          if t <= 1 then error[c] && vthr[c] == 0
          else if t <= 254 then !error[c] && vthr[c] as nat == t
          else error[c] && vthr[c] == 255
      {
        assert At(c) == After(hw, zeros[c], c, p);
        FindsOnset(hw, zeros[c], c, t, p);
      }
    }

    method Passes(hw: Hardware, selected: Selection, ghost zeros: Zeros) returns (iterations: nat)
      requires Valid() && Shows(hw, selected, zeros, 0, 0, CHANNELS)
      modifies vthr, readout, above, below, done, error
      ensures 1 <= iterations <= PASSES
      ensures Shows(hw, selected, zeros, iterations, 0, CHANNELS) && AllSettled(hw, zeros, selected, iterations)
      ensures forall q | 1 <= q < iterations :: !AllSettled(hw, zeros, selected, q)
    {
      var finished := false;
      iterations := 0;
      while !finished
        invariant iterations <= PASSES && (finished ==> iterations >= 1)
        invariant Shows(hw, selected, zeros, iterations, 0, CHANNELS)
        invariant forall q | 1 <= q <= iterations :: AllSettled(hw, zeros, selected, q) <==> finished && q == iterations
        decreases !finished, PASSES - iterations
      {
        FewPasses(hw, zeros, selected, iterations);
        finished := Pass(hw, selected, zeros, iterations);
        iterations := iterations + 1;
      }
    }

    /** The main loop.  It ends after the first pass that leaves every selected channel settled; a channel that is
        noisy exactly below some threshold has been set to it, or given up because it is out of the range. */
    method Run(hw: Hardware, selected: Selection, ghost zeros: Zeros) returns (iterations: nat)
      requires Valid() && Shows(hw, selected, zeros, 0, 0, CHANNELS)
      modifies vthr, readout, above, below, done, error
      ensures 1 <= iterations <= PASSES
      ensures Shows(hw, selected, zeros, iterations, 0, CHANNELS) && AllSettled(hw, zeros, selected, iterations)
      ensures forall q | 1 <= q < iterations :: !AllSettled(hw, zeros, selected, q)
      ensures forall c | 0 <= c < 10240 && selected[c] :: Rests(hw, zeros, iterations, c)
      ensures forall c, t {:trigger Onset(hw, zeros[c], c, t)} |
        0 <= c < 10240 && selected[c] && zeros[c] < 255 && Onset(hw, zeros[c], c, t) ::
          if t <= 1 then error[c] && vthr[c] == 0
          else if t <= 254 then !error[c] && vthr[c] as nat == t
          else error[c] && vthr[c] == 255
    {
      iterations := Passes(hw, selected, zeros);
      AllRest(hw, selected, zeros, iterations);
      AllFound(hw, selected, zeros, iterations);
    }
  }
}
