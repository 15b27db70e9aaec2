/** The second half of src/tests/FindNoise.cpp: one channel after the other is lowered as far as it stays quiet
    on its own, and raised again if it fires without the pulser. */
module NoiseTuning {
  import opened Words
  import opened FindNoise

  /** The counts before and after the wait, for each measurement of the channel. */
  datatype Meter = Meter(first: nat -> uint32, second: nat -> uint32, frequency: real)

  /** An unsigned difference. */
  function Difference(first: uint32, second: uint32): uint32 { (second - first) % 0x1_0000_0000 }

  function Measured(m: Meter, n: nat): uint32 { Difference(m.first(n), m.second(n)) }

  predicate Quiet(m: Meter, n: nat) { Measured(m, n) as real <= Limit(m.frequency) }

  predicate Wild(m: Meter, n: nat) { Measured(m, n) as real > 10.0 * m.frequency * 0.125 + 1.0 }

  /** More than 100 counts a second, without the pulser. */
  predicate Firing(m: Meter, n: nat) { Measured(m, n) as real / 0.1 > 100.0 }

  /** In numbers: what was counted takes the counter from its first value to its second, around the end of its range
      if need be; the limits are one count more than an eighth of a second's pulses, and than ten times as many. */
  lemma InNumbers(m: Meter, n: nat)
    ensures (m.first(n) + Measured(m, n)) % 0x1_0000_0000 == m.second(n)
    ensures Quiet(m, n) <==> 8.0 * (Measured(m, n) as real - 1.0) <= m.frequency
    ensures Wild(m, n) <==> 8.0 * (Measured(m, n) as real - 1.0) > 10.0 * m.frequency
    ensures Firing(m, n) <==> Measured(m, n) > 10
  {}

  /** The tuning loop, from where the search has left a channel.  At most four measurements; a channel that was quiet
      ends at the lowest threshold that was measured quiet, and either the hard limit stopped it, or the third step,
      or the next measurement.  The threshold leaves the eight bits exactly when a channel that is tried has a zero
      above 250. */
  method Tune(m: Meter, zero: uint32, start: uint32) returns (v: uint32, n: nat)
    requires start <= 255 && m.frequency >= 0.0
    ensures 1 <= n <= 4
    ensures v > 255 <==> 250 < zero < start < 255
    ensures v <= 258
    ensures
      if start <= zero || start == 255 || start == 0 then v == 255 && n == 1
      else if start < zero + 6 then v == zero + 5 && n == 1
      else
        && v >= zero + 5
        && (Wild(m, 0) ==> v == start + 1 && n == 1)
        && (!Wild(m, 0) && !Quiet(m, 0) ==> v == start && n == 1)
        && (Quiet(m, 0) ==>
              && v <= start <= v + 3 && start - v + 1 <= n <= start - v + 2
              && (forall i | 0 <= i <= start - v :: Quiet(m, i))
              && (start == v + 3 || v == zero + 5 || Measured(m, start - v + 1) as real >= Limit(m.frequency)))
  {
    v, n := start, 0;
    var steps := 0;
    while true
      invariant 0 <= steps == n <= 3 && v == start - steps
      invariant steps > 0 ==> start > zero && start != 255 && v >= zero + 5
      invariant forall i | 0 <= i < steps :: Quiet(m, i) && !Wild(m, i)
      decreases 3 - steps
    {
      var noise := Measured(m, steps);
      n := n + 1;
      if v <= zero || v == 255 || v == 0 {
        v := 255;
        break;
      } else if v - zero < 6 {
        if steps == 0 {
          v := zero + 5;
        } else if noise as real < Limit(m.frequency) {
          v := zero + 5;
        } else {
          v := zero + 6;
        }
        break;
      }
      if noise as real > 10.0 * m.frequency * 0.125 + 1.0 {
        v := v + 1;
        break;
      }
      if noise as real > Limit(m.frequency) {
        if steps > 0 {
          v := v + 1;
        }
        break;
      } else if steps == 3 {
        break;
      } else {
        v := v - 1;
        steps := steps + 1;
      }
    }
  }

  /** The step-up loop for noisy channels.  Every step was taken from a threshold that was measured firing; there
      are at most five, and none from 200 on but a first one. */
  method Raise(m: Meter, start: uint32) returns (v: uint32)
    ensures start <= v <= start + 5
    ensures forall i | 0 <= i < v - start :: Firing(m, i)
    ensures v == start + 5 || start > 250 || (v >= 200 && v == start + 1) || v == 200 || !Firing(m, v - start)
    ensures start > 250 ==> v == start
    ensures v > start + 1 ==> v <= 200
  {
    v := start;
    var noisy := 0;
    while true
      invariant 0 <= noisy <= 4 && v == start + noisy
      invariant noisy > 0 ==> v < 200
      invariant forall i | 0 <= i < noisy :: Firing(m, i)
      decreases 5 - noisy
    {
      if v > 250 {
        break;
      }
      if Measured(m, noisy) as real / 0.1 > 100.0 {
        v := v + 1;
        noisy := noisy + 1;
      } else {
        break;
      }
      if noisy >= 5 {
        break;
      }
      if v >= 200 {
        break;
      }
    }
  }
}
