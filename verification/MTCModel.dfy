/** Serially loaded registers of the MTC (src/mtc/MTCModel.cpp), against a model of the hardware that replays
    the register writes on shift registers with rising-edge clocks.

    A register is the set of the positions of its bits. */
module MTCModel {
  import opened Words

  type Word = set<nat>

  // MTCSerialReg.
  const SEN: nat := 0
  const SERDAT: nat := 1
  const SHFTCLKGT: nat := 2
  const SHFTCLKPS: nat := 5

  // MTCControlReg.
  const LOAD_ENPS: nat := 3
  const LOAD_ENGT: nat := 11

  // MTCDacCntReg.
  const DACSEL: nat := 14
  const DACCLK: nat := 15

  const DACS: nat := 14

  /** The masks of src/mtc/MTCRegisters.h, of which these are the positions. */
  lemma MasksOfBits()
    ensures Pow2(SEN) == 0x1 && Pow2(SERDAT) == 0x2 && Pow2(SHFTCLKGT) == 0x4 && Pow2(SHFTCLKPS) == 0x20
    ensures Pow2(LOAD_ENPS) == 0x8 && Pow2(LOAD_ENGT) == 0x800 && Pow2(DACSEL) == 0x4000 && Pow2(DACCLK) == 0x8000
  {
    assert Pow2(3) == 8;
    assert Pow2(6) == 64;
    assert Pow2(9) == 512;
    assert Pow2(12) == 4096;
  }

  // Binary numbers.

  function Pow2(n: nat): (p: nat)
    ensures p > 0
  {
    if n == 0 then 1 else 2 * Pow2(n - 1)
  }

  /** (value >> j) & 1. */
  predicate BitOf(value: nat, j: nat) { (value / Pow2(j)) % 2 == 1 }

  /** The low n bits, most significant first. */
  function BitsOf(value: nat, n: nat): (bits: seq<bool>)
    ensures |bits| == n
  {
    if n == 0 then [] else [BitOf(value, n - 1)] + BitsOf(value, n - 1)
  }

  function Number(bits: seq<bool>): nat {
    if bits == [] then 0 else (if bits[0] then Pow2(|bits| - 1) else 0) + Number(bits[1..])
  }

  lemma Multiples(d: int, k: int)
    requires d > 0 && -d < d * k < d
    ensures k == 0
  {
    assert k >= 1 ==> d * k >= d;
    assert k <= -1 ==> d * k <= -d;
  }

  /** A remainder is known by its range. */
  lemma Quotient(value: nat, d: nat, h: nat, x: nat)
    requires d > 0 && value == d * h + x && x < d
    ensures value % d == x
  {
    assert value == d * (value / d) + value % d;
    assert d * (h - value / d) == d * h - d * (value / d);
    Multiples(d, h - value / d);
  }

  lemma DropBit(value: nat, p: nat)
    requires p > 0
    ensures value % (2 * p) == ((value / p) % 2) * p + value % p
  {
    var q, r := value / p, value % p;
    var h, b := q / 2, q % 2;
    assert value == p * q + r && q == 2 * h + b;
    assert p * q == (2 * p) * h + b * p;
    Quotient(value, 2 * p, h, b * p + r);
  }

  /** The bits of a number, most significant first, hold its remainder. */
  lemma {:induction false} LowBits(value: nat, n: nat)
    ensures Number(BitsOf(value, n)) == value % Pow2(n)
  {
    if n > 0 {
      LowBits(value, n - 1);
      DropBit(value, Pow2(n - 1));
      assert BitsOf(value, n)[1..] == BitsOf(value, n - 1);
    }
  }

  /** Each bit for itself: the most significant comes first. */
  lemma {:induction false} BitsInNumbers(value: nat, n: nat, i: nat)
    requires i < n
    ensures BitsOf(value, n)[n - 1 - i] <==> value / Pow2(i) % 2 == 1
  {
    if i < n - 1 { BitsInNumbers(value, n - 1, i); }
  }

  // The hardware.

  /** A bit that a write switches on. */
  predicate Rises(was: Word, now: Word, bit: nat) { bit !in was && bit in now }

  function ShiftIn(r: seq<bool>, bit: bool): (r': seq<bool>)
    requires r != []
    ensures |r'| == |r|
  {
    r[1..] + [bit]
  }

  class MTC {
    /** How the host rounds. */
    const single: Rounding
    var control: Word
    var serial: Word
    var dacCnt: Word
    var gtShift: seq<bool>
    var psShift: seq<bool>
    var gtCounter: seq<bool>
    var pulser: seq<bool>
    var dacs: seq<seq<bool>>

    /** No load is in progress. */
    ghost predicate Valid()
      reads this
    {
      && LOAD_ENGT !in control && LOAD_ENPS !in control
      && |gtShift| == |psShift| == 24
      && |dacs| == DACS && forall d | 0 <= d < DACS :: |dacs[d]| == 16
    }

    constructor (single: Rounding)
      ensures Valid() && control == {} && this.single == single
    {
      this.single := single;
      control, serial, dacCnt := {}, {}, {};
      gtShift, psShift := seq(24, _ => false), seq(24, _ => false);
      gtCounter, pulser := seq(24, _ => false), seq(24, _ => false);
      dacs := seq(DACS, _ => seq(16, _ => false));
    }

    /** RegWrite to MTCControlReg: a rising load enable copies a shift register to where it counts. */
    method WriteControl(w: Word)
      modifies this`control, this`gtCounter, this`pulser
      ensures control == w
      ensures gtCounter == if Rises(old(control), w, LOAD_ENGT) then gtShift else old(gtCounter)
      ensures pulser == if Rises(old(control), w, LOAD_ENPS) then psShift else old(pulser)
    {
      if Rises(control, w, LOAD_ENGT) {
        gtCounter := gtShift;
      }
      if Rises(control, w, LOAD_ENPS) {
        pulser := psShift;
      }
      control := w;
    }

    /** RegWrite to MTCSerialReg: a rising clock shifts SERDAT in, if the serial port is enabled. */
    method WriteSerial(w: Word)
      requires |gtShift| == |psShift| == 24
      modifies this`serial, this`gtShift, this`psShift
      ensures serial == w
      ensures gtShift ==
        if SEN in w && Rises(old(serial), w, SHFTCLKGT) then ShiftIn(old(gtShift), SERDAT in w) else old(gtShift)
      ensures psShift ==
        if SEN in w && Rises(old(serial), w, SHFTCLKPS) then ShiftIn(old(psShift), SERDAT in w) else old(psShift)
    {
      if SEN in w && Rises(serial, w, SHFTCLKGT) {
        gtShift := ShiftIn(gtShift, SERDAT in w);
      }
      if SEN in w && Rises(serial, w, SHFTCLKPS) {
        psShift := ShiftIn(psShift, SERDAT in w);
      }
      serial := w;
    }

    /** RegWrite to MTCDacCntReg: a rising clock shifts one bit into each of the selected DACs at once. */
    method WriteDacCnt(w: Word)
      requires |dacs| == DACS && forall d | 0 <= d < DACS :: |dacs[d]| == 16
      modifies this`dacCnt, this`dacs
      ensures dacCnt == w && |dacs| == DACS
      ensures forall d | 0 <= d < DACS ::
        dacs[d] == if DACSEL in w && Rises(old(dacCnt), w, DACCLK) then ShiftIn(old(dacs)[d], d in w) else old(dacs)[d]
    {
      if DACSEL in w && Rises(dacCnt, w, DACCLK) {
        var now := dacs;
        dacs := seq(DACS, d requires 0 <= d < DACS && |now| == DACS && |now[d]| == 16 => ShiftIn(now[d], d in w));
      }
      dacCnt := w;
    }

    /** One bit: data first, then the same with the clock. */
    method ClockIn(bit: bool, clock: nat)
      requires |gtShift| == |psShift| == 24 && (clock == SHFTCLKGT || clock == SHFTCLKPS)
      modifies this`serial, this`gtShift, this`psShift
      ensures gtShift == if clock == SHFTCLKGT then ShiftIn(old(gtShift), bit) else old(gtShift)
      ensures psShift == if clock == SHFTCLKPS then ShiftIn(old(psShift), bit) else old(psShift)
    {
      WriteSerial(if bit then {SERDAT, SEN} else {SEN});
      var temp := serial;
      WriteSerial(temp + {clock});
    }

    /** The loop over the 24 bits. */
    method ShiftWord(value: uint32, clock: nat)
      requires |gtShift| == |psShift| == 24 && (clock == SHFTCLKGT || clock == SHFTCLKPS)
      modifies this`serial, this`gtShift, this`psShift
      ensures gtShift == if clock == SHFTCLKGT then BitsOf(value, 24) else old(gtShift)
      ensures psShift == if clock == SHFTCLKPS then BitsOf(value, 24) else old(psShift)
    {
      ghost var start := if clock == SHFTCLKGT then gtShift else psShift;
      ghost var other := if clock == SHFTCLKGT then psShift else gtShift;
      var j := 24;
      NothingShifted(start, value, 24);
      while j > 0
        invariant 0 <= j <= 24 && |gtShift| == |psShift| == 24
        invariant Shifted(start, value, 24, j, if clock == SHFTCLKGT then gtShift else psShift)
        invariant (if clock == SHFTCLKGT then psShift else gtShift) == other
        decreases j
      {
        j := j - 1;
        NextShift(start, value, 24, j, if clock == SHFTCLKGT then gtShift else psShift);
        ClockIn(BitOf(value, j), clock);
      }
      AllShifted(start, value, 24, if clock == SHFTCLKGT then gtShift else psShift);
    }

    /** Read, set the enable, write; read, clear it, write. */
    method Load(enable: nat)
      requires Valid() && (enable == LOAD_ENGT || enable == LOAD_ENPS)
      modifies this`control, this`gtCounter, this`pulser
      ensures Valid() && control == old(control)
      ensures gtCounter == if enable == LOAD_ENGT then gtShift else old(gtCounter)
      ensures pulser == if enable == LOAD_ENPS then psShift else old(pulser)
    {
      var temp := control;
      WriteControl(temp + {enable});
      temp := control;
      WriteControl(temp - {enable});
    }

    /** SetGTCounter: the counter holds the low 24 bits. */
    method SetGTCounter(count: uint32)
      requires Valid()
      modifies this`control, this`serial, this`gtShift, this`psShift, this`gtCounter, this`pulser
      ensures Valid() && control == old(control) && pulser == old(pulser)
      ensures gtCounter == BitsOf(count, 24) && Number(gtCounter) == count % 0x100_0000
    {
      ShiftWord(count, SHFTCLKGT);
      Load(LOAD_ENGT);
      Held(count);
    }

    /** SetPulserFrequency: which frequencies are accepted, and what the register then holds. */
    method SetPulserFrequency(freq: real) returns (ok: bool)
      requires Valid()
      modifies this`control, this`serial, this`gtShift, this`psShift, this`gtCounter, this`pulser
      ensures Valid() && control == old(control) && gtCounter == old(gtCounter)
      ensures ok <==> freq <= 0.001 || 1 <= Truncated(single(single(781250.0 / freq) - 1.0)) <= 167772216
      ensures ok <==> Accepted(single, freq)
      ensures !ok ==> pulser == old(pulser)
      ensures ok && freq <= 0.001 ==> Number(pulser) == 0
      ensures ok && freq > 0.001 ==>
        Number(pulser) == Truncated(single(single(781250.0 / freq) - 1.0)) % 0x100_0000
      ensures ok ==> pulser == BitsOf(PulserValue(single, freq), 24)
      ensures ok ==> Number(pulser) == PulserValue(single, freq) % 0x100_0000
      ensures ok ==> (Number(pulser) == PulserValue(single, freq) <==> PulserValue(single, freq) < 0x100_0000)
    {
      var value := 0;
      if freq > 0.001 {
        value := Truncated(single(single(781250.0 / freq) - 1.0));
        if value < 1 || value > 167772216 {
          return false;
        }
      }
      ok := true;
      ShiftWord(value, SHFTCLKPS);
      Load(LOAD_ENPS);
      Held(value);
    }

    // LoadMTCADacsByCounts.

    ghost predicate DacsOk()
      reads this
    {
      |dacs| == DACS && forall d | 0 <= d < DACS :: |dacs[d]| == 16
    }

    /** Data, clock up, clock down. */
    method ClockDacs(shiftValue: Word)
      requires DacsOk() && DACSEL !in shiftValue && DACCLK !in shiftValue
      modifies this`dacCnt, this`dacs
      ensures DacsOk() && DACCLK !in dacCnt
      ensures forall d | 0 <= d < DACS :: dacs[d] == ShiftIn(old(dacs)[d], d in shiftValue)
    {
      WriteDacCnt(shiftValue + {DACSEL});
      WriteDacCnt(shiftValue + {DACSEL, DACCLK});
      WriteDacCnt(shiftValue + {DACSEL});
    }

    /** shift_value has each DAC's bit, whatever it had before, and neither select nor clock. */
    method Gather(rawDacs: seq<uint16>, bi: nat, before: Word) returns (shiftValue: Word)
      requires |rawDacs| == DACS && DACSEL !in before && DACCLK !in before
      ensures forall d | 0 <= d < DACS :: d in shiftValue <==> BitOf(rawDacs[d], bi)
      ensures DACSEL !in shiftValue && DACCLK !in shiftValue
    {
      shiftValue := before;
      for di := 0 to DACS
        invariant forall d | 0 <= d < di :: d in shiftValue <==> BitOf(rawDacs[d], bi)
        invariant DACSEL !in shiftValue && DACCLK !in shiftValue
      {
        if BitOf(rawDacs[di], bi) {
          shiftValue := shiftValue + {di};
        } else {
          shiftValue := shiftValue - {di};
        }
      }
    }

    /** Four zeros into each DAC. */
    method ClockDummies()
      requires DacsOk() && DACCLK !in dacCnt
      modifies this`dacCnt, this`dacs
      ensures DacsOk() && DACCLK !in dacCnt
      ensures forall d | 0 <= d < DACS :: dacs[d] == old(dacs)[d][4..] + [false, false, false, false]
    {
      ghost var was := dacs;
      for i := 0 to 4
        invariant DacsOk() && DACCLK !in dacCnt
        invariant forall d | 0 <= d < DACS :: dacs[d] == was[d][i..] + Zeros(i)
      {
        ghost var now := dacs;
        WriteDacCnt({DACSEL, DACCLK});
        WriteDacCnt({DACSEL});
        forall d | 0 <= d < DACS ensures dacs[d] == was[d][i + 1..] + Zeros(i + 1) {
          assert dacs[d] == ShiftIn(now[d], false);
          NextDummy(was[d], i);
        }
      }
    }

    /** LoadMTCADacsByCounts: every DAC ends up with the low 12 bits of its count, behind four zeros. */
    method LoadMTCADacsByCounts(rawDacs: seq<uint16>)
      requires Valid() && |rawDacs| == DACS
      modifies this`dacCnt, this`dacs
      ensures Valid() && dacCnt == {}
      ensures forall d | 0 <= d < 14 :: dacs[d] == Zeros(4) + BitsOf(rawDacs[d], 12)
      ensures forall d | 0 <= d < 14 :: Number(dacs[d]) == rawDacs[d] % 0x1000
    {
      WriteDacCnt({DACSEL});
      ClockDummies();
      ghost var start := dacs;
      var shiftValue: Word := {};
      var bi := 12;
      forall d | 0 <= d < DACS ensures Shifted(start[d], rawDacs[d], 12, 12, dacs[d]) {
        NothingShifted(start[d], rawDacs[d], 12);
      }
      while bi > 0
        invariant 0 <= bi <= 12 && DacsOk() && DACSEL !in shiftValue && DACCLK !in shiftValue
        invariant forall d | 0 <= d < DACS :: Shifted(start[d], rawDacs[d], 12, bi, dacs[d])
        decreases bi
      {
        bi := bi - 1;
        ghost var now := dacs;
        shiftValue := Gather(rawDacs, bi, shiftValue);
        ClockDacs(shiftValue);
        forall d | 0 <= d < DACS ensures Shifted(start[d], rawDacs[d], 12, bi, dacs[d]) {
          NextShift(start[d], rawDacs[d], 12, bi, now[d]);
        }
      }
      WriteDacCnt({});
      forall d | 0 <= d < DACS
        ensures dacs[d] == Zeros(4) + BitsOf(rawDacs[d], 12) && Number(dacs[d]) == rawDacs[d] % 0x1000
      {
        assert start[d][12..] == Zeros(4);
        DacShifted(start[d], rawDacs[d], dacs[d]);
      }
    }

    /** Any sequence of the two calls: each register holds what was last sent to it. */
    method SendAll(calls: seq<Call>)
      requires Valid()
      modifies this`control, this`serial, this`gtShift, this`psShift, this`gtCounter, this`pulser
      ensures Valid() && control == old(control)
      ensures gtCounter == LastCount(calls, old(gtCounter)) && pulser == LastPulser(single, calls, old(pulser))
    {
      for i := 0 to |calls|
        invariant Valid() && control == old(control)
        invariant gtCounter == LastCount(calls[..i], old(gtCounter))
        invariant pulser == LastPulser(single, calls[..i], old(pulser))
      {
        assert calls[..i + 1][..i] == calls[..i];
        match calls[i] {
          case Counter(count) => SetGTCounter(count);
          case Pulser(freq) => var ok := SetPulserFrequency(freq);
        }
      }
      assert calls[..|calls|] == calls;
    }
  }

  datatype Call = Counter(count: uint32) | Pulser(freq: real)

  function LastCount(calls: seq<Call>, was: seq<bool>): seq<bool> {
    if calls == [] then was
    else
      var last := calls[|calls| - 1];
      if last.Counter? then BitsOf(last.count, 24) else LastCount(calls[..|calls| - 1], was)
  }

  function LastPulser(single: Rounding, calls: seq<Call>, was: seq<bool>): seq<bool>
    decreases |calls|
  {
    if calls == [] then was
    else
      var last := calls[|calls| - 1];
      if last.Pulser? && Accepted(single, last.freq) then BitsOf(PulserValue(single, last.freq), 24)
      else LastPulser(single, calls[..|calls| - 1], was)
  }

  // The pulser's value.

  /** The conversion to an unsigned integer, which truncates; between -1 and 0 that gives 0. */
  function Truncated(x: real): (n: nat)
    ensures x >= 0.0 ==> n as real <= x < n as real + 1.0
    ensures x < 0.0 ==> n == 0
  {
    if x < 0.0 then 0 else x.Floor
  }

  /** Rounding to single precision, which gives each operation its result. */
  type Rounding = real -> real

  function PulserValue(single: Rounding, freq: real): nat {
    if freq <= 0.001 then 0 else Truncated(single(single(781250.0 / freq) - 1.0))
  }

  /** 167772216 is what the source compares with. */
  predicate Accepted(single: Rounding, freq: real) { freq <= 0.001 || 1 <= PulserValue(single, freq) <= 167772216 }

  /** The nearest integer, and of two the even one. */
  function HalfEven(x: real): int {
    var n := x.Floor;
    if x - n as real < 0.5 || (x - n as real == 0.5 && n % 2 == 0) then n else n + 1
  }

  /** What is used of IEEE 754: the order is kept, integers below 2^24 are exact, and from there to 2^25 the numbers are
      the even integers. */
  ghost predicate IsSingle(single: Rounding) {
    && (forall a, b {:trigger single(a), single(b)} | a <= b :: single(a) <= single(b))
    && (forall n: int {:trigger single(n as real)} | 0 <= n <= 0x100_0000 :: single(n as real) == n as real)
    && (forall x {:trigger single(x)} | 16777216.0 <= x <= 33554432.0 ::
          single(x) == 2.0 * HalfEven(x / 2.0) as real)
  }

  /** Which frequencies the 24 bits are enough for. */
  lemma PulserValueFits(single: Rounding, freq: real)
    requires IsSingle(single) && freq > 0.001
    ensures PulserValue(single, freq) < 0x100_0000 <==> freq * 16777217.0 >= 781250.0
  {
    var x := Ticks(freq);
    PulserValueIs(single, freq, x);
    if x <= 16777217.0 { JustFits(single, x); } else { JustTooLarge(single, x); }
  }

  lemma PulserValueIs(single: Rounding, freq: real, x: real)
    requires freq > 0.001 && x == 781250.0 / freq
    ensures PulserValue(single, freq) == Truncated(single(single(x) - 1.0))
  {}

  lemma Ticks(freq: real) returns (x: real)
    requires freq > 0.001
    ensures x == 781250.0 / freq && (x <= 16777217.0 <==> freq * 16777217.0 >= 781250.0)
  {
    x := 781250.0 / freq;
    assert x * freq == 781250.0;
    if x <= 16777217.0 { NotLess(16777217.0, x, freq); } else { Greater(x, 16777217.0, freq); }
  }

  lemma JustFits(single: Rounding, x: real)
    requires IsSingle(single) && x <= 16777217.0
    ensures Truncated(single(single(x) - 1.0)) < 0x100_0000
  {
    var y := single(x);
    assert single(16777217.0) == 2.0 * HalfEven(16777217.0 / 2.0) as real;
    assert HalfEven(16777217.0 / 2.0) == 8388608;
    assert single(x) <= single(16777217.0);
    assert single(16777215 as real) == 16777215.0;
    assert single(y - 1.0) <= single(16777215 as real);
  }

  lemma JustTooLarge(single: Rounding, x: real)
    requires IsSingle(single) && x > 16777217.0
    ensures Truncated(single(single(x) - 1.0)) >= 0x100_0000
  {
    var z := if x <= 33554432.0 then x else 33554432.0;
    assert single(z) <= single(x);
    assert single(z) == 2.0 * HalfEven(z / 2.0) as real && HalfEven(z / 2.0) >= 8388609;
    assert single(0x100_0000 as real) == 16777216.0;
    assert single(0x100_0000 as real) <= single(single(x) - 1.0);
  }

  /** A frequency of a thirty-second of a hertz is accepted although the register cannot hold its value. */
  lemma TooSlowIsAccepted(single: Rounding)
    requires IsSingle(single)
    ensures Accepted(single, 0.03125) && PulserValue(single, 0.03125) == 25000000
    ensures 25000000 % 0x100_0000 == 8222784
  {
    assert 781250.0 / 0.03125 == 25000000.0;
    assert single(25000000.0) == 2.0 * HalfEven(12500000.0) as real;
    assert single(24999999.0) == 2.0 * HalfEven(24999999.0 / 2.0) as real;
    assert HalfEven(24999999.0 / 2.0) == 12500000;
  }

  lemma Greater(a: real, b: real, f: real)
    requires a > b && f > 0.0
    ensures f * b < a * f
  {}

  lemma NotLess(a: real, b: real, f: real)
    requires a >= b && f > 0.0
    ensures f * a >= b * f
  {}

  lemma Held(value: nat)
    ensures Number(BitsOf(value, 24)) == value % 0x100_0000
  {
    LowBits(value, 24);
    Pow24();
  }

  lemma Pow24()
    ensures Pow2(12) == 0x1000 && Pow2(24) == 0x100_0000
  {
    assert Pow2(4) == 16;
    assert Pow2(8) == 256;
    assert Pow2(12) == 4096;
    assert Pow2(16) == 65536;
    assert Pow2(20) == 0x10_0000;
  }

  // Shift registers.

  /** The bits from n down to j of the value have been shifted in. */
  ghost predicate Shifted(start: seq<bool>, value: nat, n: nat, j: nat, r: seq<bool>) {
    j <= n <= |start| == |r| && r[..|r| - (n - j)] == start[n - j..]
      && r[|r| - (n - j)..] + BitsOf(value, j) == BitsOf(value, n)
  }

  lemma NothingShifted(start: seq<bool>, value: nat, n: nat)
    requires n <= |start|
    ensures Shifted(start, value, n, n, start)
  {
    assert [] + BitsOf(value, n) == BitsOf(value, n);
  }

  lemma NextShift(start: seq<bool>, value: nat, n: nat, j: nat, r: seq<bool>)
    requires Shifted(start, value, n, j + 1, r) && r != []
    ensures Shifted(start, value, n, j, ShiftIn(r, BitOf(value, j)))
  {
    var k := n - (j + 1);
    var r' := ShiftIn(r, BitOf(value, j));
    assert r'[|r'| - (k + 1)..] == r[|r| - k..] + [BitOf(value, j)];
    assert BitsOf(value, j + 1) == [BitOf(value, j)] + BitsOf(value, j);
    Regroup(r[|r| - k..], [BitOf(value, j)], BitsOf(value, j));
    assert r'[..|r'| - (k + 1)] == r[..|r| - k][1..];
  }

  lemma Regroup(a: seq<bool>, b: seq<bool>, c: seq<bool>)
    ensures a + (b + c) == a + b + c
  {}

  lemma AllShifted(start: seq<bool>, value: nat, n: nat, r: seq<bool>)
    requires Shifted(start, value, n, 0, r) && n == |start|
    ensures r == BitsOf(value, n)
  {
    assert r[0..] + [] == r;
  }

  function Zeros(n: nat): (z: seq<bool>)
    ensures |z| == n && forall i | 0 <= i < n :: !z[i]
  {
    seq(n, _ => false)
  }

  lemma NextDummy(was: seq<bool>, i: nat)
    requires i < |was|
    ensures ShiftIn(was[i..] + Zeros(i), false) == was[i + 1..] + Zeros(i + 1)
  {}

  lemma DacShifted(start: seq<bool>, value: nat, r: seq<bool>)
    requires |start| == 16 && start[12..] == Zeros(4) && Shifted(start, value, 12, 0, r)
    ensures r == Zeros(4) + BitsOf(value, 12) && Number(r) == value % 0x1000
  {
    assert r == r[..4] + r[4..];
    assert r[4..] + [] == r[4..];
    TwelveBits(value);
  }

  lemma TwelveBits(value: nat)
    ensures Number(Zeros(4) + BitsOf(value, 12)) == value % 0x1000
  {
    LowBits(value, 12);
    Pow24();
    LeadingZeros(4, BitsOf(value, 12));
  }

  lemma {:induction false} LeadingZeros(n: nat, bits: seq<bool>)
    ensures Number(Zeros(n) + bits) == Number(bits)
  {
    if n == 0 {
      assert Zeros(0) + bits == bits;
    } else {
      assert (Zeros(n) + bits)[1..] == Zeros(n - 1) + bits;
      LeadingZeros(n - 1, bits);
    }
  }
}
