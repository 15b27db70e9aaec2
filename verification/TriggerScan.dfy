/** The pedestal masks of src/tests/TriggerScan.cpp, which are brought to each nhit step by step, with as few
    register writes as possible. */
module TriggerScan {
  import opened Bits

  /** 20 crates of 16 FECs. */
  const FECS: nat := 320
  const ALL: bv32 := 0xFFFF_FFFF

  type Selection = s: seq<bool> | |s| == FECS witness seq(FECS, _ => false)

  /** How many FECs below n are selected. */
  function Rank(selected: Selection, n: nat): nat
    requires n <= FECS
  {
    if n == 0 then 0 else Rank(selected, n - 1) + if selected[n - 1] then 1 else 0
  }

  /** The mask of the selected FEC with r selected ones before it: full, leftovers, or off. */
  function Wanted(inhit: nat, r: nat): bv32 {
    if r < inhit / 32 then ALL else if r == inhit / 32 then LowBits(inhit % 32) else 0
  }

  /** The channels of the selected FECs, one FEC behind the other, are on up to inhit. */
  lemma WantedBits(inhit: nat, r: nat, ch: nat)
    requires ch < 32
    ensures (Wanted(inhit, r) >> (ch as bv32)) & 1 == 1 <==> 32 * r + ch < inhit
  {
    assert Bit(Wanted(inhit, r), ch) <==> (Wanted(inhit, r) >> (ch as bv32)) & 1 == 1;
    EveryBit(ch);
    NoBit(ch);
    LowBitsAt(inhit % 32, ch);
    assert inhit == 32 * (inhit / 32) + inhit % 32;
  }

  lemma {:induction false} RankIsCount(selected: Selection, n: nat)
    requires n <= FECS
    ensures Rank(selected, n) == |set k | 0 <= k < n && selected[k]|
  {
    if n > 0 {
      RankIsCount(selected, n - 1);
      var before, now := set k | 0 <= k < n - 1 && selected[k], set k | 0 <= k < n && selected[k];
      if selected[n - 1] { assert now == before + {n - 1}; } else { assert now == before; }
    }
  }

  /** How many channels are on in the selected FECs below n. */
  function Enabled(selected: Selection, masks: seq<bv32>, n: nat): nat
    requires |masks| == FECS && n <= FECS
  {
    if n == 0 then 0 else Enabled(selected, masks, n - 1) + if selected[n - 1] then Count(masks[n - 1], 32) else 0
  }

  function Share(inhit: nat, r: nat): nat {
    if r < inhit / 32 then 32 else if r == inhit / 32 then inhit % 32 else 0
  }

  function Shares(inhit: nat, k: nat): nat { if k == 0 then 0 else Shares(inhit, k - 1) + Share(inhit, k - 1) }

  lemma {:induction false} SharesAddUp(inhit: nat, k: nat)
    ensures Shares(inhit, k) == if inhit <= 32 * k then inhit else 32 * k
  {
    if k > 0 { SharesAddUp(inhit, k - 1); }
  }

  lemma CountWanted(inhit: nat, r: nat)
    ensures Count(Wanted(inhit, r), 32) == Share(inhit, r)
  {
    CountAll(32);
    CountNone(32);
    CountLowBits(inhit % 32, 32);
  }

  /** The masks are as they should be. */
  ghost predicate Set(selected: Selection, masks: seq<bv32>, inhit: nat, n: nat)
    requires |masks| == FECS && n <= FECS
  {
    forall i {:trigger masks[i]} | 0 <= i < n && selected[i] :: masks[i] == Wanted(inhit, Rank(selected, i))
  }

  lemma {:induction false} EnabledShares(selected: Selection, masks: seq<bv32>, inhit: nat, n: nat)
    requires |masks| == FECS && n <= FECS && Set(selected, masks, inhit, n)
    ensures Enabled(selected, masks, n) == Shares(inhit, Rank(selected, n))
  {
    if n > 0 {
      EnabledShares(selected, masks, inhit, n - 1);
      if selected[n - 1] {
        assert masks[n - 1] == Wanted(inhit, Rank(selected, n - 1));
        CountWanted(inhit, Rank(selected, n - 1));
      }
    }
  }

  /** The enabled channels add up to inhit, as far as the FECs reach. */
  lemma EnabledIsNhit(selected: Selection, masks: seq<bv32>, inhit: nat)
    requires |masks| == FECS && Set(selected, masks, inhit, FECS)
    ensures var fecs := Rank(selected, FECS);
      Enabled(selected, masks, FECS) == if inhit <= 32 * fecs then inhit else 32 * fecs
  {
    EnabledShares(selected, masks, inhit, FECS);
    SharesAddUp(inhit, Rank(selected, FECS));
  }

  class Scan {
    /** The masks as the program remembers them, and as they are in the PED_ENABLE registers. */
    const pedestals: array<bv32>
    const registers: array<bv32>

    ghost predicate Valid() { pedestals.Length == registers.Length == FECS && pedestals != registers }

    /** The shadow equals what was written. */
    ghost predicate InStep(selected: Selection)
      requires Valid()
      reads pedestals, registers
    {
      forall i | 0 <= i < FECS && selected[i] :: pedestals[i] == registers[i]
    }

    constructor ()
      ensures Valid() && fresh(pedestals) && fresh(registers)
    {
      pedestals := new bv32[FECS](_ => 0);
      registers := new bv32[FECS](_ => 0);
    }

    /** At the start all selected FECs are switched off, and counted. */
    method Reset(selected: Selection) returns (fecs: nat)
      requires Valid()
      modifies pedestals, registers
      ensures InStep(selected) && Set(selected, pedestals[..], 0, FECS) && fecs == Rank(selected, FECS)
      ensures forall i | 0 <= i < FECS && selected[i] :: registers[i] == 0
      ensures forall i | 0 <= i < FECS && !selected[i] :: registers[i] == old(registers[i])
    {
      fecs := 0;
      for i := 0 to FECS
        invariant fecs == Rank(selected, i)
        invariant forall k | 0 <= k < i && selected[k] :: pedestals[k] == registers[k] == 0
        invariant forall k | 0 <= k < FECS && !selected[k] :: registers[k] == old(registers[k])
      {
        if selected[i] {
          registers[i] := 0;
          fecs := fecs + 1;
          pedestals[i] := 0;
        }
      }
      NothingWanted(selected);
    }

    static lemma NothingWanted(selected: Selection)
      ensures forall i | 0 <= i < FECS :: Wanted(0, Rank(selected, i)) == 0
    {
      assert LowBits(0) == 0;
    }

    /** A new mask, in the shadow and in the register. */
    method Write(i: nat, mask: bv32)
      requires Valid() && i < FECS
      modifies pedestals, registers
      ensures pedestals[..] == old(pedestals[..])[i := mask] && registers[..] == old(registers[..])[i := mask]
    {
      pedestals[i] := mask;
      registers[i] := mask;
    }

    /** The mask with the first channels on. */
    method Leftovers(unfull: nat) returns (mask: bv32)
      requires unfull < 32
      ensures mask == LowBits(unfull)
      ensures forall i | 0 <= i < 32 :: Bit(mask, i) <==> i < unfull
    {
      mask := 0;
      for i := 0 to unfull
        invariant mask == LowBits(i)
      {
        mask := mask | Mask(i);
      }
      forall i | 0 <= i < 32 ensures Bit(mask, i) <==> i < unfull { LowBitsAt(unfull, i); }
    }

    /** One step: whatever the masks were, afterwards the first FECs are fully on, the next one has the leftovers,
        the others are off, and exactly inhit channels are on. */
    method SetNhit(selected: Selection, inhit: nat)
      requires Valid() && InStep(selected)
      modifies pedestals, registers
      ensures InStep(selected) && Set(selected, pedestals[..], inhit, FECS)
      ensures inhit <= 32 * Rank(selected, FECS) ==> Enabled(selected, registers[..], FECS) == inhit
      ensures forall i, ch | 0 <= i < 320 && selected[i] && 0 <= ch < 32 ::
        Bit(registers[i], ch) <==> 32 * Rank(selected, i) + ch < inhit
      ensures forall i | 0 <= i < FECS && !selected[i] :: registers[i] == old(registers[i])
    {
      var leftovers := Leftovers(inhit % 32);
      SetMasks(selected, inhit, leftovers);
      EnabledIsNhit(selected, pedestals[..], inhit);
      SameEnabled(selected, pedestals[..], registers[..], FECS);
      forall i, ch | 0 <= i < FECS && selected[i] && 0 <= ch < 32
        ensures Bit(registers[i], ch) <==> 32 * Rank(selected, i) + ch < inhit
      {
        assert registers[i] == pedestals[i] == pedestals[..][i];
        WantedBits(inhit, Rank(selected, i), ch);
      }
    }

    static lemma {:induction false} SameEnabled(selected: Selection, a: seq<bv32>, b: seq<bv32>, n: nat)
      requires |a| == |b| == FECS && n <= FECS && forall i | 0 <= i < n && selected[i] :: a[i] == b[i]
      ensures Enabled(selected, a, n) == Enabled(selected, b, n)
    {
      if n > 0 { SameEnabled(selected, a, b, n - 1); }
    }

    /** The loops over the crates and FECs. */
    method SetMasks(selected: Selection, inhit: nat, leftovers: bv32)
      requires Valid() && InStep(selected) && leftovers == LowBits(inhit % 32)
      modifies pedestals, registers
      ensures InStep(selected) && Set(selected, pedestals[..], inhit, FECS)
      ensures forall i | 0 <= i < FECS && !selected[i] :: registers[i] == old(registers[i])
    {
      var fullFecs: int := inhit / 32;
      for i := 0 to FECS
        invariant fullFecs == if Rank(selected, i) <= inhit / 32 then inhit / 32 - Rank(selected, i) else -1
        invariant InStep(selected) && Set(selected, pedestals[..], inhit, i)
        invariant forall k | 0 <= k < FECS && !selected[k] :: registers[k] == old(registers[k])
      {
        if selected[i] {
          fullFecs := SetFec(selected, inhit, i, fullFecs, leftovers);
        }
      }
    }

    /** One selected FEC. */
    method SetFec(ghost selected: Selection, ghost inhit: nat, i: nat, fullFecs: int, leftovers: bv32)
      returns (left: int)
      requires Valid() && InStep(selected) && i < FECS && selected[i] && Set(selected, pedestals[..], inhit, i)
      requires fullFecs == if Rank(selected, i) <= inhit / 32 then inhit / 32 - Rank(selected, i) else -1
      requires leftovers == LowBits(inhit % 32)
      modifies pedestals, registers
      ensures InStep(selected) && Set(selected, pedestals[..], inhit, i + 1)
      ensures left == if fullFecs >= 0 then fullFecs - 1 else -1
      ensures forall k | 0 <= k < FECS && k != i :: registers[k] == old(registers[k])
    {
      ghost var before := pedestals[..];
      left := fullFecs;
      if pedestals[i] == ALL {
        if fullFecs > 0 {
          left := left - 1;
        } else if fullFecs == 0 {
          left := left - 1;
          Write(i, leftovers);
        } else {
          Write(i, 0);
        }
      } else {
        if fullFecs > 0 {
          left := left - 1;
          Write(i, ALL);
        } else if fullFecs == 0 {
          left := left - 1;
          Write(i, leftovers);
        } else if pedestals[i] == 0 {
        } else {
          Write(i, 0);
        }
      }
      NextSet(selected, before, pedestals[..], inhit, i);
    }

    lemma NextSet(selected: Selection, before: seq<bv32>, after: seq<bv32>, inhit: nat, i: nat)
      requires |before| == |after| == FECS && i < FECS && Set(selected, before, inhit, i)
      requires after == before[i := Wanted(inhit, Rank(selected, i))]
      ensures Set(selected, after, inhit, i + 1)
    {}
  }
}
