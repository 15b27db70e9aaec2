/** Relocation of boards in the configuration document (src/db/DB.cpp).

    The document says which board is at each position; a position without a board holds null.  This module is about
    what an update does to that; in DbUpdate it is done, to the node tree. */
module DbConfig {
  /** The crate is its place in the document's list. */
  datatype Position =
    | Fec(crate: nat, slot: nat)
    | Db(crate: nat, slot: nat, card: nat)
    | Pmtic(crate: nat, slot: nat)

  datatype Board = NoString | Id(text: string)

  type Boards = map<Position, Board>

  /** What the document has for each position.  A FEC's id is a member of an object, which can be there more than
      once; only the first one is ever read. */
  type Slots = map<Position, seq<Board>>

  function First(bs: seq<Board>): Board { if bs == [] then NoString else bs[0] }

  function Read(slots: Slots): Boards { map p | p in slots :: First(slots[p]) }

  /** Nothing is there twice. */
  ghost predicate Single(slots: Slots) { forall p | p in slots :: |slots[p]| == 1 }

  function FirstFour(s: string): string { if |s| <= 4 then s else s[..4] }

  /** strncmp of four characters. */
  predicate SameId(a: string, b: string) { FirstFour(a) == FirstFour(b) }

  /** The strings have the same character at k, or both end before it. */
  predicate Agree(a: string, b: string, k: nat) { (k < |a| <==> k < |b|) && (k < |a| && k < |b| ==> a[k] == b[k]) }

  /** Up to four characters are compared, and none behind the end of a string. */
  lemma SameIdMeans(a: string, b: string)
    ensures SameId(a, b) <==> Agree(a, b, 0) && Agree(a, b, 1) && Agree(a, b, 2) && Agree(a, b, 3)
  {
    var a4, b4 := FirstFour(a), FirstFour(b);
    assert forall k: nat | k < 4 :: (k < |a| <==> k < |a4|) && (k < |a4| ==> a4[k] == a[k]);
    assert forall k: nat | k < 4 :: (k < |b| <==> k < |b4|) && (k < |b4| ==> b4[k] == b[k]);
    if |a4| == |b4| && forall k | 0 <= k < |a4| :: a4[k] == b4[k] { assert a4 == b4; }
  }

  predicate Listed(ids: seq<string>, b: Board) { b.Id? && exists m :: 0 <= m < |ids| && SameId(ids[m], b.text) }

  /** How many of the ids a board matches. */
  function Matches(ids: seq<string>, b: Board): nat {
    if ids == [] then 0
    else Matches(ids[..|ids| - 1], b) + if b.Id? && SameId(ids[|ids| - 1], b.text) then 1 else 0
  }

  lemma {:induction false} MatchesIfListed(ids: seq<string>, b: Board)
    ensures Matches(ids, b) > 0 <==> Listed(ids, b)
  {
    if ids != [] {
      var before := ids[..|ids| - 1];
      MatchesIfListed(before, b);
      if Listed(before, b) {
        var m :| 0 <= m < |before| && SameId(before[m], b.text);
        assert ids[m] == before[m];
      }
      if Listed(ids, b) {
        var m :| 0 <= m < |ids| && SameId(ids[m], b.text);
        assert m < |before| ==> before[m] == ids[m];
      }
    }
  }

  function Nulls(n: nat): (bs: seq<Board>)
    ensures |bs| == n && forall i | 0 <= i < n :: bs[i] == NoString
  {
    seq(n, _ => NoString)
  }

  /** RemoveFromConfig at one position.  The first id that matches detaches what is there, and every id that matches
      brings a null: in an array it takes the place of the one before, in a FEC it is one more member. */
  function ClearedSlot(p: Position, bs: seq<Board>, ids: seq<string>): seq<Board> {
    var n := Matches(ids, First(bs));
    if n == 0 || bs == [] then bs else if p.Fec? then bs[1..] + Nulls(n) else [NoString]
  }

  /** The listed boards are gone from the positions of a region. */
  function ClearedAt(slots: Slots, ids: seq<string>, region: set<Position>): Slots {
    map p | p in slots :: if p in region then ClearedSlot(p, slots[p], ids) else slots[p]
  }

  function Cleared(slots: Slots, ids: seq<string>): Slots { ClearedAt(slots, ids, slots.Keys) }

  /** A new board at a position: in a FEC the first id is detached, and the new one comes last. */
  function ExchangedSlot(p: Position, bs: seq<Board>, b: Board): seq<Board> {
    if p.Fec? && bs != [] then bs[1..] + [b] else [b]
  }

  predicate InDocument(p: Position, crates: nat) {
    p.crate < crates && p.slot < 16 && (p.Db? ==> p.card < 4)
  }

  /** Every crate has 16 FECs with 4 daughterboards each, and 16 PMTICs. */
  ghost predicate Complete(slots: Slots, crates: nat) {
    && (forall p {:trigger p in slots} :: p in slots <==> InDocument(p, crates))
    && (forall p {:trigger slots[p]} | p in slots :: slots[p] != [] && (!p.Fec? ==> |slots[p]| == 1))
  }

  /** The first crate with the number; as many as there are when there is none. */
  function CrateIndex(numbers: seq<int>, number: int): (i: nat)
    ensures i <= |numbers| && (i < |numbers| ==> numbers[i] == number)
    ensures forall k | 0 <= k < i :: numbers[k] != number
  {
    if numbers == [] || numbers[0] == number then 0 else 1 + CrateIndex(numbers[1..], number)
  }

  /** Where a board is to go: 0 is the FEC, 1 to 4 are the daughterboards, 5 is the PMTIC. */
  datatype Place = Place(crate: int, slot: int, position: int)

  predicate Placeable(numbers: seq<int>, at: Place) {
    CrateIndex(numbers, at.crate) < |numbers| && 0 <= at.slot < 16 && 0 <= at.position <= 5
  }

  function Target(numbers: seq<int>, at: Place): Position
    requires Placeable(numbers, at)
  {
    var crate := CrateIndex(numbers, at.crate);
    if at.position == 0 then Fec(crate, at.slot)
    else if at.position < 5 then Db(crate, at.slot, at.position - 1)
    else Pmtic(crate, at.slot)
  }

  /** The boards can be placed, each at a position of its own. */
  predicate Order(numbers: seq<int>, ids: seq<string>, at: seq<Place>) {
    && |ids| == |at| && (forall m | 0 <= m < |at| :: Placeable(numbers, at[m]))
    && forall m, n | 0 <= m < n < |at| :: Target(numbers, at[m]) != Target(numbers, at[n])
  }

  /** One of the first k boards goes to p. */
  predicate IsTarget(numbers: seq<int>, at: seq<Place>, k: nat, p: Position)
    requires k <= |at| && forall m | 0 <= m < k :: Placeable(numbers, at[m])
  {
    exists m :: 0 <= m < k && Target(numbers, at[m]) == p
  }

  /** The ids at the first k targets. */
  function Displaced(boards: Boards, numbers: seq<int>, at: seq<Place>, k: nat): seq<string>
    requires k <= |at| && forall m | 0 <= m < k :: Placeable(numbers, at[m]) && Target(numbers, at[m]) in boards
  {
    if k == 0 then []
    else
      var b := boards[Target(numbers, at[k - 1])];
      Displaced(boards, numbers, at, k - 1) + if b.Id? then [b.text] else []
  }

  lemma {:induction false} DisplacedAre(boards: Boards, numbers: seq<int>, at: seq<Place>, k: nat, s: string)
    requires k <= |at| && forall m | 0 <= m < k :: Placeable(numbers, at[m]) && Target(numbers, at[m]) in boards
    ensures s in Displaced(boards, numbers, at, k)
      <==> exists m :: 0 <= m < k && boards[Target(numbers, at[m])] == Id(s)
  {
    if k > 0 {
      DisplacedAre(boards, numbers, at, k - 1, s);
      if boards[Target(numbers, at[k - 1])] == Id(s) { assert s in Displaced(boards, numbers, at, k); }
    }
  }

  // What the update and its clean-up come to.

  /** A board that is displaced: it stood at a target and is not itself to be placed. */
  predicate IsDisplaced(boards: Boards, numbers: seq<int>, ids: seq<string>, at: seq<Place>, s: string)
    requires Order(numbers, ids, at) && forall m | 0 <= m < |at| :: Target(numbers, at[m]) in boards
  {
    exists m :: 0 <= m < |at| && boards[Target(numbers, at[m])] == Id(s) && !Listed(ids, Id(s))
  }

  ghost predicate MatchesDisplaced(boards: Boards, numbers: seq<int>, ids: seq<string>, at: seq<Place>, b: Board)
    requires Order(numbers, ids, at) && forall m | 0 <= m < |at| :: Target(numbers, at[m]) in boards
  {
    b.Id? && exists s: string :: SameId(s, b.text) && IsDisplaced(boards, numbers, ids, at, s)
  }

  /** A FEC whose id more than one entry of the list matches: it is left with more than one null. */
  predicate Doubled(ids: seq<string>, p: Position, b: Board) { p.Fec? && Matches(ids, b) > 1 }

  /** At the targets the listed boards, unless a null hides them, elsewhere what there was, without the listed and the
      displaced ones. */
  ghost predicate Updated(was: Boards, now: Boards, numbers: seq<int>, ids: seq<string>, at: seq<Place>)
    requires Order(numbers, ids, at) && forall m | 0 <= m < |at| :: Target(numbers, at[m]) in was
  {
    && now.Keys == was.Keys
    && (forall m | 0 <= m < |at| ::
          var p := Target(numbers, at[m]); now[p] == if Doubled(ids, p, was[p]) then NoString else Id(ids[m]))
    && (forall p {:trigger now[p]} | p in was && !IsTarget(numbers, at, |at|, p) ::
          now[p] == if Listed(ids, was[p]) || MatchesDisplaced(was, numbers, ids, at, was[p]) then NoString else was[p])
  }

  predicate DistinctIds(ids: seq<string>) { forall m, n | 0 <= m < n < |ids| :: !SameId(ids[m], ids[n]) }

  lemma {:induction false} AtMostOnce(ids: seq<string>, b: Board)
    requires DistinctIds(ids)
    ensures Matches(ids, b) <= 1
  {
    if ids != [] {
      var before := ids[..|ids| - 1];
      forall m, n | 0 <= m < n < |before| ensures !SameId(before[m], before[n]) {
        assert !SameId(ids[m], ids[n]);
      }
      AtMostOnce(before, b);
      MatchesIfListed(before, b);
      if Listed(before, b) {
        var m :| 0 <= m < |before| && SameId(before[m], b.text);
        assert !SameId(ids[m], ids[|ids| - 1]);
      }
    }
  }

  lemma TargetInDocument(slots: Slots, numbers: seq<int>, at: Place)
    requires Complete(slots, |numbers|) && Placeable(numbers, at)
    ensures Target(numbers, at) in slots
  {
    assert InDocument(Target(numbers, at), |numbers|);
  }

  /** Every listed id stands at its target and nowhere else. */
  lemma ListedExactlyThere(was: Boards, now: Boards, numbers: seq<int>, ids: seq<string>, at: seq<Place>, m: nat,
                           p: Position)
    requires Order(numbers, ids, at) && DistinctIds(ids) && m < |ids| && p in was
    requires (forall n | 0 <= n < |at| :: Target(numbers, at[n]) in was) && Updated(was, now, numbers, ids, at)
    ensures now[p].Id? && SameId(ids[m], now[p].text) <==> p == Target(numbers, at[m])
  {
    AtMostOnce(ids, was[p]);
    if IsTarget(numbers, at, |at|, p) {
      var n :| 0 <= n < |at| && Target(numbers, at[n]) == p;
      if n != m { assert !SameId(ids[m], ids[n]); }
    } else if now[p].Id? && SameId(ids[m], now[p].text) {
      assert Listed(ids, was[p]);
    }
  }

  /** Every displaced id stands nowhere. */
  lemma DisplacedNowhere(was: Boards, now: Boards, numbers: seq<int>, ids: seq<string>, at: seq<Place>, m: nat,
                         p: Position)
    requires Order(numbers, ids, at) && m < |ids| && p in was
    requires (forall n | 0 <= n < |at| :: Target(numbers, at[n]) in was) && Updated(was, now, numbers, ids, at)
    requires var b := was[Target(numbers, at[m])]; b.Id? && !Listed(ids, b)
    ensures !(now[p].Id? && SameId(was[Target(numbers, at[m])].text, now[p].text))
  {
    var s := was[Target(numbers, at[m])].text;
    assert IsDisplaced(was, numbers, ids, at, s);
    if now[p].Id? && SameId(s, now[p].text) {
      if IsTarget(numbers, at, |at|, p) {
        var n :| 0 <= n < |at| && Target(numbers, at[n]) == p;
        assert SameId(ids[n], s);
      } else {
        assert MatchesDisplaced(was, numbers, ids, at, was[p]);
      }
    }
  }

  predicate SameBoard(a: Board, b: Board) { a.Id? && b.Id? && SameId(a.text, b.text) }

  predicate Unique(boards: Boards) {
    forall p, q | p in boards && q in boards && p != q :: !SameBoard(boards[p], boards[q])
  }

  /** Ids that were unique stay unique. */
  lemma UniqueKept(was: Boards, now: Boards, numbers: seq<int>, ids: seq<string>, at: seq<Place>)
    requires Order(numbers, ids, at) && DistinctIds(ids) && Unique(was)
    requires (forall n | 0 <= n < |at| :: Target(numbers, at[n]) in was) && Updated(was, now, numbers, ids, at)
    ensures Unique(now)
  {
    forall p, q | p in now && q in now && p != q ensures !SameBoard(now[p], now[q]) {
      if IsTarget(numbers, at, |at|, p) {
        TargetIsAlone(was, now, numbers, ids, at, p, q);
      } else if IsTarget(numbers, at, |at|, q) {
        TargetIsAlone(was, now, numbers, ids, at, q, p);
      } else {
        assert !SameBoard(was[p], was[q]);
        assert now[p] == NoString || now[p] == was[p];
        assert now[q] == NoString || now[q] == was[q];
      }
    }
  }

  lemma TargetIsAlone(was: Boards, now: Boards, numbers: seq<int>, ids: seq<string>, at: seq<Place>, p: Position,
                      q: Position)
    requires Order(numbers, ids, at) && DistinctIds(ids)
    requires (forall n | 0 <= n < |at| :: Target(numbers, at[n]) in was) && Updated(was, now, numbers, ids, at)
    requires IsTarget(numbers, at, |at|, p) && q in was && p != q
    ensures now[p].Id? && !SameBoard(now[p], now[q])
  {
    var m :| 0 <= m < |at| && Target(numbers, at[m]) == p;
    AtMostOnce(ids, was[p]);
    ListedExactlyThere(was, now, numbers, ids, at, m, q);
  }

  // The document.

  /** What the first k boards have made of the document. */
  function PlacedSlots(slots: Slots, numbers: seq<int>, ids: seq<string>, at: seq<Place>, k: nat): (r: Slots)
    requires |ids| == |at| && k <= |at| && forall m | 0 <= m < |at| :: Placeable(numbers, at[m])
    requires forall m | 0 <= m < |at| :: Target(numbers, at[m]) in slots
    ensures r.Keys == slots.Keys
  {
    if k == 0 then slots
    else
      var before, p := PlacedSlots(slots, numbers, ids, at, k - 1), Target(numbers, at[k - 1]);
      before[p := ExchangedSlot(p, before[p], Id(ids[k - 1]))]
  }

  /** What UpdateLocation and its clean-up make of the document. */
  function AfterUpdate(slots: Slots, numbers: seq<int>, ids: seq<string>, at: seq<Place>): Slots
    requires Order(numbers, ids, at) && forall m | 0 <= m < |at| :: Target(numbers, at[m]) in slots
  {
    var cleared := Cleared(slots, ids);
    Cleared(PlacedSlots(cleared, numbers, ids, at, |at|), Displaced(Read(cleared), numbers, at, |at|))
  }

  // What that comes to.

  lemma {:induction false} NotYetPlaced(slots: Slots, numbers: seq<int>, ids: seq<string>, at: seq<Place>, k: nat,
                                        p: Position)
    requires Order(numbers, ids, at) && k <= |at| && forall m | 0 <= m < |at| :: Target(numbers, at[m]) in slots
    requires p in slots && forall m | 0 <= m < k :: Target(numbers, at[m]) != p
    ensures PlacedSlots(slots, numbers, ids, at, k)[p] == slots[p]
  {
    if k > 0 { NotYetPlaced(slots, numbers, ids, at, k - 1, p); }
  }

  lemma {:induction false} NowPlaced(slots: Slots, numbers: seq<int>, ids: seq<string>, at: seq<Place>, k: nat, m: nat)
    requires Order(numbers, ids, at) && m < k <= |at| && forall i | 0 <= i < |at| :: Target(numbers, at[i]) in slots
    ensures var p := Target(numbers, at[m]);
      PlacedSlots(slots, numbers, ids, at, k)[p] == ExchangedSlot(p, slots[p], Id(ids[m]))
  {
    if m == k - 1 {
      NotYetPlaced(slots, numbers, ids, at, k - 1, Target(numbers, at[m]));
    } else {
      NowPlaced(slots, numbers, ids, at, k - 1, m);
    }
  }

  /** What is left of a position after the first removal. */
  lemma ReadCleared(was: Slots, ids: seq<string>, p: Position)
    requires Single(was) && p in was
    ensures var b := Read(was)[p];
      Read(Cleared(was, ids))[p] == if Listed(ids, b) then NoString else b
  {
    MatchesIfListed(ids, First(was[p]));
  }

  lemma WhichAreDisplaced(was: Slots, numbers: seq<int>, ids: seq<string>, at: seq<Place>, s: string)
    requires Single(was) && Order(numbers, ids, at) && forall m | 0 <= m < |at| :: Target(numbers, at[m]) in was
    ensures s in Displaced(Read(Cleared(was, ids)), numbers, at, |at|) <==> IsDisplaced(Read(was), numbers, ids, at, s)
  {
    DisplacedAre(Read(Cleared(was, ids)), numbers, at, |at|, s);
    forall m | 0 <= m < |at|
      ensures var p := Target(numbers, at[m]);
        Read(Cleared(was, ids))[p] == Id(s) <==> Read(was)[p] == Id(s) && !Listed(ids, Id(s))
    {
      ReadCleared(was, ids, Target(numbers, at[m]));
    }
  }

  /** Which boards the clean-up takes away. */
  lemma ListedIsDisplaced(was: Slots, numbers: seq<int>, ids: seq<string>, at: seq<Place>, b: Board)
    requires Single(was) && Order(numbers, ids, at) && forall m | 0 <= m < |at| :: Target(numbers, at[m]) in was
    ensures Listed(Displaced(Read(Cleared(was, ids)), numbers, at, |at|), b)
            <==> MatchesDisplaced(Read(was), numbers, ids, at, b)
  {
    var oldIds := Displaced(Read(Cleared(was, ids)), numbers, at, |at|);
    forall s ensures s in oldIds <==> IsDisplaced(Read(was), numbers, ids, at, s) {
      WhichAreDisplaced(was, numbers, ids, at, s);
    }
    if Listed(oldIds, b) {
      var i :| 0 <= i < |oldIds| && SameId(oldIds[i], b.text);
      assert oldIds[i] in oldIds;
    }
    if MatchesDisplaced(Read(was), numbers, ids, at, b) {
      var s: string :| SameId(s, b.text) && IsDisplaced(Read(was), numbers, ids, at, s);
      assert s in oldIds;
    }
  }

  /** A board to be placed matches no displaced one. */
  lemma NotDisplaced(was: Boards, numbers: seq<int>, ids: seq<string>, at: seq<Place>, m: nat)
    requires Order(numbers, ids, at) && m < |at| && forall n | 0 <= n < |at| :: Target(numbers, at[n]) in was
    ensures !MatchesDisplaced(was, numbers, ids, at, Id(ids[m]))
  {
    if MatchesDisplaced(was, numbers, ids, at, Id(ids[m])) {
      var s: string :| SameId(s, ids[m]) && IsDisplaced(was, numbers, ids, at, s);
      assert SameId(ids[m], Id(s).text);
    }
  }

  lemma PlacedAtTarget(was: Slots, numbers: seq<int>, ids: seq<string>, at: seq<Place>, m: nat)
    requires Single(was) && Order(numbers, ids, at) && m < |at|
    requires forall n | 0 <= n < |at| :: Target(numbers, at[n]) in was
    ensures var p := Target(numbers, at[m]);
      First(PlacedSlots(Cleared(was, ids), numbers, ids, at, |at|)[p])
      == if Doubled(ids, p, First(was[p])) then NoString else Id(ids[m])
  {
    NowPlaced(Cleared(was, ids), numbers, ids, at, |at|, m);
  }

  lemma TargetUpdated(was: Slots, numbers: seq<int>, ids: seq<string>, at: seq<Place>, m: nat)
    requires Single(was) && Order(numbers, ids, at) && m < |at|
    requires forall n | 0 <= n < |at| :: Target(numbers, at[n]) in was
    ensures var p := Target(numbers, at[m]);
      First(AfterUpdate(was, numbers, ids, at)[p])
      == if Doubled(ids, p, First(was[p])) then NoString else Id(ids[m])
  {
    var oldIds := Displaced(Read(Cleared(was, ids)), numbers, at, |at|);
    PlacedAtTarget(was, numbers, ids, at, m);
    NotDisplaced(Read(was), numbers, ids, at, m);
    ListedIsDisplaced(was, numbers, ids, at, Id(ids[m]));
    MatchesIfListed(oldIds, Id(ids[m]));
    MatchesIfListed(oldIds, NoString);
  }

  lemma OtherUpdated(was: Slots, numbers: seq<int>, ids: seq<string>, at: seq<Place>, p: Position)
    requires Single(was) && Order(numbers, ids, at) && p in was && !IsTarget(numbers, at, |at|, p)
    requires forall n | 0 <= n < |at| :: Target(numbers, at[n]) in was
    ensures First(AfterUpdate(was, numbers, ids, at)[p])
            == var b := First(was[p]);
               if Listed(ids, b) || MatchesDisplaced(Read(was), numbers, ids, at, b) then NoString else b
  {
    var cleared, b := Cleared(was, ids), First(was[p]);
    var oldIds := Displaced(Read(cleared), numbers, at, |at|);
    NotYetPlaced(cleared, numbers, ids, at, |at|, p);
    MatchesIfListed(ids, b);
    MatchesIfListed(oldIds, b);
    MatchesIfListed(oldIds, NoString);
    ListedIsDisplaced(was, numbers, ids, at, b);
  }

  /** What is read from the document after an update, if no FEC had more than one id before. */
  lemma UpdateIsRight(was: Slots, numbers: seq<int>, ids: seq<string>, at: seq<Place>)
    requires Single(was) && Order(numbers, ids, at) && forall m | 0 <= m < |at| :: Target(numbers, at[m]) in was
    ensures Updated(Read(was), Read(AfterUpdate(was, numbers, ids, at)), numbers, ids, at)
  {
    forall m | 0 <= m < |at|
      ensures var p := Target(numbers, at[m]);
        Read(AfterUpdate(was, numbers, ids, at))[p] == if Doubled(ids, p, Read(was)[p]) then NoString else Id(ids[m])
    {
      TargetUpdated(was, numbers, ids, at, m);
    }
    forall p | p in was && !IsTarget(numbers, at, |at|, p)
      ensures Read(AfterUpdate(was, numbers, ids, at))[p]
              == var b := Read(was)[p];
                 if Listed(ids, b) || MatchesDisplaced(Read(was), numbers, ids, at, b) then NoString else b
    {
      OtherUpdated(was, numbers, ids, at, p);
    }
  }

  const TWICE: seq<Place> := [Place(0, 0, 0), Place(0, 1, 0)]

  lemma TwiceIsOrder(id: string)
    ensures Order([0], [id, id], TWICE) && Target([0], TWICE[0]) == Fec(0, 0) && Target([0], TWICE[1]) == Fec(0, 1)
  {
    assert CrateIndex([0], 0) == 0;
  }

  lemma MatchedTwice(id: string)
    ensures Matches([id, id], Id(id)) == 2
  {
    OneMoreId([id, id], 0, Id(id));
    OneMoreId([id, id], 1, Id(id));
    assert [id, id][..2] == [id, id];
  }

  /** One crate, with one board. */
  lemma OneBoard(id: string) returns (slots: Slots)
    ensures Complete(slots, 1) && Single(slots) && slots[Fec(0, 0)] == [Id(id)] && Fec(0, 1) in slots
  {
    slots := map p | p in DocumentSet(1) :: if p == Fec(0, 0) then [Id(id)] else [NoString];
    forall p ensures p in slots <==> InDocument(p, 1) {
      if InDocument(p, 1) { InDocumentSet(p, 1); }
      if p in DocumentSet(1) { OnlyInDocument(p, 1); }
    }
    assert InDocument(Fec(0, 0), 1) && InDocument(Fec(0, 1), 1);
  }

  /** A FEC that holds a board which is listed twice, and is to get it: afterwards nothing is read there. */
  lemma ListedTwice(id: string) returns (was: Slots)
    ensures Complete(was, 1) && Single(was) && First(was[Fec(0, 0)]) == Id(id)
    ensures Order([0], [id, id], TWICE) && forall m | 0 <= m < 2 :: Target([0], TWICE[m]) in was
    ensures First(AfterUpdate(was, [0], [id, id], TWICE)[Fec(0, 0)]) == NoString
  {
    was := OneBoard(id);
    TwiceIsOrder(id);
    MatchedTwice(id);
    TargetUpdated(was, [0], [id, id], TWICE, 0);
  }

  // Update after update.

  lemma {:induction false} DisplacedDistinct(boards: Boards, numbers: seq<int>, ids: seq<string>, at: seq<Place>,
                                             k: nat)
    requires Order(numbers, ids, at) && k <= |at| && Unique(boards)
    requires forall m | 0 <= m < |at| :: Target(numbers, at[m]) in boards
    ensures DistinctIds(Displaced(boards, numbers, at, k))
  {
    if k > 0 {
      DisplacedDistinct(boards, numbers, ids, at, k - 1);
      var before, p := Displaced(boards, numbers, at, k - 1), Target(numbers, at[k - 1]);
      forall i | 0 <= i < |before| && boards[p].Id? ensures !SameId(before[i], boards[p].text) {
        DisplacedAre(boards, numbers, at, k - 1, before[i]);
        var m :| 0 <= m < k - 1 && boards[Target(numbers, at[m])] == Id(before[i]);
        assert !SameBoard(boards[Target(numbers, at[m])], boards[p]);
      }
    }
  }

  lemma SingleCleared(slots: Slots, ids: seq<string>)
    requires Single(slots) && DistinctIds(ids)
    ensures Single(Cleared(slots, ids))
  {
    forall p | p in slots ensures |Cleared(slots, ids)[p]| == 1 { AtMostOnce(ids, First(slots[p])); }
  }

  lemma UniqueCleared(slots: Slots, ids: seq<string>)
    requires Single(slots) && Unique(Read(slots))
    ensures Unique(Read(Cleared(slots, ids)))
  {
    forall p, q | p in slots && q in slots && p != q
      ensures !SameBoard(Read(Cleared(slots, ids))[p], Read(Cleared(slots, ids))[q])
    {
      ReadCleared(slots, ids, p);
      ReadCleared(slots, ids, q);
      assert !SameBoard(Read(slots)[p], Read(slots)[q]);
    }
  }

  lemma {:induction false} SinglePlaced(slots: Slots, numbers: seq<int>, ids: seq<string>, at: seq<Place>, k: nat)
    requires Single(slots) && Order(numbers, ids, at) && k <= |at|
    requires forall m | 0 <= m < |at| :: Target(numbers, at[m]) in slots
    ensures Single(PlacedSlots(slots, numbers, ids, at, k))
  {
    if k > 0 { SinglePlaced(slots, numbers, ids, at, k - 1); }
  }

  /** A document in which nothing is twice, neither at a position nor at two, stays like that under every update that
      lists no board twice: so UpdateIsRight speaks of the next update as well. */
  lemma UpdateKeepsSingle(was: Slots, numbers: seq<int>, ids: seq<string>, at: seq<Place>)
    requires Single(was) && Unique(Read(was)) && DistinctIds(ids) && Order(numbers, ids, at)
    requires forall m | 0 <= m < |at| :: Target(numbers, at[m]) in was
    ensures Single(AfterUpdate(was, numbers, ids, at)) && Unique(Read(AfterUpdate(was, numbers, ids, at)))
  {
    var cleared := Cleared(was, ids);
    SingleCleared(was, ids);
    UniqueCleared(was, ids);
    SinglePlaced(cleared, numbers, ids, at, |at|);
    DisplacedDistinct(Read(cleared), numbers, ids, at, |at|);
    SingleCleared(PlacedSlots(cleared, numbers, ids, at, |at|), Displaced(Read(cleared), numbers, at, |at|));
    UpdateIsRight(was, numbers, ids, at);
    UniqueKept(Read(was), Read(AfterUpdate(was, numbers, ids, at)), numbers, ids, at);
  }

  lemma OneMoreId(ids: seq<string>, m: nat, b: Board)
    requires m < |ids|
    ensures Matches(ids[..m + 1], b) == Matches(ids[..m], b) + if b.Id? && SameId(ids[m], b.text) then 1 else 0
  {
    assert ids[..m + 1][..m] == ids[..m];
  }

  lemma OneMoreNull(p: Position, bs: seq<Board>, ids: seq<string>, m: nat)
    requires bs != [] && m < |ids| && (!p.Fec? ==> |bs| == 1)
    requires First(bs).Id? && SameId(ids[m], First(bs).text)
    ensures var before := ClearedSlot(p, bs, ids[..m]);
      ClearedSlot(p, bs, ids[..m + 1])
      == (if Matches(ids[..m], First(bs)) == 0 || !p.Fec? then before[1..] else before) + [NoString]
  {
    OneMoreId(ids, m, First(bs));
    var n := Matches(ids[..m], First(bs));
    assert Nulls(n) + [NoString] == Nulls(n + 1);
  }

  // Which positions the loops have come past.

  function FecSet(crate: nat, slot: nat, cards: nat): set<Position> {
    {Fec(crate, slot)} + set k | 0 <= k < cards :: Db(crate, slot, k)
  }

  function CrateSet(crate: nat, fecs: nat, pmtics: nat): set<Position> {
    (set j | 0 <= j < fecs :: Fec(crate, j)) + (set j, k | 0 <= j < fecs && 0 <= k < 4 :: Db(crate, j, k))
    + set j | 0 <= j < pmtics :: Pmtic(crate, j)
  }

  function DocumentSet(crates: nat): set<Position> {
    if crates == 0 then {} else DocumentSet(crates - 1) + CrateSet(crates - 1, 16, 16)
  }

  lemma {:induction false} InDocumentSet(p: Position, crates: nat)
    requires InDocument(p, crates)
    ensures p in DocumentSet(crates)
  {
    if p.crate < crates - 1 {
      InDocumentSet(p, crates - 1);
    } else {
      assert p in CrateSet(p.crate, 16, 16);
    }
  }

  lemma ClearedTwice(slots: Slots, ids: seq<string>, a: set<Position>, b: set<Position>)
    requires a !! b
    ensures ClearedAt(ClearedAt(slots, ids, a), ids, b) == ClearedAt(slots, ids, a + b)
  {}

  lemma ClearedNowhere(slots: Slots, ids: seq<string>)
    ensures ClearedAt(slots, ids, {}) == slots
    ensures forall crate: nat :: CrateSet(crate, 0, 0) == {}
  {}

  lemma ClearedOfNothing(slots: Slots)
    ensures Cleared(slots, []) == slots
  {}

  lemma StillComplete(slots: Slots, ids: seq<string>, region: set<Position>, crates: nat)
    requires Complete(slots, crates)
    ensures Complete(ClearedAt(slots, ids, region), crates)
  {
    var now := ClearedAt(slots, ids, region);
    forall p ensures p in now <==> InDocument(p, crates) { assert p in now <==> p in slots; }
  }

  lemma ClearedEverywhere(slots: Slots, ids: seq<string>, crates: nat)
    requires Complete(slots, crates)
    ensures ClearedAt(slots, ids, DocumentSet(crates)) == Cleared(slots, ids)
  {
    forall p | p in slots ensures p in DocumentSet(crates) { InDocumentSet(p, crates); }
  }

  lemma {:induction false} OnlyInDocument(p: Position, crates: nat)
    requires p in DocumentSet(crates)
    ensures InDocument(p, crates)
  {
    if p !in CrateSet(crates - 1, 16, 16) { OnlyInDocument(p, crates - 1); }
  }
}
