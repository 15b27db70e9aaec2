/** RemoveFromConfig and UpdateLocation of src/db/DB.cpp, on the node tree of the document. */
module DbUpdate {
  import opened Utf8
  import opened Wrappers
  import opened JsonGrammar
  import opened JsonTree
  import opened DbBoards
  import opened DbConfig
  import opened DbDocument
  import opened DbTree

  // RemoveFromConfig.

  /** The positions of a region have been cleared. */
  ghost predicate SaysCleared(h: Cells, doc: JsonNode, d: Json, crates: nat, slots: Slots, ids: seq<bytes>,
                              region: set<Position>) {
    Complete(slots, crates) && Says(h, doc, d, crates, ClearedAt(slots, Texts(ids), region))
  }

  /** One more position. */
  method ClearOne(ghost f: Forest, doc: JsonNode, ghost d: Json, ghost crates: nat, p: Position, ids: seq<bytes>,
                  ghost slots: Slots, ghost region: set<Position>) returns (ghost d': Json)
    requires f.Valid() && SaysCleared(f.cells, doc, d, crates, slots, ids, region)
    requires InDocument(p, crates) && p !in region
    modifies f, f.cells.Keys
    ensures f.Valid() && (forall n | n in f.cells :: n in old(f.cells) || fresh(n))
    ensures SaysCleared(f.cells, doc, d', crates, slots, ids, region + {p})
  {
    StillComplete(slots, Texts(ids), region, crates);
    d' := ClearBoard(f, doc, d, crates, p, ids, ClearedAt(slots, Texts(ids), region));
    ClearedTwice(slots, Texts(ids), region, {p});
  }

  /** A FEC and its daughterboards. */
  method ClearFec(ghost f: Forest, doc: JsonNode, ghost d: Json, ghost crates: nat, crate: nat, slot: nat,
                  ids: seq<bytes>, ghost slots: Slots, ghost region: set<Position>) returns (ghost d': Json)
    requires f.Valid() && SaysCleared(f.cells, doc, d, crates, slots, ids, region)
    requires crate < crates && slot < 16 && region !! FecSet(crate, slot, 4)
    modifies f, f.cells.Keys
    ensures f.Valid() && (forall n | n in f.cells :: n in old(f.cells) || fresh(n))
    ensures SaysCleared(f.cells, doc, d', crates, slots, ids, region + FecSet(crate, slot, 4))
  {
    FecParts(crate, slot, 4, region);
    d' := ClearOne(f, doc, d, crates, Fec(crate, slot), ids, slots, region);
    for k := 0 to 4
      invariant f.Valid() && (forall n | n in f.cells :: n in old(f.cells) || fresh(n))
      invariant SaysCleared(f.cells, doc, d', crates, slots, ids, region + FecSet(crate, slot, k))
    {
      NextDb(crate, slot, k, region);
      d' := ClearOne(f, doc, d', crates, Db(crate, slot, k), ids, slots, region + FecSet(crate, slot, k));
    }
  }

  lemma FecParts(crate: nat, slot: nat, n: nat, region: set<Position>)
    requires region !! FecSet(crate, slot, n)
    ensures Fec(crate, slot) !in region && region + FecSet(crate, slot, 0) == region + {Fec(crate, slot)}
  {
    assert Fec(crate, slot) in FecSet(crate, slot, n);
  }

  lemma NextDb(crate: nat, slot: nat, k: nat, region: set<Position>)
    requires k < 4 && region !! FecSet(crate, slot, 4)
    ensures Db(crate, slot, k) !in region + FecSet(crate, slot, k)
    ensures region + FecSet(crate, slot, k + 1) == region + FecSet(crate, slot, k) + {Db(crate, slot, k)}
  {
    assert Db(crate, slot, k) in FecSet(crate, slot, 4);
  }

  /** The body of the loop over the crates. */
  method ClearCrate(ghost f: Forest, doc: JsonNode, ghost d: Json, ghost crates: nat, crate: nat, ids: seq<bytes>,
                    ghost slots: Slots) returns (ghost d': Json)
    requires f.Valid() && SaysCleared(f.cells, doc, d, crates, slots, ids, DocumentSet(crate)) && crate < crates
    modifies f, f.cells.Keys
    ensures f.Valid() && (forall n | n in f.cells :: n in old(f.cells) || fresh(n))
    ensures SaysCleared(f.cells, doc, d', crates, slots, ids, DocumentSet(crate + 1))
  {
    d' := ClearFecs(f, doc, d, crates, crate, ids, slots);
    for j := 0 to 16
      invariant f.Valid() && (forall n | n in f.cells :: n in old(f.cells) || fresh(n))
      invariant SaysCleared(f.cells, doc, d', crates, slots, ids, DocumentSet(crate) + CrateSet(crate, 16, j))
    {
      NextPmtic(crate, j);
      d' := ClearOne(f, doc, d', crates, Pmtic(crate, j), ids, slots, DocumentSet(crate) + CrateSet(crate, 16, j));
    }
  }

  method ClearFecs(ghost f: Forest, doc: JsonNode, ghost d: Json, ghost crates: nat, crate: nat, ids: seq<bytes>,
                   ghost slots: Slots) returns (ghost d': Json)
    requires f.Valid() && SaysCleared(f.cells, doc, d, crates, slots, ids, DocumentSet(crate)) && crate < crates
    modifies f, f.cells.Keys
    ensures f.Valid() && (forall n | n in f.cells :: n in old(f.cells) || fresh(n))
    ensures SaysCleared(f.cells, doc, d', crates, slots, ids, DocumentSet(crate) + CrateSet(crate, 16, 0))
  {
    d' := d;
    NoFecs(crate);
    for j := 0 to 16
      invariant f.Valid() && (forall n | n in f.cells :: n in old(f.cells) || fresh(n))
      invariant SaysCleared(f.cells, doc, d', crates, slots, ids, DocumentSet(crate) + CrateSet(crate, j, 0))
    {
      d' := ClearNextFec(f, doc, d', crates, crate, j, ids, slots);
    }
  }

  method ClearNextFec(ghost f: Forest, doc: JsonNode, ghost d: Json, ghost crates: nat, crate: nat, j: nat,
                      ids: seq<bytes>, ghost slots: Slots) returns (ghost d': Json)
    requires crate < crates && j < 16
    requires f.Valid()
      && SaysCleared(f.cells, doc, d, crates, slots, ids, DocumentSet(crate) + CrateSet(crate, j, 0))
    modifies f, f.cells.Keys
    ensures f.Valid() && (forall n | n in f.cells :: n in old(f.cells) || fresh(n))
    ensures SaysCleared(f.cells, doc, d', crates, slots, ids, DocumentSet(crate) + CrateSet(crate, j + 1, 0))
  {
    NextFec(crate, j);
    d' := ClearFec(f, doc, d, crates, crate, j, ids, slots, DocumentSet(crate) + CrateSet(crate, j, 0));
  }

  lemma NoFecs(crate: nat)
    ensures DocumentSet(crate) + CrateSet(crate, 0, 0) == DocumentSet(crate)
  {}

  lemma NextFec(crate: nat, j: nat)
    ensures DocumentSet(crate) + CrateSet(crate, j + 1, 0)
            == DocumentSet(crate) + CrateSet(crate, j, 0) + FecSet(crate, j, 4)
    ensures DocumentSet(crate) + CrateSet(crate, j, 0) !! FecSet(crate, j, 4)
  {
    forall p | p in FecSet(crate, j, 4) ensures p !in DocumentSet(crate) {
      if p in DocumentSet(crate) { OnlyInDocument(p, crate); }
    }
  }

  lemma NextPmtic(crate: nat, j: nat)
    ensures DocumentSet(crate) + CrateSet(crate, 16, j + 1)
            == DocumentSet(crate) + CrateSet(crate, 16, j) + {Pmtic(crate, j)}
    ensures Pmtic(crate, j) !in DocumentSet(crate) + CrateSet(crate, 16, j)
  {
    if Pmtic(crate, j) in DocumentSet(crate) { OnlyInDocument(Pmtic(crate, j), crate); }
  }

  /** RemoveFromConfig: every position is cleared of the ids. */
  method RemoveFromConfig(ghost f: Forest, doc: JsonNode, ghost d: Json, crates: nat, ids: seq<bytes>,
                          ghost slots: Slots) returns (ghost d': Json)
    requires f.Valid() && Says(f.cells, doc, d, crates, slots)
    modifies f, f.cells.Keys
    ensures f.Valid() && (forall n | n in f.cells :: n in old(f.cells) || fresh(n))
    ensures Says(f.cells, doc, d', crates, Cleared(slots, Texts(ids)))
  {
    d' := d;
    ClearedNowhere(slots, Texts(ids));
    for i := 0 to crates
      invariant f.Valid() && (forall n | n in f.cells :: n in old(f.cells) || fresh(n))
      invariant SaysCleared(f.cells, doc, d', crates, slots, ids, DocumentSet(i))
    {
      d' := ClearCrate(f, doc, d', crates, i, ids, slots);
    }
    ClearedEverywhere(slots, Texts(ids), crates);
  }

  // UpdateLocation.

  /** The loop that looks for a crate by its number. */
  method FindCrate(numbers: seq<int>, number: int) returns (i: nat)
    ensures i == CrateIndex(numbers, number)
  {
    i := 0;
    assert numbers[0..] == numbers;
    while i < |numbers|
      invariant i <= |numbers| && CrateIndex(numbers, number) == i + CrateIndex(numbers[i..], number)
    {
      if numbers[i] == number {
        return;
      }
      i := i + 1;
    }
  }

  /** One board replaces what stood at its target, which is returned. */
  method PlaceBoard(ghost f: Forest, doc: JsonNode, ghost d: Json, numbers: seq<int>, id: bytes, at: Place,
                    ghost slots: Slots) returns (was: Option<bytes>, ghost d': Json)
    requires f.Valid() && Says(f.cells, doc, d, |numbers|, slots)
    requires Placeable(numbers, at) && Target(numbers, at) in slots
    modifies f, f.cells.Keys
    ensures f.Valid() && (forall n | n in f.cells :: n in old(f.cells) || fresh(n))
    ensures var p := Target(numbers, at);
      && Says(f.cells, doc, d', |numbers|, slots[p := ExchangedSlot(p, slots[p], Id(Text(id)))])
      && Read(slots)[p] == if was.Some? then Id(Text(was.value)) else NoString
  {
    var crate := FindCrate(numbers, at.crate);
    assert InDocument(Target(numbers, at), |numbers|);
    if at.position == 0 {
      was, d' := ExchangeBoard(f, doc, d, |numbers|, Fec(crate, at.slot), id, slots);
    } else if at.position < 5 {
      was, d' := ExchangeBoard(f, doc, d, |numbers|, Db(crate, at.slot, at.position - 1), id, slots);
    } else {
      was, d' := ExchangeBoard(f, doc, d, |numbers|, Pmtic(crate, at.slot), id, slots);
    }
  }

  /** The first m boards have been placed, and the ids of those they have displaced have been kept. */
  ghost predicate SaysPlaced(h: Cells, doc: JsonNode, d: Json, numbers: seq<int>, ids: seq<string>, at: seq<Place>,
                             slots: Slots, m: nat, oldIds: seq<string>)
  {
    && Order(numbers, ids, at) && m <= |at| && (forall k | 0 <= k < |at| :: Target(numbers, at[k]) in slots)
    && Says(h, doc, d, |numbers|, PlacedSlots(slots, numbers, ids, at, m))
    && oldIds == Displaced(Read(slots), numbers, at, m)
  }

  method PlaceNext(ghost f: Forest, doc: JsonNode, ghost d: Json, numbers: seq<int>, ids: seq<bytes>, at: seq<Place>,
                   m: nat, before: seq<bytes>, ghost slots: Slots) returns (oldIds: seq<bytes>, ghost d': Json)
    requires f.Valid() && m < |at|
    requires SaysPlaced(f.cells, doc, d, numbers, Texts(ids), at, slots, m, Texts(before))
    modifies f, f.cells.Keys
    ensures f.Valid() && (forall n | n in f.cells :: n in old(f.cells) || fresh(n))
    ensures SaysPlaced(f.cells, doc, d', numbers, Texts(ids), at, slots, m + 1, Texts(oldIds))
  {
    ghost var placed := PlacedSlots(slots, numbers, Texts(ids), at, m);
    NotYetPlaced(slots, numbers, Texts(ids), at, m, Target(numbers, at[m]));
    var was;
    was, d' := PlaceBoard(f, doc, d, numbers, ids[m], at[m], placed);
    oldIds := before + if was.Some? then [was.value] else [];
    OneMoreText(before, oldIds, was);
    OneMorePlaced(f.cells, doc, d', numbers, ids, at, m, slots, before, was);
  }

  lemma OneMorePlaced(h: Cells, doc: JsonNode, d: Json, numbers: seq<int>, ids: seq<bytes>, at: seq<Place>, m: nat,
                      slots: Slots, before: seq<bytes>, was: Option<bytes>)
    requires Order(numbers, Texts(ids), at) && m < |at| && forall k | 0 <= k < |at| :: Target(numbers, at[k]) in slots
    requires Texts(before) == Displaced(Read(slots), numbers, at, m)
    requires Read(slots)[Target(numbers, at[m])] == if was.Some? then Id(Text(was.value)) else NoString
    requires var p, placed := Target(numbers, at[m]), PlacedSlots(slots, numbers, Texts(ids), at, m);
      Says(h, doc, d, |numbers|, placed[p := ExchangedSlot(p, placed[p], Id(Text(ids[m])))])
    ensures SaysPlaced(h, doc, d, numbers, Texts(ids), at, slots, m + 1,
                       Texts(before) + if was.Some? then [Text(was.value)] else [])
  {}

  lemma OneMoreText(before: seq<bytes>, after: seq<bytes>, was: Option<bytes>)
    requires after == before + if was.Some? then [was.value] else []
    ensures Texts(after) == Texts(before) + if was.Some? then [Text(was.value)] else []
  {}

  /** The loop over the boards. */
  method PlaceAll(ghost f: Forest, doc: JsonNode, ghost d: Json, numbers: seq<int>, ids: seq<bytes>, at: seq<Place>,
                  ghost slots: Slots) returns (oldIds: seq<bytes>, ghost d': Json)
    requires f.Valid() && SaysPlaced(f.cells, doc, d, numbers, Texts(ids), at, slots, 0, [])
    modifies f, f.cells.Keys
    ensures f.Valid() && (forall n | n in f.cells :: n in old(f.cells) || fresh(n))
    ensures SaysPlaced(f.cells, doc, d', numbers, Texts(ids), at, slots, |at|, Texts(oldIds))
  {
    oldIds, d' := [], d;
    for m := 0 to |at|
      invariant f.Valid() && (forall n | n in f.cells :: n in old(f.cells) || fresh(n))
      invariant SaysPlaced(f.cells, doc, d', numbers, Texts(ids), at, slots, m, Texts(oldIds))
    {
      oldIds, d' := PlaceNext(f, doc, d', numbers, ids, at, m, oldIds, slots);
    }
  }

  /** UpdateLocation and its clean-up: what stands at every position when they are over.  If no position had two ids
      and no id is listed twice, then in the document itself every listed board is at the end of its path, and nowhere
      else; those it displaced are nowhere, and all others are where they were. */
  method UpdateLocation(ghost f: Forest, doc: JsonNode, ghost d: Json, numbers: seq<int>, ids: seq<bytes>,
                        at: seq<Place>, ghost slots: Slots) returns (ghost d': Json)
    requires f.Valid() && Says(f.cells, doc, d, |numbers|, slots) && Order(numbers, Texts(ids), at)
    modifies f, f.cells.Keys
    ensures f.Valid() && forall m | 0 <= m < |at| :: Target(numbers, at[m]) in slots
    ensures Says(f.cells, doc, d', |numbers|, AfterUpdate(slots, numbers, Texts(ids), at))
    ensures Single(slots) ==>
      Updated(Read(slots), Read(AfterUpdate(slots, numbers, Texts(ids), at)), numbers, Texts(ids), at)
    ensures Single(slots) && DistinctIds(Texts(ids)) ==>
      && (forall m | 0 <= m < |at| :: StandsThere(d', numbers, at[m], ids[m]))
      && (forall m | 0 <= m < |at| :: StandsOnlyThere(d', numbers, at[m], ids[m]))
      && (forall m | 0 <= m < |at| :: DisplacedIsGone(d, d', numbers, ids, at[m]))
      && OthersStay(d, d', numbers, ids, at)
  {
    forall m | 0 <= m < |at| ensures Target(numbers, at[m]) in slots { TargetInDocument(slots, numbers, at[m]); }
    ghost var cleared := Cleared(slots, Texts(ids));
    d' := RemoveFromConfig(f, doc, d, |numbers|, ids, slots);
    var oldIds;
    oldIds, d' := PlaceAll(f, doc, d', numbers, ids, at, cleared);
    ghost var placed := PlacedSlots(cleared, numbers, Texts(ids), at, |at|);
    if |oldIds| > 0 {
      d' := RemoveFromConfig(f, doc, d', |numbers|, oldIds, placed);
    } else {
      ClearedOfNothing(placed);
    }
    if Single(slots) {
      UpdateIsRight(slots, numbers, Texts(ids), at);
      if DistinctIds(Texts(ids)) {
        BoardsMoved(d, d', numbers, ids, at, slots, AfterUpdate(slots, numbers, Texts(ids), at));
      }
    }
  }
}
