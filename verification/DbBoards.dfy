/** What an update comes to in the JSON value of the configuration document: which string is at the end of which path.
    The paths are written out here; nothing is said by way of the positions of module DbConfig. */
module DbBoards {
  import opened Utf8
  import opened JsonGrammar
  import opened JsonMeaning
  import opened JsonPath
  import opened DbConfig
  import opened DbDocument

  /** The way to a board's id: position 0 is the FEC's own, 1 to 4 are its daughterboards, 5 is the PMTIC. */
  function BoardPath(crate: nat, slot: nat, position: nat): seq<Step> {
    var crates: bytes := [0x63, 0x72, 0x61, 0x74, 0x65, 0x73];
    if position == 5 then
      [Name(crates), Index(crate), Name([0x70, 0x6D, 0x74, 0x69, 0x63, 0x73]), Index(slot)]
    else
      [Name(crates), Index(crate), Name([0x66, 0x65, 0x63, 0x73]), Index(slot)]
      + if position == 0 then [Name([0x69, 0x64])] else [Name([0x64, 0x62, 0x73]), Index(position - 1)]
  }

  /** The document has this string for the board. */
  predicate BoardIs(doc: Json, crate: nat, slot: nat, position: nat, id: bytes) {
    HasPath(doc, BoardPath(crate, slot, position)) && ValueAt(doc, BoardPath(crate, slot, position)) == String(id)
  }

  function PositionOf(crate: nat, slot: nat, position: nat): Position {
    if position == 0 then Fec(crate, slot) else if position < 5 then Db(crate, slot, position - 1)
    else Pmtic(crate, slot)
  }

  /** The last step of the way. */
  function LastStep(p: Position): Step {
    match p
    case Fec(_, _) => Name(ID)
    case Db(_, _, card) => Index(card)
    case Pmtic(_, slot) => Index(slot)
  }

  lemma BoardPathIs(crate: nat, slot: nat, position: nat)
    requires position <= 5
    ensures var p := PositionOf(crate, slot, position);
      BoardPath(crate, slot, position) == ContainerPath(p) + [LastStep(p)]
  {}

  lemma TextIsInjective(a: bytes, b: bytes)
    requires Text(a) == Text(b)
    ensures a == b
  {
    assert |Text(a)| == |Text(b)|;
    forall i | 0 <= i < |a| ensures a[i] == b[i] {
      assert Text(a)[i] == Text(b)[i];
      SameCode(a[i], b[i]);
    }
  }

  lemma SameCode(a: byte, b: byte)
    requires a as int as char == b as int as char
    ensures a == b
  {}

  /** What is read at a position is what is at the end of its path. */
  lemma ReadByPath(doc: Json, crates: nat, slots: Slots, crate: nat, slot: nat, position: nat, id: bytes)
    requires Shows(doc, crates, slots) && crate < crates && slot < 16 && position <= 5
    ensures PositionOf(crate, slot, position) in slots
    ensures BoardIs(doc, crate, slot, position, id) <==> First(slots[PositionOf(crate, slot, position)]) == Id(Text(id))
  {
    var p := PositionOf(crate, slot, position);
    assert InDocument(p, crates) && Fits(doc, p);
    var u := ValueAt(doc, ContainerPath(p));
    BoardPathIs(crate, slot, position);
    PathSplits(doc, ContainerPath(p), [LastStep(p)]);
    OneStep(u, LastStep(p));
    if p.Fec? { FirstIdIn(u.members); }
    var v := Kid(u, ChildIndex(u, LastStep(p)));
    assert First(slots[p]) == BoardOf(v);
    if BoardOf(v) == Id(Text(id)) { TextIsInjective(v.str, id); }
  }

  lemma StringByPath(doc: Json, crates: nat, slots: Slots, crate: nat, slot: nat, position: nat) returns (id: bytes)
    requires Shows(doc, crates, slots) && crate < crates && slot < 16 && position <= 5
    requires PositionOf(crate, slot, position) in slots && First(slots[PositionOf(crate, slot, position)]).Id?
    ensures Text(id) == First(slots[PositionOf(crate, slot, position)]).text
    ensures BoardIs(doc, crate, slot, position, id)
  {
    var p := PositionOf(crate, slot, position);
    assert InDocument(p, crates) && Fits(doc, p);
    var u := ValueAt(doc, ContainerPath(p));
    OneStep(u, LastStep(p));
    if p.Fec? { FirstIdIn(u.members); }
    id := Kid(u, ChildIndex(u, LastStep(p))).str;
    ReadByPath(doc, crates, slots, crate, slot, position, id);
  }

  /** The crate is the first one with the place's number; slot and position are the place's. */
  predicate Names(numbers: seq<int>, at: Place, crate: nat, slot: nat, position: nat) {
    crate < |numbers| && numbers[crate] == at.crate && (forall k | 0 <= k < crate :: numbers[k] != at.crate)
    && slot == at.slot && position == at.position
  }

  lemma NamesTarget(numbers: seq<int>, at: Place, crate: nat, slot: nat, position: nat)
    requires Placeable(numbers, at) && crate < |numbers| && position <= 5
    ensures Names(numbers, at, crate, slot, position) <==> PositionOf(crate, slot, position) == Target(numbers, at)
  {
    if Names(numbers, at, crate, slot, position) { assert CrateIndex(numbers, at.crate) == crate; }
  }

  predicate InRange(numbers: seq<int>, crate: nat, slot: nat, position: nat) {
    crate < |numbers| && slot < 16 && position <= 5
  }

  /** A listed board stands where it was sent. */
  ghost predicate StandsThere(d: Json, numbers: seq<int>, at: Place, id: bytes) {
    forall crate, slot, position | Names(numbers, at, crate, slot, position) :: BoardIs(d, crate, slot, position, id)
  }

  /** And nowhere else: where its id is, as far as ids are compared, is where it was sent. */
  ghost predicate StandsOnlyThere(d: Json, numbers: seq<int>, at: Place, id: bytes) {
    forall crate, slot, position, s |
      InRange(numbers, crate, slot, position) && BoardIs(d, crate, slot, position, s) && SameId(Text(s), Text(id)) ::
        Names(numbers, at, crate, slot, position)
  }

  /** The id is not listed, and not that of a board which stood where one was sent. */
  ghost predicate Unconcerned(d: Json, numbers: seq<int>, ids: seq<bytes>, at: seq<Place>, s: bytes) {
    (forall m | 0 <= m < |ids| :: !SameId(Text(ids[m]), Text(s)))
    && forall m, crate, slot, position, other | 0 <= m < |at|
         && Names(numbers, at[m], crate, slot, position) && BoardIs(d, crate, slot, position, other) ::
           !SameId(Text(other), Text(s))
  }

  /** A board with such an id still stands where it stood. */
  ghost predicate OthersStay(was: Json, now: Json, numbers: seq<int>, ids: seq<bytes>, at: seq<Place>) {
    forall crate, slot, position, s |
      InRange(numbers, crate, slot, position) && BoardIs(was, crate, slot, position, s)
      && Unconcerned(was, numbers, ids, at, s) ::
        BoardIs(now, crate, slot, position, s)
  }

  /** A board that stood where one was sent, and has not been listed itself, stands nowhere. */
  ghost predicate DisplacedIsGone(was: Json, now: Json, numbers: seq<int>, ids: seq<bytes>, at: Place) {
    forall crate, slot, position, other |
      Names(numbers, at, crate, slot, position) && BoardIs(was, crate, slot, position, other)
      && (forall k | 0 <= k < |ids| :: !SameId(Text(ids[k]), Text(other))) ::
        Nowhere(now, numbers, other)
  }

  ghost predicate Nowhere(d: Json, numbers: seq<int>, s: bytes) {
    forall crate, slot, position, t | InRange(numbers, crate, slot, position) && BoardIs(d, crate, slot, position, t) ::
      !SameId(Text(s), Text(t))
  }

  /** What there was, what there is, and what has been ordered. */
  ghost predicate Done(d: Json, d': Json, numbers: seq<int>, ids: seq<bytes>, at: seq<Place>, was: Slots, now: Slots) {
    && Order(numbers, Texts(ids), at) && Shows(d, |numbers|, was) && Shows(d', |numbers|, now)
    && (forall n | 0 <= n < |at| :: Target(numbers, at[n]) in was)
    && Updated(Read(was), Read(now), numbers, Texts(ids), at)
  }

  lemma ListedStandsThere(d: Json, d': Json, numbers: seq<int>, ids: seq<bytes>, at: seq<Place>, was: Slots, now: Slots,
                          m: nat)
    requires Done(d, d', numbers, ids, at, was, now) && DistinctIds(Texts(ids)) && m < |at|
    ensures StandsThere(d', numbers, at[m], ids[m])
  {
    forall crate, slot, position | Names(numbers, at[m], crate, slot, position)
      ensures BoardIs(d', crate, slot, position, ids[m])
    {
      NamesTarget(numbers, at[m], crate, slot, position);
      AtMostOnce(Texts(ids), Read(was)[Target(numbers, at[m])]);
      ReadByPath(d', |numbers|, now, crate, slot, position, ids[m]);
    }
  }

  lemma ListedStandsOnlyThere(d: Json, d': Json, numbers: seq<int>, ids: seq<bytes>, at: seq<Place>, was: Slots,
                              now: Slots, m: nat)
    requires Done(d, d', numbers, ids, at, was, now) && DistinctIds(Texts(ids)) && m < |at|
    ensures StandsOnlyThere(d', numbers, at[m], ids[m])
  {
    forall crate, slot, position, s |
      InRange(numbers, crate, slot, position) && BoardIs(d', crate, slot, position, s) && SameId(Text(s), Text(ids[m]))
      ensures Names(numbers, at[m], crate, slot, position)
    {
      var p := PositionOf(crate, slot, position);
      ReadByPath(d, |numbers|, was, crate, slot, position, s);
      ReadByPath(d', |numbers|, now, crate, slot, position, s);
      NamesTarget(numbers, at[m], crate, slot, position);
      ListedExactlyThere(Read(was), Read(now), numbers, Texts(ids), at, m, p);
    }
  }

  lemma NotListed(ids: seq<bytes>, s: bytes)
    requires forall m | 0 <= m < |ids| :: !SameId(Text(ids[m]), Text(s))
    ensures !Listed(Texts(ids), Id(Text(s)))
  {}

  lemma DisplacedIsNotThere(d: Json, d': Json, numbers: seq<int>, ids: seq<bytes>, at: seq<Place>, was: Slots,
                            now: Slots, m: nat, other: bytes, i: nat, j: nat, k: nat, t: bytes)
    requires Done(d, d', numbers, ids, at, was, now) && m < |at|
    requires Read(was)[Target(numbers, at[m])] == Id(Text(other)) && !Listed(Texts(ids), Id(Text(other)))
    requires InRange(numbers, i, j, k) && BoardIs(d', i, j, k, t)
    ensures !SameId(Text(other), Text(t))
  {
    ReadByPath(d, |numbers|, was, i, j, k, t);
    ReadByPath(d', |numbers|, now, i, j, k, t);
    DisplacedNowhere(Read(was), Read(now), numbers, Texts(ids), at, m, PositionOf(i, j, k));
  }

  lemma DisplacedIsNowhere(d: Json, d': Json, numbers: seq<int>, ids: seq<bytes>, at: seq<Place>, was: Slots,
                           now: Slots, m: nat)
    requires Done(d, d', numbers, ids, at, was, now) && m < |at|
    ensures DisplacedIsGone(d, d', numbers, ids, at[m])
  {
    forall crate, slot, position, other |
      Names(numbers, at[m], crate, slot, position) && BoardIs(d, crate, slot, position, other)
      && (forall k | 0 <= k < |ids| :: !SameId(Text(ids[k]), Text(other)))
      ensures Nowhere(d', numbers, other)
    {
      NamesTarget(numbers, at[m], crate, slot, position);
      ReadByPath(d, |numbers|, was, crate, slot, position, other);
      NotListed(ids, other);
      forall i, j, k, t | InRange(numbers, i, j, k) && BoardIs(d', i, j, k, t) ensures !SameId(Text(other), Text(t)) {
        DisplacedIsNotThere(d, d', numbers, ids, at, was, now, m, other, i, j, k, t);
      }
    }
  }

  lemma NoTarget(d: Json, d': Json, numbers: seq<int>, ids: seq<bytes>, at: seq<Place>, was: Slots, now: Slots,
                 crate: nat, slot: nat, position: nat, s: bytes)
    requires Done(d, d', numbers, ids, at, was, now) && InRange(numbers, crate, slot, position)
    requires BoardIs(d, crate, slot, position, s) && Unconcerned(d, numbers, ids, at, s)
    ensures !IsTarget(numbers, at, |at|, PositionOf(crate, slot, position))
  {
    if IsTarget(numbers, at, |at|, PositionOf(crate, slot, position)) {
      var m :| 0 <= m < |at| && Target(numbers, at[m]) == PositionOf(crate, slot, position);
      NamesTarget(numbers, at[m], crate, slot, position);
      assert SameId(Text(s), Text(s));
      assert false;
    }
  }

  lemma NotDisplacedThere(d: Json, d': Json, numbers: seq<int>, ids: seq<bytes>, at: seq<Place>, was: Slots, now: Slots,
                          s: bytes)
    requires Done(d, d', numbers, ids, at, was, now) && Unconcerned(d, numbers, ids, at, s)
    ensures !MatchesDisplaced(Read(was), numbers, Texts(ids), at, Id(Text(s)))
  {
    if MatchesDisplaced(Read(was), numbers, Texts(ids), at, Id(Text(s))) {
      var t: string :| SameId(t, Text(s)) && IsDisplaced(Read(was), numbers, Texts(ids), at, t);
      var m :| 0 <= m < |at| && Read(was)[Target(numbers, at[m])] == Id(t);
      var i, j, k := CrateIndex(numbers, at[m].crate), at[m].slot, at[m].position;
      NamesTarget(numbers, at[m], i, j, k);
      var other := StringByPath(d, |numbers|, was, i, j, k);
      assert false;
    }
  }

  lemma OtherStays(d: Json, d': Json, numbers: seq<int>, ids: seq<bytes>, at: seq<Place>, was: Slots, now: Slots,
                   crate: nat, slot: nat, position: nat, s: bytes)
    requires Done(d, d', numbers, ids, at, was, now) && InRange(numbers, crate, slot, position)
    requires BoardIs(d, crate, slot, position, s) && Unconcerned(d, numbers, ids, at, s)
    ensures BoardIs(d', crate, slot, position, s)
  {
    var p := PositionOf(crate, slot, position);
    ReadByPath(d, |numbers|, was, crate, slot, position, s);
    NoTarget(d, d', numbers, ids, at, was, now, crate, slot, position, s);
    NotListed(ids, s);
    NotDisplacedThere(d, d', numbers, ids, at, was, now, s);
    assert Read(was)[p] == Id(Text(s)) && Read(now)[p] == Read(was)[p];
    ReadByPath(d', |numbers|, now, crate, slot, position, s);
  }

  lemma OthersStayThere(d: Json, d': Json, numbers: seq<int>, ids: seq<bytes>, at: seq<Place>, was: Slots, now: Slots)
    requires Done(d, d', numbers, ids, at, was, now)
    ensures OthersStay(d, d', numbers, ids, at)
  {
    forall crate, slot, position, s |
      InRange(numbers, crate, slot, position) && BoardIs(d, crate, slot, position, s)
      && Unconcerned(d, numbers, ids, at, s)
      ensures BoardIs(d', crate, slot, position, s)
    {
      OtherStays(d, d', numbers, ids, at, was, now, crate, slot, position, s);
    }
  }

  /** All of it. */
  lemma BoardsMoved(d: Json, d': Json, numbers: seq<int>, ids: seq<bytes>, at: seq<Place>, was: Slots, now: Slots)
    requires Done(d, d', numbers, ids, at, was, now) && DistinctIds(Texts(ids))
    ensures forall m | 0 <= m < |at| :: StandsThere(d', numbers, at[m], ids[m])
    ensures forall m | 0 <= m < |at| :: StandsOnlyThere(d', numbers, at[m], ids[m])
    ensures forall m | 0 <= m < |at| :: DisplacedIsGone(d, d', numbers, ids, at[m])
    ensures OthersStay(d, d', numbers, ids, at)
  {
    forall m | 0 <= m < |at|
      ensures StandsThere(d', numbers, at[m], ids[m]) && StandsOnlyThere(d', numbers, at[m], ids[m])
      ensures DisplacedIsGone(d, d', numbers, ids, at[m])
    {
      ListedStandsThere(d, d', numbers, ids, at, was, now, m);
      ListedStandsOnlyThere(d, d', numbers, ids, at, was, now, m);
      DisplacedIsNowhere(d, d', numbers, ids, at, was, now, m);
    }
    OthersStayThere(d, d', numbers, ids, at, was, now);
  }
}
