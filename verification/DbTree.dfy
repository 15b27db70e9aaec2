/** The boards of the configuration document on the node tree (src/db/DB.cpp): each change that module DbConfig makes
    to a slot is what the calls into src/db/Json.cpp do to the document. */
module DbTree {
  import opened Utf8
  import opened Wrappers
  import opened JsonGrammar
  import opened JsonTree
  import opened JsonMeaning
  import opened JsonApi
  import opened JsonPath
  import opened JsonReplace
  import opened DbConfig
  import opened DbDocument

  /** The tree of the document says what stands where. */
  ghost predicate Says(h: Cells, doc: JsonNode, d: Json, crates: nat, slots: Slots) {
    Denotes(h, doc, d) && Shows(d, crates, slots)
  }

  // Lookups.

  /** One lookup further into the document. */
  method StepFrom(ghost f: Forest, ghost doc: JsonNode, ghost d: Json, ghost path: seq<Step>, node: JsonNode, s: Step)
    returns (r: JsonNode)
    requires f.Valid() && Denotes(f.cells, doc, d) && HasPath(d, path + [s])
    requires HasPath(d, path) ==> node == NodeAt(f.cells, doc, d, path)
    ensures r == NodeAt(f.cells, doc, d, path + [s])
  {
    ghost var u := StepInto(f.cells, doc, d, path, s);
    match s
    case Name(name) => r := TheMember(f, node, name, u.members);
    case Index(i) =>
      var found := FindElement(f, node, i);
      r := found;
  }

  lemma StepInto(h: Cells, doc: JsonNode, d: Json, path: seq<Step>, s: Step) returns (u: Json)
    requires Denotes(h, doc, d) && HasPath(d, path + [s])
    ensures HasPath(d, path) && u == ValueAt(d, path) && HasChild(u, s)
    ensures var p := NodeAt(h, doc, d, path);
      Denotes(h, p, u) && NodeAt(h, doc, d, path + [s]) == h[p].kids[ChildIndex(u, s)]
  {
    PathSplits(d, path, [s]);
    u := ValueAt(d, path);
    OneStep(u, s);
    NodeAtStep(h, doc, d, path, s);
  }

  /** The member "crates" and one of its elements. */
  method CrateNode(ghost f: Forest, doc: JsonNode, ghost d: Json, crate: nat) returns (r: JsonNode)
    requires f.Valid() && Denotes(f.cells, doc, d) && HasPath(d, [Name(CRATES), Index(crate)])
    ensures r == NodeAt(f.cells, doc, d, [Name(CRATES), Index(crate)])
  {
    PathSplits(d, [Name(CRATES)], [Index(crate)]);
    assert [Name(CRATES)] + [Index(crate)] == [Name(CRATES), Index(crate)] && [] + [Name(CRATES)] == [Name(CRATES)];
    r := StepFrom(f, doc, d, [], doc, Name(CRATES));
    r := StepFrom(f, doc, d, [Name(CRATES)], r, Index(crate));
  }

  method FecNode(ghost f: Forest, doc: JsonNode, ghost d: Json, crate: nat, slot: nat) returns (r: JsonNode)
    requires f.Valid() && Denotes(f.cells, doc, d) && HasPath(d, ContainerPath(Fec(crate, slot)))
    ensures r == NodeAt(f.cells, doc, d, ContainerPath(Fec(crate, slot)))
  {
    ghost var a := [Name(CRATES), Index(crate)];
    ghost var b := a + [Name(FECS)];
    assert b + [Index(slot)] == ContainerPath(Fec(crate, slot));
    PathSplits(d, b, [Index(slot)]);
    PathSplits(d, a, [Name(FECS)]);
    r := CrateNode(f, doc, d, crate);
    r := StepFrom(f, doc, d, a, r, Name(FECS));
    r := StepFrom(f, doc, d, b, r, Index(slot));
  }

  /** The array or object of a position. */
  method ContainerNode(ghost f: Forest, doc: JsonNode, ghost d: Json, p: Position) returns (r: JsonNode)
    requires f.Valid() && Denotes(f.cells, doc, d) && HasPath(d, ContainerPath(p))
    ensures r == NodeAt(f.cells, doc, d, ContainerPath(p))
  {
    match p
    case Fec(crate, slot) =>
      r := FecNode(f, doc, d, crate, slot);
    case Db(crate, slot, card) =>
      assert ContainerPath(Fec(crate, slot)) + [Name(DBS)] == ContainerPath(p);
      PathSplits(d, ContainerPath(Fec(crate, slot)), [Name(DBS)]);
      r := FecNode(f, doc, d, crate, slot);
      r := StepFrom(f, doc, d, ContainerPath(Fec(crate, slot)), r, Name(DBS));
    case Pmtic(crate, slot) =>
      assert [Name(CRATES), Index(crate)] + [Name(PMTICS)] == ContainerPath(p);
      PathSplits(d, [Name(CRATES), Index(crate)], [Name(PMTICS)]);
      r := CrateNode(f, doc, d, crate);
      r := StepFrom(f, doc, d, [Name(CRATES), Index(crate)], r, Name(PMTICS));
  }

  /** The value that is looked up at a position. */
  function ValueHere(u: Json, p: Position): Json
    requires FitsHere(u, p)
  {
    match p
    case Fec(_, _) => u.members[FirstNamed(u.members, ID)].value
    case Db(_, _, card) => u.items[card]
    case Pmtic(_, slot) => u.items[slot]
  }

  lemma FirstIsHere(u: Json, p: Position)
    requires FitsHere(u, p)
    ensures First(SlotHere(u, p)) == BoardOf(ValueHere(u, p))
  {
    if p.Fec? { FirstIdIn(u.members); }
  }

  method FindHere(ghost f: Forest, box: JsonNode, ghost u: Json, p: Position) returns (r: JsonNode)
    requires f.Valid() && Denotes(f.cells, box, u) && FitsHere(u, p)
    ensures r in f.cells[box].kids && Denotes(f.cells, r, ValueHere(u, p))
    ensures p.Fec? ==> r == f.cells[box].kids[FirstNamed(u.members, ID)]
  {
    match p
    case Fec(_, _) =>
      r := TheMember(f, box, ID, u.members);
      assert Denotes(f.cells, r, Kid(u, FirstNamed(u.members, ID)));
    case Db(_, _, card) =>
      var found := FindElement(f, box, card);
      r := found;
      assert Denotes(f.cells, r, Kid(u, card));
    case Pmtic(_, slot) =>
      var found := FindElement(f, box, slot);
      r := found;
      assert Denotes(f.cells, r, Kid(u, slot));
  }

  /** The array or object of a position, what is looked up in it, and its string if it is one. */
  method FindBoard(ghost f: Forest, doc: JsonNode, ghost d: Json, p: Position)
    returns (box: JsonNode, node: JsonNode, text: Option<bytes>)
    requires f.Valid() && Denotes(f.cells, doc, d) && Fits(d, p)
    ensures Follows(f.cells, doc, d, p, box, node, true)
    ensures First(SlotAt(d, p)) == if text.Some? then Id(Text(text.value)) else NoString
  {
    ghost var u := ValueAt(d, ContainerPath(p));
    box := ContainerNode(f, doc, d, p);
    NodeAtStands(f.cells, doc, d, ContainerPath(p));
    node := FindHere(f, box, u, p);
    text := GetString(f, node, ValueHere(u, p));
    FirstIsHere(u, p);
  }

  /** json_get_string. */
  method GetString(ghost f: Forest, node: JsonNode, ghost v: Json) returns (text: Option<bytes>)
    requires f.Valid() && Denotes(f.cells, node, v)
    ensures BoardOf(v) == if text.Some? then Id(Text(text.value)) else NoString
  {
    assert Mirrors(node, f.cells[node]);
    text := if node.tag == JSON_STRING then Some(node.string_) else None;
  }

  // Changes.

  /** json_mkstring of an id, or json_mknull. */
  function IdValue(id: Option<bytes>): (w: Json)
    ensures Count(w) == 0
  {
    if id.Some? then String(id.value) else Null
  }

  method MakeId(ghost f: Forest, ghost doc: JsonNode, ghost d: Json, id: Option<bytes>) returns (x: JsonNode)
    requires f.Valid() && Denotes(f.cells, doc, d)
    modifies f
    ensures f.Valid() && fresh(x) && f.cells.Keys == old(f.cells).Keys + {x}
    ensures Denotes(f.cells, doc, d) && Denotes(f.cells, x, IdValue(id)) && f.cells[x].parent == null
    ensures x !in Sub(f.cells, doc, d) && forall n | n in old(f.cells) :: f.cells[n] == old(f.cells)[n]
  {
    ghost var h := f.cells;
    SubAlive(h, doc, d);
    if id.Some? {
      x := MkString(f, id.value);
      AdoptKeeps(h, x, DString(id.value), doc, d);
    } else {
      x := MkNull(f);
      AdoptKeeps(h, x, DNull, doc, d);
    }
  }

  /** A new node for an id, to go to the container that has been found. */
  method MakeIdFor(ghost f: Forest, ghost doc: JsonNode, ghost d: Json, ghost p: Position, ghost box: JsonNode,
                   ghost node: JsonNode, ghost attached: bool, id: Option<bytes>) returns (x: JsonNode)
    requires f.Valid() && Follows(f.cells, doc, d, p, box, node, attached)
    modifies f
    ensures f.Valid() && fresh(x) && f.cells.Keys == old(f.cells).Keys + {x}
    ensures Follows(f.cells, doc, d, p, box, node, attached) && Loose(f.cells, x, IdValue(id), box) && x != node
  {
    ghost var h := f.cells;
    x := MakeId(f, doc, d, id);
    FollowsStill(h, f.cells, doc, d, p, box, node, attached);
    NodeAtStands(f.cells, doc, d, ContainerPath(p));
  }

  lemma FollowsStill(h: Cells, h': Cells, doc: JsonNode, d: Json, p: Position, box: JsonNode, node: JsonNode,
                     attached: bool)
    requires Follows(h, doc, d, p, box, node, attached) && Denotes(h', doc, d)
    requires forall n | n in h :: n in h' && h'[n] == h[n]
    ensures Follows(h', doc, d, p, box, node, attached)
  {
    NodeAtKept(h, h', doc, d, ContainerPath(p));
    NodeAtStands(h', doc, d, ContainerPath(p));
  }

  /** What is at a position is exchanged, in its array or object. */
  method ExchangeHere(ghost f: Forest, box: JsonNode, ghost u: Json, p: Position, gone: JsonNode, x: JsonNode,
                      ghost w: Json) returns (ghost moved: set<JsonNode>)
    requires f.Valid() && Denotes(f.cells, box, u) && FitsHere(u, p) && Loose(f.cells, x, w, box)
    requires p.Fec? ==> gone == f.cells[box].kids[FirstNamed(u.members, ID)]
    modifies f, f.cells.Keys
    ensures f.Valid() && Denotes(f.cells, box, Exchanged(u, p, w))
    ensures Elsewhere(old(f.cells), f.cells, box, moved) && AtHome(old(f.cells), box, moved)
    ensures p.Fec? ==> gone in f.cells && f.cells[gone].parent == null
  {
    ghost var h := f.cells;
    KidsAtHome(h, box, x);
    moved := (set m | m in h[box].kids) + {x};
    match p
    case Fec(_, _) =>
      NotAKid(h, box, x);
      RemoveAndAppend(f, box, ID, gone, x, u.members, w, true);
      moved := {gone, x};
    case Db(_, _, card) =>
      ReplaceElement(f, box, 4, card, x, u.items, w);
    case Pmtic(_, slot) =>
      ReplaceElement(f, box, 16, slot, x, u.items, w);
  }

  lemma KidsAtHome(h: Cells, box: JsonNode, x: JsonNode)
    requires WellLinked(h) && box in h && x in h && h[x].parent == null
    ensures AtHome(h, box, (set m | m in h[box].kids) + {x})
    ensures forall k | k in h[box].kids :: AtHome(h, box, {k, x})
  {
    assert Linked(h, box);
    forall m | m in h[box].kids ensures m in h && h[m].parent == box {
      var i :| 0 <= i < |h[box].kids| && h[box].kids[i] == m;
      assert KidLinked(h, box, h[box].kids, i);
    }
  }

  /** A change in the container of a position is a change of the slot, and the container stays where it was. */
  lemma DocumentChanged(h: Cells, h': Cells, box: JsonNode, moved: set<JsonNode>, doc: JsonNode, d: Json, crates: nat,
                        p: Position, u': Json, slots: Slots)
    requires WellLinked(h) && Says(h, doc, d, crates, slots) && InDocument(p, crates) && Fits(d, p)
    requires ChangesOnly(ValueAt(d, ContainerPath(p)), u', p) && Denotes(h', box, u')
    requires box == NodeAt(h, doc, d, ContainerPath(p)) && Elsewhere(h, h', box, moved) && AtHome(h, box, moved)
    ensures Says(h', doc, WithSlot(d, p, u'), crates, slots[p := SlotHere(u', p)])
    ensures Fits(WithSlot(d, p, u'), p) && box == NodeAt(h', doc, WithSlot(d, p, u'), ContainerPath(p))
  {
    ElsewhereExchanges(h, h', box, moved, doc, d, u');
    ExchangeIsPut(h, doc, d, ContainerPath(p), u');
    ChangeIsOneSlot(d, crates, p, u', slots);
    SlotThere(d, p, u');
    NodeAtAfter(h, h', box, moved, doc, d, ContainerPath(p), u');
  }

  lemma {:induction false} NodeAtAfter(h: Cells, h': Cells, box: JsonNode, moved: set<JsonNode>, n: JsonNode, v: Json,
                                       path: seq<Step>, u': Json)
    requires Denotes(h, n, v) && HasPath(v, path) && box == NodeAt(h, n, v, path) && Elsewhere(h, h', box, moved)
    requires Denotes(h', n, Put(v, path, u')) && HasPath(Put(v, path, u'), path)
    ensures NodeAt(h', n, Put(v, path, u'), path) == box
    decreases |path|
  {
    if path != [] {
      var k := ChildIndex(v, path[0]);
      NodeAtStands(h, h[n].kids[k], Kid(v, k), path[1..]);
      NotBelowItself(h, n, v, k);
      assert ElsewhereAt(h, h', box, moved, n);
      SameChild(v, Put(v, path, u'), path[0]);
      NodeAtAfter(h, h', box, moved, h[n].kids[k], Kid(v, k), path[1..], u');
    }
  }

  /** UpdateLocation at one position: it gets a new id, and what it had is returned. */
  method ExchangeBoard(ghost f: Forest, doc: JsonNode, ghost d: Json, ghost crates: nat, p: Position, id: bytes,
                       ghost slots: Slots) returns (was: Option<bytes>, ghost d': Json)
    requires f.Valid() && Says(f.cells, doc, d, crates, slots) && InDocument(p, crates) && p in slots
    modifies f, f.cells.Keys
    ensures f.Valid() && (forall n | n in f.cells :: n in old(f.cells) || fresh(n))
    ensures Says(f.cells, doc, d', crates, slots[p := ExchangedSlot(p, slots[p], Id(Text(id)))])
    ensures Read(slots)[p] == if was.Some? then Id(Text(was.value)) else NoString
  {
    assert Fits(d, p);
    var box, gone;
    box, gone, was := FindBoard(f, doc, d, p);
    ReadIs(d, crates, p, slots);
    d' := PutNewId(f, doc, d, crates, p, box, gone, id, slots);
  }

  lemma ReadIs(d: Json, crates: nat, p: Position, slots: Slots)
    requires Shows(d, crates, slots) && InDocument(p, crates) && p in slots
    ensures Fits(d, p) && Read(slots)[p] == First(SlotAt(d, p))
  {
    assert Fits(d, p);
  }

  method PutNewId(ghost f: Forest, ghost doc: JsonNode, ghost d: Json, ghost crates: nat, p: Position, box: JsonNode,
                  gone: JsonNode, id: bytes, ghost slots: Slots) returns (ghost d': Json)
    requires f.Valid() && Says(f.cells, doc, d, crates, slots) && InDocument(p, crates) && p in slots
    requires Follows(f.cells, doc, d, p, box, gone, true)
    modifies f, f.cells.Keys
    ensures f.Valid() && (forall n | n in f.cells :: n in old(f.cells) || fresh(n))
    ensures Says(f.cells, doc, d', crates, slots[p := ExchangedSlot(p, slots[p], Id(Text(id)))])
  {
    var x := MakeIdFor(f, doc, d, p, box, gone, true, Some(id));
    d' := PutId(f, doc, d, crates, p, box, gone, x, id, slots);
  }

  method PutId(ghost f: Forest, ghost doc: JsonNode, ghost d: Json, ghost crates: nat, p: Position, box: JsonNode,
               gone: JsonNode, x: JsonNode, ghost id: bytes, ghost slots: Slots) returns (ghost d': Json)
    requires f.Valid() && Says(f.cells, doc, d, crates, slots) && InDocument(p, crates) && p in slots
    requires Follows(f.cells, doc, d, p, box, gone, true) && Loose(f.cells, x, String(id), box)
    modifies f, f.cells.Keys
    ensures f.Valid() && f.cells.Keys == old(f.cells).Keys
    ensures Says(f.cells, doc, d', crates, slots[p := ExchangedSlot(p, slots[p], Id(Text(id)))])
  {
    ghost var h, u := f.cells, ValueAt(d, ContainerPath(p));
    ghost var moved := ExchangeHere(f, box, u, p, gone, x, String(id));
    ExchangedIs(u, p, String(id));
    d' := WithSlot(d, p, Exchanged(u, p, String(id)));
    DocumentChanged(h, f.cells, box, moved, doc, d, crates, p, Exchanged(u, p, String(id)), slots);
  }

  // RemoveFromConfig at one position.

  /** The node that was found at the position is still the one that would be found, or it has been detached. */
  ghost predicate Held(h: Cells, box: JsonNode, u: Json, p: Position, node: JsonNode, attached: bool)
    requires Denotes(h, box, u) && FitsHere(u, p)
  {
    && node in h
    && (p.Fec? ==>
          if attached then node == h[box].kids[FirstNamed(u.members, ID)] else h[node].parent == null)
  }

  ghost predicate Follows(h: Cells, doc: JsonNode, d: Json, p: Position, box: JsonNode, node: JsonNode,
                          attached: bool) {
    && Denotes(h, doc, d) && Fits(d, p) && box == NodeAt(h, doc, d, ContainerPath(p))
    && Denotes(h, box, ValueAt(d, ContainerPath(p))) && Held(h, box, ValueAt(d, ContainerPath(p)), p, node, attached)
  }

  /** A slot after an id that matches. */
  function Nulled(p: Position, bs: seq<Board>, attached: bool): seq<Board> {
    (if (attached || !p.Fec?) && bs != [] then bs[1..] else bs) + [NoString]
  }

  /** An id that matches: what is there is detached, unless it has been, and a null comes in.  In an array all the
      elements are detached and appended once more. */
  method PutNull(ghost f: Forest, doc: JsonNode, ghost d: Json, ghost crates: nat, p: Position, box: JsonNode,
                 node: JsonNode, ghost attached: bool, ghost slots: Slots) returns (ghost d': Json)
    requires f.Valid() && Follows(f.cells, doc, d, p, box, node, attached)
    requires Says(f.cells, doc, d, crates, slots) && InDocument(p, crates) && p in slots
    modifies f, f.cells.Keys
    ensures f.Valid() && (forall n | n in f.cells :: n in old(f.cells) || fresh(n))
    ensures Follows(f.cells, doc, d', p, box, node, false)
    ensures Says(f.cells, doc, d', crates, slots[p := Nulled(p, slots[p], attached)])
  {
    var x := MakeIdFor(f, doc, d, p, box, node, attached, None);
    d' := PutNode(f, doc, d, crates, p, box, node, attached, slots, x);
  }

  method PutNode(ghost f: Forest, ghost doc: JsonNode, ghost d: Json, ghost crates: nat, p: Position, box: JsonNode,
                 node: JsonNode, ghost attached: bool, ghost slots: Slots, x: JsonNode) returns (ghost d': Json)
    requires f.Valid() && Follows(f.cells, doc, d, p, box, node, attached) && Loose(f.cells, x, Null, box) && x != node
    requires Says(f.cells, doc, d, crates, slots) && InDocument(p, crates) && p in slots
    modifies f, f.cells.Keys
    ensures f.Valid() && f.cells.Keys == old(f.cells).Keys
    ensures Follows(f.cells, doc, d', p, box, node, false)
    ensures Says(f.cells, doc, d', crates, slots[p := Nulled(p, slots[p], attached)])
  {
    ghost var h := f.cells;
    ghost var u', moved;
    u', moved := PutNullHere(f, box, ValueAt(d, ContainerPath(p)), p, node, attached, x);
    d' := WithSlot(d, p, u');
    NullIsIn(h, f.cells, box, moved, doc, d, crates, p, u', node, slots, attached);
  }

  lemma NullIsIn(h: Cells, h': Cells, box: JsonNode, moved: set<JsonNode>, doc: JsonNode, d: Json, crates: nat,
                 p: Position, u': Json, node: JsonNode, slots: Slots, attached: bool)
    requires WellLinked(h) && Says(h, doc, d, crates, slots) && InDocument(p, crates) && p in slots && Fits(d, p)
    requires ChangesOnly(ValueAt(d, ContainerPath(p)), u', p) && Denotes(h', box, u')
    requires box == NodeAt(h, doc, d, ContainerPath(p)) && Elsewhere(h, h', box, moved) && AtHome(h, box, moved)
    requires node in h' && (p.Fec? ==> h'[node].parent == null)
    requires SlotHere(u', p) == Nulled(p, SlotHere(ValueAt(d, ContainerPath(p)), p), attached)
    ensures Follows(h', doc, WithSlot(d, p, u'), p, box, node, false)
    ensures Says(h', doc, WithSlot(d, p, u'), crates, slots[p := Nulled(p, slots[p], attached)])
  {
    DocumentChanged(h, h', box, moved, doc, d, crates, p, u', slots);
    NodeAtStands(h', doc, WithSlot(d, p, u'), ContainerPath(p));
  }

  method PutNullHere(ghost f: Forest, box: JsonNode, ghost u: Json, p: Position, node: JsonNode, ghost attached: bool,
                     x: JsonNode) returns (ghost u': Json, ghost moved: set<JsonNode>)
    requires f.Valid() && Denotes(f.cells, box, u) && FitsHere(u, p) && Loose(f.cells, x, Null, box) && x != node
    requires Held(f.cells, box, u, p, node, attached)
    modifies f, f.cells.Keys
    ensures f.Valid() && Denotes(f.cells, box, u') && ChangesOnly(u, u', p)
    ensures Elsewhere(old(f.cells), f.cells, box, moved) && AtHome(old(f.cells), box, moved)
    ensures node in f.cells && (p.Fec? ==> f.cells[node].parent == null)
    ensures SlotHere(u', p) == Nulled(p, SlotHere(u, p), attached)
  {
    ghost var h := f.cells;
    ExchangedIs(u, p, Null);
    if p.Fec? {
      ReplacedIds(u.members, Null);
      ExtendedIs(u, p, Null);
      u', moved := if attached then Exchanged(u, p, Null) else Extended(u, Null), {node, x};
      KidsAtHome(h, box, x);
      RemoveAndAppend(f, box, ID, node, x, u.members, Null, attached);
    } else {
      u' := Exchanged(u, p, Null);
      moved := ExchangeHere(f, box, u, p, node, x, Null);
    }
  }

  /** The first m ids have been compared with the text. */
  ghost predicate ComparedTo(h: Cells, doc: JsonNode, d: Json, crates: nat, p: Position, box: JsonNode, node: JsonNode,
                             was: Slots, ids: seq<string>, m: nat)
  {
    && m <= |ids| && p in was && Follows(h, doc, d, p, box, node, Matches(ids[..m], First(was[p])) == 0)
    && Says(h, doc, d, crates, was[p := ClearedSlot(p, was[p], ids[..m])])
  }

  method CompareNext(ghost f: Forest, doc: JsonNode, ghost d: Json, ghost crates: nat, p: Position, box: JsonNode,
                     node: JsonNode, text: bytes, ghost was: Slots, ids: seq<bytes>, m: nat) returns (ghost d': Json)
    requires f.Valid() && ComparedTo(f.cells, doc, d, crates, p, box, node, was, Texts(ids), m) && m < |ids|
    requires InDocument(p, crates) && First(was[p]) == Id(Text(text)) && was[p] != [] && (!p.Fec? ==> |was[p]| == 1)
    modifies f, f.cells.Keys
    ensures f.Valid() && (forall n | n in f.cells :: n in old(f.cells) || fresh(n))
    ensures ComparedTo(f.cells, doc, d', crates, p, box, node, was, Texts(ids), m + 1)
  {
    d' := d;
    ComparedWith(was, p, Texts(ids), m, text);
    if SameId(Text(ids[m]), Text(text)) {
      d' := CompareMatch(f, doc, d, crates, p, box, node, Matches(Texts(ids)[..m], First(was[p])) == 0, was,
                         ClearedSlot(p, was[p], Texts(ids)[..m]));
    }
  }

  method CompareMatch(ghost f: Forest, doc: JsonNode, ghost d: Json, ghost crates: nat, p: Position, box: JsonNode,
                      node: JsonNode, ghost attached: bool, ghost was: Slots, ghost bs: seq<Board>)
    returns (ghost d': Json)
    requires f.Valid() && Follows(f.cells, doc, d, p, box, node, attached)
    requires Says(f.cells, doc, d, crates, was[p := bs]) && InDocument(p, crates) && p in was
    modifies f, f.cells.Keys
    ensures f.Valid() && (forall n | n in f.cells :: n in old(f.cells) || fresh(n))
    ensures Follows(f.cells, doc, d', p, box, node, false)
    ensures Says(f.cells, doc, d', crates, was[p := Nulled(p, bs, attached)])
  {
    d' := PutNull(f, doc, d, crates, p, box, node, attached, was[p := bs]);
    UpdatedTwice(was, p, bs, Nulled(p, bs, attached));
  }

  lemma UpdatedTwice(slots: Slots, p: Position, a: seq<Board>, b: seq<Board>)
    ensures slots[p := a][p := b] == slots[p := b]
  {}

  lemma ComparedWith(was: Slots, p: Position, ids: seq<string>, m: nat, text: bytes)
    requires p in was && m < |ids| && First(was[p]) == Id(Text(text)) && was[p] != [] && (!p.Fec? ==> |was[p]| == 1)
    ensures var b := First(was[p]); var before := ClearedSlot(p, was[p], ids[..m]);
      if SameId(ids[m], Text(text)) then
        Matches(ids[..m + 1], b) > 0
        && ClearedSlot(p, was[p], ids[..m + 1]) == Nulled(p, before, Matches(ids[..m], b) == 0)
      else ClearedSlot(p, was[p], ids[..m + 1]) == before && Matches(ids[..m + 1], b) == Matches(ids[..m], b)
  {
    OneMoreId(ids, m, First(was[p]));
    if SameId(ids[m], Text(text)) { OneMoreNull(p, was[p], ids, m); }
  }

  /** RemoveFromConfig at one position: what is there is compared with all the ids. */
  method ClearBoard(ghost f: Forest, doc: JsonNode, ghost d: Json, ghost crates: nat, p: Position, ids: seq<bytes>,
                    ghost slots: Slots) returns (ghost d': Json)
    requires f.Valid() && Says(f.cells, doc, d, crates, slots) && InDocument(p, crates) && p in slots
    modifies f, f.cells.Keys
    ensures f.Valid() && (forall n | n in f.cells :: n in old(f.cells) || fresh(n))
    ensures Says(f.cells, doc, d', crates, ClearedAt(slots, Texts(ids), {p}))
  {
    assert Fits(d, p);
    d' := d;
    var box, node, text := FindBoard(f, doc, d, p);
    if text.Some? {
      d' := CompareAll(f, doc, d, crates, p, box, node, text.value, ids, slots);
    } else {
      NothingListed(slots, Texts(ids), p);
    }
  }

  method CompareAll(ghost f: Forest, doc: JsonNode, ghost d: Json, ghost crates: nat, p: Position, box: JsonNode,
                    node: JsonNode, text: bytes, ids: seq<bytes>, ghost was: Slots) returns (ghost d': Json)
    requires f.Valid() && Follows(f.cells, doc, d, p, box, node, true) && Says(f.cells, doc, d, crates, was)
    requires InDocument(p, crates) && p in was && First(was[p]) == Id(Text(text))
    modifies f, f.cells.Keys
    ensures f.Valid() && (forall n | n in f.cells :: n in old(f.cells) || fresh(n))
    ensures Says(f.cells, doc, d', crates, ClearedAt(was, Texts(ids), {p}))
  {
    d' := d;
    NothingCompared(was, Texts(ids), p);
    for m := 0 to |ids|
      invariant f.Valid() && (forall n | n in f.cells :: n in old(f.cells) || fresh(n))
      invariant ComparedTo(f.cells, doc, d', crates, p, box, node, was, Texts(ids), m)
    {
      d' := CompareNext(f, doc, d', crates, p, box, node, text, was, ids, m);
    }
    ClearedAtOne(was, Texts(ids), p);
  }

  lemma NothingCompared(was: Slots, ids: seq<string>, p: Position)
    requires p in was
    ensures was[p := ClearedSlot(p, was[p], ids[..0])] == was && Matches(ids[..0], First(was[p])) == 0
    ensures ids[..|ids|] == ids
  {}

  lemma ClearedAtOne(was: Slots, ids: seq<string>, p: Position)
    requires p in was
    ensures ClearedAt(was, ids, {p}) == was[p := ClearedSlot(p, was[p], ids)]
  {}

  lemma NothingListed(was: Slots, ids: seq<string>, p: Position)
    requires p in was && First(was[p]) == NoString
    ensures ClearedAt(was, ids, {p}) == was
  {
    MatchesIfListed(ids, NoString);
  }
}
