/** The configuration document of src/db/DB.cpp as a JSON value: where in it the boards of module DbConfig are, and
    what changing the value at one position does to the others. */
module DbDocument {
  import opened Utf8
  import opened JsonGrammar
  import opened JsonMeaning
  import opened JsonPath
  import opened JsonReplace
  import opened DbConfig

  const CRATES: bytes := [0x63, 0x72, 0x61, 0x74, 0x65, 0x73] // crates
  const FECS: bytes := [0x66, 0x65, 0x63, 0x73]               // fecs
  const DBS: bytes := [0x64, 0x62, 0x73]                      // dbs
  const PMTICS: bytes := [0x70, 0x6D, 0x74, 0x69, 0x63, 0x73] // pmtics
  const ID: bytes := [0x69, 0x64]                             // id

  // Where the boards are.

  /** The array or object in which the board of a position is. */
  function ContainerPath(p: Position): seq<Step> {
    match p
    case Fec(crate, slot) => [Name(CRATES), Index(crate), Name(FECS), Index(slot)]
    case Db(crate, slot, _) => [Name(CRATES), Index(crate), Name(FECS), Index(slot), Name(DBS)]
    case Pmtic(crate, _) => [Name(CRATES), Index(crate), Name(PMTICS)]
  }

  /** A FEC has an id, and there are four daughterboards and sixteen PMTICs. */
  predicate FitsHere(u: Json, p: Position) {
    match p
    case Fec(_, _) => u.Object? && FirstNamed(u.members, ID) < |u.members|
    case Db(_, _, card) => u.Array? && card < |u.items| == 4
    case Pmtic(_, slot) => u.Array? && slot < |u.items| == 16
  }

  predicate Fits(doc: Json, p: Position) {
    HasPath(doc, ContainerPath(p)) && FitsHere(ValueAt(doc, ContainerPath(p)), p)
  }

  ghost predicate Shaped(doc: Json, crates: nat) {
    forall p {:trigger Fits(doc, p)} {:trigger InDocument(p, crates)} | InDocument(p, crates) :: Fits(doc, p)
  }

  function Text(s: bytes): string { seq(|s|, i requires 0 <= i < |s| => s[i] as int as char) }

  function Texts(ids: seq<bytes>): (ts: seq<string>)
    ensures |ts| == |ids| && forall m | 0 <= m < |ids| :: ts[m] == Text(ids[m])
  {
    seq(|ids|, m requires 0 <= m < |ids| => Text(ids[m]))
  }

  /** json_get_string gives NULL for anything that is no string. */
  function BoardOf(v: Json): Board { if v.String? then Id(Text(v.str)) else NoString }

  /** The ids of a FEC, in order. */
  function IdsIn(ms: seq<Member>): seq<Board> {
    if ms == [] then [] else (if ms[0].key == ID then [BoardOf(ms[0].value)] else []) + IdsIn(ms[1..])
  }

  function SlotHere(u: Json, p: Position): seq<Board>
    requires FitsHere(u, p)
  {
    match p
    case Fec(_, _) => IdsIn(u.members)
    case Db(_, _, card) => [BoardOf(u.items[card])]
    case Pmtic(_, slot) => [BoardOf(u.items[slot])]
  }

  function SlotAt(doc: Json, p: Position): seq<Board>
    requires Fits(doc, p)
  {
    SlotHere(ValueAt(doc, ContainerPath(p)), p)
  }

  /** What the document says. */
  ghost predicate Shows(doc: Json, crates: nat, slots: Slots) {
    && Shaped(doc, crates) && Complete(slots, crates)
    && forall p {:trigger slots[p]} | InDocument(p, crates) :: slots[p] == SlotAt(doc, p)
  }

  lemma {:induction false} FirstIdIn(ms: seq<Member>)
    requires FirstNamed(ms, ID) < |ms|
    ensures var i := FirstNamed(ms, ID);
      IdsIn(ms) == [BoardOf(ms[i].value)] + IdsIn(ms[i + 1..]) && IdsIn(ms[..i]) == []
  {
    if ms[0].key == ID {
      assert FirstNamed(ms, ID) == 0;
    } else {
      var i := FirstNamed(ms[1..], ID);
      FirstIdIn(ms[1..]);
      assert ms[1..][i + 1..] == ms[i + 2..] && ms[..i + 1][1..] == ms[1..][..i];
    }
  }

  lemma {:induction false} IdsInBoth(a: seq<Member>, b: seq<Member>)
    ensures IdsIn(a + b) == IdsIn(a) + IdsIn(b)
  {
    if a == [] {
      assert a + b == b;
    } else {
      var head := if a[0].key == ID then [BoardOf(a[0].value)] else [];
      IdsInBoth(a[1..], b);
      assert (a + b)[1..] == a[1..] + b;
      Behind(head, IdsIn(a[1..]), IdsIn(b));
    }
  }

  lemma Behind(a: seq<Board>, b: seq<Board>, c: seq<Board>)
    ensures a + (b + c) == a + b + c
  {}

  /** It says one thing. */
  lemma ShowsOne(doc: Json, crates: nat) returns (slots: Slots)
    requires Shaped(doc, crates)
    ensures Shows(doc, crates, slots) && forall other | Shows(doc, crates, other) :: other == slots
  {
    slots := map p | p in DocumentSet(crates) && Fits(doc, p) :: SlotAt(doc, p);
    forall p ensures p in slots <==> InDocument(p, crates) {
      if InDocument(p, crates) { InDocumentSet(p, crates); }
      if p in DocumentSet(crates) { OnlyInDocument(p, crates); }
    }
    forall p | Fits(doc, p) ensures SlotAt(doc, p) != [] && (!p.Fec? ==> |SlotAt(doc, p)| == 1) {
      if p.Fec? { FirstIdIn(ValueAt(doc, ContainerPath(p)).members); }
    }
    forall other | Shows(doc, crates, other) ensures other == slots { SameSlots(other, slots, crates); }
  }

  lemma SameSlots(a: Slots, b: Slots, crates: nat)
    requires Complete(a, crates) && Complete(b, crates) && forall p | InDocument(p, crates) :: a[p] == b[p]
    ensures a == b
  {
    forall p ensures p in a <==> p in b {
      assert p in a <==> InDocument(p, crates);
      assert p in b <==> InDocument(p, crates);
    }
  }

  // One slot changed.

  /** A change of what is at the position, and of nothing else that is looked for. */
  predicate ChangesOnly(u: Json, u': Json, p: Position) {
    && FitsHere(u, p) && FitsHere(u', p)
    && match p
       case Fec(_, _) =>
         var k, k' := FirstNamed(u.members, DBS), FirstNamed(u'.members, DBS);
         k < |u.members| ==> k' < |u'.members| && u'.members[k'].value == u.members[k].value
       case Db(_, _, card) => u' == Array(u.items[card := u'.items[card]])
       case Pmtic(_, slot) => u' == Array(u.items[slot := u'.items[slot]])
  }

  function WithSlot(doc: Json, p: Position, u': Json): Json
    requires Fits(doc, p)
  {
    Put(doc, ContainerPath(p), u')
  }

  /** The position itself. */
  lemma SlotThere(doc: Json, p: Position, u': Json)
    requires Fits(doc, p) && FitsHere(u', p)
    ensures Fits(WithSlot(doc, p, u'), p) && SlotAt(WithSlot(doc, p, u'), p) == SlotHere(u', p)
  {
    PutThrough(doc, ContainerPath(p), u', []);
    assert ContainerPath(p) + [] == ContainerPath(p);
  }

  /** Another position in the same array. */
  lemma BesideInArray(doc: Json, p: Position, u': Json, q: Position)
    requires Fits(doc, p) && ChangesOnly(ValueAt(doc, ContainerPath(p)), u', p)
    requires Fits(doc, q) && p != q && !p.Fec? && ContainerPath(p) == ContainerPath(q)
    ensures Fits(WithSlot(doc, p, u'), q) && SlotAt(WithSlot(doc, p, u'), q) == SlotAt(doc, q)
  {
    PutThrough(doc, ContainerPath(p), u', []);
    assert ContainerPath(p) + [] == ContainerPath(p);
    assert p.Db? ==> ContainerPath(p)[4] == Name(DBS);
    assert q.Db? ==> ContainerPath(q)[4] == Name(DBS);
  }

  /** A daughterboard's position after its FEC's id has been changed. */
  lemma BelowFec(doc: Json, p: Position, u': Json, q: Position)
    requires Fits(doc, p) && ChangesOnly(ValueAt(doc, ContainerPath(p)), u', p)
    requires Fits(doc, q) && p.Fec? && q.Db? && q.crate == p.crate && q.slot == p.slot
    ensures Fits(WithSlot(doc, p, u'), q) && SlotAt(WithSlot(doc, p, u'), q) == SlotAt(doc, q)
  {
    var path, rest := ContainerPath(p), [Name(DBS)];
    assert ContainerPath(q) == path + rest;
    PathSplits(doc, path, rest);
    PutThrough(doc, path, u', rest);
    OneStep(ValueAt(doc, path), Name(DBS));
    OneStep(u', Name(DBS));
  }

  /** A FEC's position after one of its daughterboards has been changed. */
  lemma AboveDb(doc: Json, p: Position, u': Json, q: Position)
    requires Fits(doc, p) && Fits(doc, q) && p.Db? && q.Fec? && q.crate == p.crate && q.slot == p.slot
    ensures Fits(WithSlot(doc, p, u'), q) && SlotAt(WithSlot(doc, p, u'), q) == SlotAt(doc, q)
  {
    var path, rest := ContainerPath(q), [Name(DBS)];
    var fec := ValueAt(doc, path);
    assert ContainerPath(p) == path + rest;
    PathSplits(doc, path, rest);
    PutWithin(doc, path, rest, u');
    PutThrough(doc, path, Put(fec, rest, u'), []);
    assert path + [] == path && rest[1..] == [];
    OneStep(fec, Name(DBS));
    SameIds(fec.members, Put(fec, rest, u').members, FirstNamed(fec.members, DBS));
    SameChild(fec, Put(fec, rest, u'), Name(ID));
  }

  lemma OneStep(u: Json, s: Step)
    ensures HasPath(u, [s]) <==> HasChild(u, s)
    ensures HasChild(u, s) ==> ValueAt(u, [s]) == Kid(u, ChildIndex(u, s))
  {
    assert [s][1..] == [];
  }

  lemma {:induction false} SameIds(ms: seq<Member>, ms': seq<Member>, k: nat)
    requires |ms'| == |ms| && (forall i | 0 <= i < |ms| :: ms'[i].key == ms[i].key)
    requires forall i | 0 <= i < |ms| && i != k :: ms'[i] == ms[i]
    requires k < |ms| ==> ms[k].key != ID
    ensures IdsIn(ms') == IdsIn(ms)
    decreases |ms|
  {
    if ms != [] {
      if k == 0 { assert ms'[1..] == ms[1..]; } else { SameIds(ms[1..], ms'[1..], k - 1); }
    }
  }

  /** A position elsewhere in the document. */
  lemma SlotElsewhere(doc: Json, p: Position, u': Json, q: Position, j: nat)
    requires Fits(doc, p) && Fits(doc, q) && Part(ContainerPath(p), ContainerPath(q), j)
    ensures Fits(WithSlot(doc, p, u'), q) && SlotAt(WithSlot(doc, p, u'), q) == SlotAt(doc, q)
  {
    PutElsewhere(doc, ContainerPath(p), u', ContainerPath(q), j);
  }

  lemma SlotStays(doc: Json, p: Position, u': Json, q: Position)
    requires Fits(doc, p) && ChangesOnly(ValueAt(doc, ContainerPath(p)), u', p) && Fits(doc, q) && p != q
    ensures Fits(WithSlot(doc, p, u'), q) && SlotAt(WithSlot(doc, p, u'), q) == SlotAt(doc, q)
  {
    if p.crate != q.crate {
      SlotElsewhere(doc, p, u', q, 1);
    } else if p.Pmtic? != q.Pmtic? {
      SlotElsewhere(doc, p, u', q, 2);
    } else if p.Pmtic? {
      BesideInArray(doc, p, u', q);
    } else if p.slot != q.slot {
      SlotElsewhere(doc, p, u', q, 3);
    } else if p.Fec? {
      BelowFec(doc, p, u', q);
    } else if q.Fec? {
      AboveDb(doc, p, u', q);
    } else {
      BesideInArray(doc, p, u', q);
    }
  }

  /** Changing one slot's value changes one slot. */
  lemma ChangeIsOneSlot(doc: Json, crates: nat, p: Position, u': Json, slots: Slots)
    requires Shows(doc, crates, slots) && InDocument(p, crates)
    requires Fits(doc, p) && ChangesOnly(ValueAt(doc, ContainerPath(p)), u', p)
    ensures Shows(WithSlot(doc, p, u'), crates, slots[p := SlotHere(u', p)])
  {
    var doc', slots' := WithSlot(doc, p, u'), slots[p := SlotHere(u', p)];
    assert p in slots;
    forall q | InDocument(q, crates) ensures Fits(doc', q) && slots'[q] == SlotAt(doc', q) {
      SlotAfter(doc, crates, p, u', slots, q);
    }
    if p.Fec? { FirstIdIn(u'.members); }
    StillSlots(slots, crates, p, SlotHere(u', p));
  }

  lemma SlotAfter(doc: Json, crates: nat, p: Position, u': Json, slots: Slots, q: Position)
    requires Shows(doc, crates, slots) && InDocument(p, crates) && InDocument(q, crates)
    requires Fits(doc, p) && ChangesOnly(ValueAt(doc, ContainerPath(p)), u', p)
    ensures Fits(WithSlot(doc, p, u'), q) && q in slots
    ensures SlotAt(WithSlot(doc, p, u'), q) == slots[p := SlotHere(u', p)][q]
  {
    assert Fits(doc, q);
    if q == p { SlotThere(doc, p, u'); } else { SlotStays(doc, p, u', q); }
  }

  lemma StillSlots(slots: Slots, crates: nat, p: Position, bs: seq<Board>)
    requires Complete(slots, crates) && p in slots && bs != [] && (!p.Fec? ==> |bs| == 1)
    ensures Complete(slots[p := bs], crates)
  {
    forall q ensures q in slots[p := bs] <==> InDocument(q, crates) { assert q in slots <==> InDocument(q, crates); }
  }

  // The changes that are made.

  /** The value that is looked up, by name or by index, exchanged. */
  function Exchanged(u: Json, p: Position, w: Json): Json
    requires FitsHere(u, p)
  {
    match p
    case Fec(_, _) => Object(MemberReplaced(u.members, ID, w))
    case Db(_, _, card) => Array(u.items[card := w])
    case Pmtic(_, slot) => Array(u.items[slot := w])
  }

  /** A member more. */
  function Extended(u: Json, w: Json): Json
    requires u.Object?
  {
    Object(u.members + [Member(ID, w)])
  }

  lemma OthersAreFound(ms: seq<Member>, name: bytes, w: Json, other: bytes)
    requires FirstNamed(ms, name) < |ms| && other != name && FirstNamed(ms, other) < |ms|
    ensures var k, k' := FirstNamed(ms, other), FirstNamed(MemberReplaced(ms, name, w), other);
      k' < |ms| && MemberReplaced(ms, name, w)[k'] == ms[k]
  {
    var i, k, ms' := FirstNamed(ms, name), FirstNamed(ms, other), MemberReplaced(ms, name, w);
    forall j | 0 <= j < |ms| - 1 ensures ms'[j] == ms[if j < i then j else j + 1] {}
    NamedAt(ms', other, if k < i then k else k - 1);
  }

  lemma ExchangedIs(u: Json, p: Position, w: Json)
    requires FitsHere(u, p)
    ensures ChangesOnly(u, Exchanged(u, p, w), p)
    ensures SlotHere(Exchanged(u, p, w), p) == ExchangedSlot(p, SlotHere(u, p), BoardOf(w))
  {
    if p.Fec? {
      var ms, i := u.members, FirstNamed(u.members, ID);
      if FirstNamed(ms, DBS) < |ms| { OthersAreFound(ms, ID, w, DBS); }
      ReplacedIds(ms, w);
    }
  }

  lemma {:induction false} ReplacedIds(ms: seq<Member>, w: Json)
    requires FirstNamed(ms, ID) < |ms|
    ensures IdsIn(ms) != [] && IdsIn(MemberReplaced(ms, ID, w)) == IdsIn(ms)[1..] + [BoardOf(w)]
    ensures FirstNamed(MemberReplaced(ms, ID, w), ID) < |ms|
  {
    var i := FirstNamed(ms, ID);
    FirstIdIn(ms);
    assert IdsIn(ms)[1..] == IdsIn(ms[i + 1..]);
    IdsInBoth(ms[..i], ms[i + 1..]);
    IdsInBoth(ms[..i] + ms[i + 1..], [Member(ID, w)]);
    assert [Member(ID, w)][1..] == [];
    assert MemberReplaced(ms, ID, w)[|ms| - 1].key == ID;
  }

  lemma ExtendedIs(u: Json, p: Position, w: Json)
    requires p.Fec? && FitsHere(u, p)
    ensures ChangesOnly(u, Extended(u, w), p)
    ensures SlotHere(Extended(u, w), p) == SlotHere(u, p) + [BoardOf(w)]
  {
    var ms, ms' := u.members, Extended(u, w).members;
    IdsInBoth(ms, [Member(ID, w)]);
    assert [Member(ID, w)][1..] == [];
    assert ms'[FirstNamed(ms, ID)].key == ID;
    if FirstNamed(ms, DBS) < |ms| { NamedAt(ms', DBS, FirstNamed(ms, DBS)); }
  }
}
