/** What the nodes of a forest stand for, and what an edit anywhere in it does to that. */
module JsonMeaning {
  import opened Utf8
  import opened Wrappers
  import opened JsonGrammar
  import opened JsonTree

  // What a node stands for.

  function Count(v: Json): nat {
    match v
    case Array(vs) => |vs|
    case Object(ms) => |ms|
    case _ => 0
  }

  function Kid(v: Json, i: nat): (w: Json)
    requires i < Count(v)
    ensures w < v
  {
    if v.Array? then v.items[i] else v.members[i].value
  }

  predicate HasData(d: Data, v: Json) {
    match v
    case Null => d == DNull
    case Bool(b) => d == DBool(b)
    case Number(x) => d == DNumber(x)
    case String(s) => d == DString(s)
    case Array(_) => d == DArray
    case Object(_) => d == DObject
  }

  /** The node n is the root of a tree that stands for v. */
  ghost predicate Denotes(h: Cells, n: JsonNode, v: Json)
    decreases v
  {
    && n in h && HasData(h[n].data, v) && |h[n].kids| == Count(v)
    && forall i {:trigger h[n].kids[i]} | 0 <= i < Count(v) ::
         Denotes(h, h[n].kids[i], Kid(v, i)) && (v.Object? ==> h[h[n].kids[i]].key == Some(v.members[i].key))
  }

  /** The nodes of that tree. */
  ghost function Sub(h: Cells, n: JsonNode, v: Json): set<JsonNode>
    requires Denotes(h, n, v)
    decreases v
  {
    {n} + (set i, x | 0 <= i < Count(v) && x in Sub(h, h[n].kids[i], Kid(v, i)) :: x)
  }

  lemma InSub(h: Cells, n: JsonNode, v: Json, x: JsonNode) returns (i: nat)
    requires Denotes(h, n, v) && x in Sub(h, n, v) && x != n
    ensures i < Count(v) && x in Sub(h, h[n].kids[i], Kid(v, i))
  {
    i :| 0 <= i < Count(v) && x in Sub(h, h[n].kids[i], Kid(v, i));
  }

  lemma KidsInSub(h: Cells, n: JsonNode, v: Json, i: nat)
    requires Denotes(h, n, v) && i < Count(v)
    ensures Sub(h, h[n].kids[i], Kid(v, i)) <= Sub(h, n, v)
  {}

  /** Every node of a tree but the root has its parent in the tree. */
  lemma {:induction false} SubHasParents(h: Cells, n: JsonNode, v: Json, x: JsonNode)
    requires WellLinked(h) && Denotes(h, n, v) && x in Sub(h, n, v) && x != n
    ensures x in h && h[x].parent != null && h[x].parent in Sub(h, n, v)
    decreases v
  {
    var i := InSub(h, n, v, x);
    var k := h[n].kids[i];
    KidsInSub(h, n, v, i);
    assert Linked(h, n) && KidLinked(h, n, h[n].kids, i);
    if x != k { SubHasParents(h, k, Kid(v, i), x); }
  }

  /** A detached node is in no tree but its own. */
  lemma DetachedOutside(h: Cells, p: JsonNode, n: JsonNode, v: Json)
    requires WellLinked(h) && p in h && h[p].parent == null && p != n && Denotes(h, n, v)
    ensures p !in Sub(h, n, v)
  {
    if p in Sub(h, n, v) { SubHasParents(h, n, v, p); }
  }

  lemma {:induction false} SubAlive(h: Cells, n: JsonNode, v: Json)
    requires Denotes(h, n, v)
    ensures Sub(h, n, v) <= h.Keys
    decreases v
  {
    forall x | x in Sub(h, n, v) ensures x in h {
      if x != n {
        var i := InSub(h, n, v, x);
        SubAlive(h, h[n].kids[i], Kid(v, i));
      }
    }
  }

  /** Trees that do not contain each other's roots have no node in common. */
  lemma {:induction false} Disjoint(h: Cells, a: JsonNode, va: Json, b: JsonNode, vb: Json)
    requires WellLinked(h) && Denotes(h, a, va) && Denotes(h, b, vb)
    requires a !in Sub(h, b, vb) && h[b].parent !in Sub(h, a, va)
    ensures Sub(h, a, va) !! Sub(h, b, vb)
    decreases va
  {
    forall x | x in Sub(h, a, va) ensures x !in Sub(h, b, vb) {
      if x != a {
        var i := InSub(h, a, va, x);
        var k := h[a].kids[i];
        KidsInSub(h, a, va, i);
        assert Linked(h, a) && KidLinked(h, a, h[a].kids, i);
        if k in Sub(h, b, vb) && k != b { SubHasParents(h, b, vb, k); }
        Disjoint(h, k, Kid(va, i), b, vb);
      }
    }
  }

  /** The children of a detached node root disjoint trees without it. */
  lemma SiblingsDisjoint(h: Cells, p: JsonNode, v: Json, i: nat, j: nat)
    requires WellLinked(h) && Denotes(h, p, v) && h[p].parent == null && i < Count(v) && j < Count(v) && i != j
    ensures Sub(h, h[p].kids[i], Kid(v, i)) !! Sub(h, h[p].kids[j], Kid(v, j))
    ensures p !in Sub(h, h[p].kids[i], Kid(v, i))
  {
    var a, b := h[p].kids[i], h[p].kids[j];
    assert Linked(h, p) && KidLinked(h, p, h[p].kids, i) && KidLinked(h, p, h[p].kids, j);
    DetachedOutside(h, p, a, Kid(v, i));
    DetachedOutside(h, p, b, Kid(v, j));
    if a in Sub(h, b, Kid(v, j)) { SubHasParents(h, b, Kid(v, j), a); }
    Disjoint(h, a, Kid(v, i), b, Kid(v, j));
  }

  // A node stands for one value only, and is not below itself.

  lemma {:induction false} DenotesUnique(h: Cells, n: JsonNode, v: Json, w: Json)
    requires Denotes(h, n, v) && Denotes(h, n, w)
    ensures v == w
    decreases v
  {
    forall i | 0 <= i < Count(v)
      ensures Kid(v, i) == Kid(w, i) && (v.Object? ==> v.members[i] == w.members[i])
    {
      assert Denotes(h, h[n].kids[i], Kid(v, i));
      DenotesUnique(h, h[n].kids[i], Kid(v, i), Kid(w, i));
    }
    if v.Array? {
      forall i | 0 <= i < |v.items| ensures v.items[i] == w.items[i] { assert Kid(v, i) == Kid(w, i); }
      assert v.items == w.items;
    }
    if v.Object? { assert v.members == w.members; }
  }

  lemma {:induction false} SubValue(h: Cells, n: JsonNode, v: Json, x: JsonNode) returns (w: Json)
    requires Denotes(h, n, v) && x in Sub(h, n, v)
    ensures Denotes(h, x, w) && (w == v || w < v)
    decreases v
  {
    if x == n {
      w := v;
    } else {
      var i := InSub(h, n, v, x);
      w := SubValue(h, h[n].kids[i], Kid(v, i), x);
    }
  }

  lemma NotBelowItself(h: Cells, n: JsonNode, v: Json, i: nat)
    requires Denotes(h, n, v) && i < Count(v)
    ensures n !in Sub(h, h[n].kids[i], Kid(v, i))
  {
    if n in Sub(h, h[n].kids[i], Kid(v, i)) {
      var w := SubValue(h, h[n].kids[i], Kid(v, i), n);
      DenotesUnique(h, n, v, w);
    }
  }

  // When two heaps have the same tree.

  /** Two heaps agree on a node as far as the tree under root goes; the root's own key is not in it. */
  ghost predicate AgreeAt(h: Cells, h': Cells, x: JsonNode, root: JsonNode) {
    x in h && x in h' && h'[x].data == h[x].data && h'[x].kids == h[x].kids && (x != root ==> h'[x].key == h[x].key)
  }

  lemma {:induction false} DenotesFrame(h: Cells, h': Cells, n: JsonNode, v: Json)
    requires WellLinked(h) && Denotes(h, n, v)
    requires forall x {:trigger AgreeAt(h, h', x, n)} | x in Sub(h, n, v) :: AgreeAt(h, h', x, n)
    ensures Denotes(h', n, v) && Sub(h', n, v) == Sub(h, n, v)
    decreases v
  {
    assert AgreeAt(h, h', n, n) && Linked(h, n);
    forall i | 0 <= i < Count(v)
      ensures Denotes(h', h[n].kids[i], Kid(v, i))
      ensures Sub(h', h[n].kids[i], Kid(v, i)) == Sub(h, h[n].kids[i], Kid(v, i))
      ensures v.Object? ==> h'[h[n].kids[i]].key == Some(v.members[i].key)
    {
      var k := h[n].kids[i];
      KidsInSub(h, n, v, i);
      NotBelowItself(h, n, v, i);
      assert k in Sub(h, k, Kid(v, i)) && AgreeAt(h, h', k, n);
      forall x | x in Sub(h, k, Kid(v, i)) ensures AgreeAt(h, h', x, k) {
        assert AgreeAt(h, h', x, n);
      }
      DenotesFrame(h, h', k, Kid(v, i));
    }
  }

  // What an edit at a node does to the trees of the forest: nothing to those without the node, and in
  // the others the value at that node is exchanged.

  /** v with the value at p exchanged. */
  ghost function Exchange(h: Cells, n: JsonNode, v: Json, p: JsonNode, w: Json): Json
    requires Denotes(h, n, v)
    decreases v
  {
    if n == p then w
    else
      match v
      case Array(vs) => Array(seq(|vs|, i requires 0 <= i < |vs| => Exchange(h, h[n].kids[i], Kid(v, i), p, w)))
      case Object(ms) =>
        Object(seq(|ms|, i requires 0 <= i < |ms| => Member(ms[i].key, Exchange(h, h[n].kids[i], Kid(v, i), p, w))))
      case _ => v
  }

  lemma {:induction false} EditExchanges(h: Cells, h': Cells, p: JsonNode, kids: seq<JsonNode>, c: JsonNode,
                                         up: JsonNode?, key: Option<bytes>, n: JsonNode, v: Json, w: Json)
    requires WellLinked(h) && Edited(h, h', p, kids, c, up, key) && Denotes(h, n, v) && Denotes(h', p, w)
    requires c in h && (h[c].parent == null || h[c].parent == p)
    ensures Denotes(h', n, Exchange(h, n, v, p, w))
    decreases v
  {
    if n != p {
      var v' := Exchange(h, n, v, p, w);
      assert EditedAt(h, h', p, kids, c, up, key, n);
      forall i | 0 <= i < Count(v)
        ensures Denotes(h', h'[n].kids[i], Kid(v', i))
        ensures v'.Object? ==> h'[h'[n].kids[i]].key == Some(v'.members[i].key)
      {
        var k := h[n].kids[i];
        assert Denotes(h, k, Kid(v, i));
        assert Linked(h, n) && KidLinked(h, n, h[n].kids, i);
        assert EditedAt(h, h', p, kids, c, up, key, k);
        EditExchanges(h, h', p, kids, c, up, key, k, Kid(v, i), w);
      }
    }
  }

  lemma EditKeeps(h: Cells, h': Cells, p: JsonNode, kids: seq<JsonNode>, c: JsonNode,
                  up: JsonNode?, key: Option<bytes>, n: JsonNode, v: Json)
    requires WellLinked(h) && Edited(h, h', p, kids, c, up, key) && Denotes(h, n, v) && p !in Sub(h, n, v)
    requires c in h && (h[c].parent == null || h[c].parent == p)
    ensures Denotes(h', n, v) && Sub(h', n, v) == Sub(h, n, v)
  {
    forall x | x in Sub(h, n, v) ensures AgreeAt(h, h', x, n) {
      SubAlive(h, n, v);
      assert EditedAt(h, h', p, kids, c, up, key, x);
      if x != n { SubHasParents(h, n, v, x); }
    }
    DenotesFrame(h, h', n, v);
  }

  // Sequence operations on values.

  /** v with one more child behind the others. */
  function Append(v: Json, w: Json, key: Option<bytes>): Json
    requires v.Array? || (v.Object? && key.Some?)
  {
    if v.Array? then Array(v.items + [w]) else Object(v.members + [Member(key.value, w)])
  }

  function Prepend(v: Json, w: Json, key: Option<bytes>): Json
    requires v.Array? || (v.Object? && key.Some?)
  {
    if v.Array? then Array([w] + v.items) else Object([Member(key.value, w)] + v.members)
  }

  function Remove(v: Json, i: nat): Json
    requires i < Count(v)
  {
    if v.Array? then Array(Without(v.items, i)) else Object(Without(v.members, i))
  }

  /** Appending a detached tree that does not contain p to p, wherever p is. */
  lemma AppendMeans(h: Cells, h': Cells, p: JsonNode, v: Json, c: JsonNode, w: Json, key: Option<bytes>)
    requires WellLinked(h) && Denotes(h, p, v) && Denotes(h, c, w) && p !in Sub(h, c, w)
    requires v.Array? || (v.Object? && key.Some?)
    requires h[c].parent == null && Edited(h, h', p, h[p].kids + [c], c, p, key)
    ensures Denotes(h', p, Append(v, w, key))
  {
    EditKeeps(h, h', p, h[p].kids + [c], c, p, key, c, w);
    KidsKept(h, h', p, h[p].kids + [c], c, p, key, v);
    assert EditedAt(h, h', p, h[p].kids + [c], c, p, key, p);
    assert EditedAt(h, h', p, h[p].kids + [c], c, p, key, c);
  }

  lemma PrependMeans(h: Cells, h': Cells, p: JsonNode, v: Json, c: JsonNode, w: Json, key: Option<bytes>)
    requires WellLinked(h) && Denotes(h, p, v) && Denotes(h, c, w) && p !in Sub(h, c, w)
    requires v.Array? || (v.Object? && key.Some?)
    requires h[c].parent == null && Edited(h, h', p, [c] + h[p].kids, c, p, key)
    ensures Denotes(h', p, Prepend(v, w, key))
  {
    EditKeeps(h, h', p, [c] + h[p].kids, c, p, key, c, w);
    KidsKept(h, h', p, [c] + h[p].kids, c, p, key, v);
    assert EditedAt(h, h', p, [c] + h[p].kids, c, p, key, p);
    assert EditedAt(h, h', p, [c] + h[p].kids, c, p, key, c);
    var v', kids := Prepend(v, w, key), h'[p].kids;
    forall i | 0 <= i < Count(v')
      ensures Denotes(h', kids[i], Kid(v', i)) && (v'.Object? ==> h'[kids[i]].key == Some(v'.members[i].key))
    {
      if i > 0 { assert kids[i] == h[p].kids[i - 1] && Kid(v', i) == Kid(v, i - 1); }
    }
  }

  /** Removing the i-th child; the removed tree stands for what it stood for. */
  lemma RemoveMeans(h: Cells, h': Cells, p: JsonNode, v: Json, i: nat)
    requires WellLinked(h) && Denotes(h, p, v) && i < Count(v)
    requires Edited(h, h', p, Without(h[p].kids, i), h[p].kids[i], null, None)
    ensures Denotes(h', p, Remove(v, i)) && Denotes(h', h[p].kids[i], Kid(v, i))
  {
    var c, kids := h[p].kids[i], Without(h[p].kids, i);
    assert Linked(h, p) && KidLinked(h, p, h[p].kids, i);
    KidsKept(h, h', p, kids, c, null, None, v);
    assert EditedAt(h, h', p, kids, c, null, None, p);
    var v' := Remove(v, i);
    forall k | 0 <= k < Count(v')
      ensures Denotes(h', kids[k], Kid(v', k)) && (v'.Object? ==> h'[kids[k]].key == Some(v'.members[k].key))
    {
      Remaining(h, p, v, i, k);
    }
  }

  /** A child that a removal leaves. */
  lemma Remaining(h: Cells, p: JsonNode, v: Json, i: nat, k: nat)
    requires WellLinked(h) && Denotes(h, p, v) && i < Count(v) && k < Count(v) - 1
    ensures var m := if k < i then k else k + 1; var c := Without(h[p].kids, i)[k];
      c == h[p].kids[m] && c != h[p].kids[i] && Count(Remove(v, i)) == Count(v) - 1 && Kid(Remove(v, i), k) == Kid(v, m)
      && (v.Object? ==> Remove(v, i).members[k].key == v.members[m].key)
  {
    assert Linked(h, p);
  }

  lemma KidsKept(h: Cells, h': Cells, p: JsonNode, kids: seq<JsonNode>, c: JsonNode,
                 up: JsonNode?, key: Option<bytes>, v: Json)
    requires WellLinked(h) && Edited(h, h', p, kids, c, up, key) && Denotes(h, p, v)
    requires c in h && (h[c].parent == null || h[c].parent == p)
    ensures forall i | 0 <= i < Count(v) ::
      Denotes(h', h[p].kids[i], Kid(v, i)) && (h[p].kids[i] != c ==> h'[h[p].kids[i]].key == h[h[p].kids[i]].key)
    ensures h[c].parent == null ==> c !in h[p].kids
  {
    forall i | 0 <= i < Count(v)
      ensures Denotes(h', h[p].kids[i], Kid(v, i))
      ensures h[p].kids[i] != c ==> h'[h[p].kids[i]].key == h[h[p].kids[i]].key
    {
      assert Denotes(h, h[p].kids[i], Kid(v, i));
      NotBelowItself(h, p, v, i);
      EditKeeps(h, h', p, kids, c, up, key, h[p].kids[i], Kid(v, i));
      assert EditedAt(h, h', p, kids, c, up, key, h[p].kids[i]);
    }
    if h[c].parent == null { NotAKid(h, p, c); }
  }

  // New trees beside old ones.

  /** Every node of h is still there with its data, key, parent and children. */
  ghost predicate Kept(h: Cells, h': Cells) {
    h.Keys <= h'.Keys && forall x {:trigger KeptAt(h, h', x)} | x in h :: KeptAt(h, h', x)
  }

  ghost predicate KeptAt(h: Cells, h': Cells, x: JsonNode)
    requires x in h
  {
    x in h' && h'[x].data == h[x].data && h'[x].key == h[x].key && h'[x].parent == h[x].parent
      && h'[x].kids == h[x].kids
  }

  lemma KeptKeeps(h: Cells, h': Cells, n: JsonNode, v: Json)
    requires WellLinked(h) && Kept(h, h') && Denotes(h, n, v)
    ensures Denotes(h', n, v) && Sub(h', n, v) == Sub(h, n, v)
  {
    SubAlive(h, n, v);
    forall x | x in Sub(h, n, v) ensures AgreeAt(h, h', x, n) { assert KeptAt(h, h', x); }
    DenotesFrame(h, h', n, v);
  }

  lemma KeptTwice(h: Cells, h1: Cells, h2: Cells)
    requires Kept(h, h1) && Kept(h1, h2)
    ensures Kept(h, h2)
  {
    forall x | x in h ensures KeptAt(h, h2, x) {
      assert KeptAt(h, h1, x) && KeptAt(h1, h2, x);
    }
  }

  /** The only news in h' is a detached tree for v. */
  ghost predicate NewTree(h: Cells, h': Cells, n: JsonNode, v: Json, key: Option<bytes>) {
    && Kept(h, h') && Denotes(h', n, v) && h'[n].parent == null && h'[n].key == key
    && Sub(h', n, v) !! h.Keys && h'.Keys == h.Keys + Sub(h', n, v)
  }

  lemma InNewTree(h: Cells, h': Cells, n: JsonNode, v: Json, key: Option<bytes>)
    requires NewTree(h, h', n, v, key)
    ensures n in h' && n !in h && (Container(h'[n].data) <==> v.Array? || v.Object?)
  {
    assert n in Sub(h', n, v);
  }

  /** A second new tree is appended to the first. */
  lemma NewTreeGrows(h: Cells, g: Cells, g1: Cells, g2: Cells, p: JsonNode, v: Json, pKey: Option<bytes>,
                     c: JsonNode, w: Json, cKey: Option<bytes>, key: Option<bytes>)
    requires WellLinked(g) && WellLinked(g1) && (v.Array? || (v.Object? && key.Some?))
    requires NewTree(h, g, p, v, pKey) && NewTree(g, g1, c, w, cKey)
    requires Edited(g1, g2, p, g1[p].kids + [c], c, p, key)
    ensures NewTree(h, g2, p, Append(v, w, key), pKey)
  {
    InNewTree(h, g, p, v, pKey);
    InNewTree(g, g1, c, w, cKey);
    KeptKeeps(g, g1, p, v);
    AppendMeans(g1, g2, p, v, c, w, key);
    KeptTwice(h, g, g1);
    KeptThroughEdit(h, g1, g2, p, g1[p].kids + [c], c, key);
    assert KeptAt(g, g1, p) && EditedAt(g1, g2, p, g1[p].kids + [c], c, p, key, p);
    AppendSub(g1, g2, p, v, c, w, key);
  }

  lemma KeptThroughEdit(h: Cells, g1: Cells, g2: Cells, p: JsonNode, kids: seq<JsonNode>, c: JsonNode,
                        key: Option<bytes>)
    requires Kept(h, g1) && p in g1 && p !in h && c !in h
    requires Edited(g1, g2, p, kids, c, p, key)
    ensures Kept(h, g2)
  {
    forall x | x in h ensures KeptAt(h, g2, x) {
      assert KeptAt(h, g1, x) && EditedAt(g1, g2, p, kids, c, p, key, x);
    }
  }

  lemma Inside(h: Cells, n: JsonNode, v: Json, i: nat, x: JsonNode)
    requires Denotes(h, n, v) && i < Count(v) && x in Sub(h, h[n].kids[i], Kid(v, i))
    ensures x in Sub(h, n, v)
  {}

  /** One child's tree after an append. */
  lemma AppendKeepsKid(h: Cells, h': Cells, p: JsonNode, v: Json, c: JsonNode, w: Json, key: Option<bytes>, i: nat)
    requires WellLinked(h) && Denotes(h, p, v) && Denotes(h, c, w) && p !in Sub(h, c, w) && h[c].parent == null
    requires (v.Array? || (v.Object? && key.Some?)) && Edited(h, h', p, h[p].kids + [c], c, p, key)
    requires i <= Count(v)
    ensures p in h' && h'[p].kids == h[p].kids + [c]
    ensures var k, u := h'[p].kids[i], Kid(Append(v, w, key), i);
      Denotes(h, k, u) && Denotes(h', k, u) && Sub(h', k, u) == Sub(h, k, u)
      && (if i < Count(v) then k == h[p].kids[i] && u == Kid(v, i) else k == c && u == w)
  {
    var kids := h[p].kids + [c];
    assert EditedAt(h, h', p, kids, c, p, key, p);
    if i < Count(v) {
      assert Denotes(h, h[p].kids[i], Kid(v, i));
      NotBelowItself(h, p, v, i);
      EditKeeps(h, h', p, kids, c, p, key, h[p].kids[i], Kid(v, i));
    } else {
      EditKeeps(h, h', p, kids, c, p, key, c, w);
    }
  }

  /** The nodes of the tree after an append. */
  lemma AppendSub(h: Cells, h': Cells, p: JsonNode, v: Json, c: JsonNode, w: Json, key: Option<bytes>)
    requires WellLinked(h) && Denotes(h, p, v) && Denotes(h, c, w) && p !in Sub(h, c, w) && h[c].parent == null
    requires (v.Array? || (v.Object? && key.Some?)) && Edited(h, h', p, h[p].kids + [c], c, p, key)
    requires Denotes(h', p, Append(v, w, key))
    ensures Sub(h', p, Append(v, w, key)) == Sub(h, p, v) + Sub(h, c, w)
  {
    var v' := Append(v, w, key);
    forall x | x in Sub(h', p, v') ensures x in Sub(h, p, v) + Sub(h, c, w) {
      if x != p {
        var i := InSub(h', p, v', x);
        AppendKeepsKid(h, h', p, v, c, w, key, i);
        if i < Count(v) { Inside(h, p, v, i, x); }
      }
    }
    forall x | x in Sub(h, p, v) + Sub(h, c, w) ensures x in Sub(h', p, v') {
      AppendSubBack(h, h', p, v, c, w, key, x);
    }
  }

  lemma AppendSubBack(h: Cells, h': Cells, p: JsonNode, v: Json, c: JsonNode, w: Json, key: Option<bytes>, x: JsonNode)
    requires WellLinked(h) && Denotes(h, p, v) && Denotes(h, c, w) && p !in Sub(h, c, w) && h[c].parent == null
    requires (v.Array? || (v.Object? && key.Some?)) && Edited(h, h', p, h[p].kids + [c], c, p, key)
    requires Denotes(h', p, Append(v, w, key)) && (x in Sub(h, p, v) || x in Sub(h, c, w))
    ensures x in Sub(h', p, Append(v, w, key))
  {
    if x in Sub(h, c, w) {
      AppendKeepsKid(h, h', p, v, c, w, key, Count(v));
      Inside(h', p, Append(v, w, key), Count(v), x);
    } else if x != p {
      var i := InSub(h, p, v, x);
      AppendKeepsKid(h, h', p, v, c, w, key, i);
      Inside(h', p, Append(v, w, key), i, x);
    }
  }
}
