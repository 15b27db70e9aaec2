/** How src/db/DB.cpp exchanges a value on the node tree: of an array it detaches all elements and appends them
    again, with the new one in the old one's place; of an object it detaches the member and appends a new one. */
module JsonReplace {
  import opened Utf8
  import opened Wrappers
  import opened JsonGrammar
  import opened JsonTree
  import opened JsonMeaning
  import opened JsonApi
  import opened JsonPath

  /** A detached tree that the array is not in. */
  ghost predicate Loose(h: Cells, n: JsonNode, v: Json, arr: JsonNode) {
    n != arr && Denotes(h, n, v) && h[n].parent == null && arr !in Sub(h, n, v)
  }

  ghost predicate AllLoose(h: Cells, nodes: seq<JsonNode>, vs: seq<Json>, arr: JsonNode, from: nat, to: nat)
    requires |nodes| == |vs|
  {
    forall i {:trigger Loose(h, nodes[i], vs[i], arr)} | from <= i < to && i < |nodes| :: Loose(h, nodes[i], vs[i], arr)
  }

  predicate Distinct(nodes: seq<JsonNode>) { forall i, j | 0 <= i < j < |nodes| :: nodes[i] != nodes[j] }

  /** But for the array's children and the moved nodes' parents and keys nothing has changed. */
  ghost predicate Elsewhere(h: Cells, h': Cells, arr: JsonNode, moved: set<JsonNode>) {
    h'.Keys == h.Keys && forall n {:trigger ElsewhereAt(h, h', arr, moved, n)} | n in h ::
      ElsewhereAt(h, h', arr, moved, n)
  }

  ghost predicate ElsewhereAt(h: Cells, h': Cells, arr: JsonNode, moved: set<JsonNode>, n: JsonNode)
    requires n in h && h'.Keys == h.Keys
  {
    && h'[n].data == h[n].data && (n != arr ==> h'[n].kids == h[n].kids)
    && (n !in moved ==> h'[n].parent == h[n].parent && h'[n].key == h[n].key)
  }

  lemma ElsewhereNow(h: Cells, arr: JsonNode, moved: set<JsonNode>)
    ensures Elsewhere(h, h, arr, moved)
  {
    forall n | n in h ensures ElsewhereAt(h, h, arr, moved, n) {}
  }

  lemma ElsewhereStep(h: Cells, h1: Cells, h2: Cells, arr: JsonNode, moved: set<JsonNode>, kids: seq<JsonNode>,
                      c: JsonNode, up: JsonNode?, key: Option<bytes>)
    requires Elsewhere(h, h1, arr, moved) && Edited(h1, h2, arr, kids, c, up, key) && c in moved
    ensures Elsewhere(h, h2, arr, moved)
  {
    forall n | n in h ensures ElsewhereAt(h, h2, arr, moved, n) {
      assert ElsewhereAt(h, h1, arr, moved, n) && EditedAt(h1, h2, arr, kids, c, up, key, n);
    }
  }

  /** A loose tree stays loose when another node is detached from the array or appended to it. */
  lemma LooseKept(h1: Cells, h2: Cells, arr: JsonNode, kids: seq<JsonNode>, c: JsonNode, up: JsonNode?,
                  key: Option<bytes>,
                  n: JsonNode, v: Json)
    requires WellLinked(h1) && Edited(h1, h2, arr, kids, c, up, key) && Loose(h1, n, v, arr) && n != c
    requires c in h1 && (h1[c].parent == null || h1[c].parent == arr)
    ensures Loose(h2, n, v, arr)
  {
    EditKeeps(h1, h2, arr, kids, c, up, key, n, v);
    assert EditedAt(h1, h2, arr, kids, c, up, key, n);
  }

  // Detaching.

  /** The first j elements have been detached. */
  ghost predicate DetachedTo(h: Cells, arr: JsonNode, nodes: seq<JsonNode>, vs: seq<Json>, j: nat, x: JsonNode, w: Json)
    requires |nodes| == |vs|
  {
    && j <= |nodes| && WellLinked(h) && Denotes(h, arr, Array(vs[j..])) && h[arr].kids == nodes[j..]
    && AllLoose(h, nodes, vs, arr, 0, j) && Loose(h, x, w, arr)
  }

  lemma DetachedIsLoose(h1: Cells, h2: Cells, arr: JsonNode, v: Json)
    requires WellLinked(h1) && Denotes(h1, arr, v) && Count(v) > 0
    requires Edited(h1, h2, arr, Without(h1[arr].kids, 0), h1[arr].kids[0], null, None)
    ensures Denotes(h2, arr, Remove(v, 0)) && Loose(h2, h1[arr].kids[0], Kid(v, 0), arr)
  {
    var c, kids := h1[arr].kids[0], Without(h1[arr].kids, 0);
    assert Linked(h1, arr) && KidLinked(h1, arr, h1[arr].kids, 0);
    RemoveMeans(h1, h2, arr, v, 0);
    NotBelowItself(h1, arr, v, 0);
    EditKeeps(h1, h2, arr, kids, c, null, None, c, Kid(v, 0));
    assert EditedAt(h1, h2, arr, kids, c, null, None, c);
  }

  lemma Detached(h1: Cells, h2: Cells, arr: JsonNode, nodes: seq<JsonNode>, vs: seq<Json>, j: nat, x: JsonNode, w: Json)
    requires |nodes| == |vs| && Distinct(nodes) && x !in nodes && j < |nodes| && DetachedTo(h1, arr, nodes, vs, j, x, w)
    requires WellLinked(h2) && Edited(h1, h2, arr, Without(h1[arr].kids, 0), nodes[j], null, None)
    ensures DetachedTo(h2, arr, nodes, vs, j + 1, x, w)
  {
    var kids := Without(h1[arr].kids, 0);
    assert h1[arr].kids[0] == nodes[j];
    assert Linked(h1, arr) && KidLinked(h1, arr, h1[arr].kids, 0);
    DetachedIsLoose(h1, h2, arr, Array(vs[j..]));
    assert EditedAt(h1, h2, arr, kids, nodes[j], null, None, arr);
    WithoutFirst(nodes, j);
    WithoutFirst(vs, j);
    OthersLooseToo(h1, h2, arr, nodes, vs, j, x, w);
  }

  lemma WithoutFirst<T>(s: seq<T>, j: nat)
    requires j < |s|
    ensures Without(s[j..], 0) == s[j + 1..]
  {}

  lemma OthersLooseToo(h1: Cells, h2: Cells, arr: JsonNode, nodes: seq<JsonNode>, vs: seq<Json>, j: nat, x: JsonNode,
                       w: Json)
    requires |nodes| == |vs| && Distinct(nodes) && x !in nodes && j < |nodes| && DetachedTo(h1, arr, nodes, vs, j, x, w)
    requires nodes[j] in h1 && h1[nodes[j]].parent == arr
    requires Edited(h1, h2, arr, Without(h1[arr].kids, 0), nodes[j], null, None)
    ensures AllLoose(h2, nodes, vs, arr, 0, j) && Loose(h2, x, w, arr)
  {
    var kids := Without(h1[arr].kids, 0);
    forall i | 0 <= i < j ensures Loose(h2, nodes[i], vs[i], arr) {
      LooseKept(h1, h2, arr, kids, nodes[j], null, None, nodes[i], vs[i]);
    }
    LooseKept(h1, h2, arr, kids, nodes[j], null, None, x, w);
  }

  /** The loop that looks up all elements. */
  method AllElements(ghost f: Forest, arr: JsonNode, n: nat) returns (nodes: seq<JsonNode>)
    requires f.Valid() && arr in f.cells && f.cells[arr].data == DArray && |f.cells[arr].kids| == n
    ensures nodes == f.cells[arr].kids
  {
    nodes := [];
    for i := 0 to n
      invariant nodes == f.cells[arr].kids[..i]
    {
      var element := FindElement(f, arr, i);
      nodes := nodes + [element];
    }
  }

  method DetachAll(ghost f: Forest, arr: JsonNode, nodes: seq<JsonNode>, ghost vs: seq<Json>, ghost x: JsonNode,
                   ghost w: Json,
                   ghost moved: set<JsonNode>)
    requires f.Valid() && |nodes| == |vs| && Distinct(nodes) && x !in nodes
      && DetachedTo(f.cells, arr, nodes, vs, 0, x, w)
    requires forall i | 0 <= i < |nodes| :: nodes[i] in moved
    modifies f, f.cells.Keys
    ensures f.Valid() && DetachedTo(f.cells, arr, nodes, vs, |nodes|, x, w)
    ensures Elsewhere(old(f.cells), f.cells, arr, moved)
  {
    ghost var h := f.cells;
    ElsewhereNow(h, arr, moved);
    for j := 0 to |nodes|
      invariant f.Valid() && DetachedTo(f.cells, arr, nodes, vs, j, x, w) && Elsewhere(h, f.cells, arr, moved)
    {
      DetachOne(f, h, arr, nodes, vs, j, x, w, moved);
    }
  }

  method DetachOne(ghost f: Forest, ghost h: Cells, ghost arr: JsonNode, nodes: seq<JsonNode>, ghost vs: seq<Json>,
                   j: nat,
                   ghost x: JsonNode, ghost w: Json, ghost moved: set<JsonNode>)
    requires f.Valid() && |nodes| == |vs| && Distinct(nodes) && x !in nodes && j < |nodes| && nodes[j] in moved
    requires DetachedTo(f.cells, arr, nodes, vs, j, x, w) && Elsewhere(h, f.cells, arr, moved)
    modifies f, f.cells.Keys
    ensures f.Valid() && DetachedTo(f.cells, arr, nodes, vs, j + 1, x, w) && Elsewhere(h, f.cells, arr, moved)
  {
    ghost var h1 := f.cells;
    assert h1[arr].kids[0] == nodes[j];
    PlacedAtIndex(h1, arr, nodes[j], 0);
    ghost var i := RemoveFromParent(f, nodes[j]);
    assert i == 0;
    Detached(h1, f.cells, arr, nodes, vs, j, x, w);
    ElsewhereStep(h, h1, f.cells, arr, moved, Without(h1[arr].kids, 0), nodes[j], null, None);
  }

  // Appending.

  /** The first j elements of the new sequence are in the array again; the others, and the one that is left out,
      are loose. */
  ghost predicate AppendedTo(h: Cells, arr: JsonNode, nodes: seq<JsonNode>, vs: seq<Json>, k: nat, x: JsonNode, w: Json,
                             j: nat)
    requires |nodes| == |vs| && k < |nodes|
  {
    && j <= |nodes| && WellLinked(h) && Denotes(h, arr, Array(vs[k := w][..j])) && h[arr].kids == nodes[k := x][..j]
    && (forall i {:trigger Loose(h, nodes[i], vs[i], arr)} | (j <= i < |nodes|) || i == k ::
      Loose(h, nodes[i], vs[i], arr))
    && (j <= k ==> Loose(h, x, w, arr))
  }

  lemma Reattached(h1: Cells, h2: Cells, arr: JsonNode, done: seq<Json>, c: JsonNode, w: Json)
    requires WellLinked(h1) && Denotes(h1, arr, Array(done)) && Loose(h1, c, w, arr)
    requires Edited(h1, h2, arr, h1[arr].kids + [c], c, arr, h1[c].key)
    ensures Denotes(h2, arr, Array(done + [w])) && h2[arr].kids == h1[arr].kids + [c]
  {
    AppendMeans(h1, h2, arr, Array(done), c, w, h1[c].key);
    assert EditedAt(h1, h2, arr, h1[arr].kids + [c], c, arr, h1[c].key, arr);
  }

  lemma OneMoreAppended(h1: Cells, h2: Cells, arr: JsonNode, nodes: seq<JsonNode>, vs: seq<Json>, k: nat, x: JsonNode,
                        w: Json, j: nat)
    requires |nodes| == |vs| && k < |nodes| && Distinct(nodes) && x !in nodes && j < |nodes|
    requires AppendedTo(h1, arr, nodes, vs, k, x, w, j) && WellLinked(h2)
    requires var c := if j == k then x else nodes[j];
      c in h1 && h1[c].parent == null && Edited(h1, h2, arr, h1[arr].kids + [c], c, arr, h1[c].key)
    ensures AppendedTo(h2, arr, nodes, vs, k, x, w, j + 1)
  {
    var c, u := if j == k then x else nodes[j], if j == k then w else vs[j];
    assert Loose(h1, c, u, arr);
    Reattached(h1, h2, arr, vs[k := w][..j], c, u);
    OneLonger(vs[k := w], j);
    OneLonger(nodes[k := x], j);
    OthersStayLoose(h1, h2, arr, nodes, vs, k, x, w, j, c);
  }

  lemma OneLonger<T>(s: seq<T>, j: nat)
    requires j < |s|
    ensures s[..j] + [s[j]] == s[..j + 1]
  {}

  lemma OthersStayLoose(h1: Cells, h2: Cells, arr: JsonNode, nodes: seq<JsonNode>, vs: seq<Json>, k: nat, x: JsonNode,
                        w: Json, j: nat, c: JsonNode)
    requires |nodes| == |vs| && k < |nodes| && Distinct(nodes) && x !in nodes && j < |nodes|
    requires AppendedTo(h1, arr, nodes, vs, k, x, w, j) && c == if j == k then x else nodes[j]
    requires c in h1 && h1[c].parent == null && Edited(h1, h2, arr, h1[arr].kids + [c], c, arr, h1[c].key)
    ensures forall i {:trigger Loose(h2, nodes[i], vs[i], arr)} | (j + 1 <= i < |nodes|) || i == k ::
      Loose(h2, nodes[i], vs[i], arr)
    ensures j + 1 <= k ==> Loose(h2, x, w, arr)
  {
    var kids := h1[arr].kids + [c];
    forall i | (j + 1 <= i < |nodes|) || i == k ensures Loose(h2, nodes[i], vs[i], arr) {
      assert nodes[i] in nodes;
      LooseKept(h1, h2, arr, kids, c, arr, h1[c].key, nodes[i], vs[i]);
    }
    if j + 1 <= k { LooseKept(h1, h2, arr, kids, c, arr, h1[c].key, x, w); }
  }

  method AppendAll(ghost f: Forest, arr: JsonNode, nodes: seq<JsonNode>, k: nat, x: JsonNode, ghost vs: seq<Json>,
                   ghost w: Json,
                   ghost moved: set<JsonNode>)
    requires f.Valid() && |nodes| == |vs| && k < |nodes| && Distinct(nodes) && x !in nodes
    requires AppendedTo(f.cells, arr, nodes, vs, k, x, w, 0)
    requires x in moved && forall i | 0 <= i < |nodes| :: nodes[i] in moved
    modifies f, f.cells.Keys
    ensures f.Valid() && AppendedTo(f.cells, arr, nodes, vs, k, x, w, |nodes|)
    ensures Elsewhere(old(f.cells), f.cells, arr, moved)
  {
    ghost var h := f.cells;
    ElsewhereNow(h, arr, moved);
    for j := 0 to |nodes|
      invariant f.Valid() && AppendedTo(f.cells, arr, nodes, vs, k, x, w, j) && Elsewhere(h, f.cells, arr, moved)
    {
      AppendOne(f, h, arr, nodes, k, x, vs, w, j, moved);
    }
  }

  method AppendOne(ghost f: Forest, ghost h: Cells, arr: JsonNode, nodes: seq<JsonNode>, k: nat, x: JsonNode,
                   ghost vs: seq<Json>, ghost w: Json, j: nat, ghost moved: set<JsonNode>)
    requires f.Valid() && |nodes| == |vs| && k < |nodes| && Distinct(nodes) && x !in nodes && j < |nodes|
    requires AppendedTo(f.cells, arr, nodes, vs, k, x, w, j) && Elsewhere(h, f.cells, arr, moved)
    requires x in moved && nodes[j] in moved
    modifies f, f.cells.Keys
    ensures f.Valid() && AppendedTo(f.cells, arr, nodes, vs, k, x, w, j + 1) && Elsewhere(h, f.cells, arr, moved)
  {
    ghost var h1 := f.cells;
    var c := if j == k then x else nodes[j];
    assert Loose(h1, c, if j == k then w else vs[j], arr);
    AppendElement(f, arr, c);
    OneMoreAppended(h1, f.cells, arr, nodes, vs, k, x, w, j);
    ElsewhereStep(h, h1, f.cells, arr, moved, h1[arr].kids + [c], c, arr, h1[c].key);
  }

  lemma ElsewhereTwice(h: Cells, h1: Cells, h2: Cells, arr: JsonNode, moved: set<JsonNode>)
    requires Elsewhere(h, h1, arr, moved) && Elsewhere(h1, h2, arr, moved)
    ensures Elsewhere(h, h2, arr, moved)
  {
    forall n | n in h ensures ElsewhereAt(h, h2, arr, moved, n) {
      assert ElsewhereAt(h, h1, arr, moved, n) && ElsewhereAt(h1, h2, arr, moved, n);
    }
  }

  /** The element at k is exchanged for x; it ends up detached, with the value it had, and everything else is as it
      was. */
  method ReplaceElement(ghost f: Forest, arr: JsonNode, n: nat, k: nat, x: JsonNode, ghost vs: seq<Json>, ghost w: Json)
    requires f.Valid() && Denotes(f.cells, arr, Array(vs)) && |vs| == n && k < n && Loose(f.cells, x, w, arr)
    modifies f, f.cells.Keys
    ensures f.Valid() && Denotes(f.cells, arr, Array(vs[k := w]))
    ensures var nodes := old(f.cells)[arr].kids;
      f.cells[arr].kids == nodes[k := x] && Loose(f.cells, nodes[k], vs[k], arr)
      && Elsewhere(old(f.cells), f.cells, arr, (set m | m in nodes) + {x})
  {
    ghost var h := f.cells;
    var nodes := AllElements(f, arr, n);
    ghost var moved := (set m | m in nodes) + {x};
    NothingDetached(h, arr, nodes, vs, x, w);
    DetachAll(f, arr, nodes, vs, x, w, moved);
    ghost var h1 := f.cells;
    AllDetached(h1, arr, nodes, vs, k, x, w);
    AppendAll(f, arr, nodes, k, x, vs, w, moved);
    ElsewhereTwice(h, h1, f.cells, arr, moved);
    AllAppended(f.cells, arr, nodes, vs, k, x, w);
  }

  lemma NothingDetached(h: Cells, arr: JsonNode, nodes: seq<JsonNode>, vs: seq<Json>, x: JsonNode, w: Json)
    requires WellLinked(h) && Denotes(h, arr, Array(vs)) && nodes == h[arr].kids && Loose(h, x, w, arr)
    ensures |nodes| == |vs| && Distinct(nodes) && x !in nodes && DetachedTo(h, arr, nodes, vs, 0, x, w)
  {
    assert Linked(h, arr);
    NotAKid(h, arr, x);
    assert vs[0..] == vs && nodes[0..] == nodes;
  }

  lemma AllDetached(h: Cells, arr: JsonNode, nodes: seq<JsonNode>, vs: seq<Json>, k: nat, x: JsonNode, w: Json)
    requires |nodes| == |vs| && k < |nodes| && DetachedTo(h, arr, nodes, vs, |nodes|, x, w)
    ensures AppendedTo(h, arr, nodes, vs, k, x, w, 0)
  {
    assert vs[|vs|..] == vs[k := w][..0] && nodes[|nodes|..] == nodes[k := x][..0];
  }

  lemma AllAppended(h: Cells, arr: JsonNode, nodes: seq<JsonNode>, vs: seq<Json>, k: nat, x: JsonNode, w: Json)
    requires |nodes| == |vs| && k < |nodes| && AppendedTo(h, arr, nodes, vs, k, x, w, |nodes|)
    ensures Denotes(h, arr, Array(vs[k := w])) && h[arr].kids == nodes[k := x] && Loose(h, nodes[k], vs[k], arr)
  {
    assert vs[k := w][..|vs|] == vs[k := w] && nodes[k := x][..|nodes|] == nodes[k := x];
  }

  // A member.

  function MemberReplaced(ms: seq<Member>, name: bytes, w: Json): seq<Member>
    requires FirstNamed(ms, name) < |ms|
  {
    Without(ms, FirstNamed(ms, name)) + [Member(name, w)]
  }

  /** The first member with the name is exchanged for x, which comes last; the old one ends up detached, with the value
      it had, and everything else is as it was. */
  method ReplaceMember(ghost f: Forest, obj: JsonNode, name: bytes, x: JsonNode, ghost ms: seq<Member>, ghost w: Json)
    returns (gone: JsonNode)
    requires f.Valid() && Denotes(f.cells, obj, Object(ms)) && FirstNamed(ms, name) < |ms| && Loose(f.cells, x, w, obj)
    modifies f, f.cells.Keys
    ensures f.Valid() && Denotes(f.cells, obj, Object(MemberReplaced(ms, name, w)))
    ensures var i := FirstNamed(ms, name);
      gone == old(f.cells)[obj].kids[i] && Loose(f.cells, gone, ms[i].value, obj)
      && Elsewhere(old(f.cells), f.cells, obj, {gone, x})
  {
    gone := TheMember(f, obj, name, ms);
    NotAKid(f.cells, obj, x);
    RemoveAndAppend(f, obj, name, gone, x, ms, w, true);
  }

  /** json_remove_from_parent of a member, which does nothing to one that has been removed before, and
      json_append_member of another. */
  method RemoveAndAppend(ghost f: Forest, obj: JsonNode, name: bytes, node: JsonNode, x: JsonNode,
                         ghost ms: seq<Member>, ghost w: Json, ghost attached: bool)
    requires f.Valid() && Denotes(f.cells, obj, Object(ms)) && Loose(f.cells, x, w, obj) && node in f.cells && node != x
    requires if attached then FirstNamed(ms, name) < |ms| && node == f.cells[obj].kids[FirstNamed(ms, name)]
             else f.cells[node].parent == null
    modifies f, f.cells.Keys
    ensures f.Valid()
    ensures Denotes(f.cells, obj, Object(if attached then MemberReplaced(ms, name, w) else ms + [Member(name, w)]))
    ensures Elsewhere(old(f.cells), f.cells, obj, {node, x}) && f.cells[node].parent == null
    ensures attached ==> Loose(f.cells, node, ms[FirstNamed(ms, name)].value, obj)
  {
    ghost var h := f.cells;
    if attached { PlacedAtIndex(h, obj, node, FirstNamed(ms, name)); }
    ghost var k := RemoveFromParent(f, node);
    ghost var h1 := f.cells;
    if attached {
      SamePlace(h, obj, FirstNamed(ms, name), k);
      MemberDetached(h, h1, obj, ms, k, x, w);
    }
    AppendMember(f, obj, name, x);
    if attached {
      MemberAppended(h, h1, f.cells, obj, ms, k, name, node, x, w);
    } else {
      AnotherAppended(h, f.cells, obj, ms, name, node, x, w);
    }
  }

  lemma AnotherAppended(h: Cells, h': Cells, obj: JsonNode, ms: seq<Member>, name: bytes, node: JsonNode, x: JsonNode,
                        w: Json)
    requires WellLinked(h) && Denotes(h, obj, Object(ms)) && Loose(h, x, w, obj)
    requires node in h && h[node].parent == null && node != x
    requires Edited(h, h', obj, h[obj].kids + [x], x, obj, Some(name))
    ensures Denotes(h', obj, Object(ms + [Member(name, w)]))
    ensures Elsewhere(h, h', obj, {node, x}) && h'[node].parent == null
  {
    AppendMeans(h, h', obj, Object(ms), x, w, Some(name));
    ElsewhereNow(h, obj, {node, x});
    ElsewhereStep(h, h, h', obj, {node, x}, h[obj].kids + [x], x, obj, Some(name));
    assert EditedAt(h, h', obj, h[obj].kids + [x], x, obj, Some(name), node);
  }

  /** json_find_member, in terms of the value. */
  method TheMember(ghost f: Forest, obj: JsonNode, name: bytes, ghost ms: seq<Member>) returns (r: JsonNode)
    requires f.Valid() && Denotes(f.cells, obj, Object(ms)) && FirstNamed(ms, name) < |ms|
    ensures r == f.cells[obj].kids[FirstNamed(ms, name)]
  {
    ghost var kids := f.cells[obj].kids;
    assert Linked(f.cells, obj);
    forall i | 0 <= i < |ms| ensures KeyOf(f.cells, kids[i]) == Some(ms[i].key) {
      assert Denotes(f.cells, kids[i], Kid(Object(ms), i));
    }
    var found := FindMember(f, obj, name);
    assert KeyOf(f.cells, kids[FirstNamed(ms, name)]) == Some(name);
    ghost var i :| 0 <= i < |kids| && kids[i] == found && KeyOf(f.cells, found) == Some(name)
      && forall j | 0 <= j < i :: KeyOf(f.cells, kids[j]) != Some(name);
    NamedAt(ms, name, i);
    r := found;
  }

  lemma SamePlace(h: Cells, p: JsonNode, i: nat, k: nat)
    requires WellLinked(h) && p in h && i < |h[p].kids| && k < |h[p].kids| && h[p].kids[i] == h[p].kids[k]
    ensures i == k
  {
    assert Linked(h, p);
  }

  lemma MemberDetached(h: Cells, h1: Cells, obj: JsonNode, ms: seq<Member>, i: nat, x: JsonNode, w: Json)
    requires WellLinked(h) && Denotes(h, obj, Object(ms)) && i < |ms| && Loose(h, x, w, obj)
    requires Edited(h, h1, obj, Without(h[obj].kids, i), h[obj].kids[i], null, None)
    ensures Denotes(h1, obj, Object(Without(ms, i))) && Loose(h1, h[obj].kids[i], ms[i].value, obj)
    ensures Loose(h1, x, w, obj) && x != h[obj].kids[i]
  {
    var c, kids := h[obj].kids[i], Without(h[obj].kids, i);
    assert Linked(h, obj) && KidLinked(h, obj, h[obj].kids, i);
    RemoveMeans(h, h1, obj, Object(ms), i);
    NotBelowItself(h, obj, Object(ms), i);
    EditKeeps(h, h1, obj, kids, c, null, None, c, ms[i].value);
    assert EditedAt(h, h1, obj, kids, c, null, None, c);
    LooseKept(h, h1, obj, kids, c, null, None, x, w);
  }

  lemma MemberAppended(h: Cells, h1: Cells, h2: Cells, obj: JsonNode, ms: seq<Member>, i: nat, name: bytes,
                       gone: JsonNode, x: JsonNode, w: Json)
    requires WellLinked(h1) && i < |ms| && Denotes(h1, obj, Object(Without(ms, i))) && Loose(h1, x, w, obj)
    requires obj in h && i < |h[obj].kids| && gone == h[obj].kids[i] && gone != x && Loose(h1, gone, ms[i].value, obj)
    requires Edited(h, h1, obj, Without(h[obj].kids, i), gone, null, None)
    requires Edited(h1, h2, obj, h1[obj].kids + [x], x, obj, Some(name))
    ensures Denotes(h2, obj, Object(Without(ms, i) + [Member(name, w)])) && Loose(h2, gone, ms[i].value, obj)
    ensures Elsewhere(h, h2, obj, {gone, x})
  {
    AppendMeans(h1, h2, obj, Object(Without(ms, i)), x, w, Some(name));
    LooseKept(h1, h2, obj, h1[obj].kids + [x], x, obj, Some(name), gone, ms[i].value);
    ElsewhereNow(h, obj, {gone, x});
    ElsewhereStep(h, h, h1, obj, {gone, x}, Without(h[obj].kids, i), gone, null, None);
    ElsewhereStep(h, h1, h2, obj, {gone, x}, h1[obj].kids + [x], x, obj, Some(name));
  }

  // The trees around.

  /** The moved nodes are children of the container, or detached. */
  ghost predicate AtHome(h: Cells, arr: JsonNode, moved: set<JsonNode>) {
    forall m | m in moved :: m in h && (h[m].parent == null || h[m].parent == arr)
  }

  /** A tree without the container keeps its value. */
  lemma ElsewhereKeeps(h: Cells, h': Cells, arr: JsonNode, moved: set<JsonNode>, n: JsonNode, v: Json)
    requires WellLinked(h) && Elsewhere(h, h', arr, moved) && AtHome(h, arr, moved)
    requires Denotes(h, n, v) && arr !in Sub(h, n, v)
    ensures Denotes(h', n, v) && Sub(h', n, v) == Sub(h, n, v)
  {
    SubAlive(h, n, v);
    forall x | x in Sub(h, n, v) ensures AgreeAt(h, h', x, n) {
      assert ElsewhereAt(h, h', arr, moved, x);
      if x != n { SubHasParents(h, n, v, x); }
    }
    DenotesFrame(h, h', n, v);
  }

  /** In any other the value of the container is exchanged. */
  lemma {:induction false} ElsewhereExchanges(h: Cells, h': Cells, arr: JsonNode, moved: set<JsonNode>, n: JsonNode,
                                              v: Json, w: Json)
    requires WellLinked(h) && Elsewhere(h, h', arr, moved) && AtHome(h, arr, moved)
    requires Denotes(h, n, v) && Denotes(h', arr, w)
    ensures Denotes(h', n, Exchange(h, n, v, arr, w))
    decreases v
  {
    if n != arr {
      var v' := Exchange(h, n, v, arr, w);
      assert ElsewhereAt(h, h', arr, moved, n);
      forall i | 0 <= i < Count(v)
        ensures Denotes(h', h'[n].kids[i], Kid(v', i))
        ensures v'.Object? ==> h'[h'[n].kids[i]].key == Some(v'.members[i].key)
      {
        var k := h[n].kids[i];
        assert Denotes(h, k, Kid(v, i));
        assert Linked(h, n) && KidLinked(h, n, h[n].kids, i);
        assert ElsewhereAt(h, h', arr, moved, k);
        ElsewhereExchanges(h, h', arr, moved, k, Kid(v, i), w);
      }
    }
  }
}
