/** The public functions of src/db/Json.cpp on the pointer tree. */
module JsonApi {
  import opened Utf8
  import opened Wrappers
  import opened JsonGrammar
  import opened JsonTree
  import opened JsonMeaning

  // Construction.

  function NewCell(d: Data): Cell { Cell(d, None, null, null, null, null, null, []) }

  /** A node that mknode and the assignments behind it have just made joins the forest. */
  ghost method Adopt(f: Forest, n: JsonNode, d: Data)
    requires f.Valid() && n !in f.cells && Mirrors(n, NewCell(d))
    modifies f
    ensures f.Valid() && f.cells == old(f.cells)[n := NewCell(d)]
  {
    ghost var h := f.cells;
    f.cells := h[n := NewCell(d)];
    forall x | x in f.cells ensures Mirrors(x, f.cells[x]) {
      if x != n { assert Mirrors(x, h[x]); }
    }
    forall x | x in f.cells ensures Linked(f.cells, x) {
      if x != n {
        assert Linked(h, x);
        forall i | 0 <= i < |h[x].kids| ensures KidLinked(f.cells, x, h[x].kids, i) {
          assert KidLinked(h, x, h[x].kids, i);
        }
      }
    }
  }

  /** Trees that were there before still stand for what they stood for. */
  lemma AdoptKeeps(h: Cells, n: JsonNode, d: Data, x: JsonNode, v: Json)
    requires WellLinked(h) && n !in h && Denotes(h, x, v)
    ensures Denotes(h[n := NewCell(d)], x, v) && Sub(h[n := NewCell(d)], x, v) == Sub(h, x, v)
  {
    SubAlive(h, x, v);
    forall y | y in Sub(h, x, v) ensures AgreeAt(h, h[n := NewCell(d)], y, x) {}
    DenotesFrame(h, h[n := NewCell(d)], x, v);
  }

  method MkNull(ghost f: Forest) returns (n: JsonNode)
    requires f.Valid()
    modifies f
    ensures fresh(n) && f.Valid() && f.cells == old(f.cells)[n := NewCell(DNull)] && Denotes(f.cells, n, Null)
  {
    n := new JsonNode(JSON_NULL);
    Adopt(f, n, DNull);
  }

  method MkBool(ghost f: Forest, b: bool) returns (n: JsonNode)
    requires f.Valid()
    modifies f
    ensures fresh(n) && f.Valid() && f.cells == old(f.cells)[n := NewCell(DBool(b))] && Denotes(f.cells, n, Bool(b))
  {
    n := new JsonNode(JSON_BOOL);
    n.bool_ := b;
    Adopt(f, n, DBool(b));
  }

  method MkString(ghost f: Forest, s: bytes) returns (n: JsonNode)
    requires f.Valid()
    modifies f
    ensures fresh(n) && f.Valid() && f.cells == old(f.cells)[n := NewCell(DString(s))] && Denotes(f.cells, n, String(s))
  {
    n := new JsonNode(JSON_STRING);
    n.string_ := s;
    Adopt(f, n, DString(s));
  }

  method MkNumber(ghost f: Forest, x: Double) returns (n: JsonNode)
    requires f.Valid()
    modifies f
    ensures fresh(n) && f.Valid() && f.cells == old(f.cells)[n := NewCell(DNumber(x))] && Denotes(f.cells, n, Number(x))
  {
    n := new JsonNode(JSON_NUMBER);
    n.number_ := x;
    Adopt(f, n, DNumber(x));
  }

  method MkArray(ghost f: Forest) returns (n: JsonNode)
    requires f.Valid()
    modifies f
    ensures fresh(n) && f.Valid() && f.cells == old(f.cells)[n := NewCell(DArray)] && Denotes(f.cells, n, Array([]))
  {
    n := new JsonNode(JSON_ARRAY);
    Adopt(f, n, DArray);
  }

  method MkObject(ghost f: Forest) returns (n: JsonNode)
    requires f.Valid()
    modifies f
    ensures fresh(n) && f.Valid() && f.cells == old(f.cells)[n := NewCell(DObject)] && Denotes(f.cells, n, Object([]))
  {
    n := new JsonNode(JSON_OBJECT);
    Adopt(f, n, DObject);
  }

  // Insertion.

  /** json_append_element; its two assertions are the requirements. */
  method AppendElement(ghost f: Forest, arr: JsonNode, element: JsonNode)
    requires f.Valid() && arr in f.cells && f.cells[arr].data == DArray
    requires element in f.cells && f.cells[element].parent == null
    modifies f, f.cells.Keys
    ensures old(f.cells)[arr].tail != null ==> old(f.cells)[arr].tail in old(f.cells)
    ensures AllMirror(f.cells) && f.cells == Appended(old(f.cells), arr, element)
    ensures element != arr ==>
      f.Valid()
      && Edited(old(f.cells), f.cells, arr, old(f.cells)[arr].kids + [element], element, arr,
                old(f.cells)[element].key)
  {
    AppendNode(f, arr, element);
  }

  method PrependElement(ghost f: Forest, arr: JsonNode, element: JsonNode)
    requires f.Valid() && arr in f.cells && f.cells[arr].data == DArray
    requires element in f.cells && f.cells[element].parent == null
    modifies f, f.cells.Keys
    ensures old(f.cells)[arr].head != null ==> old(f.cells)[arr].head in old(f.cells)
    ensures AllMirror(f.cells) && f.cells == Prepended(old(f.cells), arr, element)
    ensures element != arr ==>
      f.Valid()
      && Edited(old(f.cells), f.cells, arr, [element] + old(f.cells)[arr].kids, element, arr,
                old(f.cells)[element].key)
  {
    PrependNode(f, arr, element);
  }

  ghost function Keyed(h: Cells, n: JsonNode, key: bytes): Cells
    requires n in h
  {
    h[n := h[n].(key := Some(key))]
  }

  /** A new key is an edit of nobody's children. */
  method WriteKey(ghost f: Forest, n: JsonNode, key: Option<bytes>)
    requires f.Valid() && n in f.cells
    modifies f, n
    ensures f.Valid() && f.cells == old(f.cells)[n := old(f.cells)[n].(key := key)]
  {
    ghost var h := f.cells;
    ghost var h' := SetKey(h, n, key);
    f.cells := h';
    forall x | x in h' ensures Linked(h', x) {
      assert Linked(h, x);
      forall i | 0 <= i < |h[x].kids| ensures KidLinked(h', x, h[x].kids, i) {
        assert KidLinked(h, x, h[x].kids, i);
      }
    }
  }

  /** json_append_member, and append_member when the caller hands the key over. */
  method AppendMember(ghost f: Forest, obj: JsonNode, key: bytes, value: JsonNode)
    requires f.Valid() && obj in f.cells && f.cells[obj].data == DObject
    requires value in f.cells && f.cells[value].parent == null
    modifies f, f.cells.Keys
    ensures old(f.cells)[obj].tail != null ==> old(f.cells)[obj].tail in old(f.cells)
    ensures AllMirror(f.cells) && f.cells == Appended(Keyed(old(f.cells), value, key), obj, value)
    ensures value != obj ==>
      f.Valid() && Edited(old(f.cells), f.cells, obj, old(f.cells)[obj].kids + [value], value, obj, Some(key))
  {
    ghost var h := f.cells;
    WriteKey(f, value, Some(key));
    ghost var h1 := f.cells;
    AppendNode(f, obj, value);
    if value != obj { KeyThenEdit(h, h1, f.cells, obj, h[obj].kids + [value], value, obj, Some(key)); }
  }

  method PrependMember(ghost f: Forest, obj: JsonNode, key: bytes, value: JsonNode)
    requires f.Valid() && obj in f.cells && f.cells[obj].data == DObject
    requires value in f.cells && f.cells[value].parent == null
    modifies f, f.cells.Keys
    ensures old(f.cells)[obj].head != null ==> old(f.cells)[obj].head in old(f.cells)
    ensures AllMirror(f.cells) && f.cells == Prepended(Keyed(old(f.cells), value, key), obj, value)
    ensures value != obj ==>
      f.Valid() && Edited(old(f.cells), f.cells, obj, [value] + old(f.cells)[obj].kids, value, obj, Some(key))
  {
    ghost var h := f.cells;
    WriteKey(f, value, Some(key));
    ghost var h1 := f.cells;
    PrependNode(f, obj, value);
    if value != obj { KeyThenEdit(h, h1, f.cells, obj, [value] + h[obj].kids, value, obj, Some(key)); }
  }

  lemma KeyThenEdit(h: Cells, h1: Cells, h2: Cells, p: JsonNode, kids: seq<JsonNode>, c: JsonNode, up: JsonNode?,
                    key: Option<bytes>)
    requires c in h && h1 == h[c := h[c].(key := key)] && Edited(h1, h2, p, kids, c, up, key)
    ensures Edited(h, h2, p, kids, c, up, key)
  {
    assert h1.Keys == h.Keys;
    forall n | n in h ensures EditedAt(h, h2, p, kids, c, up, key, n) {
      assert EditedAt(h1, h2, p, kids, c, up, key, n);
    }
  }

  // Lookup.

  /** json_first_child. */
  method FirstChild(ghost f: Forest, node: JsonNode?) returns (r: JsonNode?)
    requires f.Valid() && (node != null ==> node in f.cells)
    ensures r == if node == null || f.cells[node].kids == [] then null else f.cells[node].kids[0]
  {
    r := null;
    if node != null {
      assert Mirrors(node, f.cells[node]) && Linked(f.cells, node);
      if node.tag == JSON_ARRAY || node.tag == JSON_OBJECT {
        r := node.head;
      }
    }
  }

  /** i->next in json_foreach. */
  method NextChild(ghost f: Forest, ghost p: JsonNode, ghost i: nat, child: JsonNode) returns (r: JsonNode?)
    requires f.Valid() && p in f.cells && i < |f.cells[p].kids| && f.cells[p].kids[i] == child
    ensures r == if i + 1 < |f.cells[p].kids| then f.cells[p].kids[i + 1] else null
  {
    PlacedAtIndex(f.cells, p, child, i);
    assert Mirrors(child, f.cells[child]);
    r := child.next;
  }

  /** json_find_element. */
  method FindElement(ghost f: Forest, arr: JsonNode?, index: int) returns (r: JsonNode?)
    requires f.Valid() && (arr != null ==> arr in f.cells)
    ensures r == if arr != null && f.cells[arr].data == DArray && 0 <= index < |f.cells[arr].kids|
                 then f.cells[arr].kids[index] else null
  {
    if arr != null { assert Mirrors(arr, f.cells[arr]); }
    if arr == null || arr.tag != JSON_ARRAY {
      return null;
    }
    ghost var kids := f.cells[arr].kids;
    var i := 0;
    var element := FirstChild(f, arr);
    while element != null
      invariant 0 <= i <= |kids|
      invariant element == if i < |kids| then kids[i] else null
      invariant !(0 <= index < i)
      decreases |kids| - i
    {
      if i == index {
        return element;
      }
      element := NextChild(f, arr, i, element);
      i := i + 1;
    }
    r := null;
  }

  ghost function KeyOf(h: Cells, n: JsonNode): Option<bytes> { if n in h then h[n].key else None }

  /** json_find_member: the first child with the name.  Every child must have one to compare. */
  method FindMember(ghost f: Forest, obj: JsonNode?, name: bytes) returns (r: JsonNode?)
    requires f.Valid() && (obj != null ==> obj in f.cells)
    requires obj != null && f.cells[obj].data == DObject ==>
      forall i | 0 <= i < |f.cells[obj].kids| :: KeyOf(f.cells, f.cells[obj].kids[i]).Some?
    ensures obj == null || f.cells[obj].data != DObject ==> r == null
    ensures obj != null && f.cells[obj].data == DObject ==>
      var kids := f.cells[obj].kids;
      if r == null then forall i | 0 <= i < |kids| :: KeyOf(f.cells, kids[i]) != Some(name)
      else exists i :: 0 <= i < |kids| && kids[i] == r && KeyOf(f.cells, r) == Some(name)
                       && forall j | 0 <= j < i :: KeyOf(f.cells, kids[j]) != Some(name)
  {
    if obj != null { assert Mirrors(obj, f.cells[obj]); }
    if obj == null || obj.tag != JSON_OBJECT {
      return null;
    }
    ghost var h := f.cells;
    ghost var kids := h[obj].kids;
    ghost var i := 0;
    var member := FirstChild(f, obj);
    while member != null
      invariant 0 <= i <= |kids|
      invariant member == if i < |kids| then kids[i] else null
      invariant forall j | 0 <= j < i :: KeyOf(h, kids[j]) != Some(name)
      decreases |kids| - i
    {
      PlacedAtIndex(h, obj, member, i);
      assert Mirrors(member, h[member]);
      if member.key.value == name {
        return member;
      }
      member := NextChild(f, obj, i, member);
      i := i + 1;
    }
    r := null;
  }

  /** json_get_num_mems. */
  method NumMems(ghost f: Forest, node: JsonNode?) returns (n: int)
    requires f.Valid() && (node != null ==> node in f.cells)
    ensures n == if node != null && Container(f.cells[node].data) then |f.cells[node].kids| else -1
  {
    n := -1;
    if node != null { assert Mirrors(node, f.cells[node]); }
    if node != null && (node.tag == JSON_ARRAY || node.tag == JSON_OBJECT) {
      ghost var kids := f.cells[node].kids;
      n := 0;
      var element := FirstChild(f, node);
      while element != null
        invariant 0 <= n <= |kids|
        invariant element == if n < |kids| then kids[n] else null
        decreases |kids| - n
      {
        element := NextChild(f, node, n, element);
        n := n + 1;
      }
    }
  }

  // Deletion.

  /** The nodes in gone are freed, p's children become kids, and that is all. */
  ghost predicate Left(h: Cells, h': Cells, gone: set<JsonNode>, p: JsonNode?, kids: seq<JsonNode>) {
    h'.Keys == h.Keys - gone &&
    forall n {:trigger LeftAt(h, h', p, kids, n)} | n in h' :: LeftAt(h, h', p, kids, n)
  }

  ghost predicate LeftAt(h: Cells, h': Cells, p: JsonNode?, kids: seq<JsonNode>, n: JsonNode)
    requires n in h'
  {
    n in h && h'[n].data == h[n].data && h'[n].key == h[n].key && h'[n].parent == h[n].parent
    && h'[n].kids == (if n == p then kids else h[n].kids)
  }

  /** free(node): only for a detached node without children, so that no pointer to it is left. */
  ghost method Free(f: Forest, n: JsonNode)
    requires f.Valid() && n in f.cells && f.cells[n].parent == null && f.cells[n].kids == []
    modifies f
    ensures f.Valid() && f.cells == old(f.cells) - {n}
  {
    ghost var h := f.cells;
    f.cells := h - {n};
    forall x | x in f.cells ensures Mirrors(x, f.cells[x]) {
      assert Mirrors(x, h[x]);
    }
    forall x | x in f.cells ensures Linked(f.cells, x) {
      assert Linked(h, x);
      NotAKid(h, x, n);
      forall i | 0 <= i < |h[x].kids| ensures KidLinked(f.cells, x, h[x].kids, i) {
        assert KidLinked(h, x, h[x].kids, i);
        assert h[x].kids[i] in h[x].kids;
      }
    }
  }

  /** A node's parent is not below it. */
  lemma ParentOutside(h: Cells, n: JsonNode, v: Json)
    requires WellLinked(h) && Denotes(h, n, v) && h[n].parent != null
    ensures h[n].parent !in Sub(h, n, v)
  {
    var i := PlaceOf(h, n);
    var p := h[n].parent;
    if p in Sub(h, n, v) {
      var w := SubValue(h, n, v, p);
      assert Denotes(h, h[p].kids[i], Kid(w, i));
      DenotesUnique(h, n, v, Kid(w, i));
    }
  }

  /** The nodes of the first k subtrees of a node. */
  ghost function Firsts(h: Cells, n: JsonNode, v: Json, k: nat): set<JsonNode>
    requires Denotes(h, n, v) && k <= Count(v)
  {
    set i, x | 0 <= i < k && x in Sub(h, h[n].kids[i], Kid(v, i)) :: x
  }

  lemma OneMore(h: Cells, n: JsonNode, v: Json, k: nat)
    requires Denotes(h, n, v) && k < Count(v)
    ensures Firsts(h, n, v, k + 1) == Firsts(h, n, v, k) + Sub(h, h[n].kids[k], Kid(v, k))
  {}

  /** What deleting the first k subtrees leaves of the next one. */
  lemma NextSubtree(h: Cells, g: Cells, n: JsonNode, v: Json, k: nat)
    requires WellLinked(h) && Denotes(h, n, v) && h[n].parent == null && k < Count(v)
    requires Left(h, g, Firsts(h, n, v, k), n, h[n].kids[k..])
    ensures var c := h[n].kids[k];
      Denotes(g, c, Kid(v, k)) && Sub(g, c, Kid(v, k)) == Sub(h, c, Kid(v, k)) && n !in Sub(g, c, Kid(v, k))
        && g[c].parent == n
  {
    var c := h[n].kids[k];
    SubAlive(h, c, Kid(v, k));
    forall x | x in Sub(h, c, Kid(v, k)) ensures AgreeAt(h, g, x, c) && x != n {
      NotBelowItself(h, n, v, k);
      forall i | 0 <= i < k ensures x !in Sub(h, h[n].kids[i], Kid(v, i)) { SiblingsDisjoint(h, n, v, i, k); }
      assert LeftAt(h, g, n, h[n].kids[k..], x);
    }
    DenotesFrame(h, g, c, Kid(v, k));
    assert Linked(h, n) && KidLinked(h, n, h[n].kids, k);
    assert LeftAt(h, g, n, h[n].kids[k..], c);
  }

  lemma LeftThenLeft(h: Cells, g: Cells, g': Cells, a: set<JsonNode>, b: set<JsonNode>, p: JsonNode?,
                     kids: seq<JsonNode>, kids': seq<JsonNode>)
    requires Left(h, g, a, p, kids) && Left(g, g', b, p, kids')
    ensures Left(h, g', a + b, p, kids')
  {
    forall n | n in g' ensures LeftAt(h, g', p, kids', n) {
      assert LeftAt(g, g', p, kids', n) && LeftAt(h, g, p, kids, n);
    }
  }

  lemma DetachKeeps(h: Cells, h1: Cells, n: JsonNode, v: Json, i: nat)
    requires WellLinked(h) && Denotes(h, n, v)
    requires h[n].parent == null ==> h1 == h
    requires h[n].parent != null ==>
      var p := h[n].parent;
      p in h && i < |h[p].kids| && Edited(h, h1, p, Without(h[p].kids, i), n, null, None)
    ensures Denotes(h1, n, v) && Sub(h1, n, v) == Sub(h, n, v) && h1[n].parent == null
  {
    if h[n].parent != null {
      var p := h[n].parent;
      var kids := Without(h[p].kids, i);
      ParentOutside(h, n, v);
      EditKeeps(h, h1, p, kids, n, null, None, n, v);
      assert EditedAt(h, h1, p, kids, n, null, None, n);
    }
  }

  lemma DetachedAndFreed(h: Cells, h1: Cells, h2: Cells, n: JsonNode, v: Json, i: nat)
    requires WellLinked(h) && Denotes(h, n, v) && Denotes(h1, n, v) && Sub(h1, n, v) == Sub(h, n, v)
    requires h[n].parent == null ==> h1 == h
    requires h[n].parent != null ==>
      var p := h[n].parent;
      p in h && i < |h[p].kids| && Edited(h, h1, p, Without(h[p].kids, i), n, null, None)
    requires Left(h1, h2, Firsts(h1, n, v, Count(v)), n, [])
    ensures var p := h[n].parent;
      Left(h, h2 - {n}, Sub(h, n, v), p, if p == null then [] else Without(h[p].kids, i))
  {
    var p := h[n].parent;
    var kids := if p == null then [] else Without(h[p].kids, i);
    assert Sub(h1, n, v) == Firsts(h1, n, v, Count(v)) + {n};
    assert h1.Keys == h.Keys;
    forall x | x in h2 - {n} ensures LeftAt(h, h2 - {n}, p, kids, x) {
      assert LeftAt(h1, h2, n, [], x);
      if p != null { assert EditedAt(h, h1, p, kids, n, null, None, x); }
    }
  }

  /** json_delete: the subtree's nodes are freed, each once, since Free needs them alive; the node has left
      its parent's children, where it was the i-th. */
  method Delete(ghost f: Forest, node: JsonNode?, ghost v: Json) returns (ghost i: nat)
    requires f.Valid() && (node != null ==> Denotes(f.cells, node, v))
    modifies f, f.cells.Keys
    ensures f.Valid()
    ensures node == null ==> f.cells == old(f.cells)
    ensures node != null ==>
      var h, p := old(f.cells), old(f.cells)[node].parent;
      && (p != null ==> p in h && i < |h[p].kids| && h[p].kids[i] == node)
      && Left(h, f.cells, Sub(h, node, v), p, if p == null then [] else Without(h[p].kids, i))
    decreases v, 1
  {
    i := 0;
    if node != null {
      ghost var h := f.cells;
      i := RemoveFromParent(f, node);
      ghost var h1 := f.cells;
      DetachKeeps(h, h1, node, v, i);
      assert Mirrors(node, h1[node]);
      if node.tag == JSON_ARRAY || node.tag == JSON_OBJECT {
        DeleteChildren(f, node, v);
      } else {
        Unchanged(h1, node, v);
      }
      ghost var h2 := f.cells;
      assert LeftAt(h1, h2, node, [], node) by { NotInFirsts(h1, node, v); }
      Free(f, node);
      DetachedAndFreed(h, h1, h2, node, v, i);
    }
  }

  lemma Unchanged(h: Cells, n: JsonNode, v: Json)
    requires Denotes(h, n, v) && Count(v) == 0
    ensures Left(h, h, Firsts(h, n, v, Count(v)), n, [])
  {
    forall x | x in h ensures LeftAt(h, h, n, [], x) {}
  }

  lemma NotInFirsts(h: Cells, n: JsonNode, v: Json)
    requires Denotes(h, n, v)
    ensures n !in Firsts(h, n, v, Count(v))
  {
    forall i | 0 <= i < Count(v) ensures n !in Sub(h, h[n].kids[i], Kid(v, i)) { NotBelowItself(h, n, v, i); }
  }

  lemma NoneGone(h: Cells, n: JsonNode, v: Json)
    requires Denotes(h, n, v)
    ensures Left(h, h, Firsts(h, n, v, 0), n, h[n].kids[0..])
  {
    assert h[n].kids[0..] == h[n].kids;
    forall x | x in h ensures LeftAt(h, h, n, h[n].kids[0..], x) {}
  }

  lemma OneMoreGone(h: Cells, g: Cells, g': Cells, n: JsonNode, v: Json, k: nat, i: nat)
    requires WellLinked(h) && WellLinked(g) && Denotes(h, n, v) && h[n].parent == null && k < Count(v)
    requires Left(h, g, Firsts(h, n, v, k), n, h[n].kids[k..])
    requires n in g && g[n].kids == h[n].kids[k..] && i < |g[n].kids| && g[n].kids[i] == h[n].kids[k]
    requires Left(g, g', Sub(h, h[n].kids[k], Kid(v, k)), n, Without(g[n].kids, i))
    ensures Left(h, g', Firsts(h, n, v, k + 1), n, h[n].kids[k + 1..])
  {
    assert Linked(g, n);
    assert i == 0;
    assert Without(h[n].kids[k..], 0) == h[n].kids[k + 1..];
    OneMore(h, n, v, k);
    LeftThenLeft(h, g, g', Firsts(h, n, v, k), Sub(h, h[n].kids[k], Kid(v, k)), n, h[n].kids[k..], h[n].kids[k + 1..]);
  }

  /** json_delete's loop: the next pointer is saved before the child is freed. */
  method DeleteChildren(ghost f: Forest, node: JsonNode, ghost v: Json)
    requires f.Valid() && Denotes(f.cells, node, v) && f.cells[node].parent == null && Container(f.cells[node].data)
    modifies f, f.cells.Keys
    ensures f.Valid()
    ensures Left(old(f.cells), f.cells, Firsts(old(f.cells), node, v, Count(v)), node, [])
    decreases v, 0
  {
    ghost var h := f.cells;
    ghost var k := 0;
    var child := FirstChild(f, node);
    NoneGone(h, node, v);
    while child != null
      invariant f.Valid() && f.cells.Keys <= h.Keys
      invariant 0 <= k <= Count(v)
      invariant child == if k < Count(v) then h[node].kids[k] else null
      invariant Left(h, f.cells, Firsts(h, node, v, k), node, h[node].kids[k..])
      decreases Count(v) - k
    {
      ghost var g := f.cells;
      NextSubtree(h, g, node, v, k);
      HereStill(h, g, node, v, k);
      var next := NextChild(f, node, 0, child);
      ghost var i := Delete(f, child, Kid(v, k));
      OneMoreGone(h, g, f.cells, node, v, k, i);
      child := next;
      k := k + 1;
    }
    assert h[node].kids[k..] == [];
  }

  lemma HereStill(h: Cells, g: Cells, n: JsonNode, v: Json, k: nat)
    requires Denotes(h, n, v) && k <= Count(v) && Left(h, g, Firsts(h, n, v, k), n, h[n].kids[k..])
    ensures n in g && g[n].kids == h[n].kids[k..]
  {
    forall i | 0 <= i < k ensures n !in Sub(h, h[n].kids[i], Kid(v, i)) { NotBelowItself(h, n, v, i); }
    assert LeftAt(h, g, n, h[n].kids[k..], n);
  }
}
