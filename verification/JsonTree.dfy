/** The doubly linked parent/child tree of src/db/Json.cpp, edited in place.

    A Forest is the ghost view of all live nodes: cells maps each node to what it means, its children
    as a sequence among it.  Valid() ties every pointer field to that view, so each editing operation
    is proved to be the corresponding operation on sequences, whatever else is in the forest and
    wherever in it the edited node sits. */
module JsonTree {
  import opened Utf8
  import opened Wrappers
  import opened JsonGrammar

  datatype Tag = JSON_NULL | JSON_BOOL | JSON_STRING | JSON_NUMBER | JSON_ARRAY | JSON_OBJECT

  class JsonNode {
    var parent: JsonNode?
    var prev: JsonNode?
    var next: JsonNode?
    var key: Option<bytes>
    var tag: Tag
    var bool_: bool
    var string_: bytes
    var number_: Double
    var head: JsonNode?
    var tail: JsonNode?

    /** mknode: everything zero but the tag. */
    constructor (tag: Tag)
      ensures this.tag == tag && parent == null && prev == null && next == null && key == None
      ensures head == null && tail == null && !bool_ && string_ == [] && number_ == 0
    {
      this.tag := tag;
      parent, prev, next, key := null, null, null, None;
      head, tail, bool_, string_, number_ := null, null, false, [], 0;
    }
  }

  datatype Data = DNull | DBool(b: bool) | DString(s: bytes) | DNumber(x: Double) | DArray | DObject

  predicate Container(d: Data) { d.DArray? || d.DObject? }

  /** A node's fields, and the children they encode. */
  datatype Cell = Cell(data: Data, key: Option<bytes>, parent: JsonNode?, prev: JsonNode?, next: JsonNode?,
                       head: JsonNode?, tail: JsonNode?, kids: seq<JsonNode>)

  type Cells = map<JsonNode, Cell>

  ghost predicate KidLinked(h: Cells, n: JsonNode, kids: seq<JsonNode>, i: int)
    requires 0 <= i < |kids|
  {
    && kids[i] in h && kids[i] != n && h[kids[i]].parent == n
    && h[kids[i]].prev == (if i == 0 then null else kids[i - 1])
    && h[kids[i]].next == (if i == |kids| - 1 then null else kids[i + 1])
  }

  /** The pointers of a node and its children encode the sequence kids, and the node's own parent lists
      it.  This is what json_check tests, for every live node at once. */
  ghost predicate Linked(h: Cells, n: JsonNode)
    requires n in h
  {
    var c := h[n];
    && (c.parent == null ==> c.prev == null && c.next == null)
    && (c.parent != null ==> c.parent in h && n in h[c.parent].kids)
    && (!Container(c.data) ==> c.kids == [])
    && (Container(c.data) ==>
          c.head == (if c.kids == [] then null else c.kids[0])
          && c.tail == (if c.kids == [] then null else c.kids[|c.kids| - 1]))
    && (forall i {:trigger KidLinked(h, n, c.kids, i)} | 0 <= i < |c.kids| :: KidLinked(h, n, c.kids, i))
    && (forall i, j | 0 <= i < j < |c.kids| :: c.kids[i] != c.kids[j])
  }

  ghost predicate WellLinked(h: Cells) { forall n {:trigger Linked(h, n)} | n in h :: Linked(h, n) }

  class Forest {
    ghost var cells: Cells

    ghost predicate Valid()
      reads this, cells.Keys
    {
      WellLinked(cells) && AllMirror(cells)
    }

    constructor ()
      ensures Valid() && cells == map[]
    {
      cells := map[];
    }
  }

  ghost predicate Mirrors(n: JsonNode, c: Cell)
    reads n
  {
    && DataMirrors(n, c.data) && n.key == c.key && n.parent == c.parent
    && n.prev == c.prev && n.next == c.next && n.head == c.head && n.tail == c.tail
  }

  ghost predicate AllMirror(h: Cells)
    reads h.Keys
  {
    forall n {:trigger Mirrors(n, h[n])} | n in h :: Mirrors(n, h[n])
  }

  ghost predicate DataMirrors(n: JsonNode, d: Data)
    reads n`tag, n`bool_, n`string_, n`number_
  {
    match d
    case DNull => n.tag == JSON_NULL
    case DBool(b) => n.tag == JSON_BOOL && n.bool_ == b
    case DString(s) => n.tag == JSON_STRING && n.string_ == s
    case DNumber(x) => n.tag == JSON_NUMBER && n.number_ == x
    case DArray => n.tag == JSON_ARRAY
    case DObject => n.tag == JSON_OBJECT
  }

  // Assignments to single fields.

  method SetLinks(ghost h: Cells, x: JsonNode, parent: JsonNode?, prev: JsonNode?, next: JsonNode?)
    returns (ghost h': Cells)
    requires x in h && AllMirror(h)
    modifies x
    ensures h' == h[x := h[x].(parent := parent, prev := prev, next := next)] && AllMirror(h')
  {
    assert Mirrors(x, h[x]);
    x.parent := parent;
    x.prev := prev;
    x.next := next;
    h' := h[x := h[x].(parent := parent, prev := prev, next := next)];
    forall n | n in h' ensures Mirrors(n, h'[n]) {
      assert old(Mirrors(n, h[n]));
    }
  }

  method SetNext(ghost h: Cells, x: JsonNode, next: JsonNode?) returns (ghost h': Cells)
    requires x in h && AllMirror(h)
    modifies x
    ensures h' == h[x := h[x].(next := next)] && AllMirror(h')
  {
    x.next := next;
    h' := h[x := h[x].(next := next)];
    forall n | n in h' ensures Mirrors(n, h'[n]) {
      assert old(Mirrors(n, h[n]));
    }
  }

  method SetPrev(ghost h: Cells, x: JsonNode, prev: JsonNode?) returns (ghost h': Cells)
    requires x in h && AllMirror(h)
    modifies x
    ensures h' == h[x := h[x].(prev := prev)] && AllMirror(h')
  {
    x.prev := prev;
    h' := h[x := h[x].(prev := prev)];
    forall n | n in h' ensures Mirrors(n, h'[n]) {
      assert old(Mirrors(n, h[n]));
    }
  }

  /** children.head, and the children that are to be read off the pointers from now on. */
  method SetHead(ghost h: Cells, x: JsonNode, head: JsonNode?, ghost kids: seq<JsonNode>) returns (ghost h': Cells)
    requires x in h && AllMirror(h)
    modifies x
    ensures h' == h[x := h[x].(head := head, kids := kids)] && AllMirror(h')
  {
    x.head := head;
    h' := h[x := h[x].(head := head, kids := kids)];
    forall n | n in h' ensures Mirrors(n, h'[n]) {
      assert old(Mirrors(n, h[n]));
    }
  }

  method SetTail(ghost h: Cells, x: JsonNode, tail: JsonNode?, ghost kids: seq<JsonNode>) returns (ghost h': Cells)
    requires x in h && AllMirror(h)
    modifies x
    ensures h' == h[x := h[x].(tail := tail, kids := kids)] && AllMirror(h')
  {
    x.tail := tail;
    h' := h[x := h[x].(tail := tail, kids := kids)];
    forall n | n in h' ensures Mirrors(n, h'[n]) {
      assert old(Mirrors(n, h[n]));
    }
  }

  /** No assignment: only which children the pointers stand for. */
  ghost method Reread(h: Cells, x: JsonNode, kids: seq<JsonNode>) returns (h': Cells)
    requires x in h && AllMirror(h)
    ensures h' == h[x := h[x].(kids := kids)] && AllMirror(h')
  {
    h' := h[x := h[x].(kids := kids)];
    forall n | n in h' ensures Mirrors(n, h'[n]) {
      assert Mirrors(n, h[n]);
    }
  }

  method SetKey(ghost h: Cells, x: JsonNode, key: Option<bytes>) returns (ghost h': Cells)
    requires x in h && AllMirror(h)
    modifies x
    ensures h' == h[x := h[x].(key := key)] && AllMirror(h')
  {
    x.key := key;
    h' := h[x := h[x].(key := key)];
    forall n | n in h' ensures Mirrors(n, h'[n]) {
      assert old(Mirrors(n, h[n]));
    }
  }

  // The sequence-of-children model: what an edit may change.

  /** p's children become kids, c's parent and key become up and key, and that is all. */
  ghost predicate Edited(h: Cells, h': Cells, p: JsonNode, kids: seq<JsonNode>, c: JsonNode, up: JsonNode?,
                         key: Option<bytes>) {
    h'.Keys == h.Keys &&
    forall n {:trigger EditedAt(h, h', p, kids, c, up, key, n)} | n in h :: EditedAt(h, h', p, kids, c, up, key, n)
  }

  ghost predicate EditedAt(h: Cells, h': Cells, p: JsonNode, kids: seq<JsonNode>, c: JsonNode, up: JsonNode?,
                           key: Option<bytes>, n: JsonNode)
    requires n in h && h'.Keys == h.Keys
  {
    && h'[n].data == h[n].data
    && h'[n].kids == (if n == p then kids else h[n].kids)
    && h'[n].parent == (if n == c then up else h[n].parent)
    && h'[n].key == (if n == c then key else h[n].key)
  }

  function Without<T>(s: seq<T>, i: nat): (r: seq<T>)
    requires i < |s|
    ensures |r| == |s| - 1 && forall k | 0 <= k < |r| :: r[k] == if k < i then s[k] else s[k + 1]
  {
    s[..i] + s[i + 1..]
  }

  lemma TailLinked(h: Cells, parent: JsonNode)
    requires WellLinked(h) && parent in h && Container(h[parent].data)
    ensures var kids := h[parent].kids;
      if kids == [] then h[parent].tail == null
      else h[parent].tail == kids[|kids| - 1] && KidLinked(h, parent, kids, |kids| - 1)
           && forall i | 0 <= i < |kids| - 1 :: kids[i] != kids[|kids| - 1]
  {
    assert Linked(h, parent);
    var kids := h[parent].kids;
    assert kids != [] ==> KidLinked(h, parent, kids, |kids| - 1);
  }

  lemma HeadLinked(h: Cells, parent: JsonNode)
    requires WellLinked(h) && parent in h && Container(h[parent].data)
    ensures var kids := h[parent].kids;
      if kids == [] then h[parent].head == null
      else h[parent].head == kids[0] && KidLinked(h, parent, kids, 0)
           && forall i | 0 < i < |kids| :: kids[i] != kids[0]
  {
    assert Linked(h, parent);
    var kids := h[parent].kids;
    assert kids != [] ==> KidLinked(h, parent, kids, 0);
  }

  /** A node whose parent is not n is no child of n. */
  lemma NotAKid(h: Cells, n: JsonNode, x: JsonNode)
    requires WellLinked(h) && n in h && x in h && h[x].parent != n
    ensures x !in h[n].kids
  {
    assert Linked(h, n);
    forall i | 0 <= i < |h[n].kids| ensures h[n].kids[i] != x {
      assert KidLinked(h, n, h[n].kids, i);
    }
  }

  // append_node.

  ghost function Appended(h: Cells, parent: JsonNode, child: JsonNode): Cells
    requires parent in h && child in h && (h[parent].tail != null ==> h[parent].tail in h)
  {
    var last := h[parent].tail;
    var kids := h[parent].kids + [child];
    var h1 := h[child := h[child].(parent := parent, prev := last, next := null)];
    var h2 := if last != null then h1[last := h1[last].(next := child)]
              else h1[parent := h1[parent].(head := child, kids := kids)];
    h2[parent := h2[parent].(tail := child, kids := kids)]
  }

  lemma AppendLinked(h: Cells, parent: JsonNode, child: JsonNode)
    requires WellLinked(h) && parent in h && child in h && parent != child
    requires Container(h[parent].data) && h[child].parent == null
    ensures h[parent].tail != null ==> h[parent].tail in h
    ensures WellLinked(Appended(h, parent, child))
  {
    TailLinked(h, parent);
    var h' := Appended(h, parent, child);
    forall n | n in h' ensures Linked(h', n) {
      if n == parent { AppendLinksParent(h, parent, child); } else { AppendLinksOther(h, parent, child, n); }
    }
  }

  lemma AppendEdits(h: Cells, parent: JsonNode, child: JsonNode)
    requires WellLinked(h) && parent in h && child in h && parent != child && Container(h[parent].data)
    requires h[parent].tail != null ==> h[parent].tail in h
    ensures Edited(h, Appended(h, parent, child), parent, h[parent].kids + [child], child, parent, h[child].key)
  {
    TailLinked(h, parent);
    var h' := Appended(h, parent, child);
    assert h'.Keys == h.Keys;
    forall n | n in h ensures EditedAt(h, h', parent, h[parent].kids + [child], child, parent, h[child].key, n) {}
  }

  lemma AppendLinksParent(h: Cells, parent: JsonNode, child: JsonNode)
    requires WellLinked(h) && parent in h && child in h && parent != child
    requires Container(h[parent].data) && h[child].parent == null
    requires h[parent].tail != null ==> h[parent].tail in h
    ensures Linked(Appended(h, parent, child), parent)
  {
    TailLinked(h, parent);
    NotAKid(h, parent, child);
    var kids := h[parent].kids;
    var h' := Appended(h, parent, child);
    assert Linked(h, parent);
    forall i | 0 <= i < |h'[parent].kids| ensures KidLinked(h', parent, h'[parent].kids, i) {
      if i < |kids| { assert KidLinked(h, parent, kids, i); }
    }
  }

  lemma AppendLinksOther(h: Cells, parent: JsonNode, child: JsonNode, n: JsonNode)
    requires WellLinked(h) && parent in h && child in h && parent != child
    requires Container(h[parent].data) && h[child].parent == null
    requires h[parent].tail != null ==> h[parent].tail in h
    requires n in h && n != parent
    ensures Linked(Appended(h, parent, child), n)
  {
    TailLinked(h, parent);
    NotAKid(h, n, child);
    assert Linked(h, n) && Linked(h, parent);
    var h' := Appended(h, parent, child);
    if h[parent].tail != null { NotAKid(h, n, h[parent].tail); }
    forall i | 0 <= i < |h[n].kids| ensures KidLinked(h', n, h[n].kids, i) {
      assert KidLinked(h, n, h[n].kids, i);
      assert h[n].kids[i] in h[n].kids;
    }
  }

  /** append_node: sequence append, for a parent anywhere in the forest.  A node can also be appended to itself; then
      the pointers are set all the same, but there is no tree any more. */
  method AppendNode(ghost f: Forest, parent: JsonNode, child: JsonNode)
    requires f.Valid() && parent in f.cells && child in f.cells
    requires Container(f.cells[parent].data) && f.cells[child].parent == null
    modifies f, f.cells.Keys
    ensures old(f.cells)[parent].tail != null ==> old(f.cells)[parent].tail in old(f.cells)
    ensures AllMirror(f.cells) && f.cells == Appended(old(f.cells), parent, child)
    ensures parent != child ==>
      f.Valid()
      && Edited(old(f.cells), f.cells, parent, old(f.cells)[parent].kids + [child], child, parent,
                old(f.cells)[child].key)
  {
    ghost var h := f.cells;
    TailLinked(h, parent);
    if parent != child {
      AppendLinked(h, parent, child);
      AppendEdits(h, parent, child);
    }
    assert Mirrors(parent, h[parent]);
    ghost var kids := h[parent].kids + [child];
    var last := parent.tail;
    ghost var h' := SetLinks(h, child, parent, last, null);
    if last != null {
      h' := SetNext(h', last, child);
    } else {
      h' := SetHead(h', parent, child, kids);
    }
    h' := SetTail(h', parent, child, kids);
    f.cells := h';
  }

  // prepend_node.

  ghost function Prepended(h: Cells, parent: JsonNode, child: JsonNode): Cells
    requires parent in h && child in h && (h[parent].head != null ==> h[parent].head in h)
  {
    var first := h[parent].head;
    var kids := [child] + h[parent].kids;
    var h1 := h[child := h[child].(parent := parent, prev := null, next := first)];
    var h2 := if first != null then h1[first := h1[first].(prev := child)]
              else h1[parent := h1[parent].(tail := child, kids := kids)];
    h2[parent := h2[parent].(head := child, kids := kids)]
  }

  lemma PrependLinked(h: Cells, parent: JsonNode, child: JsonNode)
    requires WellLinked(h) && parent in h && child in h && parent != child
    requires Container(h[parent].data) && h[child].parent == null
    ensures h[parent].head != null ==> h[parent].head in h
    ensures WellLinked(Prepended(h, parent, child))
  {
    HeadLinked(h, parent);
    var h' := Prepended(h, parent, child);
    forall n | n in h' ensures Linked(h', n) {
      if n == parent { PrependLinksParent(h, parent, child); } else { PrependLinksOther(h, parent, child, n); }
    }
  }

  lemma PrependEdits(h: Cells, parent: JsonNode, child: JsonNode)
    requires WellLinked(h) && parent in h && child in h && parent != child && Container(h[parent].data)
    requires h[parent].head != null ==> h[parent].head in h
    ensures Edited(h, Prepended(h, parent, child), parent, [child] + h[parent].kids, child, parent, h[child].key)
  {
    HeadLinked(h, parent);
    var h' := Prepended(h, parent, child);
    assert h'.Keys == h.Keys;
    forall n | n in h ensures EditedAt(h, h', parent, [child] + h[parent].kids, child, parent, h[child].key, n) {}
  }

  lemma PrependLinksParent(h: Cells, parent: JsonNode, child: JsonNode)
    requires WellLinked(h) && parent in h && child in h && parent != child
    requires Container(h[parent].data) && h[child].parent == null
    requires h[parent].head != null ==> h[parent].head in h
    ensures Linked(Prepended(h, parent, child), parent)
  {
    HeadLinked(h, parent);
    NotAKid(h, parent, child);
    var kids := h[parent].kids;
    var h' := Prepended(h, parent, child);
    assert Linked(h, parent);
    forall i | 0 <= i < |h'[parent].kids| ensures KidLinked(h', parent, h'[parent].kids, i) {
      if i > 0 { assert KidLinked(h, parent, kids, i - 1); }
    }
  }

  lemma PrependLinksOther(h: Cells, parent: JsonNode, child: JsonNode, n: JsonNode)
    requires WellLinked(h) && parent in h && child in h && parent != child
    requires Container(h[parent].data) && h[child].parent == null
    requires h[parent].head != null ==> h[parent].head in h
    requires n in h && n != parent
    ensures Linked(Prepended(h, parent, child), n)
  {
    HeadLinked(h, parent);
    NotAKid(h, n, child);
    assert Linked(h, n) && Linked(h, parent);
    var h' := Prepended(h, parent, child);
    if h[parent].head != null { NotAKid(h, n, h[parent].head); }
    forall i | 0 <= i < |h[n].kids| ensures KidLinked(h', n, h[n].kids, i) {
      assert KidLinked(h, n, h[n].kids, i);
      assert h[n].kids[i] in h[n].kids;
    }
  }

  /** prepend_node: the child comes first. */
  method PrependNode(ghost f: Forest, parent: JsonNode, child: JsonNode)
    requires f.Valid() && parent in f.cells && child in f.cells
    requires Container(f.cells[parent].data) && f.cells[child].parent == null
    modifies f, f.cells.Keys
    ensures old(f.cells)[parent].head != null ==> old(f.cells)[parent].head in old(f.cells)
    ensures AllMirror(f.cells) && f.cells == Prepended(old(f.cells), parent, child)
    ensures parent != child ==>
      f.Valid()
      && Edited(old(f.cells), f.cells, parent, [child] + old(f.cells)[parent].kids, child, parent,
                old(f.cells)[child].key)
  {
    ghost var h := f.cells;
    HeadLinked(h, parent);
    if parent != child {
      PrependLinked(h, parent, child);
      PrependEdits(h, parent, child);
    }
    assert Mirrors(parent, h[parent]);
    ghost var kids := [child] + h[parent].kids;
    var first := parent.head;
    ghost var h' := SetLinks(h, child, parent, null, first);
    if first != null {
      h' := SetPrev(h', first, child);
    } else {
      h' := SetTail(h', parent, child, kids);
    }
    h' := SetHead(h', parent, child, kids);
    f.cells := h';
  }

  // json_remove_from_parent.

  ghost function Removed(h: Cells, node: JsonNode, kids: seq<JsonNode>): Cells
    requires node in h && h[node].parent != null && h[node].parent in h
    requires (h[node].prev != null ==> h[node].prev in h) && (h[node].next != null ==> h[node].next in h)
  {
    var parent, prev, next := h[node].parent, h[node].prev, h[node].next;
    var h1 := if prev != null then h[prev := h[prev].(next := next)]
              else h[parent := h[parent].(head := next, kids := kids)];
    var h2 := if next != null then h1[next := h1[next].(prev := prev)]
              else h1[parent := h1[parent].(tail := prev, kids := kids)];
    var h3 := h2[parent := h2[parent].(kids := kids)];
    var h4 := h3[node := h3[node].(key := None)];
    h4[node := h4[node].(parent := null, prev := null, next := null)]
  }

  /** Where a node stands among its parent's children, and its neighbours there. */
  lemma PlaceOf(h: Cells, node: JsonNode) returns (i: nat)
    requires WellLinked(h) && node in h && h[node].parent != null
    ensures var p := h[node].parent; p in h && p != node && Container(h[p].data) && PlacedAt(h, p, node, i)
  {
    assert Linked(h, node);
    var p := h[node].parent;
    assert Linked(h, p);
    i :| 0 <= i < |h[p].kids| && h[p].kids[i] == node;
    PlacedAtIndex(h, p, node, i);
  }

  ghost predicate PlacedAt(h: Cells, p: JsonNode, node: JsonNode, i: nat)
    requires p in h && node in h
  {
    var kids := h[p].kids;
    && i < |kids| && kids[i] == node
    && h[node].prev == (if i == 0 then null else kids[i - 1])
    && h[node].next == (if i == |kids| - 1 then null else kids[i + 1])
    && (forall k | 0 <= k < |kids| :: kids[k] in h && kids[k] != p && h[kids[k]].parent == p)
    && (forall k | 0 <= k < |kids| && k != i :: kids[k] != node)
  }

  lemma PlacedAtIndex(h: Cells, p: JsonNode, node: JsonNode, i: nat)
    requires WellLinked(h) && p in h && i < |h[p].kids| && h[p].kids[i] == node
    ensures node in h && p != node && h[node].parent == p && PlacedAt(h, p, node, i)
  {
    assert Linked(h, p);
    var kids := h[p].kids;
    assert KidLinked(h, p, kids, i);
    forall k | 0 <= k < |kids| ensures kids[k] in h && kids[k] != p && h[kids[k]].parent == p {
      assert KidLinked(h, p, kids, k);
    }
  }

  lemma RemoveLinked(h: Cells, p: JsonNode, node: JsonNode, i: nat)
    requires WellLinked(h) && node in h && p in h && p != node && h[node].parent == p && PlacedAt(h, p, node, i)
    ensures (h[node].prev != null ==> h[node].prev in h) && (h[node].next != null ==> h[node].next in h)
    ensures WellLinked(Removed(h, node, Without(h[p].kids, i)))
  {
    var h' := Removed(h, node, Without(h[p].kids, i));
    forall n | n in h' ensures Linked(h', n) {
      if n == p { RemoveLinksParent(h, p, node, i); } else { RemoveLinksOther(h, p, node, i, n); }
    }
  }

  lemma RemoveEdits(h: Cells, p: JsonNode, node: JsonNode, i: nat)
    requires node in h && p in h && p != node && h[node].parent == p && PlacedAt(h, p, node, i)
    ensures var kids := Without(h[p].kids, i); Edited(h, Removed(h, node, kids), p, kids, node, null, None)
  {
    var kids := Without(h[p].kids, i);
    var h' := Removed(h, node, kids);
    assert h'.Keys == h.Keys;
    forall n | n in h ensures EditedAt(h, h', p, kids, node, null, None, n) {}
  }

  lemma RemoveLinksParent(h: Cells, p: JsonNode, node: JsonNode, i: nat)
    requires WellLinked(h) && node in h && p in h && p != node && h[node].parent == p && PlacedAt(h, p, node, i)
    ensures Linked(Removed(h, node, Without(h[p].kids, i)), p)
  {
    var kids := h[p].kids;
    var kids' := Without(kids, i);
    var h' := Removed(h, node, kids');
    assert Linked(h, p);
    forall k | 0 <= k < |kids'| ensures KidLinked(h', p, kids', k) { RemoveLinksKid(h, p, node, i, k); }
  }

  lemma RemoveLinksKid(h: Cells, p: JsonNode, node: JsonNode, i: nat, k: nat)
    requires WellLinked(h) && node in h && p in h && p != node && h[node].parent == p && PlacedAt(h, p, node, i)
    requires k < |h[p].kids| - 1
    ensures KidLinked(Removed(h, node, Without(h[p].kids, i)), p, Without(h[p].kids, i), k)
  {
    var kids := h[p].kids;
    var m := if k < i then k else k + 1;
    assert Linked(h, p);
    assert KidLinked(h, p, kids, m) && Without(kids, i)[k] == kids[m];
  }

  lemma RemoveKeepsKids(h: Cells, p: JsonNode, node: JsonNode, i: nat, n: JsonNode)
    requires WellLinked(h) && node in h && p in h && p != node && h[node].parent == p && PlacedAt(h, p, node, i)
    requires n in h && n != p
    ensures var h' := Removed(h, node, Without(h[p].kids, i));
      forall k | 0 <= k < |h[n].kids| :: KidLinked(h', n, h[n].kids, k)
  {
    var h' := Removed(h, node, Without(h[p].kids, i));
    assert Linked(h, n);
    NotAKid(h, n, node);
    if h[node].prev != null { NotAKid(h, n, h[node].prev); }
    if h[node].next != null { NotAKid(h, n, h[node].next); }
    forall k | 0 <= k < |h[n].kids| ensures KidLinked(h', n, h[n].kids, k) {
      assert KidLinked(h, n, h[n].kids, k);
      assert h[n].kids[k] in h[n].kids;
    }
  }

  lemma RemoveLinksOther(h: Cells, p: JsonNode, node: JsonNode, i: nat, n: JsonNode)
    requires WellLinked(h) && node in h && p in h && p != node && h[node].parent == p && PlacedAt(h, p, node, i)
    requires n in h && n != p
    ensures Linked(Removed(h, node, Without(h[p].kids, i)), n)
  {
    var kids' := Without(h[p].kids, i);
    assert Linked(h, n);
    RemoveKeepsKids(h, p, node, i, n);
    if n != node && h[n].parent == p {
      var m := PlaceOf(h, n);
      assert kids'[if m < i then m else m - 1] == n;
    }
  }

  /** json_remove_from_parent: the node leaves its parent's sequence and loses its key; i is where it
      was. */
  method RemoveFromParent(ghost f: Forest, node: JsonNode) returns (ghost i: nat)
    requires f.Valid() && node in f.cells
    modifies f, f.cells.Keys
    ensures f.Valid()
    ensures old(f.cells)[node].parent == null ==> f.cells == old(f.cells)
    ensures old(f.cells)[node].parent != null ==>
      var p := old(f.cells)[node].parent;
      && p in old(f.cells) && i < |old(f.cells)[p].kids| && old(f.cells)[p].kids[i] == node
      && Edited(old(f.cells), f.cells, p, Without(old(f.cells)[p].kids, i), node, null, None)
  {
    var parent := node.parent;
    ghost var h := f.cells;
    assert Mirrors(node, h[node]);
    i := 0;
    if parent != null {
      i := PlaceOf(h, node);
      RemoveLinked(h, parent, node, i);
      RemoveEdits(h, parent, node, i);
      ghost var kids := Without(h[parent].kids, i);
      var prev, next := node.prev, node.next;
      ghost var h': Cells;
      if prev != null {
        h' := SetNext(h, prev, next);
      } else {
        h' := SetHead(h, parent, next, kids);
      }
      if next != null {
        h' := SetPrev(h', next, prev);
      } else {
        h' := SetTail(h', parent, prev, kids);
      }
      h' := Reread(h', parent, kids);
      h' := SetKey(h', node, None);
      h' := SetLinks(h', node, null, null, null);
      f.cells := h';
    }
  }
}
