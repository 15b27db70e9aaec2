/** json_mkcopy of src/db/Json.cpp. */
module JsonCopy {
  import opened Utf8
  import opened Wrappers
  import opened JsonGrammar
  import opened JsonTree
  import opened JsonMeaning
  import opened JsonApi

  // json_mkcopy.

  function FirstKids(v: Json, k: nat): (w: Json)
    requires k <= Count(v)
    ensures Count(w) == k
  {
    match v
    case Array(vs) => Array(vs[..k])
    case Object(ms) => Object(ms[..k])
    case _ => v
  }

  /** json_mkcopy: a tree of new nodes that stands for the same value.  Note that the copy carries the key
      of the original, although it has no parent. */
  method MkCopy(ghost f: Forest, head: JsonNode, ghost v: Json) returns (cpy: JsonNode)
    requires f.Valid() && Denotes(f.cells, head, v)
    modifies f, f.cells.Keys
    ensures f.Valid() && forall n | n in f.cells :: n in old(f.cells) || fresh(n)
    ensures NewTree(old(f.cells), f.cells, cpy, v, old(f.cells)[head].key)
    decreases v, 1
  {
    ghost var h := f.cells;
    assert Mirrors(head, h[head]);
    var tag := head.tag;
    cpy := CopyRoot(f, head, v);
    if tag == JSON_ARRAY || tag == JSON_OBJECT {
      CopyChildren(f, h, head, v, cpy);
    } else {
      assert FirstKids(v, 0) == v;
    }
  }

  /** A copy without the children yet. */
  method CopyRoot(ghost f: Forest, head: JsonNode, ghost v: Json) returns (cpy: JsonNode)
    requires f.Valid() && Denotes(f.cells, head, v)
    modifies f
    ensures f.Valid() && fresh(cpy) && f.cells.Keys == old(f.cells).Keys + {cpy}
    ensures NewTree(old(f.cells), f.cells, cpy, FirstKids(v, 0), old(f.cells)[head].key)
  {
    ghost var h := f.cells;
    assert Mirrors(head, h[head]);
    var key := head.key;
    cpy := CopyNode(f, head, v);
    if key.Some? {
      WriteKey(f, cpy, key);
    }
    CopyStarts(h, f.cells, cpy, head, v);
  }

  lemma CopyStarts(h: Cells, g: Cells, cpy: JsonNode, head: JsonNode, v: Json)
    requires cpy !in h && Denotes(h, head, v) && g == h[cpy := NewCell(h[head].data).(key := h[head].key)]
    ensures NewTree(h, g, cpy, FirstKids(v, 0), h[head].key)
  {
    forall x | x in h ensures KeptAt(h, g, x) {}
  }

  /** mknode and the payload. */
  method CopyNode(ghost f: Forest, head: JsonNode, ghost v: Json) returns (cpy: JsonNode)
    requires f.Valid() && Denotes(f.cells, head, v)
    modifies f
    ensures f.Valid() && fresh(cpy) && f.cells == old(f.cells)[cpy := NewCell(old(f.cells)[head].data)]
  {
    assert Mirrors(head, f.cells[head]);
    ghost var d := f.cells[head].data;
    cpy := new JsonNode(head.tag);
    if head.tag == JSON_BOOL {
      cpy.bool_ := head.bool_;
    } else if head.tag == JSON_STRING {
      cpy.string_ := head.string_;
    } else if head.tag == JSON_NUMBER {
      cpy.number_ := head.number_;
    }
    Adopt(f, cpy, d);
  }

  /** append_node(cpy, json_mkcopy(child)). */
  method CopyChild(ghost f: Forest, ghost h: Cells, ghost head: JsonNode, ghost v: Json, cpy: JsonNode, ghost k: nat,
                   child: JsonNode)
    requires f.Valid() && WellLinked(h) && Denotes(h, head, v) && k < Count(v) && child == h[head].kids[k]
    requires NewTree(h, f.cells, cpy, FirstKids(v, k), h[head].key)
    modifies f, f.cells.Keys
    ensures f.Valid() && (forall n | n in f.cells :: n in old(f.cells) || fresh(n)) && old(f.cells).Keys <= f.cells.Keys
    ensures NewTree(h, f.cells, cpy, FirstKids(v, k + 1), h[head].key)
    decreases v, 0, 0
  {
    ghost var g := f.cells;
    CopyStep(h, g, head, v, k);
    var c := MkCopy(f, child, Kid(v, k));
    ghost var g1 := f.cells;
    BothNew(h, g, g1, cpy, FirstKids(v, k), h[head].key, c, Kid(v, k), h[child].key);
    AppendNode(f, cpy, c);
    CopyGrows(h, g, g1, f.cells, cpy, v, k, h[head].key, c, h[child].key);
  }

  /** What append_node needs of the copy of the parent and the copy of the child. */
  lemma BothNew(h: Cells, g: Cells, g1: Cells, p: JsonNode, v: Json, pKey: Option<bytes>, c: JsonNode, w: Json,
                cKey: Option<bytes>)
    requires NewTree(h, g, p, v, pKey) && NewTree(g, g1, c, w, cKey) && (v.Array? || v.Object?)
    ensures p in g1 && c in g1 && p != c && Container(g1[p].data) && g1[c].parent == null && g1[c].key == cKey
  {
    InNewTree(h, g, p, v, pKey);
    InNewTree(g, g1, c, w, cKey);
    assert KeptAt(g, g1, p);
  }

  lemma CopyGrows(h: Cells, g: Cells, g1: Cells, g2: Cells, cpy: JsonNode, v: Json, k: nat, pKey: Option<bytes>,
                  c: JsonNode, cKey: Option<bytes>)
    requires WellLinked(g) && WellLinked(g1) && k < Count(v) && (v.Object? ==> cKey == Some(v.members[k].key))
    requires NewTree(h, g, cpy, FirstKids(v, k), pKey) && NewTree(g, g1, c, Kid(v, k), cKey)
    requires Edited(g1, g2, cpy, g1[cpy].kids + [c], c, cpy, cKey)
    ensures NewTree(h, g2, cpy, FirstKids(v, k + 1), pKey)
  {
    NewTreeGrows(h, g, g1, g2, cpy, FirstKids(v, k), pKey, c, Kid(v, k), cKey, cKey);
    OneMoreKid(v, k, cKey);
  }

  lemma OneMoreKid(v: Json, k: nat, key: Option<bytes>)
    requires k < Count(v) && (v.Object? ==> key == Some(v.members[k].key))
    ensures Append(FirstKids(v, k), Kid(v, k), key) == FirstKids(v, k + 1)
  {}

  method CopyChildren(ghost f: Forest, ghost h: Cells, head: JsonNode, ghost v: Json, cpy: JsonNode)
    requires f.Valid() && WellLinked(h) && Denotes(h, head, v) && Container(h[head].data)
    requires NewTree(h, f.cells, cpy, FirstKids(v, 0), h[head].key)
    modifies f, f.cells.Keys
    ensures f.Valid() && forall n | n in f.cells :: n in old(f.cells) || fresh(n)
    ensures NewTree(h, f.cells, cpy, v, h[head].key)
    decreases v, 0, 1
  {
    ghost var k := 0;
    assert KeptAt(h, f.cells, head);
    var child := FirstChild(f, head);
    while child != null
      invariant f.Valid() && forall n | n in f.cells :: n in old(f.cells) || fresh(n)
      invariant old(f.cells).Keys <= f.cells.Keys
      invariant 0 <= k <= Count(v)
      invariant child == if k < Count(v) then h[head].kids[k] else null
      invariant NewTree(h, f.cells, cpy, FirstKids(v, k), h[head].key)
      decreases Count(v) - k
    {
      CopyChild(f, h, head, v, cpy, k, child);
      assert KeptAt(h, f.cells, head);
      child := NextChild(f, head, k, child);
      k := k + 1;
    }
    AllFirstKids(v);
  }

  lemma AllFirstKids(v: Json)
    requires v.Array? || v.Object?
    ensures FirstKids(v, Count(v)) == v
  {
    match v
    case Array(vs) => assert vs[..|vs|] == vs;
    case Object(ms) => assert ms[..|ms|] == ms;
  }

  /** The original is as it was. */
  lemma CopyStep(h: Cells, g: Cells, head: JsonNode, v: Json, k: nat)
    requires WellLinked(h) && Kept(h, g) && Denotes(h, head, v) && k < Count(v)
    ensures var c := h[head].kids[k];
      head in g && g[head].kids == h[head].kids && Denotes(g, c, Kid(v, k)) && c in h && g[c].key == h[c].key
      && (v.Object? ==> h[c].key == Some(v.members[k].key))
  {
    var c := h[head].kids[k];
    assert Denotes(h, c, Kid(v, k));
    assert KeptAt(h, g, head) && KeptAt(h, g, c);
    KeptKeeps(h, g, c, Kid(v, k));
  }
}
