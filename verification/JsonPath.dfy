/** Ways into a value, by names and indexes as json_find_member and json_find_element take them, and values with
    one part exchanged. */
module JsonPath {
  import opened Utf8
  import opened JsonGrammar
  import opened JsonTree
  import opened JsonMeaning

  datatype Step = Name(name: bytes) | Index(index: nat)

  /** The first member with the name; as many as there are when there is none. */
  function FirstNamed(ms: seq<Member>, name: bytes): (i: nat)
    ensures i <= |ms| && (i < |ms| ==> ms[i].key == name)
    ensures forall j | 0 <= j < i :: ms[j].key != name
  {
    if ms == [] || ms[0].key == name then 0 else 1 + FirstNamed(ms[1..], name)
  }

  lemma NamedAt(ms: seq<Member>, name: bytes, i: nat)
    requires i < |ms| && ms[i].key == name && forall j | 0 <= j < i :: ms[j].key != name
    ensures FirstNamed(ms, name) == i
  {}

  predicate HasChild(v: Json, s: Step) {
    match s
    case Name(name) => v.Object? && FirstNamed(v.members, name) < |v.members|
    case Index(i) => v.Array? && i < |v.items|
  }

  function ChildIndex(v: Json, s: Step): (k: nat)
    requires HasChild(v, s)
    ensures k < Count(v)
  {
    match s
    case Name(name) => FirstNamed(v.members, name)
    case Index(i) => i
  }

  predicate HasPath(v: Json, path: seq<Step>)
    decreases |path|
  {
    path == [] || (HasChild(v, path[0]) && HasPath(Kid(v, ChildIndex(v, path[0])), path[1..]))
  }

  function ValueAt(v: Json, path: seq<Step>): Json
    requires HasPath(v, path)
    decreases |path|
  {
    if path == [] then v else ValueAt(Kid(v, ChildIndex(v, path[0])), path[1..])
  }

  /** v with its k-th child's value exchanged. */
  function With(v: Json, k: nat, w: Json): (v': Json)
    requires k < Count(v)
    ensures Count(v') == Count(v) && (v'.Array? <==> v.Array?) && (v'.Object? <==> v.Object?)
    ensures forall i | 0 <= i < Count(v) :: Kid(v', i) == if i == k then w else Kid(v, i)
    ensures v.Object? ==> forall i | 0 <= i < Count(v) :: v'.members[i].key == v.members[i].key
  {
    if v.Array? then Array(v.items[k := w]) else Object(v.members[k := Member(v.members[k].key, w)])
  }

  /** v with the value at the end of the path exchanged. */
  function Put(v: Json, path: seq<Step>, w: Json): Json
    requires HasPath(v, path)
    decreases |path|
  {
    if path == [] then w
    else
      var k := ChildIndex(v, path[0]);
      With(v, k, Put(Kid(v, k), path[1..], w))
  }

  lemma SameChild(v: Json, v': Json, s: Step)
    requires Count(v') == Count(v) && (v'.Array? <==> v.Array?) && (v'.Object? <==> v.Object?)
    requires v.Object? ==> forall i | 0 <= i < Count(v) :: v'.members[i].key == v.members[i].key
    ensures HasChild(v', s) <==> HasChild(v, s)
    ensures HasChild(v, s) ==> ChildIndex(v', s) == ChildIndex(v, s)
  {
    if s.Name? && v.Object? {
      var i, i' := FirstNamed(v.members, s.name), FirstNamed(v'.members, s.name);
      assert i < |v.members| ==> v'.members[i].key == s.name;
      assert i' < |v'.members| ==> v.members[i'].key == s.name;
    }
  }

  /** What is behind the exchanged part is behind it in the new value. */
  lemma {:induction false} PutThrough(v: Json, path: seq<Step>, w: Json, rest: seq<Step>)
    requires HasPath(v, path)
    ensures HasPath(Put(v, path, w), path + rest) <==> HasPath(w, rest)
    ensures HasPath(w, rest) ==> ValueAt(Put(v, path, w), path + rest) == ValueAt(w, rest)
    decreases |path|
  {
    if path == [] {
      assert path + rest == rest;
    } else {
      var k := ChildIndex(v, path[0]);
      SameChild(v, Put(v, path, w), path[0]);
      PutThrough(Kid(v, k), path[1..], w, rest);
      assert (path + rest)[0] == path[0] && (path + rest)[1..] == path[1..] + rest;
    }
  }

  /** The paths part after j steps. */
  predicate Part(path: seq<Step>, other: seq<Step>, j: nat) {
    j < |path| && j < |other| && path[..j] == other[..j] && path[j] != other[j]
  }

  /** What is elsewhere stays. */
  lemma {:induction false} PutElsewhere(v: Json, path: seq<Step>, w: Json, other: seq<Step>, j: nat)
    requires HasPath(v, path) && Part(path, other, j)
    ensures HasPath(Put(v, path, w), other) <==> HasPath(v, other)
    ensures HasPath(v, other) ==> ValueAt(Put(v, path, w), other) == ValueAt(v, other)
    decreases j
  {
    var k := ChildIndex(v, path[0]);
    SameChild(v, Put(v, path, w), other[0]);
    if j == 0 {
      assert HasChild(v, other[0]) ==> ChildIndex(v, other[0]) != k;
    } else {
      assert path[0] == path[..j][0] == other[..j][0] == other[0];
      assert path[1..][..j - 1] == path[..j][1..] == other[..j][1..] == other[1..][..j - 1];
      PutElsewhere(Kid(v, k), path[1..], w, other[1..], j - 1);
    }
  }

  lemma {:induction false} PathSplits(v: Json, a: seq<Step>, b: seq<Step>)
    ensures HasPath(v, a + b) <==> HasPath(v, a) && HasPath(ValueAt(v, a), b)
    ensures HasPath(v, a + b) ==> ValueAt(v, a + b) == ValueAt(ValueAt(v, a), b)
    decreases |a|
  {
    if a == [] {
      assert a + b == b;
    } else {
      assert (a + b)[0] == a[0] && (a + b)[1..] == a[1..] + b;
      if HasChild(v, a[0]) { PathSplits(Kid(v, ChildIndex(v, a[0])), a[1..], b); }
    }
  }

  /** Exchanging a part of a part. */
  lemma {:induction false} PutWithin(v: Json, a: seq<Step>, b: seq<Step>, w: Json)
    requires HasPath(v, a) && HasPath(ValueAt(v, a), b)
    ensures HasPath(v, a + b) && Put(v, a + b, w) == Put(v, a, Put(ValueAt(v, a), b, w))
    decreases |a|
  {
    if a == [] {
      assert a + b == b;
    } else {
      assert (a + b)[0] == a[0] && (a + b)[1..] == a[1..] + b;
      PutWithin(Kid(v, ChildIndex(v, a[0])), a[1..], b, w);
    }
  }

  // The nodes on the way.

  ghost function NodeAt(h: Cells, n: JsonNode, v: Json, path: seq<Step>): JsonNode
    requires Denotes(h, n, v) && HasPath(v, path)
    decreases |path|
  {
    if path == [] then n
    else
      var k := ChildIndex(v, path[0]);
      NodeAt(h, h[n].kids[k], Kid(v, k), path[1..])
  }

  lemma {:induction false} NodeAtStands(h: Cells, n: JsonNode, v: Json, path: seq<Step>)
    requires Denotes(h, n, v) && HasPath(v, path)
    ensures Denotes(h, NodeAt(h, n, v, path), ValueAt(v, path)) && NodeAt(h, n, v, path) in Sub(h, n, v)
    decreases |path|
  {
    if path != [] {
      var k := ChildIndex(v, path[0]);
      NodeAtStands(h, h[n].kids[k], Kid(v, k), path[1..]);
      KidsInSub(h, n, v, k);
    }
  }

  lemma {:induction false} NodeAtKept(h: Cells, h': Cells, n: JsonNode, v: Json, path: seq<Step>)
    requires Denotes(h, n, v) && Denotes(h', n, v) && HasPath(v, path) && forall x | x in h :: x in h' && h'[x] == h[x]
    ensures NodeAt(h', n, v, path) == NodeAt(h, n, v, path)
    decreases |path|
  {
    if path != [] {
      var k := ChildIndex(v, path[0]);
      NodeAtKept(h, h', h[n].kids[k], Kid(v, k), path[1..]);
    }
  }

  lemma {:induction false} NodeAtStep(h: Cells, n: JsonNode, v: Json, path: seq<Step>, s: Step)
    requires Denotes(h, n, v) && HasPath(v, path) && HasChild(ValueAt(v, path), s)
    ensures HasPath(v, path + [s])
    ensures var u := ValueAt(v, path); var k := ChildIndex(u, s); var p := NodeAt(h, n, v, path);
      Denotes(h, p, u) && NodeAt(h, n, v, path + [s]) == h[p].kids[k] && ValueAt(v, path + [s]) == Kid(u, k)
    decreases |path|
  {
    NodeAtStands(h, n, v, path);
    if path == [] {
      assert path + [s] == [s];
    } else {
      var k := ChildIndex(v, path[0]);
      assert (path + [s])[0] == path[0] && (path + [s])[1..] == path[1..] + [s];
      NodeAtStep(h, h[n].kids[k], Kid(v, k), path[1..], s);
    }
  }

  lemma {:induction false} ExchangeNothing(h: Cells, n: JsonNode, v: Json, p: JsonNode, w: Json)
    requires Denotes(h, n, v) && p !in Sub(h, n, v)
    ensures Exchange(h, n, v, p, w) == v
    decreases v
  {
    forall i | 0 <= i < Count(v) ensures Exchange(h, h[n].kids[i], Kid(v, i), p, w) == Kid(v, i) {
      KidsInSub(h, n, v, i);
      ExchangeNothing(h, h[n].kids[i], Kid(v, i), p, w);
    }
    match v
    case Array(vs) => assert Exchange(h, n, v, p, w).items == vs;
    case Object(ms) => assert Exchange(h, n, v, p, w).members == ms;
    case _ =>
  }

  /** Two children of a node have no nodes in common. */
  lemma KidsApart(h: Cells, n: JsonNode, v: Json, i: nat, j: nat)
    requires WellLinked(h) && Denotes(h, n, v) && i < Count(v) && j < Count(v) && i != j
    ensures Sub(h, h[n].kids[i], Kid(v, i)) !! Sub(h, h[n].kids[j], Kid(v, j))
  {
    var a, b := h[n].kids[i], h[n].kids[j];
    assert Linked(h, n) && KidLinked(h, n, h[n].kids, i) && KidLinked(h, n, h[n].kids, j);
    NotBelowItself(h, n, v, i);
    NotBelowItself(h, n, v, j);
    if a in Sub(h, b, Kid(v, j)) { SubHasParents(h, b, Kid(v, j), a); }
    Disjoint(h, a, Kid(v, i), b, Kid(v, j));
  }

  /** Exchanging the value at the node is exchanging it at the path. */
  lemma {:induction false} ExchangeIsPut(h: Cells, n: JsonNode, v: Json, path: seq<Step>, w: Json)
    requires WellLinked(h) && Denotes(h, n, v) && HasPath(v, path)
    ensures Exchange(h, n, v, NodeAt(h, n, v, path), w) == Put(v, path, w)
    decreases |path|
  {
    if path != [] {
      var k := ChildIndex(v, path[0]);
      var p := NodeAt(h, n, v, path);
      NodeAtStands(h, h[n].kids[k], Kid(v, k), path[1..]);
      NotBelowItself(h, n, v, k);
      ExchangeIsPut(h, h[n].kids[k], Kid(v, k), path[1..], w);
      forall i | 0 <= i < Count(v) && i != k ensures Exchange(h, h[n].kids[i], Kid(v, i), p, w) == Kid(v, i) {
        KidsApart(h, n, v, i, k);
        ExchangeNothing(h, h[n].kids[i], Kid(v, i), p, w);
      }
      ExchangeByKids(h, n, v, p, w, k, Put(v, path, w));
    }
  }

  lemma ExchangeByKids(h: Cells, n: JsonNode, v: Json, p: JsonNode, w: Json, k: nat, u: Json)
    requires Denotes(h, n, v) && n != p && k < Count(v)
    requires forall i | 0 <= i < Count(v) && i != k :: Exchange(h, h[n].kids[i], Kid(v, i), p, w) == Kid(v, i)
    requires u == With(v, k, Exchange(h, h[n].kids[k], Kid(v, k), p, w))
    ensures Exchange(h, n, v, p, w) == u
  {
    if v.Array? {
      assert Exchange(h, n, v, p, w).items == u.items;
    } else {
      assert Exchange(h, n, v, p, w).members == u.members;
    }
  }
}
