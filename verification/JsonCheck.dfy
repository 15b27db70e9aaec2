/** json_check of src/db/Json.cpp, on nodes about whose pointers nothing is known.

    The function is meant to find out whether they are sound, so here there is no Forest: only a set of
    nodes that the pointers head and next do not lead out of. */
module JsonCheck {
  import opened Utf8
  import opened Wrappers
  import opened JsonGrammar
  import opened JsonTree
  import opened JsonMeaning
  import opened JsonApi
  import opened JsonCopy
  import opened JsonSound

  /** What json_check may dereference. */
  ghost predicate Closed(nodes: set<JsonNode>)
    reads nodes
  {
    forall n {:trigger n.next} {:trigger n.head} | n in nodes ::
      ((n.tag == JSON_ARRAY || n.tag == JSON_OBJECT) && n.head != null ==> n.head in nodes)
      && (n.next != null ==> n.next in nodes)
  }

  /** The i-th node on the way from head along next, if there is one. */
  ghost function ChildAt(nodes: set<JsonNode>, node: JsonNode, i: nat): JsonNode?
    reads nodes, node
  {
    if i == 0 then node.head
    else
      var c := ChildAt(nodes, node, i - 1);
      if c != null && c in nodes then c.next else null
  }

  ghost predicate GoodChild(nodes: set<JsonNode>, node: JsonNode, i: nat)
    reads nodes, node
  {
    var c := ChildAt(nodes, node, i);
    c != null && c in nodes && c != node && c.parent == node
    && c.prev == (if i == 0 then null else ChildAt(nodes, node, i - 1))
  }

  /** The node has n children, linked forwards, backwards and upwards. */
  ghost predicate ChildList(nodes: set<JsonNode>, node: JsonNode, n: nat)
    reads nodes, node
  {
    && (forall i {:trigger GoodChild(nodes, node, i)} | 0 <= i < n :: GoodChild(nodes, node, i))
    && ChildAt(nodes, node, n) == null
    && node.tail == (if n == 0 then null else ChildAt(nodes, node, n - 1))
  }

  function DataOf(v: Json): Data {
    match v
    case Null => DNull
    case Bool(b) => DBool(b)
    case Number(x) => DNumber(x)
    case String(s) => DString(s)
    case Array(_) => DArray
    case Object(_) => DObject
  }

  /** The key of the i-th child of a node for v. */
  function KeyAt(v: Json, i: nat): Option<bytes>
    requires i < Count(v)
  {
    if v.Object? then Some(v.members[i].key) else None
  }

  /** The pointers below the node spell out the value v, soundly, with keys and strings in UTF-8. */
  ghost predicate Encodes(nodes: set<JsonNode>, node: JsonNode, v: Json)
    reads nodes, node
    decreases v
  {
    && node in nodes && DataMirrors(node, DataOf(v))
    && (node.key.Some? ==> Valid(node.key.value)) && (v.String? ==> Valid(v.str))
    && (v.Array? || v.Object? ==> ChildList(nodes, node, Count(v)))
    && forall i {:trigger ChildAt(nodes, node, i)} | 0 <= i < Count(v) ::
         (var c := ChildAt(nodes, node, i);
          c != null && c in nodes && c.key == KeyAt(v, i) && Encodes(nodes, c, Kid(v, i)))
  }

  /** What that means for the pointers: from head along next the children follow one another, each knows the one before
      it and its parent, tail is the last one; in an array they have no keys, in an object each has its member's. */
  lemma EncodedLinks(nodes: set<JsonNode>, node: JsonNode, v: Json, i: nat)
    requires Encodes(nodes, node, v) && i < Count(v)
    ensures ChildAt(nodes, node, 0) == node.head
    ensures var c := ChildAt(nodes, node, i);
      && c != null && c in nodes && c.parent == node && Encodes(nodes, c, Kid(v, i))
      && c.prev == (if i == 0 then null else ChildAt(nodes, node, i - 1))
      && (if i + 1 < Count(v) then c.next == ChildAt(nodes, node, i + 1) else c.next == null && node.tail == c)
      && (match v case Array(_) => c.key == None case Object(ms) => c.key == Some(ms[i].key) && Valid(ms[i].key))
  {
    assert GoodChild(nodes, node, i);
    var c := ChildAt(nodes, node, i);
    assert ChildAt(nodes, node, i + 1) == c.next;
  }

  // The walk along the children.

  ghost predicate GoodUpTo(nodes: set<JsonNode>, node: JsonNode, k: nat)
    reads nodes, node
  {
    forall i {:trigger GoodChild(nodes, node, i)} | 0 <= i < k :: GoodChild(nodes, node, i)
  }

  /** Children that point back to each other are distinct. */
  lemma {:induction false} ChildrenDiffer(nodes: set<JsonNode>, node: JsonNode, i: nat, j: nat)
    requires GoodUpTo(nodes, node, j + 1) && i < j
    ensures ChildAt(nodes, node, i) != ChildAt(nodes, node, j)
    decreases j
  {
    assert GoodChild(nodes, node, i) && GoodChild(nodes, node, j) && GoodChild(nodes, node, j - 1);
    if i > 0 { ChildrenDiffer(nodes, node, i - 1, j - 1); }
  }

  ghost function Visited(nodes: set<JsonNode>, node: JsonNode, k: nat): set<JsonNode>
    requires GoodUpTo(nodes, node, k)
    reads nodes, node
  {
    if k == 0 then {}
    else
      assert GoodChild(nodes, node, k - 1);
      Visited(nodes, node, k - 1) + {ChildAt(nodes, node, k - 1)}
  }

  lemma {:induction false} InVisited(nodes: set<JsonNode>, node: JsonNode, k: nat, x: JsonNode) returns (i: nat)
    requires GoodUpTo(nodes, node, k) && x in Visited(nodes, node, k)
    ensures i < k && ChildAt(nodes, node, i) == x
  {
    if x == ChildAt(nodes, node, k - 1) {
      i := k - 1;
    } else {
      i := InVisited(nodes, node, k - 1, x);
    }
  }

  /** There are no more of them than nodes: that is why the walk ends. */
  lemma {:induction false} VisitedIsBounded(nodes: set<JsonNode>, node: JsonNode, k: nat)
    requires GoodUpTo(nodes, node, k)
    ensures Visited(nodes, node, k) <= nodes && |Visited(nodes, node, k)| == k <= |nodes|
  {
    if k > 0 {
      VisitedIsBounded(nodes, node, k - 1);
      assert GoodChild(nodes, node, k - 1);
      var c := ChildAt(nodes, node, k - 1);
      if c in Visited(nodes, node, k - 1) {
        var i := InVisited(nodes, node, k - 1, c);
        ChildrenDiffer(nodes, node, i, k - 1);
      }
    }
    SubsetSize(Visited(nodes, node, k), nodes);
  }

  lemma SubsetSize<T>(a: set<T>, b: set<T>)
    requires a <= b
    ensures |a| <= |b|
  {
    assert b == a + (b - a);
  }

  /** How many children a node has is settled by the pointers. */
  lemma OneLength(nodes: set<JsonNode>, node: JsonNode, k: nat, n: nat)
    requires GoodUpTo(nodes, node, k) && ChildList(nodes, node, n)
    ensures k <= n && (ChildAt(nodes, node, k) == null ==> k == n)
  {
    assert n < k ==> GoodChild(nodes, node, n);
    assert k < n ==> GoodChild(nodes, node, k);
  }

  // json_check as a function of how deep it may go, which stands for the source whether it returns or not.

  /** A key that suits the parent. */
  predicate KeySuits(tag: Tag, key: Option<bytes>) { if tag == JSON_ARRAY then key == None else key.Some? }

  /** The tests of a child before the call for it. */
  ghost predicate LinksPass(node: JsonNode, child: JsonNode)
    reads node, child, child.next
  {
    && child != node && child.next != child && child.next != node.head && child.parent == node
    && (child.next != null ==> child.next.prev == child) && KeySuits(node.tag, child.key)
  }

  ghost function Checks(nodes: set<JsonNode>, node: JsonNode, fuel: nat): Option<bool>
    reads nodes, node
    decreases fuel
  {
    if fuel == 0 then None
    else if node.key.Some? && !Valid(node.key.value) then Some(false)
    else if node.tag == JSON_STRING then Some(Valid(node.string_))
    else if node.tag != JSON_ARRAY && node.tag != JSON_OBJECT then Some(true)
    else if node.head == null || node.tail == null then Some(node.head == null && node.tail == null)
    else if node.head !in nodes then None
    else if node.head.prev != null then Some(false)
    else ChecksFrom(nodes, node, node.head, null, fuel - 1)
  }

  /** The loop from a child on. */
  ghost function ChecksFrom(nodes: set<JsonNode>, node: JsonNode, child: JsonNode?, last: JsonNode?,
                            fuel: nat): Option<bool>
    reads nodes, node
    decreases fuel
  {
    if fuel == 0 then None
    else if child == null then Some(last == node.tail)
    else if child !in nodes || (child.next != null && child.next !in nodes) then None
    else if !LinksPass(node, child) then Some(false)
    else
      var r := Checks(nodes, child, fuel - 1);
      if r != Some(true) then r else ChecksFrom(nodes, node, child.next, child, fuel - 1)
  }

  ghost predicate Returns(nodes: set<JsonNode>, node: JsonNode, r: bool)
    reads nodes, node
  {
    exists fuel: nat :: Checks(nodes, node, fuel) == Some(r)
  }

  ghost predicate ReturnsFrom(nodes: set<JsonNode>, node: JsonNode, child: JsonNode?, last: JsonNode?, r: bool)
    reads nodes, node
  {
    exists fuel: nat :: ChecksFrom(nodes, node, child, last, fuel) == Some(r)
  }

  lemma {:induction false} MoreFuel(nodes: set<JsonNode>, node: JsonNode, a: nat, b: nat)
    requires a <= b && Checks(nodes, node, a).Some?
    ensures Checks(nodes, node, b) == Checks(nodes, node, a)
    decreases a
  {
    if node.head != null && node.head in nodes && ChecksFrom(nodes, node, node.head, null, a - 1).Some? {
      MoreFuelFrom(nodes, node, node.head, null, a - 1, b - 1);
    }
  }

  lemma {:induction false} MoreFuelFrom(nodes: set<JsonNode>, node: JsonNode, child: JsonNode?, last: JsonNode?, a: nat,
                                        b: nat)
    requires a <= b && ChecksFrom(nodes, node, child, last, a).Some?
    ensures ChecksFrom(nodes, node, child, last, b) == ChecksFrom(nodes, node, child, last, a)
    decreases a
  {
    if child != null && child in nodes && LinksPass(node, child) {
      MoreFuel(nodes, child, a - 1, b - 1);
      if Checks(nodes, child, a - 1) == Some(true) { MoreFuelFrom(nodes, node, child.next, child, a - 1, b - 1); }
    }
  }

  lemma OneAnswer(nodes: set<JsonNode>, node: JsonNode, a: nat, b: nat)
    requires Checks(nodes, node, a).Some? && Checks(nodes, node, b).Some?
    ensures Checks(nodes, node, a) == Checks(nodes, node, b)
  {
    MoreFuel(nodes, node, if a <= b then a else b, if a <= b then b else a);
  }

  /** The loop goes on behind a child that is all right. */
  lemma GoesOn(nodes: set<JsonNode>, node: JsonNode, child: JsonNode, last: JsonNode?, r: bool)
    requires Closed(nodes) && child in nodes && LinksPass(node, child) && Returns(nodes, child, true)
    requires ReturnsFrom(nodes, node, child.next, child, r)
    ensures ReturnsFrom(nodes, node, child, last, r)
  {
    var a: nat :| Checks(nodes, child, a) == Some(true);
    var b: nat :| ChecksFrom(nodes, node, child.next, child, b) == Some(r);
    MoreFuel(nodes, child, a, a + b);
    MoreFuelFrom(nodes, node, child.next, child, b, a + b);
    assert ChecksFrom(nodes, node, child, last, a + b + 1) == Some(r);
  }

  /** It stops at one that is not. */
  lemma StopsAt(nodes: set<JsonNode>, node: JsonNode, child: JsonNode, last: JsonNode?)
    requires Closed(nodes) && child in nodes && (LinksPass(node, child) ==> Returns(nodes, child, false))
    ensures ReturnsFrom(nodes, node, child, last, false)
  {
    if LinksPass(node, child) {
      var a: nat :| Checks(nodes, child, a) == Some(false);
      assert ChecksFrom(nodes, node, child, last, a + 1) == Some(false);
    } else {
      assert ChecksFrom(nodes, node, child, last, 1) == Some(false);
    }
  }

  // When it does not return.

  /** The tests before the loop. */
  ghost predicate Opens(node: JsonNode)
    reads node, node.head
  {
    && (node.key.Some? ==> Valid(node.key.value)) && (node.tag == JSON_ARRAY || node.tag == JSON_OBJECT)
    && node.head != null && node.tail != null && node.head.prev == null
  }

  /** The first k children are all right. */
  ghost predicate Passed(nodes: set<JsonNode>, node: JsonNode, k: nat)
    reads nodes, node
  {
    forall i {:trigger ChildAt(nodes, node, i)} | 0 <= i < k ::
      var c := ChildAt(nodes, node, i);
      c != null && c in nodes && (c.next != null ==> c.next in nodes) && LinksPass(node, c) && Returns(nodes, c, true)
  }

  /** json_check of the node calls itself for c. */
  ghost predicate Meets(nodes: set<JsonNode>, node: JsonNode, c: JsonNode)
    reads nodes, node
  {
    && node in nodes && c in nodes && (c.next != null ==> c.next in nodes) && (node.head != null ==> node.head in nodes)
    && Opens(node) && LinksPass(node, c)
    && exists k: nat :: ChildAt(nodes, node, k) == c && Passed(nodes, node, k)
  }

  /** After n calls, one inside the other, it comes from a to b. */
  ghost predicate MeetsIn(nodes: set<JsonNode>, a: JsonNode, b: JsonNode, n: nat)
    reads nodes
  {
    if n == 0 then a == b else exists c :: c in nodes && MeetsIn(nodes, a, c, n - 1) && Meets(nodes, c, b)
  }

  ghost predicate MeetsAgain(nodes: set<JsonNode>, node: JsonNode)
    reads nodes
  {
    exists n: nat :: n > 0 && MeetsIn(nodes, node, node, n)
  }

  /** Every call for a child has less to do. */
  lemma {:induction false} CallInside(nodes: set<JsonNode>, node: JsonNode, c: JsonNode, k: nat, i: nat,
                                      last: JsonNode?, fuel: nat) returns (f: nat)
    requires i <= k && ChildAt(nodes, node, k) == c && Passed(nodes, node, k)
    requires c in nodes && (c.next != null ==> c.next in nodes) && LinksPass(node, c)
    requires ChecksFrom(nodes, node, ChildAt(nodes, node, i), last, fuel).Some?
    ensures f < fuel && Checks(nodes, c, f).Some?
    decreases k - i
  {
    if i == k {
      f := fuel - 1;
    } else {
      var x := ChildAt(nodes, node, i);
      var a: nat :| Checks(nodes, x, a) == Some(true);
      OneAnswer(nodes, x, a, fuel - 1);
      assert ChildAt(nodes, node, i + 1) == x.next;
      f := CallInside(nodes, node, c, k, i + 1, x, fuel - 1);
    }
  }

  lemma {:induction false} CallsInside(nodes: set<JsonNode>, a: JsonNode, b: JsonNode, n: nat, fuel: nat)
    returns (f: nat)
    requires MeetsIn(nodes, a, b, n) && Checks(nodes, a, fuel).Some?
    ensures f + n <= fuel && Checks(nodes, b, f).Some?
    decreases n
  {
    if n == 0 {
      f := fuel;
    } else {
      var c :| c in nodes && MeetsIn(nodes, a, c, n - 1) && Meets(nodes, c, b);
      var g := CallsInside(nodes, a, c, n - 1, fuel);
      var k: nat :| ChildAt(nodes, c, k) == b && Passed(nodes, c, k);
      f := CallInside(nodes, c, b, k, 0, null, g - 1);
    }
  }

  /** When json_check comes back to the node it started from, it does not return, however deep it may go. */
  lemma {:induction false} NeverReturns(nodes: set<JsonNode>, node: JsonNode, fuel: nat)
    requires MeetsAgain(nodes, node)
    ensures Checks(nodes, node, fuel) == None
    decreases fuel
  {
    if Checks(nodes, node, fuel).Some? {
      var n: nat :| n > 0 && MeetsIn(nodes, node, node, n);
      var f := CallsInside(nodes, node, node, n, fuel);
      NeverReturns(nodes, node, f);
    }
  }

  /** The calls from the root of the check down to a node. */
  ghost predicate Descent(nodes: set<JsonNode>, path: seq<JsonNode>, node: JsonNode)
    reads nodes
  {
    && path != [] && path[|path| - 1] == node && !MeetsAgain(nodes, path[0])
    && MeetsIn(nodes, path[0], node, |path| - 1)
    && (forall i | 0 <= i < |path| :: path[i] in nodes)
    && (forall i | 0 < i < |path| :: path[i].parent == path[i - 1])
    && (forall i, j | 0 <= i < j < |path| :: path[i] != path[j])
  }

  lemma {:induction false} SeqIsBounded<T>(s: seq<T>, b: set<T>)
    requires (forall i | 0 <= i < |s| :: s[i] in b) && forall i, j | 0 <= i < j < |s| :: s[i] != s[j]
    ensures |s| <= |b|
  {
    if s != [] {
      var x, t := s[|s| - 1], s[..|s| - 1];
      forall i | 0 <= i < |t| ensures t[i] in b - {x} { assert t[i] == s[i]; }
      SeqIsBounded(t, b - {x});
    }
  }

  /** Unless the check comes back to its root, no call is for a node it is already inside of: so the descent ends. */
  lemma Deeper(nodes: set<JsonNode>, path: seq<JsonNode>, node: JsonNode, child: JsonNode)
    requires Descent(nodes, path, node) && Meets(nodes, node, child)
    ensures Descent(nodes, path + [child], child) && |path| < |nodes|
  {
    var longer := path + [child];
    assert MeetsIn(nodes, path[0], child, |path|);
    forall i | 0 <= i < |path| ensures path[i] != child {
      assert i > 0 ==> path[i].parent == path[i - 1] && path[i - 1] != path[|path| - 1];
    }
    forall i | 0 < i < |longer| ensures longer[i].parent == longer[i - 1] {
      if i < |path| { assert path[i].parent == path[i - 1]; }
    }
    SeqIsBounded(longer, nodes);
  }

  // json_check.

  /** No value at all is spelled out below the node. */
  ghost predicate EncodesNothing(nodes: set<JsonNode>, node: JsonNode)
    reads nodes, node
  {
    forall w {:trigger Encodes(nodes, node, w)} :: !Encodes(nodes, node, w)
  }

  /** json_check, without its messages: true exactly when the pointers below the node spell out a value,
      which is then v.  The source returns at all only if the check does not come back to its root. */
  method Check(ghost nodes: set<JsonNode>, ghost path: seq<JsonNode>, node: JsonNode) returns (ok: bool, ghost v: Json)
    requires Closed(nodes) && node in nodes && Descent(nodes, path, node)
    ensures ok ==> Encodes(nodes, node, v)
    ensures !ok ==> EncodesNothing(nodes, node)
    ensures Returns(nodes, node, ok)
    decreases |nodes| - |path|, 1
  {
    v := Null;
    if node.key.Some? && !Valid(node.key.value) {
      assert Checks(nodes, node, 1) == Some(false);
      return false, Null;
    }
    match node.tag
    case JSON_NULL => ok := true; assert Checks(nodes, node, 1) == Some(true);
    case JSON_BOOL => ok, v := true, Bool(node.bool_); assert Checks(nodes, node, 1) == Some(true);
    case JSON_NUMBER => ok, v := true, Number(node.number_); assert Checks(nodes, node, 1) == Some(true);
    case JSON_STRING => ok, v := Valid(node.string_), String(node.string_); assert Checks(nodes, node, 1) == Some(ok);
    case _ => ok, v := CheckContainer(nodes, path, node);
  }

  /** json_check of any node, the call the public sees. */
  method CheckNode(ghost nodes: set<JsonNode>, node: JsonNode) returns (ok: bool, ghost v: Json)
    requires Closed(nodes) && node in nodes && !MeetsAgain(nodes, node)
    ensures ok ==> Encodes(nodes, node, v)
    ensures !ok ==> EncodesNothing(nodes, node)
    ensures Returns(nodes, node, ok)
  {
    assert MeetsIn(nodes, node, node, 0);
    ok, v := Check(nodes, [node], node);
  }

  method CheckContainer(ghost nodes: set<JsonNode>, ghost path: seq<JsonNode>, node: JsonNode)
    returns (ok: bool, ghost v: Json)
    requires Closed(nodes) && node in nodes && Descent(nodes, path, node)
    requires (node.tag == JSON_ARRAY || node.tag == JSON_OBJECT) && (node.key.Some? ==> Valid(node.key.value))
    ensures ok ==> Encodes(nodes, node, v)
    ensures !ok ==> EncodesNothing(nodes, node)
    ensures Returns(nodes, node, ok)
    decreases |nodes| - |path|, 0, 2
  {
    var head, tail := node.head, node.tail;
    v := NewValue(node.tag, []);
    if head == null || tail == null {
      ok := head == null && tail == null;
      assert Checks(nodes, node, 1) == Some(ok);
      if !ok { HeadOrTailMissing(nodes, node); }
    } else if head.prev != null {
      ok := false;
      assert Checks(nodes, node, 1) == Some(ok);
      FirstHasPrev(nodes, node);
    } else {
      ok, v := CheckChildren(nodes, path, node, head, tail);
      LoopReturns(nodes, node, ok);
    }
  }

  lemma LoopReturns(nodes: set<JsonNode>, node: JsonNode, r: bool)
    requires Closed(nodes) && node in nodes && Opens(node) && ReturnsFrom(nodes, node, node.head, null, r)
    ensures Returns(nodes, node, r)
  {
    var f: nat :| ChecksFrom(nodes, node, node.head, null, f) == Some(r);
    assert Checks(nodes, node, f + 1) == Some(r);
  }

  lemma HeadOrTailMissing(nodes: set<JsonNode>, node: JsonNode)
    requires (node.tag == JSON_ARRAY || node.tag == JSON_OBJECT) && (node.head == null) != (node.tail == null)
    ensures EncodesNothing(nodes, node)
  {
    forall w ensures !Encodes(nodes, node, w) {
      if Encodes(nodes, node, w) { EndsFit(nodes, node, Count(w)); }
    }
  }

  lemma FirstHasPrev(nodes: set<JsonNode>, node: JsonNode)
    requires (node.tag == JSON_ARRAY || node.tag == JSON_OBJECT) && node.head != null && node.head.prev != null
    ensures EncodesNothing(nodes, node)
  {
    forall w ensures !Encodes(nodes, node, w) {
      if Encodes(nodes, node, w) { EndsFit(nodes, node, Count(w)); }
    }
  }

  /** The two ends of a soundly linked list of children. */
  lemma EndsFit(nodes: set<JsonNode>, node: JsonNode, n: nat)
    requires ChildList(nodes, node, n)
    ensures node.head == null <==> node.tail == null
    ensures node.head != null ==> node.head.prev == null
  {
    assert ChildAt(nodes, node, 0) == node.head;
    if n > 0 { assert GoodChild(nodes, node, 0) && GoodChild(nodes, node, n - 1); }
  }

  datatype Named = Named(key: Option<bytes>, value: Json)

  function Name(key: Option<bytes>): bytes { if key.Some? then key.value else [] }

  /** An array or an object of the given children. */
  function NewValue(tag: Tag, xs: seq<Named>): (v: Json)
    ensures Count(v) == |xs|
    ensures forall i | 0 <= i < |xs| :: Kid(v, i) == xs[i].value
  {
    if tag == JSON_ARRAY then Array(seq(|xs|, i requires 0 <= i < |xs| => xs[i].value))
    else Object(seq(|xs|, i requires 0 <= i < |xs| => Member(Name(xs[i].key), xs[i].value)))
  }

  ghost predicate ChildChecked(nodes: set<JsonNode>, node: JsonNode, i: nat, x: Named)
    reads nodes, node
  {
    var c := ChildAt(nodes, node, i);
    c != null && c in nodes && c.key == x.key && KeySuits(node.tag, x.key) && Encodes(nodes, c, x.value)
  }

  /** The first |xs| children are linked soundly and have been checked; child is the next one. */
  ghost predicate Walked(nodes: set<JsonNode>, node: JsonNode, xs: seq<Named>, child: JsonNode?, last: JsonNode?)
    reads nodes, node
  {
    && GoodUpTo(nodes, node, |xs|)
    && (forall i {:trigger xs[i]} | 0 <= i < |xs| :: ChildChecked(nodes, node, i, xs[i]))
    && child == ChildAt(nodes, node, |xs|)
    && last == (if xs == [] then null else ChildAt(nodes, node, |xs| - 1))
    && (child != null ==> child in nodes && child.prev == last)
    && Passed(nodes, node, |xs|)
  }

  /** What the loop gives from here on is what it gives in all. */
  ghost predicate SoFar(nodes: set<JsonNode>, node: JsonNode, child: JsonNode?, last: JsonNode?)
    reads nodes, node
  {
    forall r | ReturnsFrom(nodes, node, child, last, r) :: ReturnsFrom(nodes, node, node.head, null, r)
  }

  /** The loop of json_check.  It ends because no node is met twice. */
  method CheckChildren(ghost nodes: set<JsonNode>, ghost path: seq<JsonNode>, node: JsonNode, head: JsonNode,
                       tail: JsonNode)
    returns (ok: bool, ghost v: Json)
    requires Closed(nodes) && node in nodes && Descent(nodes, path, node)
    requires Opens(node) && node.head == head && node.tail == tail
    ensures ok ==> Encodes(nodes, node, v)
    ensures !ok ==> EncodesNothing(nodes, node)
    ensures ReturnsFrom(nodes, node, head, null, ok)
    decreases |nodes| - |path|, 0, 1
  {
    ghost var xs: seq<Named> := [];
    var child: JsonNode?, last: JsonNode? := head, null;
    while child != null
      invariant Walked(nodes, node, xs, child, last) && SoFar(nodes, node, child, last)
      decreases |nodes| - |xs|
    {
      VisitedIsBounded(nodes, node, |xs|);
      ghost var x;
      ok, x := CheckChild(nodes, path, node, head, child, last, xs);
      if !ok {
        return false, Null;
      }
      NextWalked(nodes, node, xs, x, child, last);
      xs := xs + [x];
      VisitedIsBounded(nodes, node, |xs|);
      last := child;
      child := child.next;
    }
    ok, v := last == tail, NewValue(node.tag, xs);
    assert ChecksFrom(nodes, node, child, last, 1) == Some(ok);
    if ok { AllWalked(nodes, node, xs, last); } else { TailElsewhere(nodes, node, xs, last); }
  }

  lemma NextWalked(nodes: set<JsonNode>, node: JsonNode, xs: seq<Named>, x: Named, child: JsonNode, last: JsonNode?)
    requires Closed(nodes) && Walked(nodes, node, xs, child, last) && SoFar(nodes, node, child, last)
    requires LinksPass(node, child) && Returns(nodes, child, true)
    requires child.key == x.key && Encodes(nodes, child, x.value)
    ensures Walked(nodes, node, xs + [x], child.next, child) && SoFar(nodes, node, child.next, child)
  {
    assert GoodChild(nodes, node, |xs|);
    assert ChildChecked(nodes, node, |xs|, x);
    assert ChildAt(nodes, node, |xs| + 1) == child.next;
    forall i | 0 <= i < |xs| + 1 ensures ChildChecked(nodes, node, i, (xs + [x])[i]) {
      if i < |xs| { assert ChildChecked(nodes, node, i, xs[i]); }
    }
    forall r | ReturnsFrom(nodes, node, child.next, child, r) ensures ReturnsFrom(nodes, node, node.head, null, r) {
      GoesOn(nodes, node, child, last, r);
    }
  }

  lemma AllWalked(nodes: set<JsonNode>, node: JsonNode, xs: seq<Named>, last: JsonNode?)
    requires node in nodes && (node.tag == JSON_ARRAY || node.tag == JSON_OBJECT)
      && (node.key.Some? ==> Valid(node.key.value))
    requires Walked(nodes, node, xs, null, last) && node.tail == last
    ensures Encodes(nodes, node, NewValue(node.tag, xs))
  {
    var v := NewValue(node.tag, xs);
    forall i | 0 <= i < Count(v)
      ensures var c := ChildAt(nodes, node, i);
        c != null && c in nodes && c.key == KeyAt(v, i) && Encodes(nodes, c, Kid(v, i))
    {
      assert ChildChecked(nodes, node, i, xs[i]);
    }
  }

  /** Where the walk is along the children of a node that stands for w. */
  lemma WalkFits(nodes: set<JsonNode>, node: JsonNode, xs: seq<Named>, child: JsonNode?, last: JsonNode?, w: Json)
    requires Closed(nodes) && (node.tag == JSON_ARRAY || node.tag == JSON_OBJECT)
      && Walked(nodes, node, xs, child, last)
    requires Encodes(nodes, node, w)
    ensures child == null ==> |xs| == Count(w) && node.tail == last
    ensures child != null ==> |xs| < Count(w) && KeySuits(node.tag, child.key) && Encodes(nodes, child, Kid(w, |xs|))
    ensures child != null ==> child != node && child.parent == node && child.next != child && child.next != node.head
    ensures child != null && child.next != null ==> child.next.prev == child
  {
    var k, n := |xs|, Count(w);
    OneLength(nodes, node, k, n);
    if child != null {
      assert GoodChild(nodes, node, k);
      assert child == ChildAt(nodes, node, k) && child.key == KeyAt(w, k);
      NextFits(nodes, node, k, n, child);
    }
  }

  lemma NextFits(nodes: set<JsonNode>, node: JsonNode, k: nat, n: nat, child: JsonNode)
    requires ChildList(nodes, node, n) && k < n && child == ChildAt(nodes, node, k)
    ensures child.next != child && child.next != node.head && (child.next != null ==> child.next.prev == child)
  {
    assert GoodChild(nodes, node, k);
    assert ChildAt(nodes, node, k + 1) == child.next && ChildAt(nodes, node, 0) == node.head;
    if k + 1 < n {
      assert GoodChild(nodes, node, k + 1) && GoodChild(nodes, node, 0);
      ChildrenDiffer(nodes, node, k, k + 1);
      ChildrenDiffer(nodes, node, 0, k + 1);
    } else {
      assert GoodChild(nodes, node, 0);
    }
  }

  lemma TailElsewhere(nodes: set<JsonNode>, node: JsonNode, xs: seq<Named>, last: JsonNode?)
    requires Closed(nodes) && (node.tag == JSON_ARRAY || node.tag == JSON_OBJECT)
    requires Walked(nodes, node, xs, null, last) && node.tail != last
    ensures EncodesNothing(nodes, node)
  {
    forall w ensures !Encodes(nodes, node, w) {
      if Encodes(nodes, node, w) { WalkFits(nodes, node, xs, null, last, w); }
    }
  }

  /** One turn of the loop: the child's links, its key, and the tree below it. */
  method CheckChild(ghost nodes: set<JsonNode>, ghost path: seq<JsonNode>, node: JsonNode, head: JsonNode,
                    child: JsonNode, ghost last: JsonNode?, ghost xs: seq<Named>)
    returns (ok: bool, ghost x: Named)
    requires Closed(nodes) && node in nodes && Descent(nodes, path, node) && Opens(node) && node.head == head
    requires Walked(nodes, node, xs, child, last) && SoFar(nodes, node, child, last)
    ensures ok ==> LinksPass(node, child) && Returns(nodes, child, true)
    ensures ok ==> child.key == x.key && Encodes(nodes, child, x.value)
    ensures !ok ==> EncodesNothing(nodes, node) && ReturnsFrom(nodes, node, head, null, false)
    decreases |nodes| - |path|, 0, 0
  {
    x := Named(child.key, Null);
    if child == node || child.next == child || child.next == head {
      BadLinks(nodes, node, xs, child, last);
      return false, x;
    }
    if child.parent != node {
      BadLinks(nodes, node, xs, child, last);
      return false, x;
    }
    if child.next != null && child.next.prev != child {
      BadLinks(nodes, node, xs, child, last);
      return false, x;
    }
    if (node.tag == JSON_ARRAY && child.key != None) || (node.tag == JSON_OBJECT && child.key == None) {
      BadChild(nodes, node, xs, child, last);
      return false, x;
    }
    assert Meets(nodes, node, child);
    Deeper(nodes, path, node, child);
    ghost var v;
    ok, v := Check(nodes, path + [child], child);
    x := Named(child.key, v);
    if !ok { BadChild(nodes, node, xs, child, last); }
  }

  lemma BadLinks(nodes: set<JsonNode>, node: JsonNode, xs: seq<Named>, child: JsonNode, last: JsonNode?)
    requires Closed(nodes) && Opens(node) && Walked(nodes, node, xs, child, last) && SoFar(nodes, node, child, last)
    requires child == node || child.next == child || child.next == node.head || child.parent != node
             || (child.next != null && child.next.prev != child)
    ensures EncodesNothing(nodes, node) && ReturnsFrom(nodes, node, node.head, null, false)
  {
    forall w ensures !Encodes(nodes, node, w) {
      if Encodes(nodes, node, w) { WalkFits(nodes, node, xs, child, last, w); }
    }
    StopsAt(nodes, node, child, last);
  }

  lemma BadChild(nodes: set<JsonNode>, node: JsonNode, xs: seq<Named>, child: JsonNode, last: JsonNode?)
    requires Closed(nodes) && Opens(node) && Walked(nodes, node, xs, child, last) && SoFar(nodes, node, child, last)
    requires !KeySuits(node.tag, child.key) || (EncodesNothing(nodes, child) && Returns(nodes, child, false))
    ensures EncodesNothing(nodes, node) && ReturnsFrom(nodes, node, node.head, null, false)
  {
    forall w ensures !Encodes(nodes, node, w) {
      if Encodes(nodes, node, w) { WalkFits(nodes, node, xs, child, last, w); }
    }
    StopsAt(nodes, node, child, last);
  }

  // A node that is its own child.

  /** Wherever a node stands among its own children, the check does not get past that place. */
  lemma {:induction false} NotPastItself(nodes: set<JsonNode>, node: JsonNode, k: nat, i: nat, last: JsonNode?,
                                         fuel: nat)
    requires i <= k && ChildAt(nodes, node, k) == node && forall j | i <= j < k :: ChildAt(nodes, node, j) in nodes
    ensures ChecksFrom(nodes, node, ChildAt(nodes, node, i), last, fuel) != Some(true)
    decreases k - i
  {
    if i < k && fuel > 0 {
      var x := ChildAt(nodes, node, i);
      assert ChildAt(nodes, node, i + 1) == x.next;
      NotPastItself(nodes, node, k, i + 1, x, fuel - 1);
    }
  }

  /** json_check never accepts such a node. */
  lemma NeverAccepts(nodes: set<JsonNode>, node: JsonNode, k: nat, fuel: nat)
    requires ChildAt(nodes, node, k) == node && forall j | 0 <= j < k :: ChildAt(nodes, node, j) in nodes
    requires node.tag == JSON_ARRAY || node.tag == JSON_OBJECT
    ensures Checks(nodes, node, fuel) != Some(true)
  {
    assert ChildAt(nodes, node, 0) == node.head;
    if k == 0 { assert node.head == node; } else { assert node.head != null; }
    if fuel > 0 { NotPastItself(nodes, node, k, 0, null, fuel - 1); }
  }

  // In a forest.

  lemma {:induction false} ForestChildAt(f: Forest, n: JsonNode, i: nat)
    requires f.Valid() && n in f.cells && Container(f.cells[n].data) && i <= |f.cells[n].kids|
    ensures ChildAt(f.cells.Keys, n, i) == if i < |f.cells[n].kids| then f.cells[n].kids[i] else null
    ensures i < |f.cells[n].kids| ==> GoodChild(f.cells.Keys, n, i)
  {
    assert Mirrors(n, f.cells[n]) && Linked(f.cells, n);
    var kids := f.cells[n].kids;
    if i > 0 {
      ForestChildAt(f, n, i - 1);
      PlacedAtIndex(f.cells, n, kids[i - 1], i - 1);
      assert Mirrors(kids[i - 1], f.cells[kids[i - 1]]);
    }
    if i < |kids| {
      PlacedAtIndex(f.cells, n, kids[i], i);
      assert Mirrors(kids[i], f.cells[kids[i]]);
    }
  }

  lemma ForestChildren(f: Forest, n: JsonNode)
    requires f.Valid() && n in f.cells && Container(f.cells[n].data)
    ensures ChildList(f.cells.Keys, n, |f.cells[n].kids|)
  {
    assert Mirrors(n, f.cells[n]) && Linked(f.cells, n);
    var count := |f.cells[n].kids|;
    forall i | 0 <= i < count ensures GoodChild(f.cells.Keys, n, i) { ForestChildAt(f, n, i); }
    ForestChildAt(f, n, count);
    if count > 0 { ForestChildAt(f, n, count - 1); }
  }

  /** In a forest json_check can only find fault with strings and keys: it accepts a node for v exactly
      when its key is in UTF-8 and the tree is Sound, and the value it sees is v. */
  lemma {:induction false} ForestEncodes(f: Forest, n: JsonNode, v: Json, w: Json)
    requires f.Valid() && Denotes(f.cells, n, v)
    ensures Encodes(f.cells.Keys, n, w)
            <==> w == v && Sound(f.cells, n, v) && (f.cells[n].key.Some? ==> Valid(f.cells[n].key.value))
    decreases v
  {
    var h := f.cells;
    assert Mirrors(n, h[n]);
    if v.Array? || v.Object? {
      ForestChildren(f, n);
      forall i | 0 <= i < Count(v) ensures ChildAt(h.Keys, n, i) == h[n].kids[i]
        && h[n].kids[i].key == KeyOf(h, h[n].kids[i]) {
        ForestChildAt(f, n, i);
        assert Denotes(h, h[n].kids[i], Kid(v, i));
        assert Mirrors(h[n].kids[i], h[h[n].kids[i]]);
      }
      if Encodes(h.Keys, n, w) { ForestEncoded(f, n, v, w); }
      if w == v && Sound(h, n, v) && (h[n].key.Some? ==> Valid(h[n].key.value)) { ForestSound(f, n, v); }
    }
  }

  lemma {:induction false} ForestEncoded(f: Forest, n: JsonNode, v: Json, w: Json)
    requires f.Valid() && Denotes(f.cells, n, v) && (v.Array? || v.Object?) && Encodes(f.cells.Keys, n, w)
    requires ChildList(f.cells.Keys, n, Count(v))
    requires forall i {:trigger f.cells[n].kids[i]} | 0 <= i < Count(v) ::
      ChildAt(f.cells.Keys, n, i) == f.cells[n].kids[i] && f.cells[n].kids[i].key == KeyOf(f.cells, f.cells[n].kids[i])
    ensures w == v && Sound(f.cells, n, v)
    decreases v, 0
  {
    var h := f.cells;
    assert Mirrors(n, h[n]);
    OneLength(h.Keys, n, Count(v), Count(w));
    forall i | 0 <= i < Count(v)
      ensures Kid(w, i) == Kid(v, i) && SoundKid(h, n, v, i) && (v.Object? ==> w.members[i] == v.members[i])
    {
      assert Denotes(h, h[n].kids[i], Kid(v, i));
      assert Encodes(h.Keys, ChildAt(h.Keys, n, i), Kid(w, i)) && ChildAt(h.Keys, n, i) == h[n].kids[i];
      ForestEncodes(f, h[n].kids[i], Kid(v, i), Kid(w, i));
    }
    if v.Array? {
      forall i | 0 <= i < Count(v) ensures w.items[i] == v.items[i] { assert Kid(w, i) == Kid(v, i); }
      assert w.items == v.items;
    } else {
      assert w.members == v.members;
    }
    SoundByKids(h, n, v);
  }

  lemma {:induction false} ForestSound(f: Forest, n: JsonNode, v: Json)
    requires f.Valid() && Denotes(f.cells, n, v) && (v.Array? || v.Object?) && Sound(f.cells, n, v)
    requires f.cells[n].key.Some? ==> Valid(f.cells[n].key.value)
    requires ChildList(f.cells.Keys, n, Count(v))
    requires forall i {:trigger f.cells[n].kids[i]} | 0 <= i < Count(v) ::
      ChildAt(f.cells.Keys, n, i) == f.cells[n].kids[i] && f.cells[n].kids[i].key == KeyOf(f.cells, f.cells[n].kids[i])
    ensures Encodes(f.cells.Keys, n, v)
    decreases v, 0
  {
    var h := f.cells;
    assert Mirrors(n, h[n]);
    forall i | 0 <= i < Count(v)
      ensures var c := ChildAt(h.Keys, n, i);
        c != null && c in h.Keys && c.key == KeyAt(v, i) && Encodes(h.Keys, c, Kid(v, i))
    {
      assert Denotes(h, h[n].kids[i], Kid(v, i));
      ForestEncodes(f, h[n].kids[i], Kid(v, i), Kid(v, i));
    }
  }

  lemma ForestIsClosed(f: Forest)
    requires f.Valid()
    ensures Closed(f.cells.Keys)
  {
    var h := f.cells;
    forall n | n in h
      ensures (n.tag == JSON_ARRAY || n.tag == JSON_OBJECT) && n.head != null ==> n.head in h
      ensures n.next != null ==> n.next in h
    {
      assert Mirrors(n, h[n]) && Linked(h, n);
      if h[n].kids != [] { assert KidLinked(h, n, h[n].kids, 0); }
      if h[n].parent != null {
        var i := PlaceOf(h, n);
        assert Linked(h, h[n].parent);
      }
    }
  }

  /** In a forest a call is for a child of the node. */
  lemma ForestMeets(f: Forest, n: JsonNode, v: Json, c: JsonNode) returns (i: nat)
    requires f.Valid() && Denotes(f.cells, n, v) && Meets(f.cells.Keys, n, c)
    ensures i < Count(v) && f.cells[n].kids[i] == c && Denotes(f.cells, c, Kid(v, i))
  {
    assert Mirrors(n, f.cells[n]);
    var nodes := f.cells.Keys;
    i :| ChildAt(nodes, n, i) == c && Passed(nodes, n, i);
    ForestChildren(f, n);
    ForestChildAt(f, n, Count(v));
    assert Count(v) < i ==> ChildAt(nodes, n, Count(v)) != null;
    ForestChildAt(f, n, i);
  }

  lemma {:induction false} ForestMeetsIn(f: Forest, n: JsonNode, v: Json, c: JsonNode, k: nat) returns (w: Json)
    requires f.Valid() && Denotes(f.cells, n, v) && MeetsIn(f.cells.Keys, n, c, k)
    ensures Denotes(f.cells, c, w) && (if k == 0 then w == v else w < v)
    decreases k
  {
    if k == 0 {
      w := v;
    } else {
      var x :| x in f.cells.Keys && MeetsIn(f.cells.Keys, n, x, k - 1) && Meets(f.cells.Keys, x, c);
      var u := ForestMeetsIn(f, n, v, x, k - 1);
      var i := ForestMeets(f, x, u, c);
      w := Kid(u, i);
    }
  }

  lemma SameValueAgain(f: Forest, n: JsonNode, v: Json, k: nat) returns (w: Json)
    requires f.Valid() && Denotes(f.cells, n, v) && MeetsIn(f.cells.Keys, n, n, k)
    ensures w == v && (k > 0 ==> w < v)
  {
    w := ForestMeetsIn(f, n, v, n, k);
    DenotesUnique(f.cells, n, v, w);
  }

  /** A node that stands for a value is not met again below itself. */
  lemma ForestReturns(f: Forest, n: JsonNode, v: Json)
    requires f.Valid() && Denotes(f.cells, n, v)
    ensures !MeetsAgain(f.cells.Keys, n)
  {
    if MeetsAgain(f.cells.Keys, n) {
      var k: nat :| k > 0 && MeetsIn(f.cells.Keys, n, n, k);
      var w := SameValueAgain(f, n, v, k);
    }
  }

  /** json_check at any node of a forest that stands for a value. */
  method CheckTree(ghost f: Forest, node: JsonNode, ghost v: Json) returns (ok: bool)
    requires f.Valid() && Denotes(f.cells, node, v)
    ensures ok <==> Sound(f.cells, node, v) && (f.cells[node].key.Some? ==> Valid(f.cells[node].key.value))
  {
    ForestIsClosed(f);
    ForestReturns(f, node, v);
    ghost var w;
    ok, w := CheckNode(f.cells.Keys, node);
    ForestEncodes(f, node, v, w);
    ForestEncodes(f, node, v, v);
  }

  /** Two containers that are each other's only child. */
  lemma MutualChildren(nodes: set<JsonNode>, a: JsonNode, b: JsonNode)
    requires a in nodes && b in nodes && a != b && Opens(a) && Opens(b)
    requires a.head == b && b.head == a && a.parent == b && b.parent == a && a.next == null && b.next == null
    requires KeySuits(a.tag, b.key) && KeySuits(b.tag, a.key)
    ensures forall fuel :: Checks(nodes, a, fuel) == None
  {
    assert ChildAt(nodes, a, 0) == b && Passed(nodes, a, 0) && ChildAt(nodes, b, 0) == a && Passed(nodes, b, 0);
    assert Meets(nodes, a, b) && Meets(nodes, b, a);
    assert MeetsIn(nodes, a, a, 0);
    assert MeetsIn(nodes, a, b, 1);
    assert MeetsIn(nodes, a, a, 2);
    forall fuel ensures Checks(nodes, a, fuel) == None { NeverReturns(nodes, a, fuel); }
  }

  /** The assertions of json_append_element let such containers come about. */
  method AppendToEachOther(ghost f: Forest) returns (a: JsonNode, b: JsonNode)
    requires f.Valid()
    modifies f, f.cells.Keys
    ensures f.Valid() && a in f.cells && b in f.cells
    ensures forall fuel :: Checks(f.cells.Keys, a, fuel) == None
  {
    a := MkArray(f);
    b := MkArray(f);
    ghost var h := f.cells;
    AppendElement(f, a, b);
    ghost var g := f.cells;
    assert EditedAt(h, g, a, [] + [b], b, a, None, a) && EditedAt(h, g, a, [] + [b], b, a, None, b);
    AppendElement(f, b, a);
    assert EditedAt(g, f.cells, b, [] + [a], a, b, None, a) && EditedAt(g, f.cells, b, [] + [a], a, b, None, b);
    EachOther(f, a, b);
  }

  lemma EachOther(f: Forest, a: JsonNode, b: JsonNode)
    requires f.Valid() && a in f.cells && b in f.cells && f.cells[a].kids == [b] && f.cells[b].kids == [a] && a != b
    requires f.cells[a].data == DArray && f.cells[b].data == DArray && f.cells[a].key == None && f.cells[b].key == None
    ensures forall fuel :: Checks(f.cells.Keys, a, fuel) == None
  {
    var h := f.cells;
    assert Linked(h, a) && Linked(h, b) && KidLinked(h, a, h[a].kids, 0) && KidLinked(h, b, h[b].kids, 0);
    assert Mirrors(a, h[a]) && Mirrors(b, h[b]);
    MutualChildren(h.Keys, a, b);
  }

  /** The children of a node that has been appended to itself: those it had, and itself. */
  lemma {:induction false} ChainToItself(h: Cells, h': Cells, n: JsonNode, i: nat)
    requires WellLinked(h) && n in h && Container(h[n].data) && i <= |h[n].kids|
    requires (h[n].tail != null ==> h[n].tail in h) && h' == Appended(h, n, n) && AllMirror(h')
    ensures ChildAt(h.Keys, n, i) == if i < |h[n].kids| then h[n].kids[i] else n
    decreases i
  {
    var kids := h[n].kids;
    assert Linked(h, n) && Mirrors(n, h'[n]);
    if i > 0 {
      ChainToItself(h, h', n, i - 1);
      assert KidLinked(h, n, kids, i - 1) && KidLinked(h, n, kids, |kids| - 1);
      assert Mirrors(kids[i - 1], h'[kids[i - 1]]);
    }
  }

  /** The assertions of json_append_element let an array be appended to itself as well: json_check never accepts it. */
  method AppendToItself(ghost f: Forest, arr: JsonNode)
    requires f.Valid() && arr in f.cells && f.cells[arr].data == DArray && f.cells[arr].parent == null
    modifies f, f.cells.Keys
    ensures forall fuel :: Checks(f.cells.Keys, arr, fuel) != Some(true)
  {
    ghost var h := f.cells;
    AppendElement(f, arr, arr);
    ItselfBehind(h, f.cells, arr);
  }

  lemma ItselfBehind(h: Cells, h': Cells, n: JsonNode)
    requires WellLinked(h) && n in h && Container(h[n].data)
    requires (h[n].tail != null ==> h[n].tail in h) && h' == Appended(h, n, n) && AllMirror(h')
    ensures forall fuel :: Checks(h'.Keys, n, fuel) != Some(true)
  {
    var k := |h[n].kids|;
    assert h'.Keys == h.Keys && Mirrors(n, h'[n]);
    ChainToItself(h, h', n, k);
    forall j | 0 <= j < k ensures ChildAt(h.Keys, n, j) in h.Keys {
      ChainToItself(h, h', n, j);
      assert Linked(h, n) && KidLinked(h, n, h[n].kids, j);
    }
    forall fuel ensures Checks(h'.Keys, n, fuel) != Some(true) { NeverAccepts(h.Keys, n, k, fuel); }
  }

  /** A copy of a member is appended to an array: afterwards json_check refuses the array, however sound
      everything was. */
  method AppendCopy(ghost f: Forest, arr: JsonNode, ghost v: Json, member: JsonNode, ghost w: Json) returns (ok: bool)
    requires f.Valid() && Denotes(f.cells, arr, v) && v.Array?
    requires Denotes(f.cells, member, w) && f.cells[member].key.Some?
    modifies f, f.cells.Keys
    ensures f.Valid() && !ok
  {
    ghost var h, key := f.cells, f.cells[member].key;
    var copy := MkCopy(f, member, w);
    ghost var h1 := f.cells;
    KeptKeeps(h, h1, arr, v);
    InNewTree(h, h1, copy, w, key);
    assert KeptAt(h, h1, arr);
    AppendElement(f, arr, copy);
    CopiedMemberSpoilsArray(h, h1, f.cells, arr, v, member, copy, w);
    assert EditedAt(h1, f.cells, arr, h1[arr].kids + [copy], copy, arr, h1[copy].key, arr);
    ok := CheckTree(f, arr, Append(v, w, key));
  }

  /** A new object with one member, null. */
  method MakeMember(ghost f: Forest, name: bytes) returns (member: JsonNode)
    requires f.Valid()
    modifies f, f.cells.Keys
    ensures f.Valid() && forall n | n in f.cells :: n in old(f.cells) || fresh(n)
    ensures Denotes(f.cells, member, Null) && f.cells[member].key == Some(name)
  {
    var obj := MkObject(f);
    member := MkNull(f);
    ghost var h := f.cells;
    AppendMember(f, obj, name, member);
    MemberMade(h, f.cells, obj, member, name);
  }

  lemma MemberMade(h: Cells, h': Cells, obj: JsonNode, member: JsonNode, name: bytes)
    requires WellLinked(h) && obj in h && obj != member && Denotes(h, member, Null) && h[member].parent == null
    requires Edited(h, h', obj, h[obj].kids + [member], member, obj, Some(name))
    ensures Denotes(h', member, Null) && h'[member].key == Some(name)
  {
    EditKeeps(h, h', obj, h[obj].kids + [member], member, obj, Some(name), member, Null);
    assert EditedAt(h, h', obj, h[obj].kids + [member], member, obj, Some(name), member);
  }

  /** A run that shows it: json_check accepts the empty array and refuses it with the copy. */
  method CopiedMemberIsRefused(ghost f: Forest, name: bytes) returns (before: bool, after: bool)
    requires f.Valid()
    modifies f, f.cells.Keys
    ensures before && !after
  {
    var member := MakeMember(f, name);
    ghost var g := f.cells;
    var arr := MkArray(f);
    AdoptKeeps(g, arr, DArray, member, Null);
    before := CheckTree(f, arr, Array([]));
    after := AppendCopy(f, arr, Array([]), member, Null);
  }
}
