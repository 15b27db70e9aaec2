/** parse_value, parse_array, parse_object, json_decode and json_validate of src/db/Json.cpp.  With build
    they make nodes; without it (a NULL out-parameter) they only recognise. */
module JsonParser {
  import opened Utf8
  import opened Wrappers
  import opened JsonGrammar
  import opened JsonParse
  import opened JsonScanner
  import opened JsonTree
  import opened JsonMeaning
  import opened JsonApi

  /** The forest is as it was. */
  ghost predicate SameForest(h: Cells, h': Cells) { h'.Keys == h.Keys && Kept(h, h') }

  /** What a parsing function leaves: the new tree, or nothing at all. */
  ghost predicate Outcome(h: Cells, h': Cells, made: bool, n: JsonNode?, v: Json) {
    if made then n != null && NewTree(h, h', n, v, None) else SameForest(h, h')
  }

  lemma SameForestNow(h: Cells)
    ensures SameForest(h, h)
  {
    forall x | x in h ensures KeptAt(h, h, x) {}
  }

  lemma SameForestTwice(h: Cells, g: Cells, g': Cells)
    requires SameForest(h, g) && SameForest(g, g')
    ensures SameForest(h, g')
  {
    KeptTwice(h, g, g');
  }

  /** A value that could not be parsed leaves no trace in the tree under construction. */
  lemma NothingMade(h: Cells, g: Cells, g': Cells, made: bool, n: JsonNode?, v: Json)
    requires WellLinked(g) && Outcome(h, g, made, n, v) && SameForest(g, g')
    ensures Outcome(h, g', made, n, v)
  {
    KeptTwice(h, g, g');
    if made {
      KeptKeeps(g, g', n, v);
      assert n in g && KeptAt(g, g', n);
    }
  }

  lemma NewLeaf(h: Cells, h': Cells, n: JsonNode, d: Data, v: Json)
    requires n !in h && h' == h[n := NewCell(d)] && HasData(d, v) && Count(v) == 0
    ensures NewTree(h, h', n, v, None)
  {
    forall x | x in h ensures KeptAt(h, h', x) {}
  }

  lemma DeletedAgain(h: Cells, g: Cells, g': Cells, n: JsonNode, v: Json)
    requires NewTree(h, g, n, v, None) && Left(g, g', Sub(g, n, v), null, [])
    ensures SameForest(h, g')
  {
    forall x | x in h ensures KeptAt(h, g', x) {
      assert KeptAt(h, g, x);
      assert LeftAt(g, g', null, [], x);
    }
  }

  lemma GrowsInPlace(h: Cells, g: Cells, g1: Cells, g2: Cells, p: JsonNode, v: Json, c: JsonNode, w: Json,
                     key: Option<bytes>)
    requires WellLinked(g) && WellLinked(g1) && (v.Array? || (v.Object? && key.Some?))
    requires NewTree(h, g, p, v, None) && NewTree(g, g1, c, w, None)
    requires Edited(g1, g2, p, g1[p].kids + [c], c, p, key)
    ensures NewTree(h, g2, p, Append(v, w, key), None)
  {
    NewTreeGrows(h, g, g1, g2, p, v, None, c, w, None, key);
  }

  /** The failure label of parse_array and parse_object: json_delete(ret). */
  method Discard(ghost f: Forest, build: bool, ret: JsonNode?, ghost h: Cells, ghost v: Json)
    requires f.Valid() && Outcome(h, f.cells, build, ret, v) && (!build ==> ret == null)
    modifies f, f.cells.Keys
    ensures f.Valid() && SameForest(h, f.cells)
  {
    ghost var g := f.cells;
    ghost var i := Delete(f, ret, v);
    if build { DeletedAgain(h, g, f.cells, ret, v); }
  }

  method NewNull(ghost f: Forest) returns (n: JsonNode)
    requires f.Valid()
    modifies f
    ensures fresh(n) && f.Valid() && NewTree(old(f.cells), f.cells, n, Null, None)
      && f.cells.Keys == old(f.cells).Keys + {n}
  {
    n := MkNull(f);
    NewLeaf(old(f.cells), f.cells, n, DNull, Null);
  }

  method NewBool(ghost f: Forest, b: bool) returns (n: JsonNode)
    requires f.Valid()
    modifies f
    ensures fresh(n) && f.Valid() && NewTree(old(f.cells), f.cells, n, Bool(b), None)
      && f.cells.Keys == old(f.cells).Keys + {n}
  {
    n := MkBool(f, b);
    NewLeaf(old(f.cells), f.cells, n, DBool(b), Bool(b));
  }

  method NewString(ghost f: Forest, s: bytes) returns (n: JsonNode)
    requires f.Valid()
    modifies f
    ensures fresh(n) && f.Valid() && NewTree(old(f.cells), f.cells, n, String(s), None)
      && f.cells.Keys == old(f.cells).Keys + {n}
  {
    n := MkString(f, s);
    NewLeaf(old(f.cells), f.cells, n, DString(s), String(s));
  }

  method NewNumber(ghost f: Forest, x: Double) returns (n: JsonNode)
    requires f.Valid()
    modifies f
    ensures fresh(n) && f.Valid() && NewTree(old(f.cells), f.cells, n, Number(x), None)
      && f.cells.Keys == old(f.cells).Keys + {n}
  {
    n := MkNumber(f, x);
    NewLeaf(old(f.cells), f.cells, n, DNumber(x), Number(x));
  }

  /** out ? json_mkarray() : NULL, and the same for objects. */
  method NewContainer(ghost f: Forest, build: bool, empty: Json) returns (ret: JsonNode?)
    requires f.Valid() && (empty == Array([]) || empty == Object([]))
    modifies f
    ensures f.Valid() && forall n | n in f.cells :: n in old(f.cells) || fresh(n)
    ensures Outcome(old(f.cells), f.cells, build, ret, empty) && (!build ==> ret == null)
  {
    ret := null;
    if !build {
      SameForestNow(f.cells);
    } else if empty.Array? {
      ret := MkArray(f);
      NewLeaf(old(f.cells), f.cells, ret, DArray, empty);
    } else {
      ret := MkObject(f);
      NewLeaf(old(f.cells), f.cells, ret, DObject, empty);
    }
  }

  /** The cases of parse_value that make a node without children. */
  method LeafValue(libc: Libc, ghost f: Forest, text: bytes, pos: nat, build: bool)
    returns (ok: bool, s: nat, node: JsonNode?)
    requires CString(text) && pos < |text| && text[pos] != 0x5B && text[pos] != 0x7B && f.Valid()
    modifies f
    ensures ok <==> ParseValue(libc, Rest(text, pos)).Ok?
    ensures ok ==> pos < s < |text| && Rest(text, s) == ParseValue(libc, Rest(text, pos)).rest
    ensures f.Valid() && forall n | n in f.cells :: n in old(f.cells) || fresh(n)
    ensures Outcome(old(f.cells), f.cells, ok && build, node,
                    if ok then ParseValue(libc, Rest(text, pos)).value else Null)
  {
    var c := text[pos];
    if c == 0x6E || c == 0x66 || c == 0x74 {
      ok, s, node := WordValue(libc, f, text, pos, build);
    } else if c == 0x22 {
      ok, s, node := StringValue(libc, f, text, pos, build);
    } else {
      ok, s, node := NumberValue(libc, f, text, pos, build);
    }
  }

  method WordValue(libc: Libc, ghost f: Forest, text: bytes, pos: nat, build: bool)
    returns (ok: bool, s: nat, node: JsonNode?)
    requires CString(text) && pos < |text| && (text[pos] == 0x6E || text[pos] == 0x66 || text[pos] == 0x74) && f.Valid()
    modifies f
    ensures ok <==> ParseValue(libc, Rest(text, pos)).Ok?
    ensures ok ==> pos < s < |text| && Rest(text, s) == ParseValue(libc, Rest(text, pos)).rest
    ensures f.Valid() && forall n | n in f.cells :: n in old(f.cells) || fresh(n)
    ensures Outcome(old(f.cells), f.cells, ok && build, node,
                    if ok then ParseValue(libc, Rest(text, pos)).value else Null)
  {
    SameForestNow(f.cells);
    Look(text, pos);
    node := null;
    var c := text[pos];
    ok, s := ExpectLiteral(text, pos, if c == 0x6E then NULL else if c == 0x66 then FALSE else TRUE);
    if ok && build {
      if c == 0x6E {
        node := NewNull(f);
      } else {
        node := NewBool(f, c == 0x74);
      }
    }
  }

  method StringValue(libc: Libc, ghost f: Forest, text: bytes, pos: nat, build: bool)
    returns (ok: bool, s: nat, node: JsonNode?)
    requires CString(text) && pos < |text| && text[pos] == 0x22 && f.Valid()
    modifies f
    ensures ok <==> ParseValue(libc, Rest(text, pos)).Ok?
    ensures ok ==> pos < s < |text| && Rest(text, s) == ParseValue(libc, Rest(text, pos)).rest
    ensures f.Valid() && forall n | n in f.cells :: n in old(f.cells) || fresh(n)
    ensures Outcome(old(f.cells), f.cells, ok && build, node,
                    if ok then ParseValue(libc, Rest(text, pos)).value else Null)
  {
    SameForestNow(f.cells);
    Look(text, pos);
    node := null;
    var str;
    ok, s, str := ScanString(text, pos, build);
    if ok && build {
      node := NewString(f, str);
    }
  }

  lemma Consumed(text: bytes, pos: nat, s: nat)
    requires pos <= s < |text|
    ensures Rest(text, pos)[..|Rest(text, pos)| - |Rest(text, s)|] == text[pos..s]
  {}

  /** strtod is given the number only.  The source gives it everything that is left; there strtod would read
      on in a text like 0x10, which json_decode refuses all the same for what is behind the 0. */
  method NumberValue(libc: Libc, ghost f: Forest, text: bytes, pos: nat, build: bool)
    returns (ok: bool, s: nat, node: JsonNode?)
    requires CString(text) && pos < |text| && text[pos] != 0x6E && text[pos] != 0x66 && text[pos] != 0x74
    requires text[pos] != 0x22 && text[pos] != 0x5B && text[pos] != 0x7B && f.Valid()
    modifies f
    ensures ok <==> ParseValue(libc, Rest(text, pos)).Ok?
    ensures ok ==> pos < s < |text| && Rest(text, s) == ParseValue(libc, Rest(text, pos)).rest
    ensures f.Valid() && forall n | n in f.cells :: n in old(f.cells) || fresh(n)
    ensures Outcome(old(f.cells), f.cells, ok && build, node,
                    if ok then ParseValue(libc, Rest(text, pos)).value else Null)
  {
    SameForestNow(f.cells);
    Look(text, pos);
    node := null;
    ok, s := ScanNumber(text, pos);
    if ok && build {
      Consumed(text, pos, s);
      node := NewNumber(f, libc.strtod(text[pos..s]));
    }
  }

  /** parse_value. */
  method Value(libc: Libc, ghost f: Forest, text: bytes, pos: nat, build: bool)
    returns (ok: bool, s: nat, node: JsonNode?)
    requires CString(text) && pos < |text| && f.Valid()
    modifies f, f.cells.Keys
    ensures ok <==> ParseValue(libc, Rest(text, pos)).Ok?
    ensures ok ==> pos < s < |text| && Rest(text, s) == ParseValue(libc, Rest(text, pos)).rest
    ensures f.Valid() && forall n | n in f.cells :: n in old(f.cells) || fresh(n)
    ensures Outcome(old(f.cells), f.cells, ok && build, node,
                    if ok then ParseValue(libc, Rest(text, pos)).value else Null)
    decreases |text| - pos, 2
  {
    Look(text, pos);
    if text[pos] == 0x5B {
      ok, s, node := ArrayValue(libc, f, text, pos, build);
    } else if text[pos] == 0x7B {
      ok, s, node := ObjectValue(libc, f, text, pos, build);
    } else {
      ok, s, node := LeafValue(libc, f, text, pos, build);
    }
  }

  lemma NothingBefore<T>(r: Parsed<seq<T>>)
    ensures Prefixed([], r) == r
  {
    if r.Ok? { assert [] + r.value == r.value; }
  }

  lemma OneMoreBefore<T>(acc: seq<T>, x: T, r: Parsed<seq<T>>)
    ensures Prefixed(acc, Prefixed([x], r)) == Prefixed(acc + [x], r)
  {
    if r.Ok? { assert acc + ([x] + r.value) == acc + [x] + r.value; }
  }

  /** The recursion of ParseElements, with what came before. */
  lemma OneElement(libc: Libc, acc: seq<Json>, t: bytes)
    ensures Prefixed(acc, ParseElements(libc, t)) ==
      match ParseValue(libc, t)
      case Fail => Fail
      case Ok(v, behind) =>
        var u := SkipSpace(behind);
        if At(u, 0) == 0x5D then Ok(acc + [v], u[1..])
        else if At(u, 0) == 0x2C then Prefixed(acc + [v], ParseElements(libc, SkipSpace(u[1..])))
        else Fail
  {
    var r := ParseValue(libc, t);
    if r.Ok? {
      var u := SkipSpace(r.rest);
      if At(u, 0) == 0x2C { OneMoreBefore(acc, r.value, ParseElements(libc, SkipSpace(u[1..]))); }
    }
  }

  /** parse_value, skip_space and json_append_element. */
  method NextElement(libc: Libc, ghost f: Forest, text: bytes, pos: nat, build: bool, ret: JsonNode?,
                     ghost h: Cells, ghost vs: seq<Json>)
    returns (ok: bool, s: nat)
    requires CString(text) && pos < |text| && f.Valid()
    requires Outcome(h, f.cells, build, ret, Array(vs))
    modifies f, f.cells.Keys
    ensures f.Valid() && forall n | n in f.cells :: n in old(f.cells) || fresh(n)
    ensures var r := ParseValue(libc, Rest(text, pos));
      (ok <==> r.Ok?)
      && (ok ==> pos < s < |text| && Rest(text, s) == SkipSpace(r.rest))
      && Outcome(h, f.cells, build, ret, Array(if ok then vs + [r.value] else vs))
    decreases |text| - pos, 3
  {
    ghost var g := f.cells;
    var element;
    ok, s, element := Value(libc, f, text, pos, build);
    if !ok {
      NothingMade(h, g, f.cells, build, ret, Array(vs));
      return;
    }
    s := ScanSpaces(text, s);
    if build {
      ghost var g1 := f.cells;
      ghost var v := ParseValue(libc, Rest(text, pos)).value;
      Fits(h, g, g1, ret, Array(vs), element, v);
      AppendElement(f, ret, element);
      GrowsInPlace(h, g, g1, f.cells, ret, Array(vs), element, v, g1[element].key);
    } else {
      SameForestTwice(h, g, f.cells);
    }
  }

  /** What the assertions in the insertion functions ask. */
  lemma Fits(h: Cells, g: Cells, g1: Cells, p: JsonNode, v: Json, c: JsonNode, w: Json)
    requires NewTree(h, g, p, v, None) && NewTree(g, g1, c, w, None)
    ensures p in g1 && c in g1 && c != p && g1[c].parent == null && HasData(g1[p].data, v)
  {
    InNewTree(h, g, p, v, None);
    InNewTree(g, g1, c, w, None);
    assert KeptAt(g, g1, p);
  }

  /** What follows an element or a member: the closing bracket, or a comma and white space. */
  method ScanSeparator(text: bytes, pos: nat, close: byte) returns (ok: bool, s: nat, done: bool)
    requires CString(text) && pos < |text| && close != 0 && close != 0x2C
    ensures var u := Rest(text, pos);
      (ok <==> At(u, 0) == close || At(u, 0) == 0x2C) && (done <==> At(u, 0) == close)
      && (ok ==> u != [] && pos < s < |text| && Rest(text, s) == if done then u[1..] else SkipSpace(u[1..]))
  {
    Look(text, pos);
    done := text[pos] == close;
    ok := done || text[pos] == 0x2C;
    s := pos + 1;
    if ok && !done {
      s := ScanSpaces(text, s);
    }
  }

  /** What has been read and what is left make up the result. */
  ghost predicate ElementsLeft(libc: Libc, r: Parsed<seq<Json>>, vs: seq<Json>, text: bytes, s: nat, done: bool) {
    s < |text| && r == if done then Ok(vs, Rest(text, s)) else Prefixed(vs, ParseElements(libc, Rest(text, s)))
  }

  /** One turn of parse_array's loop, up to the space behind the comma. */
  method NextElementTurn(libc: Libc, ghost f: Forest, text: bytes, pos: nat, build: bool, ret: JsonNode?,
                     ghost h: Cells, ghost vs: seq<Json>, ghost r: Parsed<seq<Json>>)
    returns (ok: bool, s: nat, done: bool, ghost vs': seq<Json>)
    requires CString(text) && pos < |text| && f.Valid()
    requires Outcome(h, f.cells, build, ret, Array(vs))
    requires ElementsLeft(libc, r, vs, text, pos, false)
    modifies f, f.cells.Keys
    ensures f.Valid() && forall n | n in f.cells :: n in old(f.cells) || fresh(n)
    ensures Outcome(h, f.cells, build, ret, Array(vs'))
    ensures !ok ==> r.Fail?
    ensures ok ==> pos < s && ElementsLeft(libc, r, vs', text, s, done)
    decreases |text| - pos, 4
  {
    OneElement(libc, vs, Rest(text, pos));
    done, vs' := false, vs;
    ok, s := NextElement(libc, f, text, pos, build, ret, h, vs);
    if ok {
      vs' := vs + [ParseValue(libc, Rest(text, pos)).value];
      ok, s, done := ScanSeparator(text, s, 0x5D);
    }
  }

  /** parse_array's loop. */
  method NextElementLoop(libc: Libc, ghost f: Forest, text: bytes, pos: nat, build: bool, ret: JsonNode?,
                         ghost h: Cells)
    returns (ok: bool, s: nat, ghost vs: seq<Json>)
    requires CString(text) && pos < |text| && f.Valid() && Outcome(h, f.cells, build, ret, Array([]))
    modifies f, f.cells.Keys
    ensures f.Valid() && forall n | n in f.cells :: n in old(f.cells) || fresh(n)
    ensures Outcome(h, f.cells, build, ret, Array(vs))
    ensures ok <==> ParseElements(libc, Rest(text, pos)).Ok?
    ensures ok ==> pos < s < |text| && ParseElements(libc, Rest(text, pos)) == Ok(vs, Rest(text, s))
    decreases |text| - pos, 5
  {
    ghost var r := ParseElements(libc, Rest(text, pos));
    s, vs := pos, [];
    NothingBefore(r);
    var done := false;
    ok := true;
    while ok && !done
      invariant f.Valid() && forall n | n in f.cells :: n in old(f.cells) || fresh(n)
      invariant Outcome(h, f.cells, build, ret, Array(vs))
      invariant !ok ==> r.Fail?
      invariant ok ==> pos <= s && (done ==> pos < s) && ElementsLeft(libc, r, vs, text, s, done)
      decreases ok && !done, |text| - s
    {
      ok, s, done, vs := NextElementTurn(libc, f, text, s, build, ret, h, vs, r);
    }
  }

  /** parse_array. */
  method ArrayValue(libc: Libc, ghost f: Forest, text: bytes, pos: nat, build: bool)
    returns (ok: bool, s: nat, ret: JsonNode?)
    requires CString(text) && pos < |text| && text[pos] == 0x5B && f.Valid()
    modifies f, f.cells.Keys
    ensures At(Rest(text, pos), 0) == 0x5B
    ensures ok <==> ParseArray(libc, Rest(text, pos)).Ok?
    ensures ok ==> pos < s < |text| && Rest(text, s) == ParseArray(libc, Rest(text, pos)).rest
    ensures f.Valid() && forall n | n in f.cells :: n in old(f.cells) || fresh(n)
    ensures Outcome(old(f.cells), f.cells, ok && build, ret,
                    if ok then Array(ParseArray(libc, Rest(text, pos)).value) else Null)
    decreases |text| - pos, 1
  {
    ghost var h := f.cells;
    ret := NewContainer(f, build, Array([]));
    Look(text, pos);
    s := ScanSpaces(text, pos + 1);
    Look(text, s);
    if text[s] == 0x5D {
      return true, s + 1, ret;
    }
    ghost var vs;
    ok, s, vs := NextElementLoop(libc, f, text, s, build, ret, h);
    if !ok {
      Discard(f, build, ret, h, Array(vs));
    }
  }

  lemma OneField(libc: Libc, acc: seq<Member>, t: bytes)
    ensures Prefixed(acc, ParseFields(libc, t)) ==
      match ParseField(libc, t)
      case Fail => Fail
      case Ok(m, behind) =>
        var u := SkipSpace(behind);
        if At(u, 0) == 0x7D then Ok(acc + [m], u[1..])
        else if At(u, 0) == 0x2C then Prefixed(acc + [m], ParseFields(libc, SkipSpace(u[1..])))
        else Fail
  {
    var r := ParseField(libc, t);
    if r.Ok? {
      var u := SkipSpace(r.rest);
      if At(u, 0) == 0x2C { OneMoreBefore(acc, r.value, ParseFields(libc, SkipSpace(u[1..]))); }
    }
  }

  /** The key and its colon. */
  method ScanKey(text: bytes, pos: nat, build: bool) returns (ok: bool, s: nat, key: bytes)
    requires CString(text) && pos < |text|
    ensures var r := ParseString(Rest(text, pos));
      (ok <==> r.Ok? && At(SkipSpace(r.rest), 0) == 0x3A)
      && (ok ==> pos < s < |text| && Rest(text, s) == SkipSpace(SkipSpace(r.rest)[1..]) && (build ==> key == r.value))
  {
    ok, s, key := ScanString(text, pos, build);
    if ok {
      s := ScanSpaces(text, s);
      Look(text, s);
      ok := text[s] == 0x3A;
      if ok {
        s := ScanSpaces(text, s + 1);
      }
    }
  }

  /** From parse_string to append_member. */
  method NextMember(libc: Libc, ghost f: Forest, text: bytes, pos: nat, build: bool, ret: JsonNode?,
                    ghost h: Cells, ghost ms: seq<Member>)
    returns (ok: bool, s: nat)
    requires CString(text) && pos < |text| && f.Valid()
    requires Outcome(h, f.cells, build, ret, Object(ms))
    modifies f, f.cells.Keys
    ensures f.Valid() && forall n | n in f.cells :: n in old(f.cells) || fresh(n)
    ensures var r := ParseField(libc, Rest(text, pos));
      (ok <==> r.Ok?)
      && (ok ==> pos < s < |text| && Rest(text, s) == SkipSpace(r.rest))
      && Outcome(h, f.cells, build, ret, Object(if ok then ms + [r.value] else ms))
    decreases |text| - pos, 3
  {
    ghost var g := f.cells;
    SameForestNow(g);
    var key;
    ok, s, key := ScanKey(text, pos, build);
    if !ok {
      return;
    }
    ghost var at := s;
    var value;
    ok, s, value := Value(libc, f, text, s, build);
    if !ok {
      NothingMade(h, g, f.cells, build, ret, Object(ms));
      return;
    }
    ghost var v := ParseValue(libc, Rest(text, at)).value;
    assert ParseField(libc, Rest(text, pos)) == Ok(Member(ParseString(Rest(text, pos)).value, v), Rest(text, s));
    s := ScanSpaces(text, s);
    AddMember(f, build, ret, key, value, h, g, ms, v);
  }

  /** append_member, when there is an object to append to. */
  method AddMember(ghost f: Forest, build: bool, ret: JsonNode?, key: bytes, value: JsonNode?,
                   ghost h: Cells, ghost g: Cells, ghost ms: seq<Member>, ghost v: Json)
    requires f.Valid() && WellLinked(g) && Outcome(h, g, build, ret, Object(ms)) && Outcome(g, f.cells, build, value, v)
    modifies f, f.cells.Keys
    ensures f.Valid() && f.cells.Keys == old(f.cells).Keys
    ensures Outcome(h, f.cells, build, ret, Object(if build then ms + [Member(key, v)] else ms))
  {
    if build {
      ghost var g1 := f.cells;
      Fits(h, g, g1, ret, Object(ms), value, v);
      AppendMember(f, ret, key, value);
      GrowsInPlace(h, g, g1, f.cells, ret, Object(ms), value, v, Some(key));
    } else {
      SameForestTwice(h, g, f.cells);
    }
  }

  /** What has been read and what is left make up the result. */
  ghost predicate MembersLeft(libc: Libc, r: Parsed<seq<Member>>, ms: seq<Member>, text: bytes, s: nat, done: bool) {
    s < |text| && r == if done then Ok(ms, Rest(text, s)) else Prefixed(ms, ParseFields(libc, Rest(text, s)))
  }

  /** One turn of parse_object's loop, up to the space behind the comma. */
  method NextMemberTurn(libc: Libc, ghost f: Forest, text: bytes, pos: nat, build: bool, ret: JsonNode?,
                     ghost h: Cells, ghost ms: seq<Member>, ghost r: Parsed<seq<Member>>)
    returns (ok: bool, s: nat, done: bool, ghost ms': seq<Member>)
    requires CString(text) && pos < |text| && f.Valid()
    requires Outcome(h, f.cells, build, ret, Object(ms))
    requires MembersLeft(libc, r, ms, text, pos, false)
    modifies f, f.cells.Keys
    ensures f.Valid() && forall n | n in f.cells :: n in old(f.cells) || fresh(n)
    ensures Outcome(h, f.cells, build, ret, Object(ms'))
    ensures !ok ==> r.Fail?
    ensures ok ==> pos < s && MembersLeft(libc, r, ms', text, s, done)
    decreases |text| - pos, 4
  {
    OneField(libc, ms, Rest(text, pos));
    done, ms' := false, ms;
    ok, s := NextMember(libc, f, text, pos, build, ret, h, ms);
    if ok {
      ms' := ms + [ParseField(libc, Rest(text, pos)).value];
      ok, s, done := ScanSeparator(text, s, 0x7D);
    }
  }

  /** parse_object's loop. */
  method NextMemberLoop(libc: Libc, ghost f: Forest, text: bytes, pos: nat, build: bool, ret: JsonNode?, ghost h: Cells)
    returns (ok: bool, s: nat, ghost ms: seq<Member>)
    requires CString(text) && pos < |text| && f.Valid() && Outcome(h, f.cells, build, ret, Object([]))
    modifies f, f.cells.Keys
    ensures f.Valid() && forall n | n in f.cells :: n in old(f.cells) || fresh(n)
    ensures Outcome(h, f.cells, build, ret, Object(ms))
    ensures ok <==> ParseFields(libc, Rest(text, pos)).Ok?
    ensures ok ==> pos < s < |text| && ParseFields(libc, Rest(text, pos)) == Ok(ms, Rest(text, s))
    decreases |text| - pos, 5
  {
    ghost var r := ParseFields(libc, Rest(text, pos));
    s, ms := pos, [];
    NothingBefore(r);
    var done := false;
    ok := true;
    while ok && !done
      invariant f.Valid() && forall n | n in f.cells :: n in old(f.cells) || fresh(n)
      invariant Outcome(h, f.cells, build, ret, Object(ms))
      invariant !ok ==> r.Fail?
      invariant ok ==> pos <= s && (done ==> pos < s) && MembersLeft(libc, r, ms, text, s, done)
      decreases ok && !done, |text| - s
    {
      ok, s, done, ms := NextMemberTurn(libc, f, text, s, build, ret, h, ms, r);
    }
  }

  /** parse_object. */
  method ObjectValue(libc: Libc, ghost f: Forest, text: bytes, pos: nat, build: bool)
    returns (ok: bool, s: nat, ret: JsonNode?)
    requires CString(text) && pos < |text| && text[pos] == 0x7B && f.Valid()
    modifies f, f.cells.Keys
    ensures At(Rest(text, pos), 0) == 0x7B
    ensures ok <==> ParseObject(libc, Rest(text, pos)).Ok?
    ensures ok ==> pos < s < |text| && Rest(text, s) == ParseObject(libc, Rest(text, pos)).rest
    ensures f.Valid() && forall n | n in f.cells :: n in old(f.cells) || fresh(n)
    ensures Outcome(old(f.cells), f.cells, ok && build, ret,
                    if ok then Object(ParseObject(libc, Rest(text, pos)).value) else Null)
    decreases |text| - pos, 1
  {
    ghost var h := f.cells;
    ret := NewContainer(f, build, Object([]));
    Look(text, pos);
    s := ScanSpaces(text, pos + 1);
    Look(text, s);
    if text[s] == 0x7D {
      return true, s + 1, ret;
    }
    ghost var ms;
    ok, s, ms := NextMemberLoop(libc, f, text, s, build, ret, h);
    if !ok {
      Discard(f, build, ret, h, Object(ms));
    }
  }

  lemma RecognisesTheGrammar(libc: Libc, t: bytes)
    ensures JsonDecode(libc, t).Some? <==> exists v :: InGrammar(libc, t, v)
  {
    if JsonDecode(libc, t).Some? { DecodeIsTheGrammar(libc, t, JsonDecode(libc, t).value); }
    if v :| InGrammar(libc, t, v) { DecodeIsTheGrammar(libc, t, v); }
  }

  /** json_decode: a new tree for the value of the text, or NULL and nothing. */
  method Decode(libc: Libc, ghost f: Forest, text: bytes) returns (ret: JsonNode?)
    requires CString(text) && f.Valid()
    modifies f, f.cells.Keys
    ensures f.Valid() && forall n | n in f.cells :: n in old(f.cells) || fresh(n)
    ensures ret == null <==> JsonDecode(libc, Rest(text, 0)) == None
    ensures ret != null <==> exists v :: InGrammar(libc, Rest(text, 0), v)
    ensures ret == null ==> SameForest(old(f.cells), f.cells)
    ensures ret != null ==> NewTree(old(f.cells), f.cells, ret, JsonDecode(libc, Rest(text, 0)).value, None)
  {
    RecognisesTheGrammar(libc, Rest(text, 0));
    ghost var h := f.cells;
    var s := ScanSpaces(text, 0);
    var ok;
    ghost var r := ParseValue(libc, Rest(text, s));
    ok, s, ret := Value(libc, f, text, s, true);
    if !ok {
      return null;
    }
    s := ScanSpaces(text, s);
    Look(text, s);
    if text[s] != 0 {
      Discard(f, true, ret, h, r.value);
      ret := null;
    }
  }

  /** json_validate: true exactly when json_decode is not NULL. */
  method Validate(libc: Libc, ghost f: Forest, text: bytes) returns (ok: bool)
    requires CString(text) && f.Valid()
    modifies f, f.cells.Keys
    ensures ok <==> JsonDecode(libc, Rest(text, 0)).Some?
    ensures ok <==> exists v :: InGrammar(libc, Rest(text, 0), v)
    ensures f.Valid() && SameForest(old(f.cells), f.cells)
  {
    RecognisesTheGrammar(libc, Rest(text, 0));
    var s := ScanSpaces(text, 0);
    var node;
    ok, s, node := Value(libc, f, text, s, false);
    if ok {
      s := ScanSpaces(text, s);
      Look(text, s);
      ok := text[s] == 0;
    }
  }
}
