/** What json_check asks of a tree beyond its links, and what the editing operations do to that. */
module JsonSound {
  import opened Utf8
  import opened Wrappers
  import opened JsonGrammar
  import opened JsonTree
  import opened JsonMeaning
  import opened JsonApi

  /** The keys json_check lets a child of v have; members always have one. */
  predicate KeyFits(v: Json, key: Option<bytes>) {
    (v.Array? ==> key == None) && (key.Some? ==> Valid(key.value))
  }

  /** What json_check asks of a tree beyond its links: valid UTF-8, and no keys on elements. */
  ghost predicate Sound(h: Cells, n: JsonNode, v: Json)
    requires Denotes(h, n, v)
    decreases v
  {
    && (v.String? ==> Valid(v.str))
    && forall i {:trigger h[n].kids[i]} | 0 <= i < Count(v) ::
         KeyFits(v, KeyOf(h, h[n].kids[i])) && Sound(h, h[n].kids[i], Kid(v, i))
  }

  lemma {:induction false} SoundFrame(h: Cells, h': Cells, n: JsonNode, v: Json)
    requires WellLinked(h) && Denotes(h, n, v) && Denotes(h', n, v)
    requires forall x {:trigger AgreeAt(h, h', x, n)} | x in Sub(h, n, v) :: AgreeAt(h, h', x, n)
    ensures Sound(h', n, v) <==> Sound(h, n, v)
    decreases v
  {
    assert AgreeAt(h, h', n, n) && Linked(h, n);
    forall i | 0 <= i < Count(v)
      ensures KeyOf(h', h[n].kids[i]) == KeyOf(h, h[n].kids[i])
      ensures Sound(h', h[n].kids[i], Kid(v, i)) <==> Sound(h, h[n].kids[i], Kid(v, i))
    {
      var k := h[n].kids[i];
      KidsInSub(h, n, v, i);
      NotBelowItself(h, n, v, i);
      assert k in Sub(h, k, Kid(v, i)) && AgreeAt(h, h', k, n);
      forall x | x in Sub(h, k, Kid(v, i)) ensures AgreeAt(h, h', x, k) {
        assert AgreeAt(h, h', x, n);
      }
      SoundFrame(h, h', k, Kid(v, i));
    }
  }

  lemma EditKeepsSound(h: Cells, h': Cells, p: JsonNode, kids: seq<JsonNode>, c: JsonNode,
                       up: JsonNode?, key: Option<bytes>, n: JsonNode, v: Json)
    requires WellLinked(h) && Edited(h, h', p, kids, c, up, key) && Denotes(h, n, v) && p !in Sub(h, n, v)
    requires c in h && (h[c].parent == null || h[c].parent == p)
    ensures Denotes(h', n, v) && (Sound(h', n, v) <==> Sound(h, n, v))
  {
    EditKeeps(h, h', p, kids, c, up, key, n, v);
    forall x | x in Sub(h, n, v) ensures AgreeAt(h, h', x, n) {
      SubAlive(h, n, v);
      assert EditedAt(h, h', p, kids, c, up, key, x);
      if x != n { SubHasParents(h, n, v, x); }
    }
    SoundFrame(h, h', n, v);
  }

  /** The i-th child of a node, with its key. */
  ghost predicate SoundKid(h: Cells, n: JsonNode, v: Json, i: nat)
    requires Denotes(h, n, v) && i < Count(v)
  {
    KeyFits(v, KeyOf(h, h[n].kids[i])) && Sound(h, h[n].kids[i], Kid(v, i))
  }

  lemma SoundByKids(h: Cells, n: JsonNode, v: Json)
    requires Denotes(h, n, v)
    ensures Sound(h, n, v) <==> (v.String? ==> Valid(v.str)) && forall i | 0 <= i < Count(v) :: SoundKid(h, n, v, i)
  {
    if forall i | 0 <= i < Count(v) :: SoundKid(h, n, v, i) {
      forall i | 0 <= i < Count(v) ensures KeyFits(v, KeyOf(h, h[n].kids[i])) && Sound(h, h[n].kids[i], Kid(v, i)) {
        assert SoundKid(h, n, v, i);
      }
    }
  }

  /** What an edit at p leaves of one of p's former children. */
  lemma KidStaysSound(h: Cells, h': Cells, p: JsonNode, kids: seq<JsonNode>, c: JsonNode,
                      up: JsonNode?, key: Option<bytes>, v: Json, i: nat)
    requires WellLinked(h) && Edited(h, h', p, kids, c, up, key) && Denotes(h, p, v) && i < Count(v)
    requires c in h && (h[c].parent == null || h[c].parent == p)
    ensures var k := h[p].kids[i];
      Denotes(h', k, Kid(v, i)) && (Sound(h', k, Kid(v, i)) <==> Sound(h, k, Kid(v, i)))
      && KeyOf(h', k) == (if k == c then key else KeyOf(h, k))
  {
    var k := h[p].kids[i];
    assert Denotes(h, k, Kid(v, i));
    NotBelowItself(h, p, v, i);
    EditKeepsSound(h, h', p, kids, c, up, key, k, Kid(v, i));
    assert EditedAt(h, h', p, kids, c, up, key, k);
  }

  /** Where a child goes when one is put in at place m. */
  function Shifted(i: nat, m: nat): nat { if i < m then i else i + 1 }

  /** Two containers, the second with one child more, at place m. */
  ghost predicate OneKidMore(h: Cells, h': Cells, p: JsonNode, v: Json, v': Json, m: nat)
  {
    && Denotes(h, p, v) && Denotes(h', p, v') && !v.String? && !v'.String?
    && m <= Count(v) && Count(v') == Count(v) + 1
    && forall i {:trigger SoundKid(h, p, v, i)} | 0 <= i < Count(v) ::
         SoundKid(h', p, v', Shifted(i, m)) <==> SoundKid(h, p, v, i)
  }

  lemma SoundWithOneMore(h: Cells, h': Cells, p: JsonNode, v: Json, v': Json, m: nat)
    requires OneKidMore(h, h', p, v, v', m)
    ensures Sound(h', p, v') <==> Sound(h, p, v) && SoundKid(h', p, v', m)
  {
    SoundByKids(h, p, v);
    SoundByKids(h', p, v');
    forall j | 0 <= j < Count(v') && j != m
      ensures j == Shifted(if j < m then j else j - 1, m)
      ensures SoundKid(h', p, v', j) <==> SoundKid(h, p, v, if j < m then j else j - 1)
    {
    }
    forall i | 0 <= i < Count(v) ensures SoundKid(h', p, v', Shifted(i, m)) <==> SoundKid(h, p, v, i) {}
  }

  /** Exactly when json_check still accepts a container after an append. */
  lemma AppendSound(h: Cells, h': Cells, p: JsonNode, v: Json, c: JsonNode, w: Json, key: Option<bytes>)
    requires WellLinked(h) && Denotes(h, p, v) && Denotes(h, c, w) && p !in Sub(h, c, w)
    requires v.Array? || (v.Object? && key.Some?)
    requires h[c].parent == null && Edited(h, h', p, h[p].kids + [c], c, p, key)
    ensures Denotes(h', p, Append(v, w, key))
    ensures Sound(h', p, Append(v, w, key)) <==> Sound(h, p, v) && Sound(h, c, w) && KeyFits(v, key)
  {
    var kids, v', n := h[p].kids + [c], Append(v, w, key), Count(v);
    AppendMeans(h, h', p, v, c, w, key);
    NewKidSound(h, h', p, kids, v, c, w, key, v', n);
    OldKidsSound(h, h', p, kids, v, c, key, v', n);
    SoundWithOneMore(h, h', p, v, v', n);
  }

  /** Exactly when json_check still accepts a container after a prepend. */
  lemma PrependSound(h: Cells, h': Cells, p: JsonNode, v: Json, c: JsonNode, w: Json, key: Option<bytes>)
    requires WellLinked(h) && Denotes(h, p, v) && Denotes(h, c, w) && p !in Sub(h, c, w)
    requires v.Array? || (v.Object? && key.Some?)
    requires h[c].parent == null && Edited(h, h', p, [c] + h[p].kids, c, p, key)
    ensures Denotes(h', p, Prepend(v, w, key))
    ensures Sound(h', p, Prepend(v, w, key)) <==> Sound(h, p, v) && Sound(h, c, w) && KeyFits(v, key)
  {
    var kids, v' := [c] + h[p].kids, Prepend(v, w, key);
    PrependMeans(h, h', p, v, c, w, key);
    NewKidSound(h, h', p, kids, v, c, w, key, v', 0);
    OldKidsSound(h, h', p, kids, v, c, key, v', 0);
    SoundWithOneMore(h, h', p, v, v', 0);
  }

  lemma OldKidsSound(h: Cells, h': Cells, p: JsonNode, kids: seq<JsonNode>, v: Json, c: JsonNode, key: Option<bytes>,
                     v': Json, m: nat)
    requires WellLinked(h) && Edited(h, h', p, kids, c, p, key) && Denotes(h, p, v) && Denotes(h', p, v')
    requires c in h && h[c].parent == null && (v'.Array? <==> v.Array?) && (v'.Object? <==> v.Object?)
    requires !v.String? && !v'.String? && m <= Count(v) && Count(v') == |kids| == Count(v) + 1
    requires forall i | 0 <= i < Count(v) :: kids[Shifted(i, m)] == h[p].kids[i] && Kid(v', Shifted(i, m)) == Kid(v, i)
    ensures OneKidMore(h, h', p, v, v', m)
  {
    NotAKid(h, p, c);
    forall i | 0 <= i < Count(v) ensures SoundKid(h', p, v', Shifted(i, m)) <==> SoundKid(h, p, v, i) {
      assert h[p].kids[i] in h[p].kids && kids[Shifted(i, m)] == h[p].kids[i];
      OldKidSound(h, h', p, kids, v, c, key, v', i, Shifted(i, m));
    }
  }

  lemma NewKidSound(h: Cells, h': Cells, p: JsonNode, kids: seq<JsonNode>, v: Json, c: JsonNode, w: Json,
                    key: Option<bytes>,
                    v': Json, m: nat)
    requires WellLinked(h) && Edited(h, h', p, kids, c, p, key) && p in h && Denotes(h, c, w) && p !in Sub(h, c, w)
    requires h[c].parent == null && (v'.Array? <==> v.Array?)
    requires Denotes(h', p, v') && m < Count(v') && |kids| == Count(v') && kids[m] == c && Kid(v', m) == w
    ensures SoundKid(h', p, v', m) <==> Sound(h, c, w) && KeyFits(v, key)
  {
    EditKeepsSound(h, h', p, kids, c, p, key, c, w);
    assert EditedAt(h, h', p, kids, c, p, key, p) && EditedAt(h, h', p, kids, c, p, key, c);
  }

  /** A child that an insertion or a removal moves from place i to place m. */
  lemma OldKidSound(h: Cells, h': Cells, p: JsonNode, kids: seq<JsonNode>, v: Json, c: JsonNode, key: Option<bytes>,
                    v': Json, i: nat, m: nat)
    requires WellLinked(h) && Edited(h, h', p, kids, c, if c in h && h[c].parent == null then p else null, key)
    requires c in h && (h[c].parent == null || h[c].parent == p) && Denotes(h, p, v) && (v'.Array? <==> v.Array?)
    requires Denotes(h', p, v') && i < Count(v) && m < Count(v') && |kids| == Count(v')
    requires kids[m] == h[p].kids[i] && Kid(v', m) == Kid(v, i) && h[p].kids[i] != c
    ensures SoundKid(h', p, v', m) <==> SoundKid(h, p, v, i)
  {
    var up := if h[c].parent == null then p else null;
    KidStaysSound(h, h', p, kids, c, up, key, v, i);
    assert EditedAt(h, h', p, kids, c, up, key, p);
  }

  /** Exactly when json_check accepted a container before a removal: when it accepts what is left and what
      was taken out, and the key was all right. */
  lemma RemoveSound(h: Cells, h': Cells, p: JsonNode, v: Json, i: nat)
    requires WellLinked(h) && Denotes(h, p, v) && i < Count(v)
    requires Edited(h, h', p, Without(h[p].kids, i), h[p].kids[i], null, None)
    ensures Denotes(h', p, Remove(v, i)) && Denotes(h', h[p].kids[i], Kid(v, i))
    ensures Sound(h, p, v)
            <==> Sound(h', p, Remove(v, i)) && Sound(h', h[p].kids[i], Kid(v, i)) && KeyFits(v, KeyOf(h, h[p].kids[i]))
  {
    var c, v' := h[p].kids[i], Remove(v, i);
    assert Linked(h, p) && KidLinked(h, p, h[p].kids, i);
    RemoveMeans(h, h', p, v, i);
    KidStaysSound(h, h', p, Without(h[p].kids, i), c, null, None, v, i);
    assert SoundKid(h, p, v, i) <==> Sound(h', c, Kid(v, i)) && KeyFits(v, KeyOf(h, c));
    forall m | 0 <= m < Count(v') ensures SoundKid(h, p, v, Shifted(m, i)) <==> SoundKid(h', p, v', m) {
      RemainingKidSound(h, h', p, v, i, Shifted(m, i), m);
    }
    SoundWithOneMore(h', h, p, v', v, i);
  }

  lemma RemainingKidSound(h: Cells, h': Cells, p: JsonNode, v: Json, i: nat, k: nat, m: nat)
    requires WellLinked(h) && Denotes(h, p, v) && i < Count(v) && k < Count(v) && k != i
      && m == (if k < i then k else k - 1)
    requires Edited(h, h', p, Without(h[p].kids, i), h[p].kids[i], null, None) && Denotes(h', p, Remove(v, i))
    ensures m < Count(Remove(v, i)) && (SoundKid(h', p, Remove(v, i), m) <==> SoundKid(h, p, v, k))
  {
    var kids := Without(h[p].kids, i);
    assert Linked(h, p) && KidLinked(h, p, h[p].kids, i);
    assert kids[m] == h[p].kids[k] && Kid(Remove(v, i), m) == Kid(v, k);
    OldKidSound(h, h', p, kids, v, h[p].kids[i], None, Remove(v, i), k, m);
  }

  // Above the edited node.

  /** A tree that json_check accepts has only such subtrees. */
  lemma {:induction false} SoundBelow(h: Cells, n: JsonNode, v: Json, p: JsonNode, u: Json)
    requires Denotes(h, n, v) && Sound(h, n, v) && p in Sub(h, n, v) && Denotes(h, p, u)
    ensures Sound(h, p, u)
    decreases v
  {
    if n == p {
      DenotesUnique(h, n, v, u);
    } else {
      var i := InSub(h, n, v, p);
      SoundBelow(h, h[n].kids[i], Kid(v, i), p, u);
    }
  }

  /** The edited node is still below the nodes it was below. */
  lemma {:induction false} ExchangeInSub(h: Cells, h': Cells, p: JsonNode, kids: seq<JsonNode>, c: JsonNode,
                                         up: JsonNode?, key: Option<bytes>, n: JsonNode, v: Json, w: Json)
    requires WellLinked(h) && Edited(h, h', p, kids, c, up, key) && Denotes(h, n, v) && Denotes(h', p, w)
    requires c in h && (h[c].parent == null || h[c].parent == p)
    requires p in Sub(h, n, v) && Denotes(h', n, Exchange(h, n, v, p, w))
    ensures p in Sub(h', n, Exchange(h, n, v, p, w))
    decreases v
  {
    if n != p {
      var i := InSub(h, n, v, p);
      var k := h[n].kids[i];
      assert EditedAt(h, h', p, kids, c, up, key, n);
      EditExchanges(h, h', p, kids, c, up, key, k, Kid(v, i), w);
      ExchangeInSub(h, h', p, kids, c, up, key, k, Kid(v, i), w);
      assert Kid(Exchange(h, n, v, p, w), i) == Exchange(h, k, Kid(v, i), p, w);
      KidsInSub(h', n, Exchange(h, n, v, p, w), i);
    }
  }

  /** A tree whose parts outside the edited node were sound is sound when the new part is. */
  lemma {:induction false} ExchangeStaysSound(h: Cells, h': Cells, p: JsonNode, kids: seq<JsonNode>, c: JsonNode,
                                              up: JsonNode?, key: Option<bytes>, n: JsonNode, v: Json, w: Json)
    requires WellLinked(h) && Edited(h, h', p, kids, c, up, key) && Denotes(h, n, v) && Denotes(h', p, w)
    requires c in h && (h[c].parent == null || h[c].parent == p)
    requires Sound(h, n, v) && (p in Sub(h, n, v) ==> Sound(h', p, w))
    ensures Denotes(h', n, Exchange(h, n, v, p, w)) && Sound(h', n, Exchange(h, n, v, p, w))
    decreases v
  {
    EditExchanges(h, h', p, kids, c, up, key, n, v, w);
    if n != p {
      var v' := Exchange(h, n, v, p, w);
      assert EditedAt(h, h', p, kids, c, up, key, n);
      forall i | 0 <= i < Count(v') ensures SoundKid(h', n, v', i) {
        ExchangedKid(h, h', p, kids, c, up, key, n, v, w, i);
        ExchangeStaysSound(h, h', p, kids, c, up, key, h[n].kids[i], Kid(v, i), w);
      }
      SoundByKids(h', n, v');
    }
  }

  lemma ExchangedKid(h: Cells, h': Cells, p: JsonNode, kids: seq<JsonNode>, c: JsonNode,
                     up: JsonNode?, key: Option<bytes>, n: JsonNode, v: Json, w: Json, i: nat)
    requires WellLinked(h) && Edited(h, h', p, kids, c, up, key) && Denotes(h, n, v) && n != p && i < Count(v)
    requires c in h && (h[c].parent == null || h[c].parent == p)
    ensures var k := h[n].kids[i];
      n in h' && h'[n].kids == h[n].kids && KeyOf(h', k) == KeyOf(h, k) && Denotes(h, k, Kid(v, i))
      && Kid(Exchange(h, n, v, p, w), i) == Exchange(h, k, Kid(v, i), p, w)
      && (Sound(h, n, v) ==> SoundKid(h, n, v, i)) && (p in Sub(h, k, Kid(v, i)) ==> p in Sub(h, n, v))
  {
    var k := h[n].kids[i];
    assert Denotes(h, k, Kid(v, i));
    assert Linked(h, n) && KidLinked(h, n, h[n].kids, i);
    assert EditedAt(h, h', p, kids, c, up, key, n) && EditedAt(h, h', p, kids, c, up, key, k);
    KidsInSub(h, n, v, i);
  }

  /** Exactly when json_check still accepts a tree in which a node was edited: when it accepts that node. */
  lemma ExchangeSound(h: Cells, h': Cells, p: JsonNode, kids: seq<JsonNode>, c: JsonNode,
                      up: JsonNode?, key: Option<bytes>, n: JsonNode, v: Json, w: Json)
    requires WellLinked(h) && Edited(h, h', p, kids, c, up, key) && Denotes(h, n, v) && Denotes(h', p, w)
    requires c in h && (h[c].parent == null || h[c].parent == p)
    requires Sound(h, n, v)
    ensures Denotes(h', n, Exchange(h, n, v, p, w))
    ensures Sound(h', n, Exchange(h, n, v, p, w)) <==> (p in Sub(h, n, v) ==> Sound(h', p, w))
  {
    var v' := Exchange(h, n, v, p, w);
    EditExchanges(h, h', p, kids, c, up, key, n, v, w);
    if p !in Sub(h, n, v) || Sound(h', p, w) {
      ExchangeStaysSound(h, h', p, kids, c, up, key, n, v, w);
    } else if Sound(h', n, v') {
      ExchangeInSub(h, h', p, kids, c, up, key, n, v, w);
      SoundBelow(h', n, v', p, w);
    }
  }

  /** json_mkcopy keeps the key of a member, so json_check refuses an array that the copy was appended to
      with json_append_element, however sound everything was before. */
  lemma CopiedMemberSpoilsArray(h: Cells, h1: Cells, h2: Cells, arr: JsonNode, v: Json, m: JsonNode, cpy: JsonNode,
                                w: Json)
    requires WellLinked(h1) && m in h && h[m].key.Some? && v.Array?
    requires Denotes(h, arr, v) && Denotes(h1, arr, v) && arr in h && NewTree(h, h1, cpy, w, h[m].key)
    requires Edited(h1, h2, arr, h1[arr].kids + [cpy], cpy, arr, h1[cpy].key)
    ensures Denotes(h2, arr, Append(v, w, h[m].key)) && !Sound(h2, arr, Append(v, w, h[m].key))
  {
    InNewTree(h, h1, cpy, w, h[m].key);
    AppendMeans(h1, h2, arr, v, cpy, w, h[m].key);
    AppendSound(h1, h2, arr, v, cpy, w, h[m].key);
  }
}
