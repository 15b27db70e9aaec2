/** What json_decode makes of a text, said of the bytes themselves: a second account of the format that speaks neither
    of the concrete syntax of JsonGrammar nor of the alphabet and the escapes that the parser shares with it.  Of the
    functions the parser uses only WriteChar, Hex16 and FromSurrogatePair occur; Utf8 gives their values in numbers. */
module JsonTexts {
  import opened Utf8
  import opened Wrappers
  import opened JsonGrammar
  import opened JsonParse

  // The format.

  /** Blanks, tabs and line ends. */
  predicate Blank(s: bytes) { forall i | 0 <= i < |s| :: s[i] in {0x20, 0x09, 0x0A, 0x0D} }

  ghost predicate Around(text: bytes, core: bytes) {
    exists before, after :: Blank(before) && Blank(after) && text == before + core + after
  }

  predicate AllDigits(s: bytes) { s != [] && forall i | 0 <= i < |s| :: 0x30 <= s[i] <= 0x39 }

  predicate WholeText(s: bytes) { AllDigits(s) && (s[0] == 0x30 ==> |s| == 1) }

  predicate FractionText(s: bytes) { s == [] || (s[0] == 0x2E && AllDigits(s[1..])) }

  predicate ExponentText(s: bytes) {
    s == [] ||
    (s[0] in {0x45, 0x65} && (AllDigits(s[1..]) || (|s| > 1 && s[1] in {0x2B, 0x2D} && AllDigits(s[2..]))))
  }

  ghost predicate NumberText(s: bytes) {
    exists sign, whole, fraction, exponent ::
      s == sign + whole + fraction + exponent
      && (sign == [] || sign == [0x2D]) && WholeText(whole) && FractionText(fraction) && ExponentText(exponent)
  }

  /** A backslash, a u and four digits, which are worth what HexInNumbers says. */
  predicate UnitText(s: bytes, hex: bytes) { IsHex16(hex) && s == [0x5C, 0x75] + hex }

  predicate LetterText(s: bytes, c: bytes) {
    |s| == 2 && |c| == 1 && s[0] == 0x5C
    && (s[1], c[0]) in {(0x22, 0x22), (0x5C, 0x5C), (0x2F, 0x2F), (0x62, 0x08), (0x66, 0x0C), (0x6E, 0x0A),
                        (0x72, 0x0D), (0x74, 0x09)}
  }

  /** A character that stands for itself. */
  ghost predicate PlainText(s: bytes, c: bytes) {
    exists u: uchar ::
      0x20 <= u <= 0x10FFFF && u != 0x22 && u != 0x5C && !(0xD800 <= u < 0xE000) && s == c == WriteChar(u)
  }

  /** Not zero and no half of a pair. */
  predicate Alone(n: bv16) { n != 0 && !(0xD800 <= n < 0xE000) }

  predicate UnitSpells(s: bytes, hex: bytes, c: bytes) {
    UnitText(s, hex) && Alone(Hex16(hex)) && c == WriteChar(Hex16(hex) as uchar)
  }

  ghost predicate UnicodeText(s: bytes, c: bytes) { exists hex :: UnitSpells(s, hex, c) }

  predicate PairSpells(s: bytes, high: bytes, low: bytes, c: bytes) {
    |s| == 12 && UnitText(s[..6], high) && UnitText(s[6..], low)
    && (var p := FromSurrogatePair(Hex16(high), Hex16(low)); p.Pair? && c == WriteChar(p.unicode))
  }

  /** Two of them, a pair that is worth what PairInNumbers says. */
  ghost predicate PairText(s: bytes, c: bytes) { exists high, low :: PairSpells(s, high, low, c) }

  /** s spells the one character c. */
  ghost predicate CharText(s: bytes, c: bytes) {
    PlainText(s, c) || LetterText(s, c) || UnicodeText(s, c) || PairText(s, c)
  }

  /** The pieces one behind the other. */
  function Joined(pieces: seq<bytes>): bytes {
    if pieces == [] then [] else pieces[0] + Joined(pieces[1..])
  }

  /** t, between quotation marks, spells s. */
  ghost predicate StringText(t: bytes, s: bytes) {
    exists ts, cs ::
      |ts| == |cs| && (forall i | 0 <= i < |ts| :: CharText(ts[i], cs[i])) && t == Joined(ts) && s == Joined(cs)
  }

  /** The pieces with commas between them. */
  function Listed(pieces: seq<bytes>): bytes
    requires pieces != []
  {
    if |pieces| == 1 then pieces[0] else pieces[0] + [0x2C] + Listed(pieces[1..])
  }

  /** The texts of the elements of an array or of the members of an object. */
  ghost predicate ListText(s: bytes, pieces: seq<bytes>) {
    if pieces == [] then Blank(s) else s == Listed(pieces)
  }

  // Words and numbers.

  lemma BlankIsSpaces(s: bytes)
    ensures Blank(s) <==> Spaces(s)
  {}

  /** The spelling by which a text was decoded. */
  lemma Spelled(libc: Libc, text: bytes, v: Json) returns (before: bytes, x: Syntax, after: bytes)
    requires JsonDecode(libc, text) == Some(v)
    ensures Blank(before) && Blank(after) && SyntaxOk(x) && Clean(x)
    ensures text == before + Unparse(x) + after && Meaning(libc, x) == v
  {
    DecodeIsTheGrammar(libc, text, v);
    before, x, after :|
      Spaces(before) && Spaces(after) && SyntaxOk(x) && Clean(x)
      && text == before + Unparse(x) + after && v == Meaning(libc, x);
    BlankIsSpaces(before);
    BlankIsSpaces(after);
  }

  lemma SpellingDecodes(libc: Libc, text: bytes, x: Syntax)
    requires SyntaxOk(x) && Clean(x) && Around(text, Unparse(x))
    ensures JsonDecode(libc, text) == Some(Meaning(libc, x))
  {
    var before, after :| Blank(before) && Blank(after) && text == before + Unparse(x) + after;
    BlankIsSpaces(before);
    BlankIsSpaces(after);
    DecodeSpelling(libc, before, x, after);
  }

  lemma WordsDecode(libc: Libc, text: bytes)
    ensures JsonDecode(libc, text) == Some(Null) <==> Around(text, [0x6E, 0x75, 0x6C, 0x6C])
    ensures JsonDecode(libc, text) == Some(Bool(true)) <==> Around(text, [0x74, 0x72, 0x75, 0x65])
    ensures JsonDecode(libc, text) == Some(Bool(false)) <==> Around(text, [0x66, 0x61, 0x6C, 0x73, 0x65])
  {
    WordDecodes(libc, text, SNull);
    WordDecodes(libc, text, STrue);
    WordDecodes(libc, text, SFalse);
  }

  lemma WordDecodes(libc: Libc, text: bytes, word: Syntax)
    requires word.SNull? || word.STrue? || word.SFalse?
    ensures JsonDecode(libc, text) == Some(Meaning(libc, word)) <==> Around(text, Unparse(word))
  {
    if JsonDecode(libc, text) == Some(Meaning(libc, word)) {
      var before, x, after := Spelled(libc, text, Meaning(libc, word));
      assert x == word;
    }
    if Around(text, Unparse(word)) { SpellingDecodes(libc, text, word); }
  }

  /** Section 6 of RFC 8259; the C library is given the digits and nothing else. */
  lemma NumbersDecode(libc: Libc, text: bytes, n: Double)
    ensures JsonDecode(libc, text) == Some(Number(n))
            <==> exists t :: NumberText(t) && Around(text, t) && n == libc.strtod(t)
  {
    if JsonDecode(libc, text) == Some(Number(n)) {
      var before, x, after := Spelled(libc, text, Number(n));
      NumberIsText(x.number);
    }
    if t :| NumberText(t) && Around(text, t) && n == libc.strtod(t) {
      var x := TextIsNumber(t);
      SpellingDecodes(libc, text, SNumber(x));
    }
  }

  lemma NumberIsText(n: NumberSyntax)
    requires NumberOk(n)
    ensures NumberText(UnparseNumber(n))
  {
    var sign: bytes := if n.minus then [0x2D] else [];
    FractionIsText(n.frac);
    ExponentIsText(n.exp);
    assert WholeText(n.whole);
    assert UnparseNumber(n) == sign + n.whole + UnparseFrac(n.frac) + UnparseExp(n.exp);
  }

  lemma FractionIsText(f: Option<bytes>)
    requires f.Some? ==> Digits(f.value)
    ensures FractionText(UnparseFrac(f))
  {
    if f.Some? { assert UnparseFrac(f)[1..] == f.value; }
  }

  lemma ExponentIsText(e: Option<Exponent>)
    requires e.Some? ==> ExponentOk(e.value)
    ensures ExponentText(UnparseExp(e))
  {
    if e.Some? {
      var s, t := UnparseExp(e), e.value;
      if t.sign == [] {
        assert s[1..] == t.digits;
      } else {
        assert s[1] == t.sign[0] && s[2..] == t.digits;
      }
    }
  }

  lemma TextIsNumber(t: bytes) returns (n: NumberSyntax)
    requires NumberText(t)
    ensures NumberOk(n) && UnparseNumber(n) == t
  {
    var sign, whole, fraction, exponent :|
      t == sign + whole + fraction + exponent
      && (sign == [] || sign == [0x2D]) && WholeText(whole) && FractionText(fraction) && ExponentText(exponent);
    var f := TextIsFraction(fraction);
    var e := TextIsExponent(exponent);
    n := NumberSyntax(sign != [], whole, f, e);
    assert WholeOk(whole) by { if whole[0] == 0x30 { assert whole == [0x30]; } }
  }

  lemma TextIsFraction(s: bytes) returns (f: Option<bytes>)
    requires FractionText(s)
    ensures (f.Some? ==> Digits(f.value)) && UnparseFrac(f) == s
  {
    f := if s == [] then None else Some(s[1..]);
    if s != [] { assert s == [s[0]] + s[1..]; }
  }

  lemma TextIsExponent(s: bytes) returns (e: Option<Exponent>)
    requires ExponentText(s)
    ensures (e.Some? ==> ExponentOk(e.value)) && UnparseExp(e) == s
  {
    if s == [] {
      e := None;
    } else if AllDigits(s[1..]) {
      e := Some(Exponent(s[0], [], s[1..]));
      assert s == [s[0]] + [] + s[1..];
    } else {
      e := Some(Exponent(s[0], [s[1]], s[2..]));
      assert s == [s[0]] + [s[1]] + s[2..];
    }
  }

  // Strings.

  lemma AloneIsAllowed(n: bv16)
    ensures Alone(n) <==> n != 0 && !IsSurrogate(n)
  {}

  lemma CharIsText(c: CharSyntax)
    requires CharOk(c) && CharClean(c)
    ensures CharText(UnparseChar(c), CharMeaning(c))
  {
    var s, m := UnparseChar(c), CharMeaning(c);
    match c {
      case Raw(u) =>
        assert PlainText(s, m);
      case Escape(letter) =>
        assert LetterText(s, m);
      case Unicode(hex) =>
        AloneIsAllowed(Hex16(hex));
        assert UnitSpells(s, hex, m);
      case Surrogates(high, low) =>
        PairIsText(high, low);
    }
  }

  lemma PairIsText(high: bytes, low: bytes)
    requires CharOk(Surrogates(high, low))
    ensures PairText(UnparseChar(Surrogates(high, low)), CharMeaning(Surrogates(high, low)))
  {
    var s := UnparseChar(Surrogates(high, low));
    Halves(high, low, s);
    assert PairSpells(s, high, low, CharMeaning(Surrogates(high, low)));
  }

  lemma Halves(high: bytes, low: bytes, s: bytes)
    requires |high| == 4 && |low| == 4 && s == [0x5C, 0x75] + high + ([0x5C, 0x75] + low)
    ensures |s| == 12 && s[..6] == [0x5C, 0x75] + high && s[6..] == [0x5C, 0x75] + low
  {}

  lemma TextIsChar(s: bytes, m: bytes) returns (c: CharSyntax)
    requires CharText(s, m)
    ensures CharOk(c) && CharClean(c) && UnparseChar(c) == s && CharMeaning(c) == m
  {
    if PlainText(s, m) {
      var u: uchar :|
        0x20 <= u <= 0x10FFFF && u != 0x22 && u != 0x5C && !(0xD800 <= u < 0xE000) && s == m == WriteChar(u);
      c := Raw(u);
    } else if LetterText(s, m) {
      c := Escape(s[1]);
    } else if UnicodeText(s, m) {
      c := TextIsUnicode(s, m);
    } else {
      c := TextIsPair(s, m);
    }
  }

  lemma TextIsUnicode(s: bytes, m: bytes) returns (c: CharSyntax)
    requires UnicodeText(s, m)
    ensures CharOk(c) && CharClean(c) && UnparseChar(c) == s && CharMeaning(c) == m
  {
    var hex :| UnitSpells(s, hex, m);
    AloneIsAllowed(Hex16(hex));
    UnitIsChar(s, hex, m);
    c := Unicode(hex);
  }

  lemma UnitIsChar(s: bytes, hex: bytes, m: bytes)
    requires UnitSpells(s, hex, m) && Hex16(hex) != 0 && !IsSurrogate(Hex16(hex))
    ensures CharOk(Unicode(hex)) && CharMeaning(Unicode(hex)) == m
  {}

  lemma TextIsPair(s: bytes, m: bytes) returns (c: CharSyntax)
    requires PairText(s, m)
    ensures CharOk(c) && CharClean(c) && UnparseChar(c) == s && CharMeaning(c) == m
  {
    var high, low :| PairSpells(s, high, low, m);
    c := Surrogates(high, low);
    assert s == s[..6] + s[6..];
  }

  lemma {:induction false} CharsAreText(cs: seq<CharSyntax>) returns (ts: seq<bytes>, ms: seq<bytes>)
    requires CharsOk(cs) && CharsClean(cs)
    ensures |ts| == |ms| && forall i | 0 <= i < |ts| :: CharText(ts[i], ms[i])
    ensures UnparseChars(cs) == Joined(ts) + [0x22] && CharsMeaning(cs) == Joined(ms)
  {
    if cs == [] {
      ts, ms := [], [];
    } else {
      var ts', ms' := CharsAreText(cs[1..]);
      CharIsText(cs[0]);
      ts, ms := [UnparseChar(cs[0])] + ts', [CharMeaning(cs[0])] + ms';
      assert ts[1..] == ts' && ms[1..] == ms';
    }
  }

  lemma {:induction false} TextIsChars(ts: seq<bytes>, ms: seq<bytes>) returns (cs: seq<CharSyntax>)
    requires |ts| == |ms| && forall i | 0 <= i < |ts| :: CharText(ts[i], ms[i])
    ensures CharsOk(cs) && CharsClean(cs)
    ensures UnparseChars(cs) == Joined(ts) + [0x22] && CharsMeaning(cs) == Joined(ms)
  {
    if ts == [] {
      cs := [];
    } else {
      var c := TextIsChar(ts[0], ms[0]);
      var more := TextIsChars(ts[1..], ms[1..]);
      cs := [c] + more;
      assert cs[1..] == more;
    }
  }

  /** Section 7 of RFC 8259, less U+0000. */
  lemma StringsDecode(libc: Libc, text: bytes, s: bytes)
    ensures JsonDecode(libc, text) == Some(String(s))
            <==> exists t :: StringText(t, s) && Around(text, [0x22] + t + [0x22])
  {
    if JsonDecode(libc, text) == Some(String(s)) {
      var before, x, after := Spelled(libc, text, String(s));
      var t := CharsAreString(x.chars);
      QuotedText(x.chars, t);
    }
    if t :| StringText(t, s) && Around(text, [0x22] + t + [0x22]) {
      var cs := StringIsChars(t, s);
      QuotedText(cs, t);
      SpellingDecodes(libc, text, SString(cs));
    }
  }

  lemma QuotedText(cs: seq<CharSyntax>, t: bytes)
    requires UnparseChars(cs) == t + [0x22]
    ensures Unparse(SString(cs)) == [0x22] + t + [0x22]
  {
    assert [0x22] + (t + [0x22]) == [0x22] + t + [0x22];
  }

  lemma CharsAreString(cs: seq<CharSyntax>) returns (t: bytes)
    requires CharsOk(cs) && CharsClean(cs)
    ensures StringText(t, CharsMeaning(cs)) && UnparseChars(cs) == t + [0x22]
  {
    var ts, ms := CharsAreText(cs);
    t := Joined(ts);
  }

  lemma StringIsChars(t: bytes, s: bytes) returns (cs: seq<CharSyntax>)
    requires StringText(t, s)
    ensures CharsOk(cs) && CharsClean(cs) && UnparseChars(cs) == t + [0x22] && CharsMeaning(cs) == s
  {
    var ts, ms :|
      |ts| == |ms| && (forall i | 0 <= i < |ts| :: CharText(ts[i], ms[i])) && t == Joined(ts) && s == Joined(ms);
    cs := TextIsChars(ts, ms);
  }

  // Arrays and objects.

  lemma {:induction false} ListOf(libc: Libc, open: bytes, es: seq<Element>) returns (ts: seq<bytes>)
    requires es != [] && ElementsOk(es) && ElementsClean(es) && Blank(open)
    ensures |ts| == |es| && open + UnparseElements(es) == Listed(ts) + [0x5D]
    ensures forall i | 0 <= i < |ts| :: JsonDecode(libc, ts[i]) == Some(ElementsMeaning(libc, es)[i])
    decreases |es|
  {
    var e := es[0];
    var t := open + Unparse(e.value) + e.after;
    BlankIsSpaces(open);
    BlankIsSpaces(e.next);
    DecodeSpelling(libc, open, e.value, e.after);
    if |es| == 1 {
      ts := [t];
      ListEnd(open, Unparse(e.value), e.after, [0x5D]);
    } else {
      var more := ListOf(libc, e.next, es[1..]);
      ts := [t] + more;
      ListCons(t, more);
      ListStep(open, Unparse(e.value), e.after, e.next, UnparseElements(es[1..]), Listed(more), [0x5D]);
    }
  }

  lemma ListCons(t: bytes, more: seq<bytes>)
    requires more != []
    ensures Listed([t] + more) == t + [0x2C] + Listed(more)
  {
    assert ([t] + more)[1..] == more;
  }

  lemma ListEnd(open: bytes, value: bytes, after: bytes, end: bytes)
    ensures open + (value + after + end) == (open + value + after) + end
  {}

  lemma ListStep(open: bytes, value: bytes, after: bytes, next: bytes, rest: bytes, listed: bytes, end: bytes)
    requires next + rest == listed + end
    ensures open + (value + after + ([0x2C] + next + rest)) == (open + value + after) + [0x2C] + listed + end
  {
    assert [0x2C] + next + rest == [0x2C] + (next + rest);
    assert [0x2C] + (listed + end) == [0x2C] + listed + end;
  }

  lemma {:induction false} ElementsFrom(libc: Libc, ts: seq<bytes>, vs: seq<Json>)
    returns (open: bytes, es: seq<Element>)
    requires ts != [] && |ts| == |vs|
    requires forall i | 0 <= i < |ts| :: JsonDecode(libc, ts[i]) == Some(vs[i])
    ensures es != [] && ElementsOk(es) && ElementsClean(es) && Blank(open)
    ensures open + UnparseElements(es) == Listed(ts) + [0x5D] && ElementsMeaning(libc, es) == vs
  {
    var before, x, after := Spelled(libc, ts[0], vs[0]);
    open := before;
    BlankIsSpaces(after);
    if |ts| == 1 {
      es := [Element(x, after, [])];
      assert es[1..] == [];
      ListEnd(before, Unparse(x), after, [0x5D]);
    } else {
      var next, more := ElementsFrom(libc, ts[1..], vs[1..]);
      BlankIsSpaces(next);
      es := [Element(x, after, next)] + more;
      ElementsCons(libc, Element(x, after, next), more);
      ListStep(before, Unparse(x), after, next, UnparseElements(more), Listed(ts[1..]), [0x5D]);
    }
  }

  ghost predicate ArrayText(libc: Libc, text: bytes, vs: seq<Json>, t: bytes, ts: seq<bytes>) {
    |ts| == |vs| && ListText(t, ts) && Around(text, [0x5B] + t + [0x5D])
    && forall i | 0 <= i < |ts| :: JsonDecode(libc, ts[i]) == Some(vs[i])
  }

  /** Section 5 of RFC 8259: values with commas between them, in the order of the array. */
  lemma ArraysDecode(libc: Libc, text: bytes, vs: seq<Json>)
    ensures JsonDecode(libc, text) == Some(Array(vs)) <==> exists t, ts :: ArrayText(libc, text, vs, t, ts)
  {
    if JsonDecode(libc, text) == Some(Array(vs)) {
      var t, ts := ArrayIsText(libc, text, vs);
    }
    if t, ts :| ArrayText(libc, text, vs, t, ts) {
      TextIsArray(libc, text, vs, t, ts);
    }
  }

  lemma Bracketed(left: bytes, open: bytes, rest: bytes, t: bytes, right: bytes)
    requires open + rest == t + right
    ensures left + open + rest == left + t + right
  {
    assert left + open + rest == left + (open + rest);
    assert left + t + right == left + (t + right);
  }

  lemma ArrayIsText(libc: Libc, text: bytes, vs: seq<Json>) returns (t: bytes, ts: seq<bytes>)
    requires JsonDecode(libc, text) == Some(Array(vs))
    ensures ArrayText(libc, text, vs, t, ts)
  {
    var before, x, after := Spelled(libc, text, Array(vs));
    ts, t := [], x.open;
    BlankIsSpaces(x.open);
    if x.elements != [] {
      ts := ListOf(libc, x.open, x.elements);
      t := Listed(ts);
      Bracketed([0x5B], x.open, UnparseElements(x.elements), t, [0x5D]);
    }
    assert Unparse(x) == [0x5B] + t + [0x5D];
  }

  lemma TextIsArray(libc: Libc, text: bytes, vs: seq<Json>, t: bytes, ts: seq<bytes>)
    requires ArrayText(libc, text, vs, t, ts)
    ensures JsonDecode(libc, text) == Some(Array(vs))
  {
    var x := SArray(t, []);
    BlankIsSpaces(t);
    if ts != [] {
      var open, es := ElementsFrom(libc, ts, vs);
      x := SArray(open, es);
      BlankIsSpaces(open);
      Bracketed([0x5B], open, UnparseElements(es), t, [0x5D]);
    }
    assert Unparse(x) == [0x5B] + t + [0x5D];
    SpellingDecodes(libc, text, x);
  }

  /** The text of a member: a string, a colon and a value, each with white space around it. */
  ghost predicate MemberText(libc: Libc, s: bytes, m: Member) {
    exists key, value ::
      s == key + [0x3A] + value
      && JsonDecode(libc, key) == Some(String(m.key)) && JsonDecode(libc, value) == Some(m.value)
  }

  lemma FieldIsText(libc: Libc, before: bytes, f: Field)
    requires Blank(before) && FieldOk(f) && CharsClean(f.key) && Clean(f.value)
    ensures MemberText(libc, before + FieldText(UnparseChars(f.key), f.beforeColon, f.afterColon, Unparse(f.value),
                                                f.after), Member(CharsMeaning(f.key), Meaning(libc, f.value)))
  {
    var key, value := before + Unparse(SString(f.key)) + f.beforeColon, f.afterColon + Unparse(f.value) + f.after;
    BlankIsSpaces(before);
    DecodeSpelling(libc, before, SString(f.key), f.beforeColon);
    DecodeSpelling(libc, f.afterColon, f.value, f.after);
    MemberParts(before, UnparseChars(f.key), f.beforeColon, f.afterColon, Unparse(f.value), f.after);
    assert key + [0x3A] + value
        == before + FieldText(UnparseChars(f.key), f.beforeColon, f.afterColon, Unparse(f.value), f.after);
  }

  lemma MemberParts(before: bytes, key: bytes, beforeColon: bytes, afterColon: bytes, value: bytes, after: bytes)
    ensures before + FieldText(key, beforeColon, afterColon, value, after)
            == (before + ([0x22] + key) + beforeColon) + [0x3A] + (afterColon + value + after)
  {}

  lemma TextIsField(libc: Libc, s: bytes, m: Member) returns (before: bytes, f: Field)
    requires MemberText(libc, s, m)
    ensures Blank(before) && FieldOk(f) && f.next == [] && CharsClean(f.key) && Clean(f.value)
    ensures CharsMeaning(f.key) == m.key && Meaning(libc, f.value) == m.value
    ensures s == before + FieldText(UnparseChars(f.key), f.beforeColon, f.afterColon, Unparse(f.value), f.after)
  {
    var key, value :| s == key + [0x3A] + value
      && JsonDecode(libc, key) == Some(String(m.key)) && JsonDecode(libc, value) == Some(m.value);
    var b, k, beforeColon := Spelled(libc, key, String(m.key));
    var afterColon, v, after := Spelled(libc, value, m.value);
    BlankIsSpaces(beforeColon);
    BlankIsSpaces(afterColon);
    BlankIsSpaces(after);
    before, f := b, Field(k.chars, beforeColon, afterColon, v, after, []);
    MemberParts(before, UnparseChars(f.key), f.beforeColon, f.afterColon, Unparse(f.value), f.after);
  }

  /** The text of a member without the white space behind its comma. */
  function TextOfField(open: bytes, f: Field): bytes {
    open + FieldText(UnparseChars(f.key), f.beforeColon, f.afterColon, Unparse(f.value), f.after)
  }

  lemma {:induction false} ListOfFields(libc: Libc, open: bytes, fs: seq<Field>) returns (ts: seq<bytes>)
    requires fs != [] && FieldsOk(fs) && FieldsClean(fs) && Blank(open)
    ensures |ts| == |fs| && open + UnparseFields(fs) == Listed(ts) + [0x7D]
    ensures forall i | 0 <= i < |ts| :: MemberText(libc, ts[i], FieldsMeaning(libc, fs)[i])
    decreases |fs|
  {
    var f, rest := fs[0], fs[1..];
    assert fs == [f] + rest;
    FieldIsText(libc, open, f);
    FieldsTexts(open, f, rest);
    FieldsCons(libc, f, rest);
    if rest == [] {
      ts := [TextOfField(open, f)];
    } else {
      BlankIsSpaces(f.next);
      var more := ListOfFields(libc, f.next, rest);
      ts := [TextOfField(open, f)] + more;
      ListCons(TextOfField(open, f), more);
      CommaStep(TextOfField(open, f), f.next, UnparseFields(rest), Listed(more), [0x7D]);
    }
  }

  lemma CommaStep(t: bytes, next: bytes, rest: bytes, listed: bytes, end: bytes)
    requires next + rest == listed + end
    ensures t + ([0x2C] + next + rest) == t + [0x2C] + listed + end
  {
    assert [0x2C] + next + rest == [0x2C] + (next + rest);
    assert t + ([0x2C] + (listed + end)) == t + [0x2C] + listed + end;
  }

  lemma FieldsTexts(open: bytes, f: Field, rest: seq<Field>)
    ensures open + UnparseFields([f] + rest)
            == TextOfField(open, f) + if rest == [] then [0x7D] else [0x2C] + f.next + UnparseFields(rest)
  {
    var tail := if rest == [] then [0x7D] else [0x2C] + f.next + UnparseFields(rest);
    assert ([f] + rest)[1..] == rest;
    FieldTextThen(UnparseChars(f.key), f.beforeColon, f.afterColon, Unparse(f.value), f.after, tail);
    var t := FieldText(UnparseChars(f.key), f.beforeColon, f.afterColon, Unparse(f.value), f.after);
    assert open + (t + tail) == (open + t) + tail;
  }

  lemma {:induction false} FieldsFrom(libc: Libc, ts: seq<bytes>, ms: seq<Member>)
    returns (open: bytes, fs: seq<Field>)
    requires ts != [] && |ts| == |ms|
    requires forall i | 0 <= i < |ts| :: MemberText(libc, ts[i], ms[i])
    ensures fs != [] && FieldsOk(fs) && FieldsClean(fs) && Blank(open)
    ensures open + UnparseFields(fs) == Listed(ts) + [0x7D] && FieldsMeaning(libc, fs) == ms
  {
    var f: Field;
    open, f := TextIsField(libc, ts[0], ms[0]);
    if |ts| == 1 {
      fs := [f] + [];
      FieldsCons(libc, f, []);
      FieldsTexts(open, f, []);
    } else {
      var next, more := FieldsFrom(libc, ts[1..], ms[1..]);
      BlankIsSpaces(next);
      f := f.(next := next);
      fs := [f] + more;
      FieldsCons(libc, f, more);
      FieldsTexts(open, f, more);
      CommaStep(TextOfField(open, f), next, UnparseFields(more), Listed(ts[1..]), [0x7D]);
    }
  }

  ghost predicate ObjectText(libc: Libc, text: bytes, ms: seq<Member>, t: bytes, ts: seq<bytes>) {
    |ts| == |ms| && ListText(t, ts) && Around(text, [0x7B] + t + [0x7D])
    && forall i | 0 <= i < |ts| :: MemberText(libc, ts[i], ms[i])
  }

  /** Section 4 of RFC 8259: members with commas between them; order and repeated names are kept. */
  lemma ObjectsDecode(libc: Libc, text: bytes, ms: seq<Member>)
    ensures JsonDecode(libc, text) == Some(Object(ms)) <==> exists t, ts :: ObjectText(libc, text, ms, t, ts)
  {
    if JsonDecode(libc, text) == Some(Object(ms)) {
      var t, ts := ObjectIsText(libc, text, ms);
    }
    if t, ts :| ObjectText(libc, text, ms, t, ts) {
      TextIsObject(libc, text, ms, t, ts);
    }
  }

  lemma ObjectIsText(libc: Libc, text: bytes, ms: seq<Member>) returns (t: bytes, ts: seq<bytes>)
    requires JsonDecode(libc, text) == Some(Object(ms))
    ensures ObjectText(libc, text, ms, t, ts)
  {
    var before, x, after := Spelled(libc, text, Object(ms));
    ts, t := [], x.open;
    BlankIsSpaces(x.open);
    if x.fields != [] {
      ts := ListOfFields(libc, x.open, x.fields);
      t := Listed(ts);
      Bracketed([0x7B], x.open, UnparseFields(x.fields), t, [0x7D]);
    }
    assert Unparse(x) == [0x7B] + t + [0x7D];
  }

  lemma TextIsObject(libc: Libc, text: bytes, ms: seq<Member>, t: bytes, ts: seq<bytes>)
    requires ObjectText(libc, text, ms, t, ts)
    ensures JsonDecode(libc, text) == Some(Object(ms))
  {
    var x := SObject(t, []);
    BlankIsSpaces(t);
    if ts != [] {
      var open, fs := FieldsFrom(libc, ts, ms);
      x := SObject(open, fs);
      BlankIsSpaces(open);
      Bracketed([0x7B], open, UnparseFields(fs), t, [0x7D]);
    }
    assert Unparse(x) == [0x7B] + t + [0x7D];
    SpellingDecodes(libc, text, x);
  }

  // Capital and small digits.

  /** The same spelling with the letters among its hexadecimal digits in capitals. */
  function CapitalChar(c: CharSyntax): CharSyntax
    requires CharOk(c)
  {
    match c
    case Unicode(hex) => Unicode(Upper16(hex))
    case Surrogates(high, low) => Surrogates(Upper16(high), Upper16(low))
    case _ => c
  }

  function CapitalChars(cs: seq<CharSyntax>): seq<CharSyntax>
    requires CharsOk(cs)
  {
    if cs == [] then [] else [CapitalChar(cs[0])] + CapitalChars(cs[1..])
  }

  function Capitals(x: Syntax): Syntax
    requires SyntaxOk(x)
    decreases x, 1
  {
    match x
    case SString(cs) => SString(CapitalChars(cs))
    case SArray(open, es) => SArray(open, CapitalElements(es))
    case SObject(open, fs) => SObject(open, CapitalFields(fs))
    case _ => x
  }

  function CapitalElements(es: seq<Element>): seq<Element>
    requires ElementsOk(es)
    decreases es, 0
  {
    if es == [] then []
    else [es[0].(value := Capitals(es[0].value))] + CapitalElements(es[1..])
  }

  function CapitalFields(fs: seq<Field>): seq<Field>
    requires FieldsOk(fs)
    decreases fs, 0
  {
    if fs == [] then []
    else [fs[0].(key := CapitalChars(fs[0].key), value := Capitals(fs[0].value))] + CapitalFields(fs[1..])
  }

  lemma CapitalCharMeans(c: CharSyntax)
    requires CharOk(c)
    ensures CharOk(CapitalChar(c)) && (CharClean(CapitalChar(c)) <==> CharClean(c))
    ensures CharMeaning(CapitalChar(c)) == CharMeaning(c)
  {
    match c {
      case Unicode(hex) => CaseDoesNotMatter(hex);
      case Surrogates(high, low) =>
        CaseDoesNotMatter(high);
        CaseDoesNotMatter(low);
      case _ =>
    }
  }

  lemma {:induction false} CapitalCharsMean(cs: seq<CharSyntax>)
    requires CharsOk(cs)
    ensures CharsOk(CapitalChars(cs)) && (CharsClean(CapitalChars(cs)) <==> CharsClean(cs))
    ensures CharsMeaning(CapitalChars(cs)) == CharsMeaning(cs)
  {
    if cs != [] {
      CapitalCharMeans(cs[0]);
      CapitalCharsMean(cs[1..]);
      assert CapitalChars(cs)[1..] == CapitalChars(cs[1..]);
    }
  }

  lemma {:induction false} CapitalsMean(libc: Libc, x: Syntax)
    requires SyntaxOk(x)
    ensures SyntaxOk(Capitals(x)) && (Clean(Capitals(x)) <==> Clean(x))
    ensures Meaning(libc, Capitals(x)) == Meaning(libc, x)
    decreases x, 1
  {
    match x {
      case SString(cs) => CapitalCharsMean(cs);
      case SArray(_, es) => CapitalElementsMean(libc, es);
      case SObject(_, fs) => CapitalFieldsMean(libc, fs);
      case _ =>
    }
  }

  lemma {:induction false} CapitalElementsMean(libc: Libc, es: seq<Element>)
    requires ElementsOk(es)
    ensures ElementsOk(CapitalElements(es)) && (ElementsClean(CapitalElements(es)) <==> ElementsClean(es))
    ensures ElementsMeaning(libc, CapitalElements(es)) == ElementsMeaning(libc, es)
    decreases es, 0
  {
    if es != [] {
      CapitalsMean(libc, es[0].value);
      CapitalElementsMean(libc, es[1..]);
      assert CapitalElements(es)[1..] == CapitalElements(es[1..]);
    }
  }

  lemma {:induction false} CapitalFieldsMean(libc: Libc, fs: seq<Field>)
    requires FieldsOk(fs)
    ensures FieldsOk(CapitalFields(fs)) && (FieldsClean(CapitalFields(fs)) <==> FieldsClean(fs))
    ensures FieldsMeaning(libc, CapitalFields(fs)) == FieldsMeaning(libc, fs)
    decreases fs, 0
  {
    if fs != [] {
      CapitalCharsMean(fs[0].key);
      CapitalsMean(libc, fs[0].value);
      CapitalFieldsMean(libc, fs[1..]);
      assert CapitalFields(fs)[1..] == CapitalFields(fs[1..]);
    }
  }

  /** Whether the hexadecimal digits of a text are capitals makes no difference to what it is decoded to. */
  lemma CaseDoesNotMatterToDecode(libc: Libc, before: bytes, x: Syntax, after: bytes)
    requires Spaces(before) && Spaces(after) && SyntaxOk(x)
    ensures SyntaxOk(Capitals(x))
    ensures JsonDecode(libc, before + Unparse(x) + after) == JsonDecode(libc, before + Unparse(Capitals(x)) + after)
  {
    CapitalsMean(libc, x);
    DecodeSpelling(libc, before, x, after);
    DecodeSpelling(libc, before, Capitals(x), after);
  }
}
