/** json_encode, json_stringify and json_encode_string of src/db/Json.cpp, and the round trips through them.

    The texts hold no NUL, so that they are C strings that json_decode may be given. */
module JsonText {
  import opened Utf8
  import opened Wrappers
  import opened JsonGrammar
  import opened JsonParse
  import opened JsonPrint
  import opened JsonTree
  import opened JsonMeaning
  import opened JsonCopy
  import opened JsonScanner
  import opened JsonParser
  import opened JsonPrinter
  import opened StringBuffers

  predicate NoNul(s: bytes) { 0 !in s }

  // Texts of the printers hold no NUL.

  lemma HexHasNoNul(w: bv16)
    ensures NoNul(WriteHex16(w))
  {
    WriteHexParseHex(w);
  }

  lemma TwoHaveNoNul(a: bytes, b: bytes)
    requires NoNul(a) && NoNul(b)
    ensures NoNul(a + b)
  {}

  lemma CharTextHasNoNul(u: uchar)
    requires Scalar(u) && u != 0
    ensures NoNul(UnparseChar(CharSyntaxOf(u, false)))
  {
    CharHasNoNul(u);
    var c := CharSyntaxOf(u, false);
    CharSpelling(u, false);
    if c.Unicode? { HexHasNoNul(u as bv16); }
  }

  lemma CharsStep(c: CharSyntax, cs: seq<CharSyntax>)
    ensures UnparseChars([c] + cs) == UnparseChar(c) + UnparseChars(cs)
  {
    assert ([c] + cs)[1..] == cs;
  }

  lemma {:induction false} CharsTextHasNoNul(s: bytes)
    requires StrOk(s)
    ensures NoNul(UnparseChars(CharsSyntaxOf(s, false)))
    decreases |s|
  {
    if s == [] {
    } else {
      FirstChar(s);
      var u, t := ReadChar(s), s[ValidateCz(s)..];
      CharTextHasNoNul(u);
      CharsTextHasNoNul(t);
      CharsStep(CharSyntaxOf(u, false), CharsSyntaxOf(t, false));
      TwoHaveNoNul(UnparseChar(CharSyntaxOf(u, false)), UnparseChars(CharsSyntaxOf(t, false)));
    }
  }

  lemma StringTextHasNoNul(s: bytes)
    requires StrOk(s)
    ensures NoNul([0x22] + UnparseChars(CharsSyntaxOf(s, false)))
  {
    CharsTextHasNoNul(s);
    TwoHaveNoNul([0x22], UnparseChars(CharsSyntaxOf(s, false)));
  }

  lemma DigitsHaveNoNul(ds: bytes)
    requires Digits(ds)
    ensures NoNul(ds)
  {}

  lemma NumberTextHasNoNul(n: NumberSyntax)
    requires NumberOk(n)
    ensures NoNul(UnparseNumber(n))
  {
    if n.whole != [0x30] { DigitsHaveNoNul(n.whole); }
    FracHasNoNul(n.frac);
    ExpHasNoNul(n.exp);
    var sign := if n.minus then [0x2D] else [];
    TwoHaveNoNul(sign, n.whole);
    TwoHaveNoNul(sign + n.whole, UnparseFrac(n.frac));
    TwoHaveNoNul(sign + n.whole + UnparseFrac(n.frac), UnparseExp(n.exp));
  }

  lemma FracHasNoNul(f: Option<bytes>)
    requires f.Some? ==> Digits(f.value)
    ensures NoNul(UnparseFrac(f))
  {
    if f.Some? { DigitsHaveNoNul(f.value); }
  }

  lemma ExpHasNoNul(e: Option<Exponent>)
    requires e.Some? ==> ExponentOk(e.value)
    ensures NoNul(UnparseExp(e))
  {
    if e.Some? { DigitsHaveNoNul(e.value.digits); }
  }

  predicate StyleHasNoNul(style: Style) { style.Indented? ==> NoNul(style.space) }

  lemma {:induction false} RepeatHasNoNul(space: bytes, n: nat)
    requires NoNul(space)
    ensures NoNul(Repeat(space, n))
  {
    if n == 0 {
    } else {
      RepeatHasNoNul(space, n - 1);
      TwoHaveNoNul(Repeat(space, n - 1), space);
    }
  }

  lemma GapHasNoNul(style: Style, level: nat)
    requires StyleHasNoNul(style)
    ensures NoNul(Gap(style, level))
  {
    if style.Indented? { RepeatHasNoNul(style.space, level); }
  }

  lemma SeparatorHasNoNul(more: bool, style: Style, level: nat)
    requires StyleHasNoNul(style)
    ensures NoNul(Separator(more, style, level))
  {
    GapHasNoNul(style, level);
    GapHasNoNul(style, level + 1);
  }

  predicate AllNoNul(texts: seq<bytes>) { forall k | 0 <= k < |texts| :: NoNul(texts[k]) }

  lemma {:induction false} ConcatHasNoNul(texts: seq<bytes>)
    requires AllNoNul(texts)
    ensures NoNul(Concat(texts))
  {
    if texts == [] {
    } else {
      ConcatHasNoNul(texts[1..]);
      TwoHaveNoNul(texts[0], Concat(texts[1..]));
    }
  }

  /** No text of the printers holds a NUL, so the assertion in sb_finish holds. */
  lemma {:induction false} TextHasNoNul(libc: Libc, v: Json, style: Style, level: nat)
    requires TreeOk(v) && StyleHasNoNul(style)
    ensures NoNul(Unparse(SyntaxOf(libc, v, style, level)))
    decreases v, 1
  {
    match v {
      case Number(x) => if NumberIsValid(libc.format(x)) { NumberTextHasNoNul(NumberSyntaxOf(libc.format(x))); }
      case String(s) => StringTextHasNoNul(s);
      case Array(_) => ContainerHasNoNul(libc, v, style, level);
      case Object(_) => ContainerHasNoNul(libc, v, style, level);
      case _ =>
    }
  }

  lemma {:induction false} ContainerHasNoNul(libc: Libc, v: Json, style: Style, level: nat)
    requires TreeOk(v) && StyleHasNoNul(style) && (v.Array? || v.Object?)
    ensures NoNul(Unparse(SyntaxOf(libc, v, style, level)))
    decreases v, 0, 1
  {
    var open := if Count(v) == 0 then [] else Gap(style, level + 1);
    GapHasNoNul(style, level + 1);
    var texts := Texts(libc, v, style, level);
    forall k | 0 <= k < Count(v) ensures NoNul(texts[k]) { PieceHasNoNul(libc, v, style, level, k); }
    ConcatHasNoNul(texts);
    if v.Array? { ArrayText(libc, v.items, style, level); } else { ObjectText(libc, v.members, style, level); }
    BracketsHaveNoNul(if v.Array? then 0x5B else 0x7B, open, Concat(texts), Closing(v));
  }

  lemma BracketsHaveNoNul(c: byte, open: bytes, body: bytes, close: byte)
    requires c != 0 && NoNul(open) && NoNul(body) && close != 0
    ensures NoNul([c] + open + (body + [close]))
  {}

  lemma {:induction false} PieceHasNoNul(libc: Libc, v: Json, style: Style, level: nat, k: nat)
    requires TreeOk(v) && StyleHasNoNul(style) && (v.Array? || v.Object?) && k < Count(v)
    ensures NoNul(Texts(libc, v, style, level)[k])
    decreases v, 0, 0
  {
    if v.Array? {
      ItemTextAt(libc, v.items, style, level, k);
      TextHasNoNul(libc, v.items[k], style, level + 1);
      ItemHasNoNul(libc, v.items[k], k + 1 < Count(v), style, level);
    } else {
      var m := v.members[k];
      MemberTextAt(libc, v.members, style, level, k);
      TextHasNoNul(libc, m.value, style, level + 1);
      ItemHasNoNul(libc, m.value, k + 1 < Count(v), style, level);
      KeyHasNoNul(m.key, style);
      TwoHaveNoNul(KeyText(m.key, style), ItemText(libc, m.value, k + 1 < Count(v), style, level));
    }
  }

  lemma ItemHasNoNul(libc: Libc, v: Json, more: bool, style: Style, level: nat)
    requires TreeOk(v) && StyleHasNoNul(style) && NoNul(Unparse(SyntaxOf(libc, v, style, level + 1)))
    ensures NoNul(ItemText(libc, v, more, style, level))
  {
    SeparatorHasNoNul(more, style, level);
    TwoHaveNoNul(Unparse(SyntaxOf(libc, v, style, level + 1)), Separator(more, style, level));
  }

  lemma KeyHasNoNul(key: bytes, style: Style)
    requires StrOk(key)
    ensures NoNul(KeyText(key, style))
  {
    StringTextHasNoNul(key);
    TwoHaveNoNul([0x22] + UnparseChars(CharsSyntaxOf(key, false)), Colon(style));
  }

  lemma Terminated(s: bytes)
    requires NoNul(s)
    ensures CString(s + [0]) && Rest(s + [0], 0) == s
  {}

  // The public functions.

  function StyleFor(space: Option<bytes>): Style {
    match space
    case None => Compact
    case Some(s) => Indented(s)
  }

  /** json_stringify, and json_encode, which passes NULL for the space. */
  method Stringify(libc: Libc, ghost f: Forest, node: JsonNode, space: Option<bytes>, ghost v: Json)
    returns (text: bytes)
    requires f.Valid() && Denotes(f.cells, node, v) && TreeOk(v) && (space.Some? ==> NoNul(space.value))
    ensures text == Text(libc, v, StyleFor(space))
    ensures text == match space case None => Text(libc, v, Compact) case Some(s) => Text(libc, v, Indented(s))
    ensures CString(text + [0]) && Rest(text + [0], 0) == text
  {
    var sb := new StringBuffer();
    match space {
      case Some(s) => EmitValueIndented(libc, sb, f, node, s, 0, v);
      case None => EmitValue(libc, sb, f, node, v, 0);
    }
    TextHasNoNul(libc, v, StyleFor(space), 0);
    assert [] + Text(libc, v, StyleFor(space)) == Text(libc, v, StyleFor(space));
    text := sb.Finish();
    Terminated(text);
  }

  /** json_encode_string; parse_string is its inverse but for U+001F. */
  method EncodeString(str: bytes) returns (text: bytes)
    requires StrOk(str)
    ensures text == [0x22] + UnparseChars(CharsSyntaxOf(str, false))
    ensures ParseString(text) == if 0x1F in str then Fail else Ok(str, [])
    ensures CString(text + [0])
  {
    var sb := new StringBuffer();
    EmitString(sb, str, false);
    StringTextHasNoNul(str);
    assert [] + [0x22] + UnparseChars(CharsSyntaxOf(str, false)) == [0x22] + UnparseChars(CharsSyntaxOf(str, false));
    text := sb.Finish();
    Terminated(text);
    EncodedStringParses(str, false);
  }

  /** The round trip of a node tree through its text: json_decode makes a new tree, which stands for the
      value of the old one if all its numbers survive their 16 digits, or returns NULL, which it does
      exactly when a string holds U+001F. */
  method StringifyThenDecode(libc: Libc, ghost f: Forest, node: JsonNode, space: Option<bytes>, ghost v: Json)
    returns (again: JsonNode?)
    requires f.Valid() && Denotes(f.cells, node, v) && TreeOk(v) && StyleOk(StyleFor(space))
    modifies f, f.cells.Keys
    ensures f.Valid()
    ensures again == null <==> !NoUnitSeparator(Strings(v))
    ensures again == null ==> SameForest(old(f.cells), f.cells)
    ensures again != null ==> NewTree(old(f.cells), f.cells, again, Printed(libc, v), None)
    ensures again != null ==> (Denotes(f.cells, again, v) <==> AllSurvive(libc, Numbers(v)))
  {
    if space.Some? { SpacesHaveNoNul(space.value); }
    var text := Stringify(libc, f, node, space, v);
    DecodePrinted(libc, v, StyleFor(space));
    again := JsonParser.Decode(libc, f, text + [0]);
    PrintedIsSame(libc, v);
    if again != null && Denotes(f.cells, again, v) { DenotesUnique(f.cells, again, v, Printed(libc, v)); }
  }

  lemma SpacesHaveNoNul(s: bytes)
    requires Spaces(s)
    ensures NoNul(s)
  {}

  /** A tree and its copy have the same text. */
  method StringifyCopy(libc: Libc, ghost f: Forest, node: JsonNode, space: Option<bytes>, ghost v: Json)
    returns (copy: JsonNode, text: bytes, again: bytes)
    requires f.Valid() && Denotes(f.cells, node, v) && TreeOk(v) && (space.Some? ==> NoNul(space.value))
    modifies f, f.cells.Keys
    ensures f.Valid() && NewTree(old(f.cells), f.cells, copy, v, old(f.cells)[node].key)
    ensures text == again == Text(libc, v, StyleFor(space))
  {
    text := Stringify(libc, f, node, space, v);
    copy := MkCopy(f, node, v);
    again := Stringify(libc, f, copy, space, v);
  }

  // What json_decode returns may be printed.

  lemma ValidCons(u: uchar, s: bytes)
    requires Scalar(u) && Valid(s)
    ensures Valid(WriteChar(u) + s)
  {
    WriteRead(u, s);
    assert (WriteChar(u) + s)[|WriteChar(u)|..] == s;
  }

  lemma LetterIsScalar(c: byte)
    requires c <= 0x7F
    ensures Scalar(c as uchar) && WriteChar(c as uchar) == [c]
  {
    Low7(c);
  }

  lemma PairIsScalar(uc: bv16, lc: bv16)
    requires FromSurrogatePair(uc, lc).Pair?
    ensures Scalar(FromSurrogatePair(uc, lc).unicode)
  {
    JoinThenSplit(uc, lc);
  }

  /** Every character of the grammar means some scalar value. */
  lemma CodePoint(c: CharSyntax) returns (u: uchar)
    requires CharOk(c)
    ensures Scalar(u) && CharMeaning(c) == WriteChar(u)
  {
    match c {
      case Raw(r) => u := r;
      case Escape(letter) => u := EscapePoint(letter);
      case Unicode(hex) => u := UnitPoint(Hex16(hex));
      case Surrogates(high, low) => u := PairPoint(Hex16(high), Hex16(low));
    }
  }

  lemma EscapePoint(letter: byte) returns (u: uchar)
    requires EscapeMeaning(letter) != 0
    ensures Scalar(u) && [EscapeMeaning(letter)] == WriteChar(u)
  {
    u := EscapeMeaning(letter) as uchar;
    LetterIsScalar(EscapeMeaning(letter));
  }

  lemma UnitPoint(w: bv16) returns (u: uchar)
    requires w != 0 && !IsSurrogate(w)
    ensures Scalar(u) && u == w as uchar
  {
    u := w as uchar;
    WideUnit(w);
  }

  lemma PairPoint(uc: bv16, lc: bv16) returns (u: uchar)
    requires FromSurrogatePair(uc, lc).Pair?
    ensures Scalar(u) && u == FromSurrogatePair(uc, lc).unicode
  {
    u := FromSurrogatePair(uc, lc).unicode;
    PairIsScalar(uc, lc);
  }

  lemma {:induction false} MeaningIsValid(cs: seq<CharSyntax>)
    requires CharsOk(cs)
    ensures Valid(CharsMeaning(cs))
  {
    if cs == [] {
    } else {
      var u := CodePoint(cs[0]);
      MeaningIsValid(cs[1..]);
      ValidCons(u, CharsMeaning(cs[1..]));
    }
  }

  lemma MeaningIsStrOk(cs: seq<CharSyntax>)
    requires CharsOk(cs)
    ensures StrOk(CharsMeaning(cs))
  {
    MeaningHasNoNul(cs);
    MeaningIsValid(cs);
  }

  lemma {:induction false} MeaningIsTreeOk(libc: Libc, x: Syntax)
    requires SyntaxOk(x)
    ensures TreeOk(Meaning(libc, x))
    decreases x, 1
  {
    match x {
      case SString(cs) => MeaningIsStrOk(cs);
      case SArray(_, es) => ElementsAreTreeOk(libc, es);
      case SObject(_, fs) => FieldsAreTreeOk(libc, fs);
      case _ =>
    }
  }

  lemma {:induction false} ElementsAreTreeOk(libc: Libc, es: seq<Element>)
    requires ElementsOk(es)
    ensures AllStrOk(StringsOfItems(ElementsMeaning(libc, es)))
    decreases es, 0
  {
    if es == [] {
    } else {
      MeaningIsTreeOk(libc, es[0].value);
      ElementsAreTreeOk(libc, es[1..]);
      ItemsCons(Meaning(libc, es[0].value), ElementsMeaning(libc, es[1..]));
    }
  }

  lemma ItemsCons(v: Json, vs: seq<Json>)
    ensures StringsOfItems([v] + vs) == Strings(v) + StringsOfItems(vs)
  {
    assert ([v] + vs)[1..] == vs;
  }

  lemma {:induction false} FieldsAreTreeOk(libc: Libc, fs: seq<Field>)
    requires FieldsOk(fs)
    ensures AllStrOk(StringsOfMembers(FieldsMeaning(libc, fs)))
    decreases fs, 0
  {
    if fs == [] {
    } else {
      MeaningIsStrOk(fs[0].key);
      MeaningIsTreeOk(libc, fs[0].value);
      FieldsAreTreeOk(libc, fs[1..]);
      MembersCons(Member(CharsMeaning(fs[0].key), Meaning(libc, fs[0].value)), FieldsMeaning(libc, fs[1..]));
    }
  }

  lemma MembersCons(m: Member, ms: seq<Member>)
    ensures StringsOfMembers([m] + ms) == {m.key} + Strings(m.value) + StringsOfMembers(ms)
  {
    assert ([m] + ms)[1..] == ms;
  }

  /** Whatever json_decode returns satisfies what emit_string asserts. */
  lemma DecodedIsTreeOk(libc: Libc, text: bytes)
    requires JsonDecode(libc, text).Some?
    ensures TreeOk(JsonDecode(libc, text).value)
  {
    var x := ValueSound(libc, SkipSpace(text));
    MeaningIsTreeOk(libc, x);
  }

  /** Decode, encode, decode: when the first value comes back. */
  lemma DecodeEncodeDecode(libc: Libc, text: bytes, style: Style)
    requires JsonDecode(libc, text).Some? && StyleOk(style)
    ensures var v := JsonDecode(libc, text).value;
      TreeOk(v)
      && (JsonDecode(libc, Text(libc, v, style)) == Some(v)
          <==> NoUnitSeparator(Strings(v)) && AllSurvive(libc, Numbers(v)))
  {
    DecodedIsTreeOk(libc, text);
    RoundTrip(libc, JsonDecode(libc, text).value, style);
  }
}
