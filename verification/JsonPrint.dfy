/** What the printers of src/db/Json.cpp write, as spellings of the grammar, and the round trip. */
module JsonPrint {
  import opened Utf8
  import opened Wrappers
  import opened JsonGrammar
  import opened JsonParse

  /** What emit_string asserts of a string, which as a C string holds no NUL. */
  predicate StrOk(s: bytes) { Valid(s) && 0 !in s }

  // Strings.

  /** How emit_string spells a character. */
  function CharSyntaxOf(u: uchar, escapeUnicode: bool): CharSyntax
    requires Scalar(u)
  {
    if u == 0x22 then Escape(0x22)
    else if u == 0x5C then Escape(0x5C)
    else if u == 0x08 then Escape(0x62)
    else if u == 0x0C then Escape(0x66)
    else if u == 0x0A then Escape(0x6E)
    else if u == 0x0D then Escape(0x72)
    else if u == 0x09 then Escape(0x74)
    else if u < 0x1F || (u >= 0x80 && escapeUnicode) then
      if u <= 0xFFFF then Unicode(WriteHex16(u as bv16))
      else Surrogates(WriteHex16(HighOf(u)), WriteHex16(LowOf(u)))
    else Raw(u)
  }

  lemma HexUnit(w: bv16)
    requires w != 0 && !IsSurrogate(w)
    ensures CharOk(Unicode(WriteHex16(w))) && CharMeaning(Unicode(WriteHex16(w))) == WriteChar(w as uchar)
  {
    WriteHexParseHex(w);
  }

  lemma HexPair(u: uchar)
    requires 0x10000 <= u <= 0x10FFFF
    ensures var c := Surrogates(WriteHex16(HighOf(u)), WriteHex16(LowOf(u)));
      CharOk(c) && CharMeaning(c) == WriteChar(u)
  {
    WriteHexParseHex(HighOf(u));
    WriteHexParseHex(LowOf(u));
    SplitThenJoin(u);
  }

  lemma Narrow(u: uchar)
    requires u <= 0xFFFF && Scalar(u)
    ensures !IsSurrogate(u as bv16) && (u as bv16) as uchar == u && (u != 0 ==> u as bv16 != 0)
  {}

  lemma UnicodeSpelling(u: uchar)
    requires u <= 0xFFFF && Scalar(u) && u != 0
    ensures var c := Unicode(WriteHex16(u as bv16)); CharOk(c) && CharMeaning(c) == WriteChar(u)
  {
    Narrow(u);
    HexUnit(u as bv16);
  }

  /** A character for which emit_string has a letter. */
  lemma LetterSpelling(u: uchar, letter: byte)
    requires letter != 0 && CharSyntaxOf.requires(u, false) && CharSyntaxOf(u, false) == Escape(letter)
    ensures CharOk(Escape(letter)) && CharMeaning(Escape(letter)) == WriteChar(u) && u != 0x1F
  {}

  lemma RawSpelling(u: uchar, escapeUnicode: bool)
    requires Scalar(u) && u != 0 && CharSyntaxOf(u, escapeUnicode) == Raw(u)
    ensures CharOk(Raw(u)) && (CharClean(Raw(u)) <==> u != 0x1F)
  {}

  lemma NoLetter(u: uchar, escapeUnicode: bool)
    requires Scalar(u) && !CharSyntaxOf(u, escapeUnicode).Escape?
    ensures CharSyntaxOf(u, escapeUnicode) ==
      if u < 0x1F || (u >= 0x80 && escapeUnicode) then
        if u <= 0xFFFF then Unicode(WriteHex16(u as bv16)) else Surrogates(WriteHex16(HighOf(u)), WriteHex16(LowOf(u)))
      else Raw(u)
  {}

  lemma SameLetter(u: uchar, a: bool, b: bool)
    requires Scalar(u) && CharSyntaxOf(u, a).Escape?
    ensures CharSyntaxOf(u, b) == CharSyntaxOf(u, a) && CharSyntaxOf(u, a).letter != 0
  {}

  /** Every character is spelled so that it means itself; only U+001F is spelled as the parser refuses it. */
  lemma CharSpelling(u: uchar, escapeUnicode: bool)
    requires Scalar(u) && u != 0
    ensures var c := CharSyntaxOf(u, escapeUnicode);
      CharOk(c) && CharMeaning(c) == WriteChar(u) && (CharClean(c) <==> u != 0x1F)
  {
    var c := CharSyntaxOf(u, escapeUnicode);
    if c.Escape? {
      SameLetter(u, escapeUnicode, false);
      LetterSpelling(u, c.letter);
    } else {
      OtherSpelling(u, escapeUnicode, c);
    }
  }

  lemma OtherSpelling(u: uchar, escapeUnicode: bool, c: CharSyntax)
    requires Scalar(u) && u != 0 && c == CharSyntaxOf(u, escapeUnicode) && !c.Escape?
    ensures CharOk(c) && CharMeaning(c) == WriteChar(u) && (CharClean(c) <==> u != 0x1F)
  {
    NoLetter(u, escapeUnicode);
    if c.Unicode? {
      UnicodeSpelling(u);
    } else if c.Surrogates? {
      HexPair(u);
    } else {
      RawSpelling(u, escapeUnicode);
    }
  }

  function CharsSyntaxOf(s: bytes, escapeUnicode: bool): seq<CharSyntax>
    requires Valid(s)
    decreases |s|
  {
    if s == [] then []
    else
      ReadWrite(s);
      [CharSyntaxOf(ReadChar(s), escapeUnicode)] + CharsSyntaxOf(s[ValidateCz(s)..], escapeUnicode)
  }

  lemma LowBytes(u: uchar, i: nat)
    requires Scalar(u) && i < |WriteChar(u)| && WriteChar(u)[i] == 0x1F
    ensures u == 0x1F
  {
    if u <= 0x7F { Bits1(u); }
    else if u <= 0x7FF { Bits2(u); }
    else if u <= 0xFFFF { Lead3Facts(u); }
    else { Lead4Facts(u); }
  }

  lemma Alone(s: bytes)
    requires s != [] && s[0] <= 0x7F
    ensures ValidateCz(s) == 1 && ReadChar(s) == s[0] as uchar
  {}

  lemma FirstChar(s: bytes)
    requires s != [] && StrOk(s)
    ensures var n := ValidateCz(s);
      0 < n <= |s| && Scalar(ReadChar(s)) && ReadChar(s) != 0 && WriteChar(ReadChar(s)) == s[..n] && StrOk(s[n..])
      && (ReadChar(s) == 0x1F <==> 0x1F in s[..n])
  {
    ReadWrite(s);
    var n, u := ValidateCz(s), ReadChar(s);
    if u == 0 || u == 0x1F {
      assert s[0] == WriteChar(u)[0];
      Bits1(u);
    }
    if 0x1F in s[..n] {
      var i :| 0 <= i < n && s[..n][i] == 0x1F;
      LowBytes(u, i);
    }
    if u == 0x1F { assert s[..n][0] == 0x1F; }
  }

  lemma InEither(s: bytes, n: nat)
    requires n <= |s|
    ensures 0x1F in s <==> 0x1F in s[..n] || 0x1F in s[n..]
  {
    assert s == s[..n] + s[n..];
  }

  lemma SpellingCons(c: CharSyntax, cs: seq<CharSyntax>)
    requires CharOk(c) && CharsOk(cs)
    ensures CharsOk([c] + cs) && CharsMeaning([c] + cs) == CharMeaning(c) + CharsMeaning(cs)
    ensures CharsClean([c] + cs) <==> CharClean(c) && CharsClean(cs)
  {
    assert ([c] + cs)[1..] == cs;
  }

  lemma SpelledCons(s: bytes, n: nat, c: CharSyntax, cs: seq<CharSyntax>)
    requires n <= |s| && CharOk(c) && CharsOk(cs) && CharMeaning(c) == s[..n] && CharsMeaning(cs) == s[n..]
    ensures CharsOk([c] + cs) && CharsMeaning([c] + cs) == s
    ensures CharsClean([c] + cs) <==> CharClean(c) && CharsClean(cs)
  {
    SpellingCons(c, cs);
    Halves(s, n);
  }

  lemma Halves(s: bytes, n: nat)
    requires n <= |s|
    ensures s[..n] + s[n..] == s
  {}

  /** The spelling of a string means the string, and is clean unless U+001F is in it. */
  lemma {:induction false} StringSpelling(s: bytes, escapeUnicode: bool)
    requires StrOk(s)
    ensures var cs := CharsSyntaxOf(s, escapeUnicode);
      CharsOk(cs) && CharsMeaning(cs) == s && (CharsClean(cs) <==> 0x1F !in s)
    decreases |s|
  {
    if s == [] {
    } else {
      FirstChar(s);
      var n, u := ValidateCz(s), ReadChar(s);
      CharSpelling(u, escapeUnicode);
      StringSpelling(s[n..], escapeUnicode);
      InEither(s, n);
      SpelledCons(s, n, CharSyntaxOf(u, escapeUnicode), CharsSyntaxOf(s[n..], escapeUnicode));
    }
  }

  /** The text of json_encode_string is read back, or refused exactly for U+001F. */
  lemma EncodedStringParses(s: bytes, escapeUnicode: bool)
    requires StrOk(s)
    ensures ParseString([0x22] + UnparseChars(CharsSyntaxOf(s, escapeUnicode))) == if 0x1F in s then Fail else Ok(s, [])
  {
    var cs := CharsSyntaxOf(s, escapeUnicode);
    StringSpelling(s, escapeUnicode);
    StringComplete(cs, []);
    assert [0x22] + UnparseChars(cs) + [] == [0x22] + UnparseChars(cs);
  }

  // Values.

  lemma HasNumberSyntax(text: bytes)
    requires NumberIsValid(text)
    ensures exists n :: NumberOk(n) && UnparseNumber(n) == text
  {
    var n := NumberSound(text);
    assert UnparseNumber(n) + [] == UnparseNumber(n);
  }

  ghost function NumberSyntaxOf(text: bytes): (n: NumberSyntax)
    requires NumberIsValid(text)
    ensures NumberOk(n) && UnparseNumber(n) == text
  {
    HasNumberSyntax(text);
    var n :| NumberOk(n) && UnparseNumber(n) == text;
    n
  }

  /** json_encode, or json_stringify with the given indentation. */
  datatype Style = Compact | Indented(space: bytes)

  function Repeat(space: bytes, n: nat): bytes { if n == 0 then [] else Repeat(space, n - 1) + space }

  /** A line break and indentation. */
  function Gap(style: Style, level: nat): bytes {
    match style
    case Compact => []
    case Indented(space) => [0x0A] + Repeat(space, level)
  }

  predicate StyleOk(style: Style) { style.Indented? ==> Spaces(style.space) }

  lemma {:induction false} RepeatIsSpace(space: bytes, n: nat)
    requires Spaces(space)
    ensures Spaces(Repeat(space, n))
  {
    if n == 0 {
    } else {
      RepeatIsSpace(space, n - 1);
    }
  }

  lemma GapIsSpace(style: Style, level: nat)
    requires StyleOk(style)
    ensures Spaces(Gap(style, level))
  {
    if style.Indented? { RepeatIsSpace(style.space, level); }
  }

  /** The strings and names of a tree. */
  function Strings(v: Json): set<bytes>
    decreases v, 1
  {
    match v
    case String(s) => {s}
    case Array(vs) => StringsOfItems(vs)
    case Object(ms) => StringsOfMembers(ms)
    case _ => {}
  }

  function StringsOfItems(vs: seq<Json>): set<bytes>
    decreases vs, 0
  {
    if vs == [] then {} else Strings(vs[0]) + StringsOfItems(vs[1..])
  }

  function StringsOfMembers(ms: seq<Member>): set<bytes>
    decreases ms, 0
  {
    if ms == [] then {} else {ms[0].key} + Strings(ms[0].value) + StringsOfMembers(ms[1..])
  }

  function Numbers(v: Json): set<Double>
    decreases v, 1
  {
    match v
    case Number(x) => {x}
    case Array(vs) => NumbersOfItems(vs)
    case Object(ms) => NumbersOfMembers(ms)
    case _ => {}
  }

  function NumbersOfItems(vs: seq<Json>): set<Double>
    decreases vs, 0
  {
    if vs == [] then {} else Numbers(vs[0]) + NumbersOfItems(vs[1..])
  }

  function NumbersOfMembers(ms: seq<Member>): set<Double>
    decreases ms, 0
  {
    if ms == [] then {} else Numbers(ms[0].value) + NumbersOfMembers(ms[1..])
  }

  predicate AllStrOk(ss: set<bytes>) { forall s | s in ss :: StrOk(s) }

  predicate TreeOk(v: Json) { AllStrOk(Strings(v)) }

  predicate NoUnitSeparator(ss: set<bytes>) { forall s: bytes | s in ss :: 0x1F !in s }

  /** A number that comes back from its 16 digits. */
  predicate Survives(libc: Libc, x: Double) { NumberIsValid(libc.format(x)) && libc.strtod(libc.format(x)) == x }

  predicate AllSurvive(libc: Libc, xs: set<Double>) { forall x | x in xs :: Survives(libc, x) }

  /** The spelling a printer chooses for a value at some depth. */
  ghost function SyntaxOf(libc: Libc, v: Json, style: Style, level: nat): Syntax
    requires TreeOk(v)
    decreases v, 1
  {
    match v
    case Null => SNull
    case Bool(b) => if b then STrue else SFalse
    case Number(x) => if NumberIsValid(libc.format(x)) then SNumber(NumberSyntaxOf(libc.format(x))) else SNull
    case String(s) => SString(CharsSyntaxOf(s, false))
    case Array(vs) => SArray(if vs == [] then [] else Gap(style, level + 1), ElementsOf(libc, vs, style, level))
    case Object(ms) => SObject(if ms == [] then [] else Gap(style, level + 1), FieldsOf(libc, ms, style, level))
  }

  ghost function ElementOf(libc: Libc, v: Json, last: bool, style: Style, level: nat): Element
    requires TreeOk(v)
    decreases v, 2
  {
    Element(SyntaxOf(libc, v, style, level + 1),
            if last then Gap(style, level) else [],
            if last then [] else Gap(style, level + 1))
  }

  ghost function ElementsOf(libc: Libc, vs: seq<Json>, style: Style, level: nat): (es: seq<Element>)
    requires AllStrOk(StringsOfItems(vs))
    ensures |es| == |vs|
    decreases vs, 0
  {
    if vs == [] then []
    else [ElementOf(libc, vs[0], |vs| == 1, style, level)] + ElementsOf(libc, vs[1..], style, level)
  }

  ghost function FieldOf(libc: Libc, m: Member, last: bool, style: Style, level: nat): Field
    requires StrOk(m.key) && TreeOk(m.value)
    decreases m, 2
  {
    Field(CharsSyntaxOf(m.key, false), [], if style.Compact? then [] else [0x20],
          SyntaxOf(libc, m.value, style, level + 1),
          if last then Gap(style, level) else [],
          if last then [] else Gap(style, level + 1))
  }

  ghost function FieldsOf(libc: Libc, ms: seq<Member>, style: Style, level: nat): (fs: seq<Field>)
    requires AllStrOk(StringsOfMembers(ms))
    ensures |fs| == |ms|
    decreases ms, 0
  {
    if ms == [] then []
    else [FieldOf(libc, ms[0], |ms| == 1, style, level)] + FieldsOf(libc, ms[1..], style, level)
  }

  /** What json_encode and json_stringify write. */
  ghost function Text(libc: Libc, v: Json, style: Style): bytes
    requires TreeOk(v)
  {
    Unparse(SyntaxOf(libc, v, style, 0))
  }

  /** The tree with its numbers as they are printed. */
  function Printed(libc: Libc, v: Json): Json
    decreases v, 1
  {
    match v
    case Number(x) => if NumberIsValid(libc.format(x)) then Number(libc.strtod(libc.format(x))) else Null
    case Array(vs) => Array(PrintedItems(libc, vs))
    case Object(ms) => Object(PrintedMembers(libc, ms))
    case _ => v
  }

  function PrintedItems(libc: Libc, vs: seq<Json>): (r: seq<Json>)
    ensures |r| == |vs|
    decreases vs, 0
  {
    if vs == [] then [] else [Printed(libc, vs[0])] + PrintedItems(libc, vs[1..])
  }

  function PrintedMembers(libc: Libc, ms: seq<Member>): (r: seq<Member>)
    ensures |r| == |ms|
    decreases ms, 0
  {
    if ms == [] then [] else [Member(ms[0].key, Printed(libc, ms[0].value))] + PrintedMembers(libc, ms[1..])
  }

  /** Both printers write spellings of the grammar, clean exactly when no string holds U+001F. */
  lemma {:induction false} SpellingIsPrinted(libc: Libc, v: Json, style: Style, level: nat)
    requires TreeOk(v) && StyleOk(style)
    ensures var x := SyntaxOf(libc, v, style, level);
      SyntaxOk(x) && Meaning(libc, x) == Printed(libc, v) && (Clean(x) <==> NoUnitSeparator(Strings(v)))
    decreases v, 1
  {
    match v {
      case String(s) => StringSpelling(s, false);
      case Array(vs) =>
        GapIsSpace(style, level + 1);
        ItemsArePrinted(libc, vs, style, level);
      case Object(ms) =>
        GapIsSpace(style, level + 1);
        MembersArePrinted(libc, ms, style, level);
      case _ =>
    }
  }

  lemma {:induction false} ItemsArePrinted(libc: Libc, vs: seq<Json>, style: Style, level: nat)
    requires AllStrOk(StringsOfItems(vs)) && StyleOk(style)
    ensures var es := ElementsOf(libc, vs, style, level);
      ElementsOk(es) && ElementsMeaning(libc, es) == PrintedItems(libc, vs)
      && (ElementsClean(es) <==> NoUnitSeparator(StringsOfItems(vs)))
    decreases vs, 0
  {
    if vs == [] {
    } else {
      GapIsSpace(style, level);
      GapIsSpace(style, level + 1);
      SpellingIsPrinted(libc, vs[0], style, level + 1);
      ItemsArePrinted(libc, vs[1..], style, level);
      ElementsCons(libc, ElementOf(libc, vs[0], |vs| == 1, style, level), ElementsOf(libc, vs[1..], style, level));
    }
  }

  lemma {:induction false} MembersArePrinted(libc: Libc, ms: seq<Member>, style: Style, level: nat)
    requires AllStrOk(StringsOfMembers(ms)) && StyleOk(style)
    ensures var fs := FieldsOf(libc, ms, style, level);
      FieldsOk(fs) && FieldsMeaning(libc, fs) == PrintedMembers(libc, ms)
      && (FieldsClean(fs) <==> NoUnitSeparator(StringsOfMembers(ms)))
    decreases ms, 0
  {
    if ms == [] {
    } else {
      MemberIsPrinted(libc, ms[0], |ms| == 1, style, level);
      MembersArePrinted(libc, ms[1..], style, level);
      FieldsCons(libc, FieldOf(libc, ms[0], |ms| == 1, style, level), FieldsOf(libc, ms[1..], style, level));
    }
  }

  predicate SpellsMember(libc: Libc, f: Field, m: Member) {
    FieldOk(f) && CharsMeaning(f.key) == m.key && Meaning(libc, f.value) == Printed(libc, m.value)
    && (CharsClean(f.key) <==> 0x1F !in m.key) && (Clean(f.value) <==> NoUnitSeparator(Strings(m.value)))
  }

  lemma {:induction false} MemberIsPrinted(libc: Libc, m: Member, last: bool, style: Style, level: nat)
    requires StrOk(m.key) && TreeOk(m.value) && StyleOk(style)
    ensures SpellsMember(libc, FieldOf(libc, m, last, style, level), m)
    decreases m, 2
  {
    GapIsSpace(style, level);
    GapIsSpace(style, level + 1);
    StringSpelling(m.key, false);
    SpellingIsPrinted(libc, m.value, style, level + 1);
    FieldPrinted(libc, m, CharsSyntaxOf(m.key, false), SyntaxOf(libc, m.value, style, level + 1),
                 if style.Compact? then [] else [0x20],
                 if last then Gap(style, level) else [],
                 if last then [] else Gap(style, level + 1));
  }

  lemma FieldPrinted(libc: Libc, m: Member, cs: seq<CharSyntax>, x: Syntax, afterColon: bytes, after: bytes,
                     next: bytes)
    requires CharsOk(cs) && CharsMeaning(cs) == m.key && (CharsClean(cs) <==> 0x1F !in m.key)
    requires SyntaxOk(x) && Meaning(libc, x) == Printed(libc, m.value)
      && (Clean(x) <==> NoUnitSeparator(Strings(m.value)))
    requires Spaces(afterColon) && Spaces(after) && Spaces(next)
    ensures SpellsMember(libc, Field(cs, [], afterColon, x, after, next), m)
  {}

  /** What decoding a printed tree gives. */
  lemma DecodePrinted(libc: Libc, v: Json, style: Style)
    requires TreeOk(v) && StyleOk(style)
    ensures JsonDecode(libc, Text(libc, v, style))
      == if NoUnitSeparator(Strings(v)) then Some(Printed(libc, v)) else None
  {
    var x := SyntaxOf(libc, v, style, 0);
    SpellingIsPrinted(libc, v, style, 0);
    DecodeSpelling(libc, [], x, []);
    assert [] + Unparse(x) + [] == Unparse(x);
  }

  lemma {:induction false} PrintedIsSame(libc: Libc, v: Json)
    ensures Printed(libc, v) == v <==> AllSurvive(libc, Numbers(v))
    decreases v, 1
  {
    match v {
      case Array(vs) => PrintedItemsAreSame(libc, vs);
      case Object(ms) => PrintedMembersAreSame(libc, ms);
      case _ =>
    }
  }

  lemma {:induction false} PrintedItemsAreSame(libc: Libc, vs: seq<Json>)
    ensures PrintedItems(libc, vs) == vs <==> AllSurvive(libc, NumbersOfItems(vs))
    decreases vs, 0
  {
    if vs == [] {
    } else {
      PrintedIsSame(libc, vs[0]);
      PrintedItemsAreSame(libc, vs[1..]);
      SameCons(Printed(libc, vs[0]), PrintedItems(libc, vs[1..]), vs);
    }
  }

  lemma {:induction false} PrintedMembersAreSame(libc: Libc, ms: seq<Member>)
    ensures PrintedMembers(libc, ms) == ms <==> AllSurvive(libc, NumbersOfMembers(ms))
    decreases ms, 0
  {
    if ms == [] {
    } else {
      PrintedIsSame(libc, ms[0].value);
      PrintedMembersAreSame(libc, ms[1..]);
      SameCons(Member(ms[0].key, Printed(libc, ms[0].value)), PrintedMembers(libc, ms[1..]), ms);
    }
  }

  lemma SameCons<T>(x: T, more: seq<T>, s: seq<T>)
    requires s != []
    ensures [x] + more == s <==> x == s[0] && more == s[1..]
  {
    assert ([x] + more)[0] == x && ([x] + more)[1..] == more;
    assert s == [s[0]] + s[1..];
  }

  /** The round trip, and exactly when it succeeds. */
  lemma RoundTrip(libc: Libc, v: Json, style: Style)
    requires TreeOk(v) && StyleOk(style)
    ensures JsonDecode(libc, Text(libc, v, style)) == Some(v)
            <==> NoUnitSeparator(Strings(v)) && AllSurvive(libc, Numbers(v))
  {
    DecodePrinted(libc, v, style);
    PrintedIsSame(libc, v);
  }

  /** A tree that does not come back: the printer leaves U+001F as it is, the parser refuses it. */
  lemma UnitSeparatorBreaksRoundTrip(libc: Libc)
    ensures TreeOk(String([0x1F])) && JsonDecode(libc, Text(libc, String([0x1F]), Compact)) == None
  {
    Alone([0x1F]);
    DecodePrinted(libc, String([0x1F]), Compact);
    assert 0x1F in [0x1F as byte];
  }

  // Integers.

  function DigitText(d: nat): byte
    requires d < 10
  {
    if d == 0 then 0x30 else if d == 1 then 0x31 else if d == 2 then 0x32 else if d == 3 then 0x33
    else if d == 4 then 0x34 else if d == 5 then 0x35 else if d == 6 then 0x36 else if d == 7 then 0x37
    else if d == 8 then 0x38 else 0x39
  }

  function DigitValue(c: byte): nat {
    if c == 0x31 then 1 else if c == 0x32 then 2 else if c == 0x33 then 3 else if c == 0x34 then 4
    else if c == 0x35 then 5 else if c == 0x36 then 6 else if c == 0x37 then 7 else if c == 0x38 then 8
    else if c == 0x39 then 9 else 0
  }

  lemma DigitFacts(d: nat)
    requires d < 10
    ensures IsDigit(DigitText(d)) && DigitValue(DigitText(d)) == d && (d > 0 ==> DigitText(d) != 0x30)
  {}

  lemma DigitsAreAscii()
    ensures [DigitText(0), DigitText(1), DigitText(2), DigitText(3), DigitText(4), DigitText(5), DigitText(6),
             DigitText(7), DigitText(8), DigitText(9)]
            == [0x30, 0x31, 0x32, 0x33, 0x34, 0x35, 0x36, 0x37, 0x38, 0x39]
  {}

  /** Decimal notation. */
  function NaturalText(n: nat): bytes { if n < 10 then [DigitText(n)] else NaturalText(n / 10) + [DigitText(n % 10)] }

  function NaturalValue(s: bytes): nat {
    if s == [] then 0 else 10 * NaturalValue(s[..|s| - 1]) + DigitValue(s[|s| - 1])
  }

  function IntegerText(n: int): bytes { if n < 0 then [0x2D] + NaturalText(-n) else NaturalText(n) }

  function IntegerValue(s: bytes): int { if At(s, 0) == 0x2D then 0 - NaturalValue(s[1..]) else NaturalValue(s) }

  lemma AppendDigit(s: bytes, c: byte)
    ensures NaturalValue(s + [c]) == 10 * NaturalValue(s) + DigitValue(c)
  {
    assert (s + [c])[..|s|] == s;
  }

  lemma {:induction false} NaturalDigits(n: nat)
    ensures Digits(NaturalText(n)) && (n > 0 ==> NaturalText(n)[0] != 0x30)
    ensures NaturalValue(NaturalText(n)) == n
  {
    if n < 10 {
      DigitFacts(n);
      AppendDigit([], DigitText(n));
      assert [] + [DigitText(n)] == [DigitText(n)];
    } else {
      NaturalDigits(n / 10);
      NaturalCons(NaturalText(n / 10), n / 10, n % 10);
    }
  }

  lemma NaturalCons(t: bytes, q: nat, d: nat)
    requires Digits(t) && t[0] != 0x30 && NaturalValue(t) == q && d < 10
    ensures var s := t + [DigitText(d)]; Digits(s) && s[0] != 0x30 && NaturalValue(s) == 10 * q + d
  {
    DigitFacts(d);
    AppendDigit(t, DigitText(d));
  }

  /** The decimal text of an integer is a JSON number, and reads back. */
  lemma IntegerDigits(n: int)
    ensures NumberIsValid(IntegerText(n)) && IntegerValue(IntegerText(n)) == n
  {
    var m: nat := if n < 0 then -n else n;
    NaturalDigits(m);
    var x := NumberSyntax(n < 0, NaturalText(m), None, None);
    NumberComplete(x, []);
    assert UnparseNumber(x) + [] == IntegerText(n);
    if n < 0 { assert IntegerText(n)[1..] == NaturalText(m); }
  }

  /** What the round trip of integers needs of the C library: "%.16g" writes them in decimal, strtod reads them. */
  ghost predicate HandlesIntegers(libc: Libc, double: int -> Double, bound: int) {
    forall n | -bound < n < bound ::
      libc.format(double(n)) == IntegerText(n) && libc.strtod(IntegerText(n)) == double(n)
  }

  /** All trees of strings without U+001F and of integers below 10^15 come back. */
  lemma IntegerTreesRoundTrip(libc: Libc, v: Json, style: Style, double: int -> Double)
    requires TreeOk(v) && StyleOk(style) && NoUnitSeparator(Strings(v))
    requires HandlesIntegers(libc, double, 1_000_000_000_000_000)
    requires forall x | x in Numbers(v) :: exists n ::
      -1_000_000_000_000_000 < n < 1_000_000_000_000_000 && x == double(n)
    ensures JsonDecode(libc, Text(libc, v, style)) == Some(v)
  {
    forall x | x in Numbers(v) ensures Survives(libc, x) {
      var n :| -1_000_000_000_000_000 < n < 1_000_000_000_000_000 && x == double(n);
      IntegerDigits(n);
    }
    RoundTrip(libc, v, style);
  }
}
