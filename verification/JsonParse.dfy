/** The recursive-descent parser of src/db/Json.cpp as functions on the text that is left to read, and the
    proof that it accepts exactly the grammar.

    A result holds what was read and the text behind it; the terminator is the end of the text. */
module JsonParse {
  import opened Utf8
  import opened Wrappers
  import opened JsonGrammar

  datatype Parsed<+T> = Fail | Ok(value: T, rest: bytes)

  /** skip_space. */
  function SkipSpace(s: bytes): (rest: bytes)
    ensures |rest| <= |s|
  {
    if s != [] && IsSpace(s[0]) then SkipSpace(s[1..]) else s
  }

  function SkipDigits(s: bytes): (rest: bytes)
    ensures |rest| <= |s|
  {
    if s != [] && IsDigit(s[0]) then SkipDigits(s[1..]) else s
  }

  // parse_number.

  function NumberSign(s: bytes): bytes { if At(s, 0) == 0x2D then s[1..] else s }

  function NumberWhole(s: bytes): (r: Option<bytes>)
    ensures r.Some? ==> |r.value| < |s|
  {
    if At(s, 0) == 0x30 then Some(s[1..])
    else if IsDigit(At(s, 0)) then Some(SkipDigits(s[1..]))
    else None
  }

  function NumberFrac(s: bytes): (r: Option<bytes>)
    ensures r.Some? ==> |r.value| <= |s|
  {
    if At(s, 0) != 0x2E then Some(s)
    else if IsDigit(At(s, 1)) then Some(SkipDigits(s[1..]))
    else None
  }

  function NumberExp(s: bytes): (r: Option<bytes>)
    ensures r.Some? ==> |r.value| <= |s|
  {
    if At(s, 0) != 0x45 && At(s, 0) != 0x65 then Some(s)
    else
      var t := if At(s, 1) == 0x2B || At(s, 1) == 0x2D then s[2..] else s[1..];
      if IsDigit(At(t, 0)) then Some(SkipDigits(t)) else None
  }

  /** What a number leaves, if there is one. */
  function NumberRest(s: bytes): (r: Option<bytes>)
    ensures r.Some? ==> |r.value| < |s|
  {
    match NumberWhole(NumberSign(s))
    case None => None
    case Some(a) =>
      match NumberFrac(a)
      case None => None
      case Some(b) => NumberExp(b)
  }

  /** number_is_valid. */
  predicate NumberIsValid(s: bytes) { NumberRest(s) == Some([]) }

  function ParseNumber(libc: Libc, s: bytes): (r: Parsed<Double>)
    ensures r.Ok? ==> |r.rest| < |s|
  {
    match NumberRest(s)
    case None => Fail
    case Some(rest) => Ok(libc.strtod(s[..|s| - |rest|]), rest)
  }

  // parse_string.

  /** Behind a backslash and u. */
  function ParseUnicode(s: bytes): (r: Parsed<bytes>)
    ensures r.Ok? ==> |r.rest| < |s|
  {
    if |s| >= 4 && IsHex16(s[..4]) then ParseUnit(Hex16(s[..4]), s[4..]) else Fail
  }

  /** Behind the four digits of a UTF-16 unit: a surrogate needs another one. */
  function ParseUnit(uc: bv16, s: bytes): (r: Parsed<bytes>)
    ensures r.Ok? ==> |r.rest| <= |s|
  {
    if IsSurrogate(uc) then
      if At(s, 0) == 0x5C && At(s, 1) == 0x75 && |s| >= 6 && IsHex16(s[2..6]) then
        match FromSurrogatePair(uc, Hex16(s[2..6]))
        case NoPair => Fail
        case Pair(u) => Ok(WriteChar(u), s[6..])
      else Fail
    else if uc == 0 then Fail
    else Ok(WriteChar(uc as uchar), s)
  }

  /** One character, in whatever spelling. */
  function ParseChar(s: bytes): (r: Parsed<bytes>)
    requires At(s, 0) != 0x22
    ensures r.Ok? ==> |r.rest| < |s|
  {
    var c := At(s, 0);
    if c == 0x5C then
      if At(s, 1) == 0x75 then ParseUnicode(s[2..])
      else if EscapeMeaning(At(s, 1)) != 0 then Ok([EscapeMeaning(At(s, 1))], s[2..])
      else Fail
    else if c <= 0x1F || ValidateCz(s) == 0 then Fail
    else
      ValidatedLength(s);
      Ok(s[..ValidateCz(s)], s[ValidateCz(s)..])
  }

  /** The characters up to the closing quotation mark. */
  function ParseChars(s: bytes): (r: Parsed<bytes>)
    ensures r.Ok? ==> |r.rest| < |s|
    decreases |s|
  {
    if At(s, 0) == 0x22 then Ok([], s[1..])
    else
      match ParseChar(s)
      case Fail => Fail
      case Ok(w, t) =>
        match ParseChars(t)
        case Fail => Fail
        case Ok(ws, rest) => Ok(w + ws, rest)
  }

  function ParseString(s: bytes): (r: Parsed<bytes>)
    ensures r.Ok? ==> |r.rest| < |s|
  {
    if At(s, 0) == 0x22 then ParseChars(s[1..]) else Fail
  }

  // parse_value, parse_array, parse_object.

  /** expect_literal. */
  function Literal(s: bytes, word: bytes, v: Json): (r: Parsed<Json>)
    requires word != []
    ensures r.Ok? ==> |r.rest| < |s|
  {
    if word <= s then Ok(v, s[|word|..]) else Fail
  }

  function ParseValue(libc: Libc, s: bytes): (r: Parsed<Json>)
    ensures r.Ok? ==> |r.rest| < |s|
    decreases |s|, 2
  {
    var c := At(s, 0);
    if c == 0x6E then Literal(s, NULL, Null)
    else if c == 0x66 then Literal(s, FALSE, Bool(false))
    else if c == 0x74 then Literal(s, TRUE, Bool(true))
    else if c == 0x22 then
      (match ParseString(s)
       case Fail => Fail
       case Ok(str, rest) => Ok(String(str), rest))
    else if c == 0x5B then
      (match ParseArray(libc, s)
       case Fail => Fail
       case Ok(vs, rest) => Ok(Array(vs), rest))
    else if c == 0x7B then
      (match ParseObject(libc, s)
       case Fail => Fail
       case Ok(ms, rest) => Ok(Object(ms), rest))
    else
      match ParseNumber(libc, s)
      case Fail => Fail
      case Ok(num, rest) => Ok(Number(num), rest)
  }

  function ParseArray(libc: Libc, s: bytes): (r: Parsed<seq<Json>>)
    requires At(s, 0) == 0x5B
    ensures r.Ok? ==> |r.rest| < |s|
    decreases |s|, 1
  {
    var t := SkipSpace(s[1..]);
    if At(t, 0) == 0x5D then Ok([], t[1..]) else ParseElements(libc, t)
  }

  function ParseElements(libc: Libc, s: bytes): (r: Parsed<seq<Json>>)
    ensures r.Ok? ==> |r.rest| < |s|
    decreases |s|, 3
  {
    match ParseValue(libc, s)
    case Fail => Fail
    case Ok(v, behind) =>
      var t := SkipSpace(behind);
      if At(t, 0) == 0x5D then Ok([v], t[1..])
      else if At(t, 0) == 0x2C then
        (match ParseElements(libc, SkipSpace(t[1..]))
         case Fail => Fail
         case Ok(vs, rest) => Ok([v] + vs, rest))
      else Fail
  }

  function ParseObject(libc: Libc, s: bytes): (r: Parsed<seq<Member>>)
    requires At(s, 0) == 0x7B
    ensures r.Ok? ==> |r.rest| < |s|
    decreases |s|, 1
  {
    var t := SkipSpace(s[1..]);
    if At(t, 0) == 0x7D then Ok([], t[1..]) else ParseFields(libc, t)
  }

  function ParseField(libc: Libc, s: bytes): (r: Parsed<Member>)
    ensures r.Ok? ==> |r.rest| < |s|
    decreases |s|, 3
  {
    match ParseString(s)
    case Fail => Fail
    case Ok(key, behind) =>
      var t := SkipSpace(behind);
      if At(t, 0) != 0x3A then Fail
      else
        match ParseValue(libc, SkipSpace(t[1..]))
        case Fail => Fail
        case Ok(v, rest) => Ok(Member(key, v), rest)
  }

  function ParseFields(libc: Libc, s: bytes): (r: Parsed<seq<Member>>)
    ensures r.Ok? ==> |r.rest| < |s|
    decreases |s|, 4
  {
    match ParseField(libc, s)
    case Fail => Fail
    case Ok(m, behind) =>
      var t := SkipSpace(behind);
      if At(t, 0) == 0x7D then Ok([m], t[1..])
      else if At(t, 0) == 0x2C then
        (match ParseFields(libc, SkipSpace(t[1..]))
         case Fail => Fail
         case Ok(ms, rest) => Ok([m] + ms, rest))
      else Fail
  }

  /** json_decode: the value of the whole text. */
  function JsonDecode(libc: Libc, text: bytes): Option<Json> {
    match ParseValue(libc, SkipSpace(text))
    case Fail => None
    case Ok(v, rest) => if SkipSpace(rest) == [] then Some(v) else None
  }

  // Completeness: every spelling is read.

  lemma {:induction false} SkipSpaces(ws: bytes, rest: bytes)
    requires Spaces(ws)
    ensures SkipSpace(ws + rest) == SkipSpace(rest)
  {
    if ws == [] {
      assert ws + rest == rest;
    } else {
      assert (ws + rest)[1..] == ws[1..] + rest;
      SkipSpaces(ws[1..], rest);
    }
  }

  lemma {:induction false} SkipAllDigits(ds: bytes, rest: bytes)
    requires forall i | 0 <= i < |ds| :: IsDigit(ds[i])
    requires !IsDigit(At(rest, 0))
    ensures SkipDigits(ds + rest) == rest
  {
    if ds == [] {
      assert ds + rest == rest;
    } else {
      assert (ds + rest)[1..] == ds[1..] + rest;
      SkipAllDigits(ds[1..], rest);
    }
  }

  /** Nothing that could continue a number. */
  predicate EndsNumber(s: bytes) {
    !IsDigit(At(s, 0)) && At(s, 0) != 0x2E && At(s, 0) != 0x45 && At(s, 0) != 0x65
  }

  lemma FirstOf(a: bytes, b: bytes)
    ensures At(a + b, 0) == if a == [] then At(b, 0) else a[0]
  {}

  lemma WholeComplete(w: bytes, rest: bytes)
    requires WholeOk(w) && !IsDigit(At(rest, 0))
    ensures NumberWhole(w + rest) == Some(rest)
  {
    assert (w + rest)[1..] == w[1..] + rest;
    if w == [0x30] {
      assert w[1..] + rest == rest;
    } else {
      SkipAllDigits(w[1..], rest);
    }
  }

  lemma FracComplete(f: Option<bytes>, rest: bytes)
    requires (f.Some? ==> Digits(f.value)) && !IsDigit(At(rest, 0)) && At(rest, 0) != 0x2E
    ensures NumberFrac(UnparseFrac(f) + rest) == Some(rest)
  {
    match f {
      case None => assert UnparseFrac(f) + rest == rest;
      case Some(ds) =>
        assert (UnparseFrac(f) + rest)[1..] == ds + rest;
        SkipAllDigits(ds, rest);
    }
  }

  lemma ExpComplete(e: Option<Exponent>, rest: bytes)
    requires (e.Some? ==> ExponentOk(e.value)) && EndsNumber(rest)
    ensures NumberExp(UnparseExp(e) + rest) == Some(rest)
  {
    match e {
      case None => assert UnparseExp(e) + rest == rest;
      case Some(x) =>
        var s, t := UnparseExp(e) + rest, x.digits + rest;
        assert s == [x.letter] + x.sign + t;
        assert t == if x.sign == [] then s[1..] else s[2..];
        SkipAllDigits(x.digits, rest);
    }
  }

  lemma NumberComplete(n: NumberSyntax, rest: bytes)
    requires NumberOk(n) && EndsNumber(rest)
    ensures NumberRest(UnparseNumber(n) + rest) == Some(rest)
    ensures IsDigit(At(UnparseNumber(n), 0)) || At(UnparseNumber(n), 0) == 0x2D
  {
    var e := UnparseExp(n.exp) + rest;
    var f := UnparseFrac(n.frac) + e;
    var w := n.whole + f;
    ExpComplete(n.exp, rest);
    FirstOf(UnparseExp(n.exp), rest);
    FracComplete(n.frac, e);
    FirstOf(UnparseFrac(n.frac), e);
    WholeComplete(n.whole, f);
    SignComplete(n, rest, w);
  }

  lemma SignComplete(n: NumberSyntax, rest: bytes, w: bytes)
    requires NumberOk(n) && w == n.whole + (UnparseFrac(n.frac) + (UnparseExp(n.exp) + rest))
    ensures NumberSign(UnparseNumber(n) + rest) == w
    ensures IsDigit(At(UnparseNumber(n), 0)) || At(UnparseNumber(n), 0) == 0x2D
  {
    var m: bytes := if n.minus then [0x2D] else [];
    Regroup(m, n.whole, UnparseFrac(n.frac), UnparseExp(n.exp), rest);
    SignThen(n.minus, n.whole, w);
  }

  lemma SignThen(minus: bool, whole: bytes, w: bytes)
    requires WholeOk(whole) && whole <= w
    ensures NumberSign((if minus then [0x2D] else []) + w) == w
  {
    if !minus { assert [] + w == w; }
  }

  lemma Regroup(a: bytes, b: bytes, c: bytes, d: bytes, e: bytes)
    ensures a + b + c + d + e == a + (b + (c + (d + e)))
  {}

  lemma Behind(c: byte, open: bytes, body: bytes, rest: bytes)
    ensures ([c] + open + body + rest)[1..] == open + (body + rest)
    ensures At([c] + open + body + rest, 0) == c
  {}

  lemma RawComplete(u: uchar, rest: bytes)
    requires CharOk(Raw(u))
    ensures At(WriteChar(u) + rest, 0) != 0x22
    ensures ParseChar(WriteChar(u) + rest) == if u > 0x1F then Ok(WriteChar(u), rest) else Fail
  {
    WriteRead(u, rest);
    FirstByte(u);
    var s := WriteChar(u) + rest;
    assert s[..|WriteChar(u)|] == WriteChar(u) && s[|WriteChar(u)|..] == rest;
  }

  /** The bytes below 0x80 stand for themselves and occur in no other character. */
  lemma FirstByte(u: uchar)
    requires Scalar(u) && u != 0
    ensures var c := WriteChar(u)[0];
      c != 0 && (c <= 0x1F <==> u <= 0x1F) && (c == 0x22 <==> u == 0x22) && (c == 0x5C <==> u == 0x5C)
  {
    if u <= 0x7F { Bits1(u); }
    else if u <= 0x7FF { Bits2(u); }
    else if u <= 0xFFFF { Lead3Facts(u); }
    else { Lead4Facts(u); }
  }

  lemma FirstUnit(hex: bytes, rest: bytes)
    requires IsHex16(hex)
    ensures ParseUnicode(hex + rest) == ParseUnit(Hex16(hex), rest)
  {
    assert (hex + rest)[..4] == hex && (hex + rest)[4..] == rest;
  }

  lemma PlainUnit(uc: bv16, rest: bytes)
    requires uc != 0 && !IsSurrogate(uc)
    ensures ParseUnit(uc, rest) == Ok(WriteChar(uc as uchar), rest)
  {}

  lemma SecondUnit(uc: bv16, low: bytes, rest: bytes)
    requires IsHex16(low) && IsSurrogate(uc) && FromSurrogatePair(uc, Hex16(low)).Pair?
    ensures ParseUnit(uc, [0x5C, 0x75] + low + rest) == Ok(WriteChar(FromSurrogatePair(uc, Hex16(low)).unicode), rest)
  {
    var s := [0x5C, 0x75] + low + rest;
    assert s[2..6] == low && s[6..] == rest;
  }

  lemma EscapeU(t: bytes, rest: bytes)
    ensures ParseChar([0x5C, 0x75] + t + rest) == ParseUnicode(t + rest)
  {
    assert ([0x5C, 0x75] + t + rest)[2..] == t + rest;
  }

  lemma EscapeComplete(letter: byte, rest: bytes)
    requires EscapeMeaning(letter) != 0
    ensures ParseChar([0x5C, letter] + rest) == Ok([EscapeMeaning(letter)], rest)
  {
    assert ([0x5C, letter] + rest)[2..] == rest;
  }

  lemma UnicodeComplete(hex: bytes, rest: bytes, uc: bv16)
    requires IsHex16(hex) && uc == Hex16(hex) && uc != 0 && !IsSurrogate(uc)
    ensures ParseChar([0x5C, 0x75] + hex + rest) == Ok(WriteChar(uc as uchar), rest)
  {
    EscapeU(hex, rest);
    FirstUnit(hex, rest);
    PlainUnit(uc, rest);
  }

  lemma SurrogatesComplete(high: bytes, low: bytes, rest: bytes)
    requires IsHex16(high) && IsHex16(low) && FromSurrogatePair(Hex16(high), Hex16(low)).Pair?
    ensures ParseChar(([0x5C, 0x75] + high) + ([0x5C, 0x75] + low) + rest)
         == Ok(WriteChar(FromSurrogatePair(Hex16(high), Hex16(low)).unicode), rest)
  {
    var t := [0x5C, 0x75] + low + rest;
    assert ([0x5C, 0x75] + high) + ([0x5C, 0x75] + low) + rest == [0x5C, 0x75] + high + t;
    EscapeU(high, t);
    FirstUnit(high, t);
    SecondUnit(Hex16(high), low, rest);
  }

  lemma CharComplete(c: CharSyntax, rest: bytes)
    requires CharOk(c)
    ensures At(UnparseChar(c) + rest, 0) != 0x22
    ensures ParseChar(UnparseChar(c) + rest) == if CharClean(c) then Ok(CharMeaning(c), rest) else Fail
  {
    match c {
      case Raw(u) => RawComplete(u, rest);
      case Escape(letter) => EscapeComplete(letter, rest);
      case Unicode(hex) => UnicodeComplete(hex, rest, Hex16(hex));
      case Surrogates(high, low) => SurrogatesComplete(high, low, rest);
    }
  }

  /** Every sequence of characters in any spelling is read to what it means. */
  lemma {:induction false} CharsComplete(cs: seq<CharSyntax>, rest: bytes)
    requires CharsOk(cs)
    ensures ParseChars(UnparseChars(cs) + rest) == if CharsClean(cs) then Ok(CharsMeaning(cs), rest) else Fail
  {
    if cs == [] {
      assert ([0x22] + rest)[1..] == rest;
    } else {
      var t := UnparseChars(cs[1..]) + rest;
      assert UnparseChars(cs) + rest == UnparseChar(cs[0]) + t;
      CharComplete(cs[0], t);
      CharsComplete(cs[1..], rest);
    }
  }

  lemma Quoted(t: bytes, rest: bytes)
    ensures ParseString([0x22] + t + rest) == ParseChars(t + rest)
  {
    assert ([0x22] + t + rest)[1..] == t + rest;
  }

  lemma StringComplete(cs: seq<CharSyntax>, rest: bytes)
    requires CharsOk(cs)
    ensures ParseString([0x22] + UnparseChars(cs) + rest) == if CharsClean(cs) then Ok(CharsMeaning(cs), rest) else Fail
  {
    Quoted(UnparseChars(cs), rest);
    CharsComplete(cs, rest);
  }

  /** A value starts with neither white space nor a closing bracket. */
  lemma FirstOfValue(x: Syntax, rest: bytes)
    requires SyntaxOk(x)
    ensures Unparse(x) != [] && SkipSpace(Unparse(x) + rest) == Unparse(x) + rest
    ensures At(Unparse(x) + rest, 0) != 0x5D && At(Unparse(x) + rest, 0) != 0x7D
  {
    if x.SNumber? { NumberComplete(x.number, []); }
    assert At(Unparse(x) + rest, 0) == At(Unparse(x), 0);
  }

  /** Every spelling of a value is read to its meaning and no further, or refused for a control character. */
  lemma {:induction false} ValueComplete(libc: Libc, x: Syntax, rest: bytes)
    requires SyntaxOk(x) && (x.SNumber? ==> EndsNumber(rest))
    ensures ParseValue(libc, Unparse(x) + rest) == if Clean(x) then Ok(Meaning(libc, x), rest) else Fail
    decreases x, 1
  {
    match x {
      case SNull => LiteralComplete(NULL, rest);
      case STrue => LiteralComplete(TRUE, rest);
      case SFalse => LiteralComplete(FALSE, rest);
      case SNumber(n) => NumberValueComplete(libc, n, rest);
      case SString(cs) => StringValueComplete(libc, cs, rest);
      case SArray(open, es) =>
        ArrayComplete(libc, open, es, rest);
        ArrayIsValue(libc, Unparse(x), rest);
      case SObject(open, fs) =>
        ObjectComplete(libc, open, fs, rest);
        ObjectIsValue(libc, Unparse(x), rest);
    }
  }

  lemma ArrayIsValue(libc: Libc, s: bytes, rest: bytes)
    requires At(s, 0) == 0x5B
    ensures At(s + rest, 0) == 0x5B
    ensures var r := ParseArray(libc, s + rest);
      ParseValue(libc, s + rest) == if r.Ok? then Ok(Array(r.value), r.rest) else Fail
  {
    FirstOf(s, rest);
  }

  lemma ObjectIsValue(libc: Libc, s: bytes, rest: bytes)
    requires At(s, 0) == 0x7B
    ensures At(s + rest, 0) == 0x7B
    ensures var r := ParseObject(libc, s + rest);
      ParseValue(libc, s + rest) == if r.Ok? then Ok(Object(r.value), r.rest) else Fail
  {
    FirstOf(s, rest);
  }

  lemma LiteralComplete(word: bytes, rest: bytes)
    requires word != []
    ensures word <= word + rest && (word + rest)[|word|..] == rest && At(word + rest, 0) == word[0]
  {}

  lemma NumberValueComplete(libc: Libc, n: NumberSyntax, rest: bytes)
    requires NumberOk(n) && EndsNumber(rest)
    ensures ParseValue(libc, UnparseNumber(n) + rest) == Ok(Number(libc.strtod(UnparseNumber(n))), rest)
  {
    NumberComplete(n, rest);
    var t := UnparseNumber(n);
    FirstOf(t, rest);
    assert (t + rest)[..|t + rest| - |rest|] == t;
  }

  lemma StringValueComplete(libc: Libc, cs: seq<CharSyntax>, rest: bytes)
    requires CharsOk(cs)
    ensures ParseValue(libc, [0x22] + UnparseChars(cs) + rest)
         == if CharsClean(cs) then Ok(String(CharsMeaning(cs)), rest) else Fail
  {
    StringComplete(cs, rest);
  }

  lemma {:induction false} ArrayComplete(libc: Libc, open: bytes, es: seq<Element>, rest: bytes)
    requires Spaces(open) && ElementsOk(es)
    ensures At(Unparse(SArray(open, es)) + rest, 0) == 0x5B
    ensures ParseArray(libc, Unparse(SArray(open, es)) + rest)
         == if ElementsClean(es) then Ok(ElementsMeaning(libc, es), rest) else Fail
    decreases es, 1
  {
    if es == [] {
      Behind(0x5B, open, [0x5D], rest);
      SkipSpaces(open, [0x5D] + rest);
      assert ([0x5D] + rest)[1..] == rest;
    } else {
      Behind(0x5B, open, UnparseElements(es), rest);
      SkipSpaces(open, UnparseElements(es) + rest);
      FirstOfElements(es, rest);
      ElementsComplete(libc, es, rest);
    }
  }

  lemma FirstOfElements(es: seq<Element>, rest: bytes)
    requires es != [] && ElementsOk(es)
    ensures SkipSpace(UnparseElements(es) + rest) == UnparseElements(es) + rest
    ensures At(UnparseElements(es) + rest, 0) != 0x5D
  {
    var e := es[0];
    var t := if |es| == 1 then [0x5D] else [0x2C] + e.next + UnparseElements(es[1..]);
    FirstOfValue(e.value, e.after + t + rest);
    assert UnparseElements(es) + rest == Unparse(e.value) + (e.after + t + rest);
  }

  lemma EndsWithSpaces(ws: bytes, t: bytes)
    requires Spaces(ws) && t != [] && (t[0] == 0x5D || t[0] == 0x2C || t[0] == 0x7D)
    ensures EndsNumber(ws + t) && SkipSpace(ws + t) == t
  {
    SkipSpaces(ws, t);
    FirstOf(ws, t);
    if ws != [] { assert IsSpace(ws[0]); }
  }

  lemma {:induction false} ElementsComplete(libc: Libc, es: seq<Element>, rest: bytes)
    requires es != [] && ElementsOk(es)
    ensures ParseElements(libc, UnparseElements(es) + rest)
         == if ElementsClean(es) then Ok(ElementsMeaning(libc, es), rest) else Fail
    decreases es, 0
  {
    var e, s := es[0], UnparseElements(es) + rest;
    var t := TailOfElements(e, es, rest);
    EndsWithSpaces(e.after, t);
    ValueComplete(libc, e.value, e.after + t);
    ElementsSplit(libc, es);
    if |es| == 1 {
      LastElement(libc, s, e.after + t, t, rest);
    } else {
      var u := UnparseElements(es[1..]) + rest;
      assert t[1..] == e.next + u;
      SkipSpaces(e.next, u);
      FirstOfElements(es[1..], rest);
      ElementsComplete(libc, es[1..], rest);
      NextElement(libc, s, e.after + t, t, u);
    }
  }

  lemma TailOfElements(e: Element, es: seq<Element>, rest: bytes) returns (t: bytes)
    requires es != [] && es[0] == e
    ensures t == if |es| == 1 then [0x5D] + rest else [0x2C] + (e.next + (UnparseElements(es[1..]) + rest))
    ensures UnparseElements(es) + rest == Unparse(e.value) + (e.after + t)
  {
    t := if |es| == 1 then [0x5D] + rest else [0x2C] + (e.next + (UnparseElements(es[1..]) + rest));
    if |es| == 1 {
      ElementBehind(Unparse(e.value), e.after, t, [0x5D], rest);
    } else {
      var more := UnparseElements(es[1..]);
      Comma(t, e.next, more, rest);
      ElementBehind(Unparse(e.value), e.after, t, [0x2C] + e.next + more, rest);
    }
  }

  lemma ElementsSplit(libc: Libc, es: seq<Element>)
    requires es != [] && ElementsOk(es)
    ensures ElementsClean(es) <==> Clean(es[0].value) && ElementsClean(es[1..])
    ensures ElementsMeaning(libc, es) == [Meaning(libc, es[0].value)] + ElementsMeaning(libc, es[1..])
    ensures |es| == 1 ==> ElementsClean(es[1..]) && ElementsMeaning(libc, es) == [Meaning(libc, es[0].value)]
  {}

  /** ParseElements on a last element. */
  lemma LastElement(libc: Libc, s: bytes, behind: bytes, t: bytes, rest: bytes)
    requires t == [0x5D] + rest && SkipSpace(behind) == t
    requires ParseValue(libc, s).Ok? ==> ParseValue(libc, s).rest == behind
    ensures ParseElements(libc, s)
         == if ParseValue(libc, s).Ok? then Ok([ParseValue(libc, s).value], rest) else Fail
  {
    assert t[1..] == rest;
  }

  /** ParseElements on an element with another one behind it. */
  lemma NextElement(libc: Libc, s: bytes, behind: bytes, t: bytes, u: bytes)
    requires t != [] && t[0] == 0x2C && SkipSpace(behind) == t && SkipSpace(t[1..]) == u
    requires ParseValue(libc, s).Ok? ==> ParseValue(libc, s).rest == behind
    ensures ParseElements(libc, s)
         == if ParseValue(libc, s).Ok? && ParseElements(libc, u).Ok?
            then Ok([ParseValue(libc, s).value] + ParseElements(libc, u).value, ParseElements(libc, u).rest) else Fail
  {}

  lemma {:induction false} ObjectComplete(libc: Libc, open: bytes, fs: seq<Field>, rest: bytes)
    requires Spaces(open) && FieldsOk(fs)
    ensures At(Unparse(SObject(open, fs)) + rest, 0) == 0x7B
    ensures ParseObject(libc, Unparse(SObject(open, fs)) + rest)
         == if FieldsClean(fs) then Ok(FieldsMeaning(libc, fs), rest) else Fail
    decreases fs, 1
  {
    if fs == [] {
      Behind(0x7B, open, [0x7D], rest);
      SkipSpaces(open, [0x7D] + rest);
      assert ([0x7D] + rest)[1..] == rest;
    } else {
      Behind(0x7B, open, UnparseFields(fs), rest);
      SkipSpaces(open, UnparseFields(fs) + rest);
      FirstOfFields(fs, rest);
      FieldsComplete(libc, fs, rest);
    }
  }

  lemma FirstOfFields(fs: seq<Field>, rest: bytes)
    requires fs != [] && FieldsOk(fs)
    ensures SkipSpace(UnparseFields(fs) + rest) == UnparseFields(fs) + rest
    ensures At(UnparseFields(fs) + rest, 0) != 0x7D
  {}

  lemma FieldTextThen(key: bytes, beforeColon: bytes, afterColon: bytes, value: bytes, behind: bytes, rest: bytes)
    ensures FieldText(key, beforeColon, afterColon, value, behind) + rest
         == FieldText(key, beforeColon, afterColon, value, behind + rest)
  {}

  lemma TailOfFields(f: Field, fs: seq<Field>, rest: bytes) returns (t: bytes)
    requires fs != [] && fs[0] == f
    ensures t == if |fs| == 1 then [0x7D] + rest else [0x2C] + (f.next + (UnparseFields(fs[1..]) + rest))
    ensures UnparseFields(fs) + rest
         == FieldText(UnparseChars(f.key), f.beforeColon, f.afterColon, Unparse(f.value), f.after + t)
  {
    t := if |fs| == 1 then [0x7D] + rest else [0x2C] + (f.next + (UnparseFields(fs[1..]) + rest));
    var u := f.after + (if |fs| == 1 then [0x7D] else [0x2C] + f.next + UnparseFields(fs[1..]));
    FieldTextThen(UnparseChars(f.key), f.beforeColon, f.afterColon, Unparse(f.value), u, rest);
    assert u + rest == f.after + t;
  }

  lemma {:induction false} FieldsComplete(libc: Libc, fs: seq<Field>, rest: bytes)
    requires fs != [] && FieldsOk(fs)
    ensures ParseFields(libc, UnparseFields(fs) + rest)
         == if FieldsClean(fs) then Ok(FieldsMeaning(libc, fs), rest) else Fail
    decreases fs, 0
  {
    var f, s := fs[0], UnparseFields(fs) + rest;
    var t := TailOfFields(f, fs, rest);
    EndsWithSpaces(f.after, t);
    FieldFirst(libc, f, s, f.after + t);
    FieldsSplit(libc, fs);
    if |fs| == 1 {
      LastField(libc, s, f.after + t, t, rest);
    } else {
      var u := UnparseFields(fs[1..]) + rest;
      assert t[1..] == f.next + u;
      SkipSpaces(f.next, u);
      FirstOfFields(fs[1..], rest);
      FieldsComplete(libc, fs[1..], rest);
      NextField(libc, s, f.after + t, t, u);
    }
  }

  lemma {:induction false} FieldFirst(libc: Libc, f: Field, s: bytes, behind: bytes)
    requires CharsOk(f.key) && Spaces(f.beforeColon) && Spaces(f.afterColon) && SyntaxOk(f.value) && EndsNumber(behind)
    requires s == FieldText(UnparseChars(f.key), f.beforeColon, f.afterColon, Unparse(f.value), behind)
    ensures ParseField(libc, s)
         == if CharsClean(f.key) && Clean(f.value) then Ok(Member(CharsMeaning(f.key), Meaning(libc, f.value)), behind)
            else Fail
    decreases f
  {
    ValueComplete(libc, f.value, behind);
    FieldComplete(libc, f, behind);
  }

  lemma FieldsSplit(libc: Libc, fs: seq<Field>)
    requires fs != [] && FieldsOk(fs)
    ensures FieldsClean(fs) <==> CharsClean(fs[0].key) && Clean(fs[0].value) && FieldsClean(fs[1..])
    ensures FieldsMeaning(libc, fs)
         == [Member(CharsMeaning(fs[0].key), Meaning(libc, fs[0].value))] + FieldsMeaning(libc, fs[1..])
    ensures |fs| == 1 ==> FieldsClean(fs[1..])
    ensures |fs| == 1 ==> FieldsMeaning(libc, fs) == [Member(CharsMeaning(fs[0].key), Meaning(libc, fs[0].value))]
  {}

  /** ParseFields on a last member. */
  lemma LastField(libc: Libc, s: bytes, behind: bytes, t: bytes, rest: bytes)
    requires t == [0x7D] + rest && SkipSpace(behind) == t
    requires ParseField(libc, s).Ok? ==> ParseField(libc, s).rest == behind
    ensures ParseFields(libc, s)
         == if ParseField(libc, s).Ok? then Ok([ParseField(libc, s).value], rest) else Fail
  {
    assert t[1..] == rest;
  }

  /** ParseFields on a member with another one behind it. */
  lemma NextField(libc: Libc, s: bytes, behind: bytes, t: bytes, u: bytes)
    requires t != [] && t[0] == 0x2C && SkipSpace(behind) == t && SkipSpace(t[1..]) == u
    requires ParseField(libc, s).Ok? ==> ParseField(libc, s).rest == behind
    ensures ParseFields(libc, s)
         == if ParseField(libc, s).Ok? && ParseFields(libc, u).Ok?
            then Ok([ParseField(libc, s).value] + ParseFields(libc, u).value, ParseFields(libc, u).rest) else Fail
  {}

  lemma FieldComplete(libc: Libc, f: Field, behind: bytes)
    requires CharsOk(f.key) && Spaces(f.beforeColon) && Spaces(f.afterColon) && SyntaxOk(f.value)
    requires ParseValue(libc, Unparse(f.value) + behind)
      == if Clean(f.value) then Ok(Meaning(libc, f.value), behind) else Fail
    ensures ParseField(libc, FieldText(UnparseChars(f.key), f.beforeColon, f.afterColon, Unparse(f.value), behind))
         == if CharsClean(f.key) && Clean(f.value) then Ok(Member(CharsMeaning(f.key), Meaning(libc, f.value)), behind)
            else Fail
  {
    var v := Unparse(f.value) + behind;
    var t := [0x3A] + (f.afterColon + v);
    StringComplete(f.key, f.beforeColon + t);
    SkipSpaces(f.beforeColon, t);
    assert t[1..] == f.afterColon + v;
    SkipSpaces(f.afterColon, v);
    FirstOfValue(f.value, behind);
  }

  // Soundness: whatever is read is a spelling.

  lemma {:induction false} SpacesSkipped(s: bytes) returns (ws: bytes)
    ensures Spaces(ws) && s == ws + SkipSpace(s)
  {
    ws := [];
    if s != [] && IsSpace(s[0]) {
      ws := SpacesSkipped(s[1..]);
      ws := [s[0]] + ws;
    }
  }

  lemma {:induction false} DigitsSkipped(s: bytes) returns (ds: bytes)
    ensures s == ds + SkipDigits(s) && forall i | 0 <= i < |ds| :: IsDigit(ds[i])
    ensures IsDigit(At(s, 0)) ==> ds != [] && ds[0] == s[0]
  {
    ds := [];
    if s != [] && IsDigit(s[0]) {
      ds := DigitsSkipped(s[1..]);
      ds := [s[0]] + ds;
    }
  }

  lemma WholeSound(s: bytes) returns (w: bytes)
    requires NumberWhole(s).Some?
    ensures WholeOk(w) && s == w + NumberWhole(s).value
  {
    if At(s, 0) == 0x30 {
      w := [0x30];
    } else {
      w := DigitsSkipped(s);
    }
  }

  lemma FracSound(s: bytes) returns (f: Option<bytes>)
    requires NumberFrac(s).Some?
    ensures (f.Some? ==> Digits(f.value)) && s == UnparseFrac(f) + NumberFrac(s).value
  {
    if At(s, 0) != 0x2E {
      f := None;
    } else {
      assert s[1..][0] == At(s, 1);
      var ds := DigitsSkipped(s[1..]);
      f := Some(ds);
      assert s == [0x2E] + s[1..];
    }
  }

  lemma ThreePieces(s: bytes, k: nat, d: bytes, rest: bytes)
    requires 1 <= k <= |s| && s[k..] == d + rest
    ensures s == [s[0]] + s[1..k] + d + rest
  {
    assert s == s[..k] + s[k..];
    assert s[..k] == [s[0]] + s[1..k];
  }

  lemma ExpSound(s: bytes) returns (e: Option<Exponent>)
    requires NumberExp(s).Some?
    ensures (e.Some? ==> ExponentOk(e.value)) && s == UnparseExp(e) + NumberExp(s).value
  {
    if At(s, 0) != 0x45 && At(s, 0) != 0x65 {
      e := None;
    } else {
      var k := if At(s, 1) == 0x2B || At(s, 1) == 0x2D then 2 else 1;
      var ds := DigitsSkipped(s[k..]);
      e := Some(Exponent(s[0], s[1..k], ds));
      ThreePieces(s, k, ds, NumberExp(s).value);
    }
  }

  /** Whatever parse_number consumes is a number. */
  lemma NumberSound(s: bytes) returns (n: NumberSyntax)
    requires NumberRest(s).Some?
    ensures NumberOk(n) && s == UnparseNumber(n) + NumberRest(s).value
  {
    var t := NumberSign(s);
    var w := WholeSound(t);
    var a := NumberWhole(t).value;
    var f := FracSound(a);
    var b := NumberFrac(a).value;
    var e := ExpSound(b);
    n := NumberSyntax(At(s, 0) == 0x2D, w, f, e);
    var m: bytes := if n.minus then [0x2D] else [];
    assert s == m + t;
    Regroup(m, w, UnparseFrac(f), UnparseExp(e), NumberRest(s).value);
  }

  lemma UnitSound(uc: bv16, t: bytes)
    requires ParseUnit(uc, t).Ok?
    ensures IsSurrogate(uc) ==>
      |t| >= 6 && IsHex16(t[2..6]) && t == [0x5C, 0x75] + t[2..6] + t[6..] && ParseUnit(uc, t).rest == t[6..]
      && FromSurrogatePair(uc, Hex16(t[2..6])).Pair?
      && ParseUnit(uc, t).value == WriteChar(FromSurrogatePair(uc, Hex16(t[2..6])).unicode)
    ensures !IsSurrogate(uc) ==> uc != 0 && ParseUnit(uc, t) == Ok(WriteChar(uc as uchar), t)
  {}

  lemma UnicodeSound(s: bytes) returns (c: CharSyntax)
    requires ParseUnicode(s).Ok?
    ensures CharOk(c) && CharClean(c) && CharMeaning(c) == ParseUnicode(s).value
    ensures [0x5C, 0x75] + s == UnparseChar(c) + ParseUnicode(s).rest
  {
    var hex, t := s[..4], s[4..];
    assert s == hex + t;
    c := UnitSpelled(hex, t, Hex16(hex));
    UnitSyntax(hex, t, s);
  }

  lemma UnitSpelled(hex: bytes, t: bytes, uc: bv16) returns (c: CharSyntax)
    requires IsHex16(hex) && uc == Hex16(hex) && ParseUnit(uc, t).Ok?
    ensures CharOk(c) && CharClean(c) && CharMeaning(c) == ParseUnit(uc, t).value
    ensures ([0x5C, 0x75] + hex) + t == UnparseChar(c) + ParseUnit(uc, t).rest
  {
    UnitSound(uc, t);
    if IsSurrogate(uc) {
      c := Surrogates(hex, t[2..6]);
      PairSyntax([0x5C, 0x75] + hex, [0x5C, 0x75] + t[2..6], t[6..]);
    } else {
      c := Unicode(hex);
    }
  }

  lemma PairSyntax(a: bytes, b: bytes, c: bytes)
    ensures a + (b + c) == a + b + c
  {}

  lemma UnitSyntax(hex: bytes, t: bytes, s: bytes)
    requires s == hex + t
    ensures [0x5C, 0x75] + s == ([0x5C, 0x75] + hex) + t
  {}

  lemma CharSound(s: bytes) returns (c: CharSyntax)
    requires At(s, 0) != 0x22 && ParseChar(s).Ok?
    ensures CharOk(c) && CharClean(c) && CharMeaning(c) == ParseChar(s).value
    ensures s == UnparseChar(c) + ParseChar(s).rest
  {
    if At(s, 0) != 0x5C {
      ValidatedLength(s);
      ReadWrite(s);
      c := Raw(ReadChar(s));
      RawFirst(s, ReadChar(s));
    } else if At(s, 1) == 0x75 {
      c := UnicodeSound(s[2..]);
      assert s == [0x5C, 0x75] + s[2..];
    } else {
      c := Escape(At(s, 1));
      assert At(s, 1) == s[1];
      assert s == [0x5C, s[1]] + s[2..];
    }
  }

  lemma RawFirst(s: bytes, u: uchar)
    requires s != [] && Scalar(u) && WriteChar(u) <= s && s[0] > 0x1F && s[0] != 0x22 && s[0] != 0x5C
    ensures CharOk(Raw(u)) && CharClean(Raw(u))
  {
    assert s[0] == WriteChar(u)[0];
    if u == 0 { Bits1(u); } else { FirstByte(u); }
  }

  lemma CharThen(c: bytes, more: bytes, rest: bytes)
    ensures c + (more + rest) == c + more + rest
  {}

  lemma CharsCons(c: CharSyntax, more: seq<CharSyntax>, t: bytes, rest: bytes, s: bytes)
    requires CharOk(c) && CharClean(c) && CharsOk(more) && CharsClean(more)
    requires t == UnparseChars(more) + rest && s == UnparseChar(c) + t
    ensures CharsOk([c] + more) && CharsClean([c] + more)
    ensures CharsMeaning([c] + more) == CharMeaning(c) + CharsMeaning(more)
    ensures s == UnparseChars([c] + more) + rest
  {
    assert ([c] + more)[1..] == more;
    CharThen(UnparseChar(c), UnparseChars(more), rest);
  }

  /** One step of ParseChars. */
  lemma CharsStep(s: bytes)
    requires ParseChars(s).Ok? && At(s, 0) != 0x22
    ensures ParseChar(s).Ok? && ParseChars(ParseChar(s).rest).Ok?
    ensures ParseChars(s)
      == Ok(ParseChar(s).value + ParseChars(ParseChar(s).rest).value, ParseChars(ParseChar(s).rest).rest)
  {}

  lemma {:induction false} CharsSound(s: bytes) returns (cs: seq<CharSyntax>)
    requires ParseChars(s).Ok?
    ensures CharsOk(cs) && CharsClean(cs) && CharsMeaning(cs) == ParseChars(s).value
    ensures s == UnparseChars(cs) + ParseChars(s).rest
    decreases |s|
  {
    if At(s, 0) == 0x22 {
      cs := [];
      assert s == [0x22] + s[1..];
    } else {
      CharsStep(s);
      var c := CharSound(s);
      var t := ParseChar(s).rest;
      var more := CharsSound(t);
      cs := [c] + more;
      CharsCons(c, more, t, ParseChars(t).rest, s);
    }
  }

  lemma NumberValueSound(libc: Libc, s: bytes) returns (x: Syntax)
    requires ParseNumber(libc, s).Ok?
    ensures SyntaxOk(x) && Clean(x) && Meaning(libc, x) == Number(ParseNumber(libc, s).value)
    ensures s == Unparse(x) + ParseNumber(libc, s).rest
  {
    var n := NumberSound(s);
    x := SNumber(n);
    assert s[..|s| - |NumberRest(s).value|] == UnparseNumber(n);
  }

  /** Whatever parse_value accepts is a spelling of that value. */
  lemma {:induction false} ValueSound(libc: Libc, s: bytes) returns (x: Syntax)
    requires ParseValue(libc, s).Ok?
    ensures SyntaxOk(x) && Clean(x) && Meaning(libc, x) == ParseValue(libc, s).value
    ensures s == Unparse(x) + ParseValue(libc, s).rest
    decreases |s|, 2
  {
    var c := At(s, 0);
    ValueCases(libc, s);
    if c == 0x6E {
      x := SNull;
      WordSound(s, NULL, Null);
    } else if c == 0x66 {
      x := SFalse;
      WordSound(s, FALSE, Bool(false));
    } else if c == 0x74 {
      x := STrue;
      WordSound(s, TRUE, Bool(true));
    } else if c == 0x22 {
      x := StringValueSound(libc, s);
    } else if c == 0x5B {
      x := ArraySound(libc, s);
    } else if c == 0x7B {
      x := ObjectSound(libc, s);
    } else {
      x := NumberValueSound(libc, s);
    }
  }

  /** The cases of ParseValue, when it succeeds. */
  lemma ValueCases(libc: Libc, s: bytes)
    requires ParseValue(libc, s).Ok?
    ensures var c, r := At(s, 0), ParseValue(libc, s);
      if c == 0x6E then r == Literal(s, NULL, Null)
      else if c == 0x66 then r == Literal(s, FALSE, Bool(false))
      else if c == 0x74 then r == Literal(s, TRUE, Bool(true))
      else if c == 0x22 then
        ParseString(s).Ok? && r.rest == ParseString(s).rest && r.value == String(ParseString(s).value)
      else if c == 0x5B then
        ParseArray(libc, s).Ok? && r.rest == ParseArray(libc, s).rest && r.value == Array(ParseArray(libc, s).value)
      else if c == 0x7B then
        ParseObject(libc, s).Ok? && r.rest == ParseObject(libc, s).rest && r.value == Object(ParseObject(libc, s).value)
      else
        ParseNumber(libc, s).Ok? && r.rest == ParseNumber(libc, s).rest && r.value == Number(ParseNumber(libc, s).value)
  {}

  lemma WordSound(s: bytes, word: bytes, v: Json)
    requires word != [] && Literal(s, word, v).Ok?
    ensures Literal(s, word, v).value == v && s == word + Literal(s, word, v).rest
  {}

  lemma StringValueSound(libc: Libc, s: bytes) returns (x: Syntax)
    requires ParseString(s).Ok?
    ensures SyntaxOk(x) && Clean(x) && Meaning(libc, x) == String(ParseString(s).value)
    ensures s == Unparse(x) + ParseString(s).rest
  {
    var cs := CharsSound(s[1..]);
    x := SString(cs);
    AfterFirst(s);
    PairSyntax([0x22], UnparseChars(cs), ParseString(s).rest);
  }

  lemma AfterFirst(s: bytes)
    requires s != []
    ensures s == [s[0]] + s[1..]
  {}

  lemma Between(a: bytes, b: bytes, c: bytes, s: bytes, rest: bytes)
    requires |a| == 1 && a <= s && s[1..] == b + (c + rest)
    ensures s == a + b + c + rest
  {
    assert s == a + s[1..];
  }

  lemma {:induction false} ArraySound(libc: Libc, s: bytes) returns (x: Syntax)
    requires At(s, 0) == 0x5B && ParseArray(libc, s).Ok?
    ensures SyntaxOk(x) && Clean(x) && Meaning(libc, x) == Array(ParseArray(libc, s).value)
    ensures s == Unparse(x) + ParseArray(libc, s).rest
    decreases |s|, 1
  {
    var t := SkipSpace(s[1..]);
    var open := SpacesSkipped(s[1..]);
    if At(t, 0) == 0x5D {
      x := SArray(open, []);
      assert t == [0x5D] + t[1..];
      Between([0x5B], open, [0x5D], s, t[1..]);
    } else {
      var es := ElementsSound(libc, t);
      x := SArray(open, es);
      Between([0x5B], open, UnparseElements(es), s, ParseArray(libc, s).rest);
    }
  }

  lemma ElementsCons(libc: Libc, e: Element, more: seq<Element>)
    requires SyntaxOk(e.value) && Spaces(e.after) && Spaces(e.next) && ElementsOk(more)
    ensures ElementsOk([e] + more) && (ElementsClean([e] + more) <==> Clean(e.value) && ElementsClean(more))
    ensures ElementsMeaning(libc, [e] + more) == [Meaning(libc, e.value)] + ElementsMeaning(libc, more)
    ensures UnparseElements([e] + more)
         == Unparse(e.value) + e.after + (if more == [] then [0x5D] else [0x2C] + e.next + UnparseElements(more))
  {
    assert ([e] + more)[1..] == more;
  }

  lemma {:induction false} ElementsSound(libc: Libc, s: bytes) returns (es: seq<Element>)
    requires ParseElements(libc, s).Ok?
    ensures es != [] && ElementsOk(es) && ElementsClean(es)
    ensures ElementsMeaning(libc, es) == ParseElements(libc, s).value
    ensures s == UnparseElements(es) + ParseElements(libc, s).rest
    decreases |s|, 3
  {
    var x := ValueSound(libc, s);
    var behind := ParseValue(libc, s).rest;
    var t := SkipSpace(behind);
    var after := SpacesSkipped(behind);
    ElementsStep(libc, s);
    if At(t, 0) == 0x5D {
      var e := Element(x, after, []);
      es := [e] + [];
      ElementsCons(libc, e, []);
      assert t == [0x5D] + t[1..];
      ElementBehind(Unparse(x), after, t, [0x5D], t[1..]);
    } else {
      var next := SpacesSkipped(t[1..]);
      var u := SkipSpace(t[1..]);
      var more := ElementsSound(libc, u);
      var e := Element(x, after, next);
      es := [e] + more;
      ElementsCons(libc, e, more);
      var rest := ParseElements(libc, u).rest;
      Comma(t, next, UnparseElements(more), rest);
      ElementBehind(Unparse(x), after, t, [0x2C] + next + UnparseElements(more), rest);
    }
  }

  lemma ElementsStep(libc: Libc, s: bytes)
    requires ParseElements(libc, s).Ok?
    ensures var p := ParseValue(libc, s);
      p.Ok? && (var t := SkipSpace(p.rest);
        t != [] &&
        if t[0] == 0x5D then ParseElements(libc, s) == Ok([p.value], t[1..])
        else t[0] == 0x2C && (var q := ParseElements(libc, SkipSpace(t[1..]));
               q.Ok? && ParseElements(libc, s) == Ok([p.value] + q.value, q.rest)))
  {}

  lemma Comma(t: bytes, next: bytes, more: bytes, rest: bytes)
    requires t != [] && t[0] == 0x2C && t[1..] == next + (more + rest)
    ensures t == ([0x2C] + next + more) + rest
  {
    assert t == [0x2C] + t[1..];
  }

  lemma ElementBehind(value: bytes, after: bytes, t: bytes, tail: bytes, rest: bytes)
    requires t == tail + rest
    ensures value + (after + t) == value + after + tail + rest
  {}

  lemma {:induction false} ObjectSound(libc: Libc, s: bytes) returns (x: Syntax)
    requires At(s, 0) == 0x7B && ParseObject(libc, s).Ok?
    ensures SyntaxOk(x) && Clean(x) && Meaning(libc, x) == Object(ParseObject(libc, s).value)
    ensures s == Unparse(x) + ParseObject(libc, s).rest
    decreases |s|, 1
  {
    var t := SkipSpace(s[1..]);
    var open := SpacesSkipped(s[1..]);
    if At(t, 0) == 0x7D {
      x := SObject(open, []);
      assert t == [0x7D] + t[1..];
      Between([0x7B], open, [0x7D], s, t[1..]);
    } else {
      var fs := FieldsSound(libc, t);
      x := SObject(open, fs);
      Between([0x7B], open, UnparseFields(fs), s, ParseObject(libc, s).rest);
    }
  }

  /** What parsing a member found. */
  lemma FieldParts(libc: Libc, s: bytes)
    requires ParseField(libc, s).Ok?
    ensures var p := ParseString(s);
      p.Ok? && s != [] && s[0] == 0x22 && ParseChars(s[1..]) == p
      && (var t := SkipSpace(p.rest);
          t != [] && t[0] == 0x3A
          && (var q := ParseValue(libc, SkipSpace(t[1..]));
              q.Ok? && ParseField(libc, s) == Ok(Member(p.value, q.value), q.rest)))
  {}

  lemma FieldTogether(s: bytes, key: bytes, behind: bytes, beforeColon: bytes, t: bytes, afterColon: bytes, u: bytes,
                      value: bytes, rest: bytes)
    requires s != [] && s[0] == 0x22 && s[1..] == key + behind && behind == beforeColon + t
    requires t != [] && t[0] == 0x3A && t[1..] == afterColon + u && u == value + rest
    ensures s == FieldText(key, beforeColon, afterColon, value, rest)
  {
    assert s == [0x22] + s[1..];
    assert t == [0x3A] + t[1..];
  }

  lemma {:induction false} FieldSound(libc: Libc, s: bytes) returns (f: Field)
    requires ParseField(libc, s).Ok?
    ensures CharsOk(f.key) && Spaces(f.beforeColon) && Spaces(f.afterColon) && SyntaxOk(f.value)
    ensures CharsClean(f.key) && Clean(f.value)
    ensures Member(CharsMeaning(f.key), Meaning(libc, f.value)) == ParseField(libc, s).value
    ensures s == FieldText(UnparseChars(f.key), f.beforeColon, f.afterColon, Unparse(f.value), ParseField(libc, s).rest)
    decreases |s|, 3
  {
    FieldParts(libc, s);
    var cs := CharsSound(s[1..]);
    var behind := ParseString(s).rest;
    var beforeColon := SpacesSkipped(behind);
    var t := SkipSpace(behind);
    var afterColon := SpacesSkipped(t[1..]);
    var u := SkipSpace(t[1..]);
    var x := ValueSound(libc, u);
    f := Field(cs, beforeColon, afterColon, x, [], []);
    FieldTogether(s, UnparseChars(cs), behind, beforeColon, t, afterColon, u, Unparse(x), ParseField(libc, s).rest);
  }

  predicate FieldOk(f: Field) {
    CharsOk(f.key) && Spaces(f.beforeColon) && Spaces(f.afterColon) && SyntaxOk(f.value) && Spaces(f.after)
      && Spaces(f.next)
  }

  lemma FieldsCons(libc: Libc, f: Field, more: seq<Field>)
    requires FieldOk(f) && FieldsOk(more)
    ensures FieldsOk([f] + more)
    ensures FieldsClean([f] + more) <==> CharsClean(f.key) && Clean(f.value) && FieldsClean(more)
    ensures FieldsMeaning(libc, [f] + more)
         == [Member(CharsMeaning(f.key), Meaning(libc, f.value))] + FieldsMeaning(libc, more)
    ensures UnparseFields([f] + more)
         == FieldText(UnparseChars(f.key), f.beforeColon, f.afterColon, Unparse(f.value),
                      f.after + (if more == [] then [0x7D] else [0x2C] + f.next + UnparseFields(more)))
  {
    assert ([f] + more)[1..] == more;
  }

  lemma {:induction false} FieldsSound(libc: Libc, s: bytes) returns (fs: seq<Field>)
    requires ParseFields(libc, s).Ok?
    ensures fs != [] && FieldsOk(fs) && FieldsClean(fs)
    ensures FieldsMeaning(libc, fs) == ParseFields(libc, s).value
    ensures s == UnparseFields(fs) + ParseFields(libc, s).rest
    decreases |s|, 4
  {
    var f := FieldSound(libc, s);
    var behind := ParseField(libc, s).rest;
    var t := SkipSpace(behind);
    var after := SpacesSkipped(behind);
    FieldsStep(libc, s);
    if At(t, 0) == 0x7D {
      f := f.(after := after, next := []);
      fs := [f] + [];
      FieldsCons(libc, f, []);
      assert t == [0x7D] + t[1..];
      FieldBehind(f, s, behind, t, [0x7D], t[1..]);
    } else {
      var next := SpacesSkipped(t[1..]);
      var u := SkipSpace(t[1..]);
      var more := FieldsSound(libc, u);
      f := f.(after := after, next := next);
      fs := [f] + more;
      FieldsCons(libc, f, more);
      var rest := ParseFields(libc, u).rest;
      Comma(t, next, UnparseFields(more), rest);
      FieldBehind(f, s, behind, t, [0x2C] + next + UnparseFields(more), rest);
    }
  }

  lemma FieldsStep(libc: Libc, s: bytes)
    requires ParseFields(libc, s).Ok?
    ensures var p := ParseField(libc, s);
      p.Ok? && (var t := SkipSpace(p.rest);
        t != [] &&
        if t[0] == 0x7D then ParseFields(libc, s) == Ok([p.value], t[1..])
        else t[0] == 0x2C && (var q := ParseFields(libc, SkipSpace(t[1..]));
               q.Ok? && ParseFields(libc, s) == Ok([p.value] + q.value, q.rest)))
  {}

  lemma FieldBehind(f: Field, s: bytes, behind: bytes, t: bytes, tail: bytes, rest: bytes)
    requires behind == f.after + t && t == tail + rest
    requires s == FieldText(UnparseChars(f.key), f.beforeColon, f.afterColon, Unparse(f.value), behind)
    ensures s == FieldText(UnparseChars(f.key), f.beforeColon, f.afterColon, Unparse(f.value), f.after + tail) + rest
  {
    FieldTextThen(UnparseChars(f.key), f.beforeColon, f.afterColon, Unparse(f.value), f.after + tail, rest);
    assert (f.after + tail) + rest == behind;
  }

  // The whole text.

  /** json_decode accepts exactly the texts of the grammar, and gives their meaning. */
  lemma DecodeIsTheGrammar(libc: Libc, text: bytes, v: Json)
    ensures JsonDecode(libc, text) == Some(v) <==> InGrammar(libc, text, v)
  {
    if JsonDecode(libc, text) == Some(v) { DecodeSound(libc, text); }
    forall before, x, after | Spaces(before) && Spaces(after) && SyntaxOk(x) && Clean(x)
      && text == before + Unparse(x) + after
      ensures JsonDecode(libc, text) == Some(Meaning(libc, x))
    {
      DecodeSpelling(libc, before, x, after);
    }
  }

  lemma DecodeSound(libc: Libc, text: bytes)
    requires JsonDecode(libc, text).Some?
    ensures InGrammar(libc, text, JsonDecode(libc, text).value)
  {
    var before := SpacesSkipped(text);
    var s := SkipSpace(text);
    var x := ValueSound(libc, s);
    var after := SpacesSkipped(ParseValue(libc, s).rest);
    PairSyntax(before, Unparse(x), after);
  }

  /** Whatever white space surrounds it, a value is decoded to its meaning, or refused for a control character. */
  lemma DecodeSpelling(libc: Libc, before: bytes, x: Syntax, after: bytes)
    requires Spaces(before) && Spaces(after) && SyntaxOk(x)
    ensures JsonDecode(libc, before + Unparse(x) + after) == if Clean(x) then Some(Meaning(libc, x)) else None
  {
    assert before + Unparse(x) + after == before + (Unparse(x) + after);
    SkipSpaces(before, Unparse(x) + after);
    FirstOfValue(x, after);
    assert EndsNumber(after) by {
      if after != [] { assert IsSpace(after[0]); }
    }
    ValueComplete(libc, x, after);
    assert after + [] == after;
    SkipSpaces(after, []);
  }
}
