/** JSON values, and the grammar of sections 2, 6 and 7 of RFC 8259 as concrete syntax trees.

    A text is in the grammar when it is the spelling (Unparse) of some well-formed tree.  This says
    nothing about how a parser works, so it can serve as the reference for one. */
module JsonGrammar {
  import opened Utf8
  import opened Wrappers

  /** An IEEE double, as its 64 bits; only the C library looks inside. */
  type Double = bv64

  /** The two C library calls the JSON code makes: sprintf(buf, "%.16g", x) and strtod. */
  datatype Libc = Libc(format: Double -> bytes, strtod: bytes -> Double)

  datatype Json =
    | Null
    | Bool(bool_: bool)
    | Number(num: Double)
    | String(str: bytes)
    | Array(items: seq<Json>)
    | Object(members: seq<Member>)

  datatype Member = Member(key: bytes, value: Json)

  // Concrete syntax.

  datatype Exponent = Exponent(letter: byte, sign: bytes, digits: bytes)

  datatype NumberSyntax = NumberSyntax(minus: bool, whole: bytes, frac: Option<bytes>, exp: Option<Exponent>)

  datatype CharSyntax =
    | Raw(u: uchar)                          // the character itself, in UTF-8
    | Escape(letter: byte)                   // \n and the like
    | Unicode(hex: bytes)                    // \uXXXX outside the surrogates
    | Surrogates(high: bytes, low: bytes)    // \uXXXX\uXXXX

  datatype Syntax =
    | SNull
    | STrue
    | SFalse
    | SNumber(number: NumberSyntax)
    | SString(chars: seq<CharSyntax>)
    | SArray(open: bytes, elements: seq<Element>)
    | SObject(open: bytes, fields: seq<Field>)

  /** An element, the white space behind it, and the white space behind its comma. */
  datatype Element = Element(value: Syntax, after: bytes, next: bytes)

  datatype Field = Field(key: seq<CharSyntax>, beforeColon: bytes, afterColon: bytes,
                         value: Syntax, after: bytes, next: bytes)

  const NULL: bytes := [0x6E, 0x75, 0x6C, 0x6C]
  const TRUE: bytes := [0x74, 0x72, 0x75, 0x65]
  const FALSE: bytes := [0x66, 0x61, 0x6C, 0x73, 0x65]

  predicate IsSpace(c: byte) { c == 0x09 || c == 0x0A || c == 0x0D || c == 0x20 }

  predicate IsDigit(c: byte) { 0x30 <= c <= 0x39 }

  predicate Spaces(s: bytes) { forall i | 0 <= i < |s| :: IsSpace(s[i]) }

  predicate Digits(s: bytes) { s != [] && forall i | 0 <= i < |s| :: IsDigit(s[i]) }

  // Well-formedness.

  predicate WholeOk(s: bytes) { s == [0x30] || (Digits(s) && s[0] != 0x30) }

  predicate ExponentOk(e: Exponent) {
    (e.letter == 0x45 || e.letter == 0x65) && (e.sign == [] || e.sign == [0x2B] || e.sign == [0x2D]) && Digits(e.digits)
  }

  predicate NumberOk(n: NumberSyntax) {
    WholeOk(n.whole) && (n.frac.Some? ==> Digits(n.frac.value)) && (n.exp.Some? ==> ExponentOk(n.exp.value))
  }

  /** The character a one-letter escape stands for, 0 when there is no such escape. */
  function EscapeMeaning(letter: byte): byte {
    if letter == 0x22 || letter == 0x5C || letter == 0x2F then letter
    else if letter == 0x62 then 0x08
    else if letter == 0x66 then 0x0C
    else if letter == 0x6E then 0x0A
    else if letter == 0x72 then 0x0D
    else if letter == 0x74 then 0x09
    else 0
  }

  predicate IsSurrogate(w: bv16) { 0xD800 <= w <= 0xDFFF }

  /** Well-formed, except that a control character may still stand for itself. */
  predicate CharOk(c: CharSyntax) {
    match c
    case Raw(u) => Scalar(u) && u != 0 && u != 0x22 && u != 0x5C
    case Escape(letter) => EscapeMeaning(letter) != 0
    case Unicode(hex) => IsHex16(hex) && Hex16(hex) != 0 && !IsSurrogate(Hex16(hex))
    case Surrogates(high, low) => IsHex16(high) && IsHex16(low) && FromSurrogatePair(Hex16(high), Hex16(low)).Pair?
  }

  /** The one thing CharOk leaves out. */
  predicate CharClean(c: CharSyntax) { c.Raw? ==> c.u > 0x1F }

  predicate CharsOk(cs: seq<CharSyntax>) { cs == [] || (CharOk(cs[0]) && CharsOk(cs[1..])) }

  predicate CharsClean(cs: seq<CharSyntax>) { cs == [] || (CharClean(cs[0]) && CharsClean(cs[1..])) }

  predicate SyntaxOk(x: Syntax)
    decreases x, 1
  {
    match x
    case SNumber(n) => NumberOk(n)
    case SString(cs) => CharsOk(cs)
    case SArray(open, elements) => Spaces(open) && ElementsOk(elements)
    case SObject(open, fields) => Spaces(open) && FieldsOk(fields)
    case _ => true
  }

  predicate ElementsOk(es: seq<Element>)
    decreases es, 0
  {
    es == [] || (SyntaxOk(es[0].value) && Spaces(es[0].after) && Spaces(es[0].next) && ElementsOk(es[1..]))
  }

  predicate FieldsOk(fs: seq<Field>)
    decreases fs, 0
  {
    fs == [] ||
    (CharsOk(fs[0].key) && Spaces(fs[0].beforeColon) && Spaces(fs[0].afterColon)
     && SyntaxOk(fs[0].value) && Spaces(fs[0].after) && Spaces(fs[0].next) && FieldsOk(fs[1..]))
  }

  predicate Clean(x: Syntax)
    decreases x, 1
  {
    match x
    case SString(cs) => CharsClean(cs)
    case SArray(_, elements) => ElementsClean(elements)
    case SObject(_, fields) => FieldsClean(fields)
    case _ => true
  }

  predicate ElementsClean(es: seq<Element>)
    decreases es, 0
  {
    es == [] || (Clean(es[0].value) && ElementsClean(es[1..]))
  }

  predicate FieldsClean(fs: seq<Field>)
    decreases fs, 0
  {
    fs == [] || (CharsClean(fs[0].key) && Clean(fs[0].value) && FieldsClean(fs[1..]))
  }

  // Spelling.

  function UnparseNumber(n: NumberSyntax): bytes {
    (if n.minus then [0x2D] else []) + n.whole + UnparseFrac(n.frac) + UnparseExp(n.exp)
  }

  function UnparseFrac(f: Option<bytes>): bytes {
    match f
    case None => []
    case Some(digits) => [0x2E] + digits
  }

  function UnparseExp(e: Option<Exponent>): bytes {
    match e
    case None => []
    case Some(x) => [x.letter] + x.sign + x.digits
  }

  function UnparseChar(c: CharSyntax): bytes {
    match c
    case Raw(u) => WriteChar(u)
    case Escape(letter) => [0x5C, letter]
    case Unicode(hex) => [0x5C, 0x75] + hex
    case Surrogates(high, low) => ([0x5C, 0x75] + high) + ([0x5C, 0x75] + low)
  }

  /** The characters and the closing quotation mark. */
  function UnparseChars(cs: seq<CharSyntax>): bytes {
    if cs == [] then [0x22] else UnparseChar(cs[0]) + UnparseChars(cs[1..])
  }

  function Unparse(x: Syntax): bytes
    decreases x, 1
  {
    match x
    case SNull => NULL
    case STrue => TRUE
    case SFalse => FALSE
    case SNumber(n) => UnparseNumber(n)
    case SString(cs) => [0x22] + UnparseChars(cs)
    case SArray(open, elements) => [0x5B] + open + (if elements == [] then [0x5D] else UnparseElements(elements))
    case SObject(open, fields) => [0x7B] + open + (if fields == [] then [0x7D] else UnparseFields(fields))
  }

  /** One or more elements and the closing bracket. */
  function UnparseElements(es: seq<Element>): bytes
    requires es != []
    decreases es, 0
  {
    Unparse(es[0].value) + es[0].after
    + (if |es| == 1 then [0x5D] else [0x2C] + es[0].next + UnparseElements(es[1..]))
  }

  function UnparseFields(fs: seq<Field>): bytes
    requires fs != []
    decreases fs, 0
  {
    FieldText(UnparseChars(fs[0].key), fs[0].beforeColon, fs[0].afterColon, Unparse(fs[0].value),
           fs[0].after + (if |fs| == 1 then [0x7D] else [0x2C] + fs[0].next + UnparseFields(fs[1..])))
  }

  function FieldText(key: bytes, beforeColon: bytes, afterColon: bytes, value: bytes, behind: bytes): bytes {
    [0x22] + key + (beforeColon + ([0x3A] + (afterColon + (value + behind))))
  }

  // Meaning.

  function CharMeaning(c: CharSyntax): bytes
    requires CharOk(c)
  {
    match c
    case Raw(u) => WriteChar(u)
    case Escape(letter) => [EscapeMeaning(letter)]
    case Unicode(hex) => WriteChar(Hex16(hex) as uchar)
    case Surrogates(high, low) => WriteChar(FromSurrogatePair(Hex16(high), Hex16(low)).unicode)
  }

  function CharsMeaning(cs: seq<CharSyntax>): bytes
    requires CharsOk(cs)
  {
    if cs == [] then [] else CharMeaning(cs[0]) + CharsMeaning(cs[1..])
  }

  function Meaning(libc: Libc, x: Syntax): Json
    requires SyntaxOk(x)
    decreases x, 1
  {
    match x
    case SNull => Null
    case STrue => Bool(true)
    case SFalse => Bool(false)
    case SNumber(n) => Number(libc.strtod(UnparseNumber(n)))
    case SString(cs) => String(CharsMeaning(cs))
    case SArray(_, elements) => Array(ElementsMeaning(libc, elements))
    case SObject(_, fields) => Object(FieldsMeaning(libc, fields))
  }

  function ElementsMeaning(libc: Libc, es: seq<Element>): (vs: seq<Json>)
    requires ElementsOk(es)
    ensures |vs| == |es|
    decreases es, 0
  {
    if es == [] then [] else [Meaning(libc, es[0].value)] + ElementsMeaning(libc, es[1..])
  }

  function FieldsMeaning(libc: Libc, fs: seq<Field>): (ms: seq<Member>)
    requires FieldsOk(fs)
    ensures |ms| == |fs|
    decreases fs, 0
  {
    if fs == [] then []
    else [Member(CharsMeaning(fs[0].key), Meaning(libc, fs[0].value))] + FieldsMeaning(libc, fs[1..])
  }

  /** The texts of the grammar, with their meanings. */
  ghost predicate InGrammar(libc: Libc, text: bytes, v: Json) {
    exists before, x, after ::
      Spaces(before) && Spaces(after) && SyntaxOk(x) && Clean(x)
      && text == before + Unparse(x) + after && v == Meaning(libc, x)
  }
}
