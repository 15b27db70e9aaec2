/** What json_encode, json_stringify and json_encode_string write, said of the bytes themselves: the texts of containers
    put together from the texts of their parts, and the choice of escapes character by character. */
module JsonPrinted {
  import opened Utf8
  import opened JsonGrammar
  import opened JsonParse
  import opened JsonPrint
  import opened JsonTexts

  // Values without parts.

  lemma WordsPrinted(libc: Libc, style: Style, level: nat)
    ensures Unparse(SyntaxOf(libc, Null, style, level)) == [0x6E, 0x75, 0x6C, 0x6C]
    ensures Unparse(SyntaxOf(libc, Bool(true), style, level)) == [0x74, 0x72, 0x75, 0x65]
    ensures Unparse(SyntaxOf(libc, Bool(false), style, level)) == [0x66, 0x61, 0x6C, 0x73, 0x65]
  {}

  /** What sprintf made of a number, or null when that is no JSON number. */
  lemma NumberPrinted(libc: Libc, x: Double, style: Style, level: nat)
    ensures var t := Unparse(SyntaxOf(libc, Number(x), style, level));
      (NumberText(libc.format(x)) ==> t == libc.format(x))
      && (!NumberText(libc.format(x)) ==> t == [0x6E, 0x75, 0x6C, 0x6C])
  {
    NumberTextIsValid(libc.format(x));
  }

  lemma NumberTextIsValid(t: bytes)
    ensures NumberText(t) <==> NumberIsValid(t)
  {
    if NumberText(t) {
      var n := TextIsNumber(t);
      NumberComplete(n, []);
      assert t + [] == t;
    }
    if NumberIsValid(t) {
      var n := NumberSyntaxOf(t);
      NumberIsText(n);
    }
  }

  // Strings.

  /** One letter behind a backslash where there is one, else four digits for the other control characters but U+001F,
      else, unless Unicode is to be escaped, the character itself. */
  lemma CharPrinted(u: uchar, escapeUnicode: bool)
    requires Scalar(u)
    ensures var t := UnparseChar(CharSyntaxOf(u, escapeUnicode));
      if u == 0x22 then t == [0x5C, 0x22]
      else if u == 0x5C then t == [0x5C, 0x5C]
      else if u == 0x08 then t == [0x5C, 0x62]
      else if u == 0x0C then t == [0x5C, 0x66]
      else if u == 0x0A then t == [0x5C, 0x6E]
      else if u == 0x0D then t == [0x5C, 0x72]
      else if u == 0x09 then t == [0x5C, 0x74]
      else if u <= 0x1E || (escapeUnicode && 0x80 <= u <= 0xFFFF) then t == [0x5C, 0x75] + WriteHex16(u as bv16)
      else if u <= 0x7F || !escapeUnicode then t == WriteChar(u)
      else t == [0x5C, 0x75] + WriteHex16(HighOf(u)) + ([0x5C, 0x75] + WriteHex16(LowOf(u)))
  {}

  lemma FirstSpelled(us: seq<uchar>, escapeUnicode: bool)
    requires us != [] && Scalars(us)
    ensures Valid(Encode(us)) && Valid(Encode(us[1..]))
    ensures CharsSyntaxOf(Encode(us), escapeUnicode)
            == [CharSyntaxOf(us[0], escapeUnicode)] + CharsSyntaxOf(Encode(us[1..]), escapeUnicode)
  {
    var w, t := WriteChar(us[0]), Encode(us[1..]);
    DecodeEncode(us);
    DecodeEncode(us[1..]);
    WriteRead(us[0], t);
    assert (w + t)[|w|..] == t;
  }

  lemma {:induction false} StringPrinted(us: seq<uchar>, ts: seq<bytes>, escapeUnicode: bool)
    requires Scalars(us) && |ts| == |us|
    requires forall i | 0 <= i < |us| :: ts[i] == UnparseChar(CharSyntaxOf(us[i], escapeUnicode))
    ensures Valid(Encode(us)) && UnparseChars(CharsSyntaxOf(Encode(us), escapeUnicode)) == Joined(ts) + [0x22]
  {
    if us != [] {
      FirstSpelled(us, escapeUnicode);
      StringPrinted(us[1..], ts[1..], escapeUnicode);
      var more := CharsSyntaxOf(Encode(us[1..]), escapeUnicode);
      assert ([CharSyntaxOf(us[0], escapeUnicode)] + more)[1..] == more;
      assert ts[0] + (Joined(ts[1..]) + [0x22]) == ts[0] + Joined(ts[1..]) + [0x22];
    }
  }

  // Arrays and objects.

  /** The pieces with something between them. */
  function Separated(pieces: seq<bytes>, between: bytes): bytes {
    if pieces == [] then [] else if |pieces| == 1 then pieces[0]
    else pieces[0] + between + Separated(pieces[1..], between)
  }

  function Indentation(space: bytes, n: nat): bytes { if n == 0 then [] else space + Indentation(space, n - 1) }

  lemma {:induction false} RepeatIsIndentation(space: bytes, n: nat)
    ensures Repeat(space, n) == Indentation(space, n) && Repeat(space, n) + space == space + Repeat(space, n)
  {
    if n > 0 {
      RepeatIsIndentation(space, n - 1);
      assert space + Repeat(space, n - 1) + space == space + (Repeat(space, n - 1) + space);
    }
  }

  /** On one line with commas, or each piece on a line of its own, one step further in than the brackets. */
  function Layout(left: bytes, pieces: seq<bytes>, right: bytes, style: Style, level: nat): bytes {
    match style
    case Compact => left + Separated(pieces, [0x2C]) + right
    case Indented(space) =>
      if pieces == [] then left + right
      else
        left + [0x0A] + Indentation(space, level + 1)
        + Separated(pieces, [0x2C, 0x0A] + Indentation(space, level + 1))
        + [0x0A] + Indentation(space, level) + right
  }

  lemma LayoutOfGaps(left: bytes, pieces: seq<bytes>, right: bytes, style: Style, level: nat)
    requires pieces != []
    ensures left + Gap(style, level + 1)
            + (Separated(pieces, [0x2C] + Gap(style, level + 1)) + (Gap(style, level) + right))
            == Layout(left, pieces, right, style, level)
  {
    if style.Compact? {
      var comma: bytes := [0x2C];
      assert comma + Gap(style, level + 1) == comma;
    } else {
      RepeatIsIndentation(style.space, level);
      RepeatIsIndentation(style.space, level + 1);
      var inner := Indentation(style.space, level + 1);
      assert [0x2C] + Gap(style, level + 1) == [0x2C, 0x0A] + inner;
      Flat(left, inner, Separated(pieces, [0x2C, 0x0A] + inner), Indentation(style.space, level), right);
    }
  }

  lemma Flat(left: bytes, inner: bytes, list: bytes, outer: bytes, right: bytes)
    ensures left + ([0x0A] + inner) + (list + ([0x0A] + outer + right))
         == left + [0x0A] + inner + list + [0x0A] + outer + right
  {}

  /** Brackets around the elements. */
  lemma ArrayPrinted(libc: Libc, vs: seq<Json>, ts: seq<bytes>, style: Style, level: nat)
    requires TreeOk(Array(vs)) && |ts| == |vs|
    requires forall i | 0 <= i < |vs| :: TreeOk(vs[i]) && ts[i] == Unparse(SyntaxOf(libc, vs[i], style, level + 1))
    ensures Unparse(SyntaxOf(libc, Array(vs), style, level)) == Layout([0x5B], ts, [0x5D], style, level)
  {
    if vs == [] {
      assert Unparse(SyntaxOf(libc, Array(vs), style, level)) == [0x5B] + [] + [0x5D];
    } else {
      ElementsPrinted(libc, vs, ts, style, level);
      LayoutOfGaps([0x5B], ts, [0x5D], style, level);
    }
  }

  lemma {:induction false} ElementsPrinted(libc: Libc, vs: seq<Json>, ts: seq<bytes>, style: Style, level: nat)
    requires vs != [] && AllStrOk(StringsOfItems(vs)) && |ts| == |vs|
    requires forall i | 0 <= i < |vs| :: TreeOk(vs[i]) && ts[i] == Unparse(SyntaxOf(libc, vs[i], style, level + 1))
    ensures UnparseElements(ElementsOf(libc, vs, style, level))
            == Separated(ts, [0x2C] + Gap(style, level + 1)) + (Gap(style, level) + [0x5D])
    decreases |vs|
  {
    var es := ElementsOf(libc, vs, style, level);
    assert es[0] == ElementOf(libc, vs[0], |vs| == 1, style, level);
    assert es[1..] == ElementsOf(libc, vs[1..], style, level);
    if |vs| > 1 {
      ElementsPrinted(libc, vs[1..], ts[1..], style, level);
      PieceThen(ts[0], Gap(style, level + 1), UnparseElements(es[1..]),
                Separated(ts[1..], [0x2C] + Gap(style, level + 1)), Gap(style, level) + [0x5D]);
    } else {
      assert ts[0] + Gap(style, level) + [0x5D] == ts[0] + (Gap(style, level) + [0x5D]);
    }
  }

  lemma PieceThen(t: bytes, gap: bytes, rest: bytes, more: bytes, end: bytes)
    requires rest == more + end
    ensures t + [] + ([0x2C] + gap + rest) == t + ([0x2C] + gap) + more + end
  {
    assert [0x2C] + gap + rest == ([0x2C] + gap) + (more + end);
    assert t + [] == t;
  }

  /** The name as a string, a colon, in the indented layout a blank, and the value. */
  ghost predicate MemberPrinted(libc: Libc, m: Member, t: bytes, style: Style, level: nat) {
    StrOk(m.key) && TreeOk(m.value)
    && t == Unparse(SyntaxOf(libc, String(m.key), style, level))
            + (match style case Compact => [0x3A] case Indented(_) => [0x3A, 0x20])
            + Unparse(SyntaxOf(libc, m.value, style, level + 1))
  }

  lemma NoMembersPrinted(libc: Libc, style: Style, level: nat)
    ensures Unparse(SyntaxOf(libc, Object([]), style, level)) == Layout([0x7B], [], [0x7D], style, level)
  {
    assert Unparse(SyntaxOf(libc, Object([]), style, level)) == [0x7B] + [] + [0x7D];
  }

  lemma MembersText(libc: Libc, ms: seq<Member>, style: Style, level: nat)
    requires TreeOk(Object(ms)) && ms != []
    ensures Unparse(SyntaxOf(libc, Object(ms), style, level))
            == [0x7B] + Gap(style, level + 1) + UnparseFields(FieldsOf(libc, ms, style, level))
  {}

  /** Braces around the members. */
  lemma ObjectPrinted(libc: Libc, ms: seq<Member>, ts: seq<bytes>, style: Style, level: nat)
    requires TreeOk(Object(ms)) && |ts| == |ms|
    requires forall i | 0 <= i < |ms| :: MemberPrinted(libc, ms[i], ts[i], style, level)
    ensures Unparse(SyntaxOf(libc, Object(ms), style, level)) == Layout([0x7B], ts, [0x7D], style, level)
  {
    if ms == [] {
      NoMembersPrinted(libc, style, level);
    } else {
      MembersText(libc, ms, style, level);
      FieldsPrinted(libc, ms, ts, style, level);
      LayoutOfGaps([0x7B], ts, [0x7D], style, level);
    }
  }

  lemma FieldPieces(key: bytes, style: Style, value: bytes, behind: bytes)
    ensures FieldText(key, [], if style.Compact? then [] else [0x20], value, behind)
            == (([0x22] + key) + (match style case Compact => [0x3A] case Indented(_) => [0x3A, 0x20]) + value) + behind
  {}

  lemma {:induction false} FieldsPrinted(libc: Libc, ms: seq<Member>, ts: seq<bytes>, style: Style, level: nat)
    requires ms != [] && AllStrOk(StringsOfMembers(ms)) && |ts| == |ms|
    requires forall i | 0 <= i < |ms| :: MemberPrinted(libc, ms[i], ts[i], style, level)
    ensures UnparseFields(FieldsOf(libc, ms, style, level))
            == Separated(ts, [0x2C] + Gap(style, level + 1)) + (Gap(style, level) + [0x7D])
    decreases |ms|
  {
    var fs := FieldsOf(libc, ms, style, level);
    var f := FieldOf(libc, ms[0], |ms| == 1, style, level);
    assert fs[0] == f && fs[1..] == FieldsOf(libc, ms[1..], style, level);
    var tail := f.after + (if |fs| == 1 then [0x7D] else [0x2C] + f.next + UnparseFields(fs[1..]));
    FieldPieces(UnparseChars(f.key), style, Unparse(f.value), tail);
    assert UnparseFields(fs) == ts[0] + tail;
    if |ms| > 1 {
      FieldsPrinted(libc, ms[1..], ts[1..], style, level);
      PieceThen(ts[0], Gap(style, level + 1), UnparseFields(fs[1..]),
                Separated(ts[1..], [0x2C] + Gap(style, level + 1)), Gap(style, level) + [0x7D]);
      assert [] + ([0x2C] + f.next + UnparseFields(fs[1..])) == [0x2C] + f.next + UnparseFields(fs[1..]);
      assert ts[0] + [] == ts[0];
    }
  }
}
