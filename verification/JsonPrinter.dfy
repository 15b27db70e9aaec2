/** The printers of src/db/Json.cpp, writing into a string buffer. */
module JsonPrinter {
  import opened Utf8
  import opened JsonGrammar
  import opened JsonParse
  import opened JsonPrint
  import opened JsonTree
  import opened JsonMeaning
  import opened JsonApi
  import opened StringBuffers

  /** write_hex16. */
  method StoreHex16(a: array<byte>, b: nat, val: bv16) returns (b': nat)
    requires b + 4 <= a.Length
    modifies a
    ensures b' == b + 4 && a[..b'] == old(a[..b]) + WriteHex16(val)
  {
    a[b] := HexDigit(val >> 12);
    a[b + 1] := HexDigit(val >> 8);
    a[b + 2] := HexDigit(val >> 4);
    a[b + 3] := HexDigit(val);
    b' := b + 4;
  }

  method Store2(a: array<byte>, b: nat, x: byte, y: byte) returns (b': nat)
    requires b + 2 <= a.Length
    modifies a
    ensures b' == b + 2 && a[..b'] == old(a[..b]) + [x, y]
  {
    a[b] := x;
    a[b + 1] := y;
    b' := b + 2;
  }

  /** The bytes of a character that needs no escape are copied. */
  method StoreRaw(a: array<byte>, b: nat, s: bytes) returns (b': nat)
    requires b + |s| <= a.Length
    modifies a
    ensures b' == b + |s| && a[..b'] == old(a[..b]) + s
  {
    b' := b;
    var i := 0;
    while i < |s|
      invariant i <= |s| && b' == b + i
      invariant a[..b'] == old(a[..b]) + s[..i]
    {
      a[b'] := s[i];
      b' := b' + 1;
      i := i + 1;
    }
  }

  /** The letter behind the backslash in the first seven cases of emit_string's switch, 0 in the default
      case. */
  function Letter(c: byte): byte {
    if c == 0x22 then 0x22
    else if c == 0x5C then 0x5C
    else if c == 0x08 then 0x62
    else if c == 0x0C then 0x66
    else if c == 0x0A then 0x6E
    else if c == 0x0D then 0x72
    else if c == 0x09 then 0x74
    else 0
  }

  /** The switch looks at the first byte only. */
  lemma FirstByteDecides(s: bytes)
    requires s != [] && ValidateCz(s) > 0
    ensures s[0] <= 0x7F ==> ReadChar(s) == s[0] as uchar
    ensures s[0] > 0x7F ==> ReadChar(s) >= 0x80
  {
    ValidatedLength(s);
    var c := s[0];
    if c <= 0x7F {
    } else if c <= 0xDF {
      Bytes2(c, s[1]);
    } else if c <= 0xEF {
      Bytes3(c, s[1], s[2]);
    } else {
      Bytes4(c, s[1], s[2], s[3]);
    }
  }

  lemma SwitchDecides(c: byte, u: uchar, escapeUnicode: bool)
    requires Scalar(u) && (c <= 0x7F ==> u == c as uchar) && (c > 0x7F ==> u >= 0x80)
    ensures Letter(c) != 0 ==> CharSyntaxOf(u, escapeUnicode) == Escape(Letter(c))
    ensures Letter(c) == 0 && !(c < 0x1F || (c >= 0x80 && escapeUnicode)) ==> CharSyntaxOf(u, escapeUnicode) == Raw(u)
    ensures Letter(c) == 0 && (c < 0x1F || (c >= 0x80 && escapeUnicode)) ==>
      CharSyntaxOf(u, escapeUnicode)
      == if u <= 0xFFFF then Unicode(WriteHex16(u as bv16))
         else Surrogates(WriteHex16(HighOf(u)), WriteHex16(LowOf(u)))
  {}

  /** "\u" and write_hex16. */
  method EmitUnit(a: array<byte>, b: nat, w: bv16) returns (b': nat)
    requires b + 6 <= a.Length
    modifies a
    ensures b' == b + 6 && a[..b'] == old(a[..b]) + ([0x5C, 0x75] + WriteHex16(w))
  {
    b' := Store2(a, b, 0x5C, 0x75);
    b' := StoreHex16(a, b', w);
  }

  /** The \u case: one escape, or two for a character beyond the basic plane. */
  method EmitEscaped(a: array<byte>, b: nat, u: uchar) returns (b': nat)
    requires Scalar(u) && b + 12 <= a.Length
    modifies a
    ensures b <= b' <= b + 12
    ensures a[..b'] == old(a[..b])
                     + UnparseChar(if u <= 0xFFFF then Unicode(WriteHex16(u as bv16))
                                   else Surrogates(WriteHex16(HighOf(u)), WriteHex16(LowOf(u))))
  {
    if u <= 0xFFFF {
      b' := EmitUnit(a, b, u as bv16);
    } else {
      b' := EmitUnit(a, b, HighOf(u));
      b' := EmitUnit(a, b', LowOf(u));
    }
  }

  /** The switch: one character, from str[i..] to a[b..]. */
  method EmitChar(a: array<byte>, b: nat, str: bytes, i: nat, escapeUnicode: bool) returns (b': nat, i': nat)
    requires i < |str| && ValidateCz(str[i..]) > 0 && b + 12 <= a.Length
    modifies a
    ensures i' == i + ValidateCz(str[i..]) && Scalar(ReadChar(str[i..]))
    ensures b <= b' <= b + 12
    ensures a[..b'] == old(a[..b]) + UnparseChar(CharSyntaxOf(ReadChar(str[i..]), escapeUnicode))
  {
    var c := str[i];
    var len := ValidateCz(str[i..]);
    var u := ReadChar(str[i..]);
    ReadWrite(str[i..]);
    FirstByteDecides(str[i..]);
    SwitchDecides(c, u, escapeUnicode);
    if Letter(c) != 0 {
      b' := Store2(a, b, 0x5C, Letter(c));
    } else if c < 0x1F || (c >= 0x80 && escapeUnicode) {
      b' := EmitEscaped(a, b, u);
    } else {
      RawBytes(str, i, len);
      b' := StoreRaw(a, b, str[i..i + len]);
    }
    i' := i + len;
  }

  lemma RawBytes(str: bytes, i: nat, n: nat)
    requires i + n <= |str|
    ensures str[i..i + n] == str[i..][..n]
  {}

  /** Text still to be written; the string it comes from must be valid for it to mean anything. */
  ghost predicate Remains(done: bytes, str: bytes, i: nat, escapeUnicode: bool, whole: bytes) {
    i <= |str| && Valid(str[i..]) && done + UnparseChars(CharsSyntaxOf(str[i..], escapeUnicode)) == whole
  }

  lemma NextChar(done: bytes, str: bytes, i: nat, escapeUnicode: bool, whole: bytes)
    requires i < |str| && Remains(done, str, i, escapeUnicode, whole)
    ensures ValidateCz(str[i..]) > 0 && i + ValidateCz(str[i..]) <= |str| && Scalar(ReadChar(str[i..]))
    ensures Remains(done + UnparseChar(CharSyntaxOf(ReadChar(str[i..]), escapeUnicode)),
                    str, i + ValidateCz(str[i..]), escapeUnicode, whole)
  {
    var s := str[i..];
    var n := ValidateCz(s);
    assert s[n..] == str[i + n..];
    ReadWrite(s);
    var cs := CharsSyntaxOf(s, escapeUnicode);
    assert cs[1..] == CharsSyntaxOf(s[n..], escapeUnicode);
    assert done + (UnparseChar(cs[0]) + UnparseChars(cs[1..])) == done + UnparseChar(cs[0]) + UnparseChars(cs[1..]);
  }

  /** The switch and the reservation behind it. */
  method EmitAndReserve(out: StringBuffer, b: nat, str: bytes, i: nat, escapeUnicode: bool) returns (b': nat, i': nat)
    requires out.Valid() && b + 13 <= out.end
    requires i < |str| && ValidateCz(str[i..]) > 0
    modifies out, out.data
    ensures out.Valid() && (out.data == old(out.data) || fresh(out.data))
    ensures b' + 13 <= out.end && i' == i + ValidateCz(str[i..]) && Scalar(ReadChar(str[i..]))
    ensures out.data[..b'] == old(out.data[..b]) + UnparseChar(CharSyntaxOf(ReadChar(str[i..]), escapeUnicode))
  {
    b', i' := EmitChar(out.data, b, str, i, escapeUnicode);
    out.cur := b';
    ghost var text := out.Contents();
    out.Need(14);
    b' := out.cur;
    assert out.data[..b'] == text;
  }

  /** One turn of emit_string's loop. */
  method EmitNext(out: StringBuffer, b: nat, str: bytes, i: nat, escapeUnicode: bool, ghost whole: bytes)
    returns (b': nat, i': nat)
    requires out.Valid() && b + 13 <= out.end
    requires i < |str| && Remains(out.data[..b], str, i, escapeUnicode, whole)
    modifies out, out.data
    ensures out.Valid() && (out.data == old(out.data) || fresh(out.data))
    ensures b' + 13 <= out.end && i' > i && Remains(out.data[..b'], str, i', escapeUnicode, whole)
  {
    NextChar(out.data[..b], str, i, escapeUnicode, whole);
    b', i' := EmitAndReserve(out, b, str, i, escapeUnicode);
  }

  lemma NothingDone(before: bytes, str: bytes, escapeUnicode: bool)
    requires Valid(str)
    ensures Remains(before + [0x22], str, 0, escapeUnicode,
                    before + [0x22] + UnparseChars(CharsSyntaxOf(str, escapeUnicode)))
  {
    assert str[0..] == str;
  }

  lemma AllDone(done: bytes, str: bytes, i: nat, escapeUnicode: bool, whole: bytes)
    requires i >= |str| && Remains(done, str, i, escapeUnicode, whole)
    ensures done + [0x22] == whole
  {
    assert str[i..] == [];
  }

  /** The first reservation and the opening mark. */
  method OpenQuote(out: StringBuffer) returns (b: nat)
    requires out.Valid()
    modifies out, out.data
    ensures out.Valid() && (out.data == old(out.data) || fresh(out.data))
    ensures b + 13 <= out.end && out.data[..b] == old(out.Contents()) + [0x22]
  {
    out.Need(14);
    b := out.cur;
    out.data[b] := 0x22;
    b := b + 1;
  }

  /** emit_string.  Two reservations of 14 bytes cover every write: the opening mark and up to twelve
      bytes, then up to twelve bytes and the closing mark. */
  method EmitString(out: StringBuffer, str: bytes, escapeUnicode: bool)
    requires out.Valid() && StrOk(str)
    modifies out, out.data
    ensures out.Valid() && (out.data == old(out.data) || fresh(out.data))
    ensures out.Contents() == old(out.Contents()) + [0x22] + UnparseChars(CharsSyntaxOf(str, escapeUnicode))
  {
    ghost var whole := out.Contents() + [0x22] + UnparseChars(CharsSyntaxOf(str, escapeUnicode));
    NothingDone(out.Contents(), str, escapeUnicode);
    var b: nat := OpenQuote(out);
    var i: nat := 0;
    while i < |str|
      decreases |str| - i
      invariant out.Valid() && (out.data == old(out.data) || fresh(out.data))
      invariant b + 13 <= out.end
      invariant Remains(out.data[..b], str, i, escapeUnicode, whole)
    {
      b, i := EmitNext(out, b, str, i, escapeUnicode, whole);
    }
    AllDone(out.data[..b], str, i, escapeUnicode, whole);
    out.data[b] := 0x22;
    out.cur := b + 1;
  }

  // emit_number, and the nodes without children.

  method EmitNumber(libc: Libc, out: StringBuffer, num: Double, ghost style: Style, ghost level: nat)
    requires out.Valid()
    modifies out, out.data
    ensures out.Valid() && (out.data == old(out.data) || fresh(out.data))
    ensures out.Contents() == old(out.Contents()) + Unparse(SyntaxOf(libc, Number(num), style, level))
  {
    var buf := libc.format(num);
    if NumberIsValid(buf) {
      out.Put(buf);
    } else {
      out.Put(NULL);
    }
  }

  /** The cases that emit_value and emit_value_indented share. */
  method EmitLeaf(libc: Libc, out: StringBuffer, ghost f: Forest, node: JsonNode, ghost v: Json, ghost style: Style,
                  ghost level: nat)
    requires out.Valid() && f.Valid() && Denotes(f.cells, node, v) && TreeOk(v) && !v.Array? && !v.Object?
    modifies out, out.data
    ensures out.Valid() && (out.data == old(out.data) || fresh(out.data))
    ensures out.Contents() == old(out.Contents()) + Unparse(SyntaxOf(libc, v, style, level))
  {
    assert Mirrors(node, f.cells[node]);
    match node.tag
    case JSON_NULL => out.Put(NULL);
    case JSON_BOOL => out.Put(if node.bool_ then TRUE else FALSE);
    case JSON_STRING =>
      EmitString(out, node.string_, false);
      assert forall a: bytes, b: bytes, c: bytes :: a + b + c == a + (b + c);
    case JSON_NUMBER => EmitNumber(libc, out, node.number_, style, level);
    case _ =>
  }

  // What is written between the brackets, piece by piece.

  ghost function Concat(texts: seq<bytes>): bytes { if texts == [] then [] else texts[0] + Concat(texts[1..]) }

  /** The pieces from the k-th on, and the closing bracket, are still to be written. */
  ghost predicate Pending(done: bytes, texts: seq<bytes>, k: nat, close: byte, whole: bytes) {
    k <= |texts| && done + Concat(texts[k..]) + [close] == whole
  }

  lemma AllPending(done: bytes, texts: seq<bytes>, close: byte)
    ensures Pending(done, texts, 0, close, done + (Concat(texts) + [close]))
  {
    assert texts[0..] == texts;
    assert done + Concat(texts) + [close] == done + (Concat(texts) + [close]);
  }

  lemma WriteOne(done: bytes, texts: seq<bytes>, k: nat, close: byte, whole: bytes)
    requires k < |texts| && Pending(done, texts, k, close, whole)
    ensures Pending(done + texts[k], texts, k + 1, close, whole)
  {
    assert texts[k..][1..] == texts[k + 1..];
    assert done + (texts[k] + Concat(texts[k + 1..])) + [close] == done + texts[k] + Concat(texts[k + 1..]) + [close];
  }

  lemma NonePending(done: bytes, texts: seq<bytes>, close: byte, whole: bytes)
    requires Pending(done, texts, |texts|, close, whole)
    ensures done + [close] == whole
  {
    assert done + [] == done;
  }

  /** What a printer writes between an item and the next, or the end. */
  function Separator(more: bool, style: Style, level: nat): bytes {
    if more then [0x2C] + Gap(style, level + 1) else Gap(style, level)
  }

  ghost function ItemText(libc: Libc, v: Json, more: bool, style: Style, level: nat): bytes
    requires TreeOk(v)
  {
    Unparse(SyntaxOf(libc, v, style, level + 1)) + Separator(more, style, level)
  }

  ghost function ItemTexts(libc: Libc, vs: seq<Json>, style: Style, level: nat): (r: seq<bytes>)
    requires AllStrOk(StringsOfItems(vs))
    ensures |r| == |vs|
  {
    if vs == [] then [] else [ItemText(libc, vs[0], |vs| > 1, style, level)] + ItemTexts(libc, vs[1..], style, level)
  }

  lemma {:induction false} ItemTextAt(libc: Libc, vs: seq<Json>, style: Style, level: nat, k: nat)
    requires AllStrOk(StringsOfItems(vs)) && k < |vs|
    ensures TreeOk(vs[k]) && ItemTexts(libc, vs, style, level)[k] == ItemText(libc, vs[k], k + 1 < |vs|, style, level)
  {
    if k > 0 { ItemTextAt(libc, vs[1..], style, level, k - 1); }
  }

  lemma ElementsStep(e: Element, es: seq<Element>)
    ensures UnparseElements([e] + es)
         == Unparse(e.value) + e.after + (if es == [] then [0x5D] else [0x2C] + e.next + UnparseElements(es))
  {
    assert ([e] + es)[1..] == es;
  }

  lemma {:induction false} ItemsTogether(libc: Libc, vs: seq<Json>, style: Style, level: nat)
    requires AllStrOk(StringsOfItems(vs)) && vs != []
    ensures UnparseElements(ElementsOf(libc, vs, style, level)) == Concat(ItemTexts(libc, vs, style, level)) + [0x5D]
  {
    var e, es := ElementOf(libc, vs[0], |vs| == 1, style, level), ElementsOf(libc, vs[1..], style, level);
    var x, texts := Unparse(e.value), ItemTexts(libc, vs[1..], style, level);
    ElementsStep(e, es);
    ConcatStep(ItemText(libc, vs[0], |vs| > 1, style, level), texts);
    if |vs| > 1 {
      ItemsTogether(libc, vs[1..], style, level);
      MoreItems(x, e.next, Concat(texts));
    } else {
      LastItem(x, e.after);
    }
  }

  lemma ConcatStep(t: bytes, texts: seq<bytes>)
    ensures Concat([t] + texts) == t + Concat(texts)
  {
    assert ([t] + texts)[1..] == texts;
  }

  lemma MoreItems(x: bytes, gap: bytes, rest: bytes)
    ensures x + [] + ([0x2C] + gap + (rest + [0x5D])) == x + ([0x2C] + gap) + rest + [0x5D]
  {}

  lemma LastItem(x: bytes, after: bytes)
    ensures x + after + [0x5D] == x + after + Concat([]) + [0x5D]
  {}

  /** The spelling of an array in those pieces. */
  lemma ArrayText(libc: Libc, vs: seq<Json>, style: Style, level: nat)
    requires AllStrOk(StringsOfItems(vs)) && TreeOk(Array(vs))
    ensures Unparse(SyntaxOf(libc, Array(vs), style, level))
         == [0x5B] + (if vs == [] then [] else Gap(style, level + 1))
            + (Concat(ItemTexts(libc, vs, style, level)) + [0x5D])
  {
    UnparseArray(if vs == [] then [] else Gap(style, level + 1), ElementsOf(libc, vs, style, level));
    if vs == [] { NoPieces(0x5D); } else { ItemsTogether(libc, vs, style, level); }
  }

  lemma UnparseArray(open: bytes, es: seq<Element>)
    ensures Unparse(SArray(open, es)) == [0x5B] + open + (if es == [] then [0x5D] else UnparseElements(es))
  {}

  ghost function MemberText(libc: Libc, m: Member, more: bool, style: Style, level: nat): bytes
    requires StrOk(m.key) && TreeOk(m.value)
  {
    KeyText(m.key, style) + ItemText(libc, m.value, more, style, level)
  }

  /** A key and its colon. */
  ghost function KeyText(key: bytes, style: Style): bytes
    requires StrOk(key)
  {
    [0x22] + UnparseChars(CharsSyntaxOf(key, false)) + Colon(style)
  }

  function Colon(style: Style): bytes { if style.Compact? then [0x3A] else [0x3A, 0x20] }

  ghost function MemberTexts(libc: Libc, ms: seq<Member>, style: Style, level: nat): (r: seq<bytes>)
    requires AllStrOk(StringsOfMembers(ms))
    ensures |r| == |ms|
  {
    if ms == [] then []
    else
      [MemberText(libc, ms[0], |ms| > 1, style, level)] + MemberTexts(libc, ms[1..], style, level)
  }

  lemma {:induction false} MemberTextAt(libc: Libc, ms: seq<Member>, style: Style, level: nat, k: nat)
    requires AllStrOk(StringsOfMembers(ms)) && k < |ms|
    ensures StrOk(ms[k].key) && TreeOk(ms[k].value)
    ensures MemberTexts(libc, ms, style, level)[k] == MemberText(libc, ms[k], k + 1 < |ms|, style, level)
  {
    if k > 0 { MemberTextAt(libc, ms[1..], style, level, k - 1); }
  }

  lemma FieldsStep(f: Field, fs: seq<Field>)
    ensures UnparseFields([f] + fs)
         == FieldText(UnparseChars(f.key), f.beforeColon, f.afterColon, Unparse(f.value),
                      f.after + (if fs == [] then [0x7D] else [0x2C] + f.next + UnparseFields(fs)))
  {
    assert ([f] + fs)[1..] == fs;
  }

  lemma {:induction false} MembersTogether(libc: Libc, ms: seq<Member>, style: Style, level: nat)
    requires AllStrOk(StringsOfMembers(ms)) && ms != []
    ensures UnparseFields(FieldsOf(libc, ms, style, level)) == Concat(MemberTexts(libc, ms, style, level)) + [0x7D]
  {
    var f, fs := FieldOf(libc, ms[0], |ms| == 1, style, level), FieldsOf(libc, ms[1..], style, level);
    var key, x, texts := UnparseChars(f.key), Unparse(f.value), MemberTexts(libc, ms[1..], style, level);
    FieldsStep(f, fs);
    ConcatStep(MemberText(libc, ms[0], |ms| > 1, style, level), texts);
    if |ms| > 1 {
      MembersTogether(libc, ms[1..], style, level);
      MoreMembers(key, style, x, f.next, Concat(texts));
    } else {
      LastMember(key, style, x, f.after);
    }
  }

  lemma MoreMembers(key: bytes, style: Style, x: bytes, gap: bytes, rest: bytes)
    ensures FieldText(key, [], if style.Compact? then [] else [0x20], x, [] + ([0x2C] + gap + (rest + [0x7D])))
         == [0x22] + key + Colon(style) + (x + ([0x2C] + gap)) + rest + [0x7D]
  {}

  lemma LastMember(key: bytes, style: Style, x: bytes, after: bytes)
    ensures FieldText(key, [], if style.Compact? then [] else [0x20], x, after + [0x7D])
         == [0x22] + key + Colon(style) + (x + after) + Concat([]) + [0x7D]
  {}

  lemma UnparseObject(open: bytes, fs: seq<Field>)
    ensures Unparse(SObject(open, fs)) == [0x7B] + open + (if fs == [] then [0x7D] else UnparseFields(fs))
  {}

  lemma ObjectText(libc: Libc, ms: seq<Member>, style: Style, level: nat)
    requires AllStrOk(StringsOfMembers(ms)) && TreeOk(Object(ms))
    ensures Unparse(SyntaxOf(libc, Object(ms), style, level))
         == [0x7B] + (if ms == [] then [] else Gap(style, level + 1))
            + (Concat(MemberTexts(libc, ms, style, level)) + [0x7D])
  {
    UnparseObject(if ms == [] then [] else Gap(style, level + 1), FieldsOf(libc, ms, style, level));
    if ms == [] { NoPieces(0x7D); } else { MembersTogether(libc, ms, style, level); }
  }

  lemma NoPieces(close: byte)
    ensures Concat([]) + [close] == [close]
  {}

  /** The pieces of a node with children. */
  ghost function Texts(libc: Libc, v: Json, style: Style, level: nat): (r: seq<bytes>)
    requires TreeOk(v) && (v.Array? || v.Object?)
    ensures |r| == Count(v)
  {
    if v.Array? then ItemTexts(libc, v.items, style, level) else MemberTexts(libc, v.members, style, level)
  }

  ghost function Closing(v: Json): byte { if v.Array? then 0x5D else 0x7D }

  /** Where a loop over the children starts: the opening bracket has been written. */
  lemma ChildrenPending(libc: Libc, before: bytes, v: Json, style: Style, level: nat)
    requires TreeOk(v) && (v.Array? || v.Object?)
    ensures Pending(before + [if v.Array? then 0x5B else 0x7B] + (if Count(v) == 0 then [] else Gap(style, level + 1)),
                    Texts(libc, v, style, level), 0, Closing(v), before + Unparse(SyntaxOf(libc, v, style, level)))
  {
    var c := if v.Array? then 0x5B else 0x7B;
    var open := if Count(v) == 0 then [] else Gap(style, level + 1);
    var texts := Texts(libc, v, style, level);
    if v.Array? { ArrayText(libc, v.items, style, level); } else { ObjectText(libc, v.members, style, level); }
    AllPending(before + [c] + open, texts, Closing(v));
    Together(before, c, open, Concat(texts) + [Closing(v)]);
  }

  lemma Together(before: bytes, c: byte, open: bytes, rest: bytes)
    ensures before + [c] + open + rest == before + ([c] + open + rest)
  {}

  // The compact printer.

  /** emit_value. */
  method EmitValue(libc: Libc, out: StringBuffer, ghost f: Forest, node: JsonNode, ghost v: Json, ghost level: nat)
    requires out.Valid() && f.Valid() && Denotes(f.cells, node, v) && TreeOk(v)
    modifies out, out.data
    ensures out.Valid() && (out.data == old(out.data) || fresh(out.data))
    ensures out.Contents() == old(out.Contents()) + Unparse(SyntaxOf(libc, v, Compact, level))
    decreases v, 2
  {
    assert Mirrors(node, f.cells[node]);
    if node.tag == JSON_ARRAY {
      EmitArray(libc, out, f, node, v, level);
    } else if node.tag == JSON_OBJECT {
      EmitObject(libc, out, f, node, v, level);
    } else {
      EmitLeaf(libc, out, f, node, v, Compact, level);
    }
  }

  /** Where a compact loop over the children starts. */
  lemma CompactPending(libc: Libc, before: bytes, v: Json, level: nat)
    requires TreeOk(v) && (v.Array? || v.Object?)
    ensures Pending(before + [if v.Array? then 0x5B else 0x7B], Texts(libc, v, Compact, level), 0, Closing(v),
                    before + Unparse(SyntaxOf(libc, v, Compact, level)))
  {
    ChildrenPending(libc, before, v, Compact, level);
    var c := if v.Array? then 0x5B else 0x7B;
    assert before + [c] + [] == before + [c];
  }

  /** emit_array. */
  method EmitArray(libc: Libc, out: StringBuffer, ghost f: Forest, node: JsonNode, ghost v: Json, ghost level: nat)
    requires out.Valid() && f.Valid() && Denotes(f.cells, node, v) && TreeOk(v) && v.Array?
    modifies out, out.data
    ensures out.Valid() && (out.data == old(out.data) || fresh(out.data))
    ensures out.Contents() == old(out.Contents()) + Unparse(SyntaxOf(libc, v, Compact, level))
    decreases v, 1, 1
  {
    CompactPending(libc, out.Contents(), v, level);
    ghost var whole := out.Contents() + Unparse(SyntaxOf(libc, v, Compact, level));
    out.PutC(0x5B);
    EmitArrayBody(libc, out, f, node, v, level, whole);
  }

  /** Its loop and the closing bracket. */
  method EmitArrayBody(libc: Libc, out: StringBuffer, ghost f: Forest, node: JsonNode, ghost v: Json, ghost level: nat,
                       ghost whole: bytes)
    requires out.Valid() && f.Valid() && Denotes(f.cells, node, v) && TreeOk(v) && v.Array?
    requires Pending(out.Contents(), Texts(libc, v, Compact, level), 0, 0x5D, whole)
    modifies out, out.data
    ensures out.Valid() && (out.data == old(out.data) || fresh(out.data))
    ensures out.Contents() == whole
    decreases v, 1, 0
  {
    ghost var texts := Texts(libc, v, Compact, level);
    ghost var k := 0;
    var element := FirstChild(f, node);
    while element != null
      invariant out.Valid() && (out.data == old(out.data) || fresh(out.data)) && f.Valid()
      invariant k <= Count(v) && element == if k < Count(v) then f.cells[node].kids[k] else null
      invariant Pending(out.Contents(), texts, k, 0x5D, whole)
      decreases Count(v) - k
    {
      WriteOne(out.Contents(), texts, k, 0x5D, whole);
      EmitElement(libc, out, f, node, v, k, element, level, texts[k]);
      element := NextChild(f, node, k, element);
      k := k + 1;
    }
    NonePending(out.Contents(), texts, 0x5D, whole);
    out.PutC(0x5D);
  }

  /** The body of emit_array's loop. */
  method EmitElement(libc: Libc, out: StringBuffer, ghost f: Forest, ghost node: JsonNode, ghost v: Json, ghost k: nat,
                     element: JsonNode, ghost level: nat, ghost text: bytes)
    requires out.Valid() && f.Valid() && Denotes(f.cells, node, v) && v.Array? && TreeOk(v)
    requires k < Count(v) && element == f.cells[node].kids[k] && text == Texts(libc, v, Compact, level)[k]
    modifies out, out.data
    ensures out.Valid() && (out.data == old(out.data) || fresh(out.data))
    ensures out.Contents() == old(out.Contents()) + text
    decreases v, 0
  {
    ItemTextAt(libc, v.items, Compact, level, k);
    EmitValue(libc, out, f, element, Kid(v, k), level + 1);
    var next := NextChild(f, node, k, element);
    if next != null {
      out.PutC(0x2C);
    }
  }

  /** emit_object. */
  method EmitObject(libc: Libc, out: StringBuffer, ghost f: Forest, node: JsonNode, ghost v: Json, ghost level: nat)
    requires out.Valid() && f.Valid() && Denotes(f.cells, node, v) && TreeOk(v) && v.Object?
    modifies out, out.data
    ensures out.Valid() && (out.data == old(out.data) || fresh(out.data))
    ensures out.Contents() == old(out.Contents()) + Unparse(SyntaxOf(libc, v, Compact, level))
    decreases v, 1, 1
  {
    CompactPending(libc, out.Contents(), v, level);
    ghost var whole := out.Contents() + Unparse(SyntaxOf(libc, v, Compact, level));
    out.PutC(0x7B);
    EmitObjectBody(libc, out, f, node, v, level, whole);
  }

  /** Its loop and the closing bracket. */
  method EmitObjectBody(libc: Libc, out: StringBuffer, ghost f: Forest, node: JsonNode, ghost v: Json, ghost level: nat,
                        ghost whole: bytes)
    requires out.Valid() && f.Valid() && Denotes(f.cells, node, v) && TreeOk(v) && v.Object?
    requires Pending(out.Contents(), Texts(libc, v, Compact, level), 0, 0x7D, whole)
    modifies out, out.data
    ensures out.Valid() && (out.data == old(out.data) || fresh(out.data))
    ensures out.Contents() == whole
    decreases v, 1, 0
  {
    ghost var texts := Texts(libc, v, Compact, level);
    ghost var k := 0;
    var member := FirstChild(f, node);
    while member != null
      invariant out.Valid() && (out.data == old(out.data) || fresh(out.data)) && f.Valid()
      invariant k <= Count(v) && member == if k < Count(v) then f.cells[node].kids[k] else null
      invariant Pending(out.Contents(), texts, k, 0x7D, whole)
      decreases Count(v) - k
    {
      WriteOne(out.Contents(), texts, k, 0x7D, whole);
      EmitMember(libc, out, f, node, v, k, member, level, texts[k]);
      member := NextChild(f, node, k, member);
      k := k + 1;
    }
    NonePending(out.Contents(), texts, 0x7D, whole);
    out.PutC(0x7D);
  }

  /** The body of emit_object's loop. */
  method EmitMember(libc: Libc, out: StringBuffer, ghost f: Forest, ghost node: JsonNode, ghost v: Json, ghost k: nat,
                    member: JsonNode, ghost level: nat, ghost text: bytes)
    requires out.Valid() && f.Valid() && Denotes(f.cells, node, v) && v.Object? && TreeOk(v)
    requires k < Count(v) && member == f.cells[node].kids[k] && text == Texts(libc, v, Compact, level)[k]
    modifies out, out.data
    ensures out.Valid() && (out.data == old(out.data) || fresh(out.data))
    ensures out.Contents() == old(out.Contents()) + text
    decreases v, 0
  {
    MemberTextAt(libc, v.members, Compact, level, k);
    ghost var done := out.Contents();
    ghost var key, x := KeyText(v.members[k].key, Compact), Unparse(SyntaxOf(libc, Kid(v, k), Compact, level + 1));
    EmitKey(out, f, node, v, k, member, Compact);
    EmitValue(libc, out, f, member, Kid(v, k), level + 1);
    assert out.Contents() == done + key + x;
    var next := NextChild(f, node, k, member);
    if next != null {
      out.PutC(0x2C);
    }
    CompactMember(done, key, x, next != null, level);
  }

  lemma CompactMember(done: bytes, key: bytes, x: bytes, more: bool, level: nat)
    ensures done + key + x + (if more then [0x2C] else []) == done + (key + (x + Separator(more, Compact, level)))
    ensures done + key + x + [] == done + key + x
  {}

  /** emit_string of a member's key, and the colon. */
  method EmitKey(out: StringBuffer, ghost f: Forest, ghost node: JsonNode, ghost v: Json, ghost k: nat,
                 member: JsonNode, style: Style)
    requires out.Valid() && f.Valid() && Denotes(f.cells, node, v) && v.Object?
    requires k < Count(v) && member == f.cells[node].kids[k] && StrOk(v.members[k].key)
    modifies out, out.data
    ensures out.Valid() && (out.data == old(out.data) || fresh(out.data))
    ensures out.Contents() == old(out.Contents()) + KeyText(v.members[k].key, style)
  {
    assert Denotes(f.cells, member, Kid(v, k)) && Mirrors(member, f.cells[member]);
    var key := member.key.value;
    EmitString(out, key, false);
    out.Put(Colon(style));
    KeyTogether(old(out.Contents()), UnparseChars(CharsSyntaxOf(key, false)), Colon(style));
  }

  lemma KeyTogether(before: bytes, key: bytes, colon: bytes)
    ensures before + [0x22] + key + colon == before + ([0x22] + key + colon)
  {}

  // The indented printer.

  /** The indentation string, n times. */
  method PutIndent(out: StringBuffer, space: bytes, n: nat)
    requires out.Valid()
    modifies out, out.data
    ensures out.Valid() && (out.data == old(out.data) || fresh(out.data))
    ensures out.Contents() == old(out.Contents()) + Repeat(space, n)
  {
    var i: nat := 0;
    while i < n
      invariant i <= n && out.Valid() && (out.data == old(out.data) || fresh(out.data))
      invariant out.Contents() == old(out.Contents()) + Repeat(space, i)
    {
      out.Put(space);
      i := i + 1;
    }
  }

  /** emit_value_indented. */
  method EmitValueIndented(libc: Libc, out: StringBuffer, ghost f: Forest, node: JsonNode, space: bytes, level: nat,
                           ghost v: Json)
    requires out.Valid() && f.Valid() && Denotes(f.cells, node, v) && TreeOk(v)
    modifies out, out.data
    ensures out.Valid() && (out.data == old(out.data) || fresh(out.data))
    ensures out.Contents() == old(out.Contents()) + Unparse(SyntaxOf(libc, v, Indented(space), level))
    decreases v, 2
  {
    assert Mirrors(node, f.cells[node]);
    if node.tag == JSON_ARRAY {
      EmitArrayIndented(libc, out, f, node, space, level, v);
    } else if node.tag == JSON_OBJECT {
      EmitObjectIndented(libc, out, f, node, space, level, v);
    } else {
      EmitLeaf(libc, out, f, node, v, Indented(space), level);
    }
  }

  /** What has been written, with the indentation that comes next. */
  ghost function Ahead(done: bytes, space: bytes, more: bool, level: nat): bytes {
    done + Repeat(space, if more then level + 1 else level)
  }

  /** The loop indents first and ends the line last, so it is out of step with the pieces. */
  lemma AfterItem(done: bytes, x: bytes, space: bytes, more: bool, level: nat)
    ensures Ahead(done + Repeat(space, level + 1) + x + (if more then [0x2C, 0x0A] else [0x0A]), space, more, level)
         == Ahead(done, space, true, level) + (x + Separator(more, Indented(space), level))
  {}

  lemma EmptyPending(libc: Libc, before: bytes, v: Json, style: Style, level: nat)
    requires TreeOk(v) && (v.Array? || v.Object?) && Count(v) == 0
    ensures before + Unparse(SyntaxOf(libc, v, style, level))
      == before + if v.Array? then [0x5B, 0x5D] else [0x7B, 0x7D]
  {
    if v.Array? { ArrayText(libc, v.items, style, level); } else { ObjectText(libc, v.members, style, level); }
  }

  lemma FirstLine(before: bytes, c: byte, space: bytes, level: nat)
    ensures before + [c] + Gap(Indented(space), level + 1) == Ahead(before + [c, 0x0A], space, true, level)
  {}

  /** Where an indented loop over the children starts. */
  lemma IndentedPending(libc: Libc, before: bytes, v: Json, space: bytes, level: nat)
    requires TreeOk(v) && (v.Array? || v.Object?) && Count(v) > 0
    ensures Pending(Ahead(before + [if v.Array? then 0x5B else 0x7B, 0x0A], space, true, level),
                    Texts(libc, v, Indented(space), level), 0, Closing(v),
                    before + Unparse(SyntaxOf(libc, v, Indented(space), level)))
  {
    ChildrenPending(libc, before, v, Indented(space), level);
    FirstLine(before, if v.Array? then 0x5B else 0x7B, space, level);
  }

  /** emit_array_indented. */
  method EmitArrayIndented(libc: Libc, out: StringBuffer, ghost f: Forest, node: JsonNode, space: bytes, level: nat,
                           ghost v: Json)
    requires out.Valid() && f.Valid() && Denotes(f.cells, node, v) && TreeOk(v) && v.Array?
    modifies out, out.data
    ensures out.Valid() && (out.data == old(out.data) || fresh(out.data))
    ensures out.Contents() == old(out.Contents()) + Unparse(SyntaxOf(libc, v, Indented(space), level))
    decreases v, 1, 2
  {
    ghost var whole := out.Contents() + Unparse(SyntaxOf(libc, v, Indented(space), level));
    var head := HeadOf(f, node, v);
    if head == null {
      EmptyPending(libc, out.Contents(), v, Indented(space), level);
      out.Put([0x5B, 0x5D]);
    } else {
      IndentedPending(libc, out.Contents(), v, space, level);
      out.Put([0x5B, 0x0A]);
      EmitArrayIndentedBody(libc, out, f, node, head, space, level, v, whole);
    }
  }

  /** Its loop and the last line. */
  method EmitArrayIndentedBody(libc: Libc, out: StringBuffer, ghost f: Forest, ghost node: JsonNode, head: JsonNode,
                               space: bytes,
                            level: nat, ghost v: Json, ghost whole: bytes)
    requires out.Valid() && f.Valid() && Denotes(f.cells, node, v) && TreeOk(v) && v.Array?
    requires Count(v) > 0 && head == f.cells[node].kids[0]
    requires Pending(Ahead(out.Contents(), space, true, level), Texts(libc, v, Indented(space), level), 0, 0x5D, whole)
    modifies out, out.data
    ensures out.Valid() && (out.data == old(out.data) || fresh(out.data))
    ensures out.Contents() == whole
    decreases v, 1, 1
  {
    ghost var texts := Texts(libc, v, Indented(space), level);
    ArrayLines(libc, out, f, node, head, space, level, v, texts, whole);
    LastLine(out, space, level, 0x5D, texts, whole);
  }

  method ArrayLines(libc: Libc, out: StringBuffer, ghost f: Forest, ghost node: JsonNode, head: JsonNode, space: bytes,
                  level: nat, ghost v: Json, ghost texts: seq<bytes>, ghost whole: bytes)
    requires out.Valid() && f.Valid() && Denotes(f.cells, node, v) && TreeOk(v) && v.Array?
    requires texts == Texts(libc, v, Indented(space), level)
    requires Count(v) > 0 && head == f.cells[node].kids[0]
    requires Pending(Ahead(out.Contents(), space, true, level), texts, 0, 0x5D, whole)
    modifies out, out.data
    ensures out.Valid() && (out.data == old(out.data) || fresh(out.data))
    ensures Pending(Ahead(out.Contents(), space, false, level), texts, Count(v), 0x5D, whole)
    decreases v, 1, 0
  {
    var element: JsonNode? := head;
    ghost var k := 0;
    while element != null
      invariant out.Valid() && (out.data == old(out.data) || fresh(out.data)) && f.Valid()
      invariant k <= Count(v) && element == if k < Count(v) then f.cells[node].kids[k] else null
      invariant Pending(Ahead(out.Contents(), space, k < Count(v), level), texts, k, 0x5D, whole)
      decreases Count(v) - k
    {
      element := ElementLine(libc, out, f, node, v, k, element, space, level, texts, whole);
      k := k + 1;
    }
  }

  /** children.head. */
  method HeadOf(ghost f: Forest, node: JsonNode, ghost v: Json) returns (head: JsonNode?)
    requires f.Valid() && Denotes(f.cells, node, v) && (v.Array? || v.Object?)
    ensures head == if Count(v) == 0 then null else f.cells[node].kids[0]
  {
    assert Mirrors(node, f.cells[node]) && Linked(f.cells, node);
    head := node.head;
  }

  /** The body of emit_array_indented's loop. */
  method ElementLine(libc: Libc, out: StringBuffer, ghost f: Forest, ghost node: JsonNode, ghost v: Json, ghost k: nat,
                  element: JsonNode, space: bytes, level: nat, ghost texts: seq<bytes>, ghost whole: bytes)
    returns (next: JsonNode?)
    requires out.Valid() && f.Valid() && Denotes(f.cells, node, v) && v.Array? && TreeOk(v)
    requires texts == Texts(libc, v, Indented(space), level)
    requires k < Count(v) && element == f.cells[node].kids[k]
    requires Pending(Ahead(out.Contents(), space, true, level), texts, k, 0x5D, whole)
    modifies out, out.data
    ensures out.Valid() && (out.data == old(out.data) || fresh(out.data))
    ensures next == if k + 1 < Count(v) then f.cells[node].kids[k + 1] else null
    ensures Pending(Ahead(out.Contents(), space, k + 1 < Count(v), level), texts, k + 1, 0x5D, whole)
    decreases v, 0, 1
  {
    WriteOne(Ahead(out.Contents(), space, true, level), texts, k, 0x5D, whole);
    next := EmitElementIndented(libc, out, f, node, v, k, element, space, level, texts[k]);
  }

  /** One element, its indentation and the end of its line. */
  method EmitElementIndented(libc: Libc, out: StringBuffer, ghost f: Forest, ghost node: JsonNode, ghost v: Json,
                             ghost k: nat,
                             element: JsonNode, space: bytes, level: nat, ghost text: bytes) returns (next: JsonNode?)
    requires out.Valid() && f.Valid() && Denotes(f.cells, node, v) && v.Array? && TreeOk(v)
    requires k < Count(v) && element == f.cells[node].kids[k] && text == Texts(libc, v, Indented(space), level)[k]
    modifies out, out.data
    ensures out.Valid() && (out.data == old(out.data) || fresh(out.data))
    ensures next == if k + 1 < Count(v) then f.cells[node].kids[k + 1] else null
    ensures Ahead(out.Contents(), space, k + 1 < Count(v), level)
      == Ahead(old(out.Contents()), space, true, level) + text
    decreases v, 0, 0
  {
    ItemTextAt(libc, v.items, Indented(space), level, k);
    ghost var done := out.Contents();
    ghost var x := Unparse(SyntaxOf(libc, Kid(v, k), Indented(space), level + 1));
    PutIndent(out, space, level + 1);
    EmitKidIndented(libc, out, f, node, v, k, element, space, level, x);
    next := EndLine(out, f, node, k, element);
    AfterItem(done, x, space, next != null, level);
  }

  /** The indentation of the closing bracket, and the bracket. */
  method LastLine(out: StringBuffer, space: bytes, level: nat, close: byte, ghost texts: seq<bytes>, ghost whole: bytes)
    requires out.Valid() && Pending(Ahead(out.Contents(), space, false, level), texts, |texts|, close, whole)
    modifies out, out.data
    ensures out.Valid() && (out.data == old(out.data) || fresh(out.data))
    ensures out.Contents() == whole
  {
    NonePending(Ahead(out.Contents(), space, false, level), texts, close, whole);
    PutIndent(out, space, level);
    out.PutC(close);
  }

  /** The value of a child, one level deeper. */
  method EmitKidIndented(libc: Libc, out: StringBuffer, ghost f: Forest, ghost node: JsonNode, ghost v: Json,
                         ghost k: nat,
                         child: JsonNode, space: bytes, level: nat, ghost x: bytes)
    requires out.Valid() && f.Valid() && Denotes(f.cells, node, v) && k < Count(v) && child == f.cells[node].kids[k]
    requires TreeOk(Kid(v, k)) && x == Unparse(SyntaxOf(libc, Kid(v, k), Indented(space), level + 1))
    modifies out, out.data
    ensures out.Valid() && (out.data == old(out.data) || fresh(out.data))
    ensures out.Contents() == old(out.Contents()) + x
    decreases Kid(v, k), 3
  {
    EmitValueIndented(libc, out, f, child, space, level + 1, Kid(v, k));
  }

  /** The comma and the line break. */
  method EndLine(out: StringBuffer, ghost f: Forest, ghost node: JsonNode, ghost k: nat, child: JsonNode)
    returns (next: JsonNode?)
    requires out.Valid() && f.Valid() && node in f.cells && k < |f.cells[node].kids| && child == f.cells[node].kids[k]
    modifies out, out.data
    ensures out.Valid() && (out.data == old(out.data) || fresh(out.data))
    ensures next == if k + 1 < |f.cells[node].kids| then f.cells[node].kids[k + 1] else null
    ensures out.Contents() == old(out.Contents()) + (if next != null then [0x2C, 0x0A] else [0x0A])
  {
    next := NextChild(f, node, k, child);
    out.Put(if next != null then [0x2C, 0x0A] else [0x0A]);
  }

  /** emit_object_indented. */
  method EmitObjectIndented(libc: Libc, out: StringBuffer, ghost f: Forest, node: JsonNode, space: bytes, level: nat,
                            ghost v: Json)
    requires out.Valid() && f.Valid() && Denotes(f.cells, node, v) && TreeOk(v) && v.Object?
    modifies out, out.data
    ensures out.Valid() && (out.data == old(out.data) || fresh(out.data))
    ensures out.Contents() == old(out.Contents()) + Unparse(SyntaxOf(libc, v, Indented(space), level))
    decreases v, 1, 2
  {
    ghost var whole := out.Contents() + Unparse(SyntaxOf(libc, v, Indented(space), level));
    var head := HeadOf(f, node, v);
    if head == null {
      EmptyPending(libc, out.Contents(), v, Indented(space), level);
      out.Put([0x7B, 0x7D]);
    } else {
      IndentedPending(libc, out.Contents(), v, space, level);
      out.Put([0x7B, 0x0A]);
      EmitObjectIndentedBody(libc, out, f, node, head, space, level, v, whole);
    }
  }

  /** Its loop and the last line. */
  method EmitObjectIndentedBody(libc: Libc, out: StringBuffer, ghost f: Forest, ghost node: JsonNode, head: JsonNode,
                                space: bytes,
                            level: nat, ghost v: Json, ghost whole: bytes)
    requires out.Valid() && f.Valid() && Denotes(f.cells, node, v) && TreeOk(v) && v.Object?
    requires Count(v) > 0 && head == f.cells[node].kids[0]
    requires Pending(Ahead(out.Contents(), space, true, level), Texts(libc, v, Indented(space), level), 0, 0x7D, whole)
    modifies out, out.data
    ensures out.Valid() && (out.data == old(out.data) || fresh(out.data))
    ensures out.Contents() == whole
    decreases v, 1, 1
  {
    ghost var texts := Texts(libc, v, Indented(space), level);
    ObjectLines(libc, out, f, node, head, space, level, v, texts, whole);
    LastLine(out, space, level, 0x7D, texts, whole);
  }

  method ObjectLines(libc: Libc, out: StringBuffer, ghost f: Forest, ghost node: JsonNode, head: JsonNode, space: bytes,
                  level: nat, ghost v: Json, ghost texts: seq<bytes>, ghost whole: bytes)
    requires out.Valid() && f.Valid() && Denotes(f.cells, node, v) && TreeOk(v) && v.Object?
    requires texts == Texts(libc, v, Indented(space), level)
    requires Count(v) > 0 && head == f.cells[node].kids[0]
    requires Pending(Ahead(out.Contents(), space, true, level), texts, 0, 0x7D, whole)
    modifies out, out.data
    ensures out.Valid() && (out.data == old(out.data) || fresh(out.data))
    ensures Pending(Ahead(out.Contents(), space, false, level), texts, Count(v), 0x7D, whole)
    decreases v, 1, 0
  {
    var member: JsonNode? := head;
    ghost var k := 0;
    while member != null
      invariant out.Valid() && (out.data == old(out.data) || fresh(out.data)) && f.Valid()
      invariant k <= Count(v) && member == if k < Count(v) then f.cells[node].kids[k] else null
      invariant Pending(Ahead(out.Contents(), space, k < Count(v), level), texts, k, 0x7D, whole)
      decreases Count(v) - k
    {
      member := MemberLine(libc, out, f, node, v, k, member, space, level, texts, whole);
      k := k + 1;
    }
  }

  /** The body of emit_object_indented's loop. */
  method MemberLine(libc: Libc, out: StringBuffer, ghost f: Forest, ghost node: JsonNode, ghost v: Json, ghost k: nat,
                  member: JsonNode, space: bytes, level: nat, ghost texts: seq<bytes>, ghost whole: bytes)
    returns (next: JsonNode?)
    requires out.Valid() && f.Valid() && Denotes(f.cells, node, v) && v.Object? && TreeOk(v)
    requires texts == Texts(libc, v, Indented(space), level)
    requires k < Count(v) && member == f.cells[node].kids[k]
    requires Pending(Ahead(out.Contents(), space, true, level), texts, k, 0x7D, whole)
    modifies out, out.data
    ensures out.Valid() && (out.data == old(out.data) || fresh(out.data))
    ensures next == if k + 1 < Count(v) then f.cells[node].kids[k + 1] else null
    ensures Pending(Ahead(out.Contents(), space, k + 1 < Count(v), level), texts, k + 1, 0x7D, whole)
    decreases v, 0, 1
  {
    WriteOne(Ahead(out.Contents(), space, true, level), texts, k, 0x7D, whole);
    next := EmitMemberIndented(libc, out, f, node, v, k, member, space, level, texts[k]);
  }

  /** One member, its indentation and the end of its line. */
  method EmitMemberIndented(libc: Libc, out: StringBuffer, ghost f: Forest, ghost node: JsonNode, ghost v: Json,
                            ghost k: nat,
                            member: JsonNode, space: bytes, level: nat, ghost text: bytes) returns (next: JsonNode?)
    requires out.Valid() && f.Valid() && Denotes(f.cells, node, v) && v.Object? && TreeOk(v)
    requires k < Count(v) && member == f.cells[node].kids[k] && text == Texts(libc, v, Indented(space), level)[k]
    modifies out, out.data
    ensures out.Valid() && (out.data == old(out.data) || fresh(out.data))
    ensures next == if k + 1 < Count(v) then f.cells[node].kids[k + 1] else null
    ensures Ahead(out.Contents(), space, k + 1 < Count(v), level)
      == Ahead(old(out.Contents()), space, true, level) + text
    decreases v, 0, 0
  {
    MemberTextAt(libc, v.members, Indented(space), level, k);
    ghost var done := out.Contents();
    ghost var key, x := KeyText(v.members[k].key, Indented(space)),
      Unparse(SyntaxOf(libc, Kid(v, k), Indented(space), level + 1));
    EmitKeyIndented(out, f, node, v, k, member, space, level, key);
    EmitKidIndented(libc, out, f, node, v, k, member, space, level, x);
    next := EndLine(out, f, node, k, member);
    AfterMember(done, key, x, space, next != null, level);
  }

  method EmitKeyIndented(out: StringBuffer, ghost f: Forest, ghost node: JsonNode, ghost v: Json, ghost k: nat,
                         member: JsonNode,
                         space: bytes, level: nat, ghost key: bytes)
    requires out.Valid() && f.Valid() && Denotes(f.cells, node, v) && v.Object?
    requires k < Count(v) && member == f.cells[node].kids[k]
    requires StrOk(v.members[k].key) && key == KeyText(v.members[k].key, Indented(space))
    modifies out, out.data
    ensures out.Valid() && (out.data == old(out.data) || fresh(out.data))
    ensures out.Contents() == old(out.Contents()) + Repeat(space, level + 1) + key
  {
    PutIndent(out, space, level + 1);
    EmitKey(out, f, node, v, k, member, Indented(space));
  }

  lemma AfterMember(done: bytes, key: bytes, x: bytes, space: bytes, more: bool, level: nat)
    ensures Ahead(done + Repeat(space, level + 1) + key + x + (if more then [0x2C, 0x0A] else [0x0A]),
                  space, more, level)
         == Ahead(done, space, true, level) + (key + (x + Separator(more, Indented(space), level)))
  {}
}
