/** The scanning functions of src/db/Json.cpp, which advance a cursor through a terminated text.

    The methods below index the text with its terminator, so that Dafny's own index checks prove that none
    of them reads behind it. */
module JsonScanner {
  import opened Utf8
  import opened JsonGrammar
  import opened JsonParse
  import opened StringBuffers

  /** A text and its terminator. */
  ghost predicate CString(text: bytes) {
    text != [] && text[|text| - 1] == 0 && forall i | 0 <= i < |text| - 1 :: text[i] != 0
  }

  /** What is left to read. */
  ghost function Rest(text: bytes, pos: nat): bytes
    requires pos < |text|
  {
    text[pos..|text| - 1]
  }

  lemma Look(text: bytes, pos: nat)
    requires CString(text) && pos < |text|
    ensures At(Rest(text, pos), 0) == text[pos]
    ensures text[pos] != 0 ==> pos + 1 < |text| && Rest(text, pos) != [] && Rest(text, pos)[1..] == Rest(text, pos + 1)
    ensures text[pos] == 0 ==> Rest(text, pos) == []
  {}

  /** skip_space. */
  method ScanSpaces(text: bytes, pos: nat) returns (s: nat)
    requires CString(text) && pos < |text|
    ensures pos <= s < |text| && Rest(text, s) == SkipSpace(Rest(text, pos))
  {
    s := pos;
    Look(text, s);
    while IsSpace(text[s])
      invariant pos <= s < |text|
      invariant SkipSpace(Rest(text, s)) == SkipSpace(Rest(text, pos))
      invariant At(Rest(text, s), 0) == text[s]
      decreases |text| - s
    {
      Look(text, s);
      s := s + 1;
      Look(text, s);
    }
    Look(text, s);
  }

  method ScanDigits(text: bytes, pos: nat) returns (s: nat)
    requires CString(text) && pos < |text|
    ensures pos <= s < |text| && Rest(text, s) == SkipDigits(Rest(text, pos))
  {
    s := pos;
    Look(text, s);
    while IsDigit(text[s])
      invariant pos <= s < |text|
      invariant SkipDigits(Rest(text, s)) == SkipDigits(Rest(text, pos))
      invariant At(Rest(text, s), 0) == text[s]
      decreases |text| - s
    {
      Look(text, s);
      s := s + 1;
      Look(text, s);
    }
    Look(text, s);
  }

  /** expect_literal. */
  method ExpectLiteral(text: bytes, pos: nat, word: bytes) returns (ok: bool, s: nat)
    requires CString(text) && pos < |text| && 0 !in word
    ensures ok <==> word <= Rest(text, pos)
    ensures ok ==> s == pos + |word| && s < |text|
  {
    ok, s := true, pos;
    var i := 0;
    while i < |word|
      invariant 0 <= i <= |word| && s == pos + i && s < |text|
      invariant word[..i] == text[pos..s]
    {
      if text[s] != word[i] {
        if word <= Rest(text, pos) { assert word[i] == Rest(text, pos)[i]; }
        ok := false;
        return;
      }
      assert word[i] in word;
      assert word[..i + 1] == word[..i] + [word[i]] && text[pos..s + 1] == text[pos..s] + [text[s]];
      i, s := i + 1, s + 1;
    }
    assert word == text[pos..s];
    assert Rest(text, pos)[..|word|] == word;
  }

  /** The fraction of parse_number. */
  method ScanFraction(text: bytes, pos: nat) returns (ok: bool, s: nat)
    requires CString(text) && pos < |text|
    ensures ok <==> NumberFrac(Rest(text, pos)).Some?
    ensures ok ==> pos <= s < |text| && Rest(text, s) == NumberFrac(Rest(text, pos)).value
  {
    ok, s := true, pos;
    Look(text, s);
    if text[s] == 0x2E {
      s := s + 1;
      Look(text, s);
      ok := IsDigit(text[s]);
      if ok {
        s := ScanDigits(text, s);
      }
    }
  }

  /** The exponent of parse_number. */
  method ScanExponent(text: bytes, pos: nat) returns (ok: bool, s: nat)
    requires CString(text) && pos < |text|
    ensures ok <==> NumberExp(Rest(text, pos)).Some?
    ensures ok ==> pos <= s < |text| && Rest(text, s) == NumberExp(Rest(text, pos)).value
  {
    ok, s := true, pos;
    Look(text, s);
    if text[s] == 0x45 || text[s] == 0x65 {
      s := s + 1;
      Look(text, s);
      if text[s] == 0x2B || text[s] == 0x2D {
        s := s + 1;
        Look(text, s);
      }
      ok := IsDigit(text[s]);
      if ok {
        s := ScanDigits(text, s);
      }
    }
  }

  /** parse_number: the pattern of section 6 of RFC 8259. */
  method ScanNumber(text: bytes, pos: nat) returns (ok: bool, s: nat)
    requires CString(text) && pos < |text|
    ensures ok <==> NumberRest(Rest(text, pos)).Some?
    ensures ok ==> pos < s < |text| && Rest(text, s) == NumberRest(Rest(text, pos)).value
  {
    s := pos;
    Look(text, s);
    if text[s] == 0x2D {
      s := s + 1;
      Look(text, s);
    }
    if text[s] == 0x30 {
      s := s + 1;
    } else if !IsDigit(text[s]) {
      return false, s;
    } else {
      s := ScanDigits(text, s + 1);
    }
    ok, s := ScanFraction(text, s);
    if ok {
      ok, s := ScanExponent(text, s);
    }
  }

  // parse_hex16.

  ghost predicate HexPrefix(t: bytes, i: nat) { i <= |t| && forall k | 0 <= k < i :: IsHex(t[k]) }

  ghost function Accumulated(t: bytes, i: nat): bv16
    requires HexPrefix(t, i)
  {
    if i == 0 then 0 else Shifted1(Accumulated(t, i - 1), Nibble(t[i - 1]))
  }

  function Shifted1(acc: bv16, digit: bv16): bv16 { (acc << 4) | digit }

  lemma AccumulateOne(t: bytes, i: nat, acc: bv16, tmp: bv16)
    requires HexPrefix(t, i + 1) && acc == Accumulated(t, i) && tmp == Nibble(t[i]) && tmp <= 15
    ensures Accumulated(t, i + 1) == (acc << 4) + tmp
  {
    AddIsOr(acc, tmp);
    assert (acc << 4) + tmp == Shifted1(acc, tmp);
  }

  lemma OneDigit(t: bytes, i: nat)
    requires HexPrefix(t, i + 1)
    ensures Accumulated(t, i + 1) == Shifted1(Accumulated(t, i), Nibble(t[i]))
  {}

  lemma AllDigits(t: bytes, a: bv16, b: bv16, c: bv16, d: bv16)
    requires HexPrefix(t, 4) && a == Nibble(t[0]) && b == Nibble(t[1]) && c == Nibble(t[2]) && d == Nibble(t[3])
    ensures Accumulated(t, 4) == Shifted1(Shifted1(Shifted1(Shifted1(0, a), b), c), d)
  {
    OneDigit(t, 0);
    OneDigit(t, 1);
    OneDigit(t, 2);
    OneDigit(t, 3);
  }

  lemma FromZero(n: bv16)
    ensures Shifted1(0, n) == n
  {}

  lemma InOneGo(a: bv16, b: bv16, c: bv16, d: bv16)
    ensures Shifted(a, b, c, d) == Shifted1(Shifted1(Shifted1(Shifted1(0, a), b), c), d)
  {
    FromZero(a);
  }

  lemma FirstFour(s: bytes, a: bv16, b: bv16, c: bv16, d: bv16)
    requires IsHex16(s) && a == Nibble(s[0]) && b == Nibble(s[1]) && c == Nibble(s[2]) && d == Nibble(s[3])
    ensures Hex16(s) == Shifted(a, b, c, d)
  {}

  lemma FourDigits(t: bytes)
    requires HexPrefix(t, 4)
    ensures IsHex16(t[..4]) && Hex16(t[..4]) == Accumulated(t, 4)
  {
    var a, b, c, d := Nibble(t[0]), Nibble(t[1]), Nibble(t[2]), Nibble(t[3]);
    AllDigits(t, a, b, c, d);
    InOneGo(a, b, c, d);
    FirstFour(t[..4], a, b, c, d);
  }

  lemma NotFour(t: bytes, i: nat)
    requires i < 4 && (i < |t| ==> !IsHex(t[i]))
    ensures !(|t| >= 4 && IsHex16(t[..4]))
  {
    if |t| >= 4 { assert t[..4][i] == t[i]; }
  }

  /** The value of one hexadecimal digit. */
  method HexDigitValue(c: byte) returns (ok: bool, tmp: bv16)
    ensures ok <==> IsHex(c)
    ensures ok ==> tmp == Nibble(c) && tmp <= 15 && c != 0
  {
    ok, tmp := true, 0;
    if 0x30 <= c <= 0x39 {
      tmp := (c - 0x30) as bv16;
    } else if 0x41 <= c <= 0x46 {
      tmp := (c - 0x41) as bv16 + 10;
    } else if 0x61 <= c <= 0x66 {
      tmp := (c - 0x61) as bv16 + 10;
    } else {
      ok := false;
    }
    if ok { NibbleFacts(c); }
  }

  /** parse_hex16. */
  method ParseHex16(text: bytes, pos: nat) returns (ok: bool, s: nat, out: bv16)
    requires CString(text) && pos < |text|
    ensures ok <==> |Rest(text, pos)| >= 4 && IsHex16(Rest(text, pos)[..4])
    ensures ok ==> s == pos + 4 && s < |text| && Rest(text, s) == Rest(text, pos)[4..]
    ensures ok ==> out == Hex16(Rest(text, pos)[..4])
  {
    ok, s, out := true, pos, 0;
    ghost var t := Rest(text, pos);
    for i := 0 to 4
      invariant s == pos + i && s < |text|
      invariant HexPrefix(t, i) && out == Accumulated(t, i)
    {
      var tmp;
      ok, tmp := HexDigitValue(text[s]);
      if !ok {
        if i < |t| { assert t[i] == text[s]; }
        NotFour(t, i);
        return;
      }
      assert t[i] == text[s];
      AccumulateOne(t, i, out, tmp);
      out := (out << 4) + tmp;
      s := s + 1;
    }
    FourDigits(t);
  }

  // parse_string.

  /** utf8_validate_cz at the cursor: each byte is looked at only when the ones before it go on. */
  method ValidateAt(text: bytes, pos: nat) returns (n: nat)
    requires CString(text) && pos < |text| && text[pos] != 0
    ensures n == ValidateCz(Rest(text, pos)) && pos + n < |text|
  {
    ghost var t := Rest(text, pos);
    assert forall i | 0 <= i < 4 && pos + i < |text| :: At(t, i) == text[pos + i];
    ValidatedLength(t);
    NotContinued();
    var c := text[pos];
    n := 0;
    if c <= 0x7F {
      n := 1;
    } else if c <= 0xC1 {
    } else if c <= 0xDF {
      if Cont(text[pos + 1]) { n := 2; }
    } else if c <= 0xEF {
      if c == 0xE0 && text[pos + 1] < 0xA0 {
      } else if c == 0xED && text[pos + 1] > 0x9F {
      } else if Cont(text[pos + 1]) {
        if Cont(text[pos + 2]) { n := 3; }
      }
    } else if c <= 0xF4 {
      if c == 0xF0 && text[pos + 1] < 0x90 {
      } else if c == 0xF4 && text[pos + 1] > 0x8F {
      } else if Cont(text[pos + 1]) {
        if Cont(text[pos + 2]) {
          if Cont(text[pos + 3]) { n := 4; }
        }
      }
    }
  }

  lemma NotContinued()
    ensures !Cont(0)
  {}

  /** utf8_write_char into the buffer. */
  method StoreChar(a: array<byte>, b: nat, u: uchar) returns (b': nat)
    requires b + 4 <= a.Length
    modifies a
    ensures b' == b + |WriteChar(u)|
    ensures a[..b'] == old(a[..b]) + WriteChar(u)
  {
    var w := WriteChar(u);
    forall i | 0 <= i < |w| {
      a[b + i] := w[i];
    }
    b' := b + |w|;
  }

  /** The second unit of a surrogate pair. */
  method ScanLowHalf(text: bytes, pos: nat, uc: bv16) returns (ok: bool, s: nat, unicode: uchar)
    requires CString(text) && pos < |text| && IsSurrogate(uc)
    ensures ok <==> ParseUnit(uc, Rest(text, pos)).Ok?
    ensures ok ==> pos < s < |text| && ParseUnit(uc, Rest(text, pos)) == Ok(WriteChar(unicode), Rest(text, s))
  {
    ghost var t := Rest(text, pos);
    ok, s, unicode := false, pos, 0;
    Look(text, pos);
    if text[pos] != 0x5C {
      return;
    }
    Look(text, pos + 1);
    assert At(t, 1) == text[pos + 1];
    if text[pos + 1] != 0x75 {
      return;
    }
    ghost var t2 := Rest(text, pos + 2);
    assert t2 == t[2..];
    var lc;
    ok, s, lc := ParseHex16(text, pos + 2);
    LowDigits(t, t2);
    if ok {
      var pair := FromSurrogatePair(uc, lc);
      ok := pair.Pair?;
      if ok {
        unicode := pair.unicode;
      }
    }
  }

  lemma LowDigits(t: bytes, t2: bytes)
    requires |t| >= 2 && t2 == t[2..]
    ensures |t2| >= 4 <==> |t| >= 6
    ensures |t| >= 6 ==> t[2..6] == t2[..4] && t[6..] == t2[4..]
  {}

  /** The u case of the switch. */
  method ScanUnicode(text: bytes, pos: nat) returns (ok: bool, s: nat, unicode: uchar)
    requires CString(text) && pos < |text|
    ensures ok <==> ParseUnicode(Rest(text, pos)).Ok?
    ensures ok ==> pos < s < |text| && ParseUnicode(Rest(text, pos)) == Ok(WriteChar(unicode), Rest(text, s))
  {
    var uc;
    unicode := 0;
    ok, s, uc := ParseHex16(text, pos);
    if ok {
      if IsSurrogate(uc) {
        ok, s, unicode := ScanLowHalf(text, s, uc);
      } else if uc == 0 {
        ok := false;
      } else {
        unicode := uc as uchar;
      }
    }
  }

  /** The bytes of a validated character are copied. */
  method EchoChar(text: bytes, pos: nat, len: nat, a: array<byte>, b: nat) returns (s: nat, b': nat)
    requires pos + len <= |text| && b + len <= a.Length
    modifies a
    ensures s == pos + len && b' == b + len && a[..b'] == old(a[..b]) + text[pos..s]
  {
    s, b' := pos, b;
    while s < pos + len
      invariant pos <= s <= pos + len && b' == b + (s - pos)
      invariant a[..b'] == old(a[..b]) + text[pos..s]
    {
      ghost var done := a[..b'];
      a[b'] := text[s];
      assert a[..b' + 1] == done + [text[s]];
      assert text[pos..s + 1] == text[pos..s] + [text[s]];
      b' := b' + 1;
      s := s + 1;
    }
  }

  /** The case of a character that is not escaped. */
  method RawCharInto(text: bytes, pos: nat, a: array<byte>, b: nat) returns (ok: bool, s: nat, b': nat)
    requires CString(text) && pos < |text| && text[pos] > 0x1F && text[pos] != 0x22 && text[pos] != 0x5C
      && b + 4 <= a.Length
    modifies a
    ensures At(Rest(text, pos), 0) == text[pos]
    ensures ok <==> ParseChar(Rest(text, pos)).Ok?
    ensures ok ==> pos < s < |text| && b <= b' <= b + 4 && Rest(text, s) == ParseChar(Rest(text, pos)).rest
    ensures ok ==> a[..b'] == old(a[..b]) + ParseChar(Rest(text, pos)).value
  {
    Look(text, pos);
    ghost var t := Rest(text, pos);
    ok, s, b' := false, pos, b;
    var len := ValidateAt(text, pos);
    if len != 0 {
      ok := true;
      AtMostFour(t);
      assert t[..len] == text[pos..pos + len] && t[len..] == Rest(text, pos + len);
      s, b' := EchoChar(text, pos, len, a, b);
    }
  }

  lemma AtMostFour(t: bytes)
    ensures ValidateCz(t) <= 4
  {}

  /** One turn of parse_string's loop: a character, from the cursor into the buffer. */
  method ParseCharInto(text: bytes, pos: nat, a: array<byte>, b: nat) returns (ok: bool, s: nat, b': nat)
    requires CString(text) && pos < |text| && text[pos] != 0x22 && b + 4 <= a.Length
    modifies a
    ensures At(Rest(text, pos), 0) == text[pos]
    ensures ok <==> ParseChar(Rest(text, pos)).Ok?
    ensures ok ==> pos < s < |text| && b <= b' <= b + 4 && Rest(text, s) == ParseChar(Rest(text, pos)).rest
    ensures ok ==> a[..b'] == old(a[..b]) + ParseChar(Rest(text, pos)).value
  {
    Look(text, pos);
    ok, s, b' := false, pos, b;
    if text[pos] == 0x5C {
      Look(text, pos + 1);
      assert At(Rest(text, pos), 1) == text[pos + 1];
      var letter := text[pos + 1];
      if letter == 0x75 {
        assert Rest(text, pos)[2..] == Rest(text, pos + 2);
        var unicode;
        ok, s, unicode := ScanUnicode(text, pos + 2);
        if ok {
          b' := StoreChar(a, b, unicode);
        }
      } else if EscapeMeaning(letter) != 0 {
        assert Rest(text, pos)[2..] == Rest(text, pos + 2);
        a[b] := EscapeMeaning(letter);
        ok, s, b' := true, pos + 2, b + 1;
      }
    } else if text[pos] > 0x1F {
      ok, s, b' := RawCharInto(text, pos, a, b);
    }
  }

  /** The same turn on the growing buffer, with the reservation for the next one. */
  method ParseCharIntoBuffer(text: bytes, pos: nat, sb: StringBuffer) returns (ok: bool, s: nat)
    requires CString(text) && pos < |text| && text[pos] != 0x22 && sb.Valid() && sb.cur + 4 <= sb.end
    modifies sb, sb.data
    ensures sb.Valid() && (sb.data == old(sb.data) || fresh(sb.data))
    ensures At(Rest(text, pos), 0) == text[pos]
    ensures ok <==> ParseChar(Rest(text, pos)).Ok?
    ensures ok ==> pos < s < |text| && Rest(text, s) == ParseChar(Rest(text, pos)).rest
    ensures ok ==> sb.cur + 4 <= sb.end && sb.Contents() == old(sb.Contents()) + ParseChar(Rest(text, pos)).value
  {
    var b;
    ok, s, b := ParseCharInto(text, pos, sb.data, sb.cur);
    if ok {
      sb.cur := b;
      sb.Need(4);
    }
  }

  /** A result, with what was read before it. */
  ghost function Prefixed<T>(acc: seq<T>, r: Parsed<seq<T>>): Parsed<seq<T>> {
    if r.Fail? then Fail else Ok(acc + r.value, r.rest)
  }

  /** The recursion of ParseChars, with what came before. */
  lemma OneTurn(acc: bytes, t: bytes)
    requires At(t, 0) != 0x22
    ensures Prefixed(acc, ParseChars(t))
         == if ParseChar(t).Ok? then Prefixed(acc + ParseChar(t).value, ParseChars(ParseChar(t).rest)) else Fail
  {
    if ParseChar(t).Ok? && ParseChars(ParseChar(t).rest).Ok? {
      Joined(acc, ParseChar(t).value, ParseChars(ParseChar(t).rest).value);
    }
  }

  lemma Joined(a: bytes, b: bytes, c: bytes)
    ensures a + (b + c) == a + b + c
  {}

  /** One turn in either mode. */
  method StringTurn(text: bytes, pos: nat, build: bool, sb: StringBuffer, throwaway: array<byte>,
                    ghost acc: bytes, ghost r: Parsed<bytes>)
    returns (ok: bool, s: nat, ghost acc': bytes)
    requires CString(text) && pos < |text| && text[pos] != 0x22 && sb.Valid() && sb.cur + 4 <= sb.end
    requires throwaway.Length == 4 && throwaway != sb.data
    requires r == Prefixed(acc, ParseChars(Rest(text, pos))) && (build ==> sb.Contents() == acc)
    modifies sb, sb.data, throwaway
    ensures sb.Valid() && (sb.data == old(sb.data) || fresh(sb.data))
    ensures !ok ==> r.Fail?
    ensures ok ==> pos < s < |text| && r == Prefixed(acc', ParseChars(Rest(text, s)))
    ensures ok ==> sb.cur + 4 <= sb.end && (build ==> sb.Contents() == acc')
  {
    ghost var t := Rest(text, pos);
    Look(text, pos);
    OneTurn(acc, t);
    acc' := acc + if ParseChar(t).Ok? then ParseChar(t).value else [];
    if build {
      ok, s := ParseCharIntoBuffer(text, pos, sb);
    } else {
      var b;
      ok, s, b := ParseCharInto(text, pos, throwaway, 0);
    }
  }

  /** parse_string; without build (a NULL out-parameter) every character goes to the throwaway buffer. */
  method ScanString(text: bytes, pos: nat, build: bool) returns (ok: bool, s: nat, out: bytes)
    requires CString(text) && pos < |text|
    ensures ok <==> ParseString(Rest(text, pos)).Ok?
    ensures ok ==> pos < s < |text| && Rest(text, s) == ParseString(Rest(text, pos)).rest
    ensures ok && build ==> out == ParseString(Rest(text, pos)).value
  {
    ok, s, out := false, pos, [];
    Look(text, pos);
    if text[pos] != 0x22 {
      return;
    }
    s := pos + 1;
    var sb := new StringBuffer();
    sb.Need(4);
    var throwaway := new byte[4];
    ghost var r, acc: bytes := ParseChars(Rest(text, s)), [];
    assert r == Prefixed(acc, r) by { if r.Ok? { assert [] + r.value == r.value; } }
    ok := true;
    while ok && text[s] != 0x22
      invariant pos < s < |text| && sb.Valid() && throwaway != sb.data && fresh(sb) && fresh(sb.data)
        && fresh(throwaway)
      invariant ok ==> sb.cur + 4 <= sb.end && r == Prefixed(acc, ParseChars(Rest(text, s)))
      invariant ok && build ==> sb.Contents() == acc
      invariant !ok ==> r.Fail?
      decreases ok, |text| - s
    {
      var s';
      ok, s', acc := StringTurn(text, s, build, sb, throwaway, acc, r);
      if ok {
        s := s';
      }
    }
    if ok {
      Look(text, s);
      assert r == Ok(acc, Rest(text, s)[1..]) by { assert acc + [] == acc; }
      s := s + 1;
      ParsedHasNoNul(Rest(text, pos + 1));
      if build {
        out := sb.Finish();
      }
    }
  }

  /** A parsed string holds no NUL. */
  lemma ParsedHasNoNul(t: bytes)
    requires ParseChars(t).Ok?
    ensures 0 !in ParseChars(t).value
  {
    var cs := CharsSound(t);
    MeaningHasNoNul(cs);
  }

  lemma {:induction false} MeaningHasNoNul(cs: seq<CharSyntax>)
    requires CharsOk(cs)
    ensures 0 !in CharsMeaning(cs)
  {
    if cs == [] {
    } else {
      CharMeaningHasNoNul(cs[0]);
      MeaningHasNoNul(cs[1..]);
    }
  }

  lemma CharMeaningHasNoNul(c: CharSyntax)
    requires CharOk(c)
    ensures 0 !in CharMeaning(c)
  {
    match c {
      case Raw(u) => CharHasNoNul(u);
      case Escape(_) =>
      case Unicode(hex) => UnitHasNoNul(Hex16(hex));
      case Surrogates(high, low) => PairHasNoNul(Hex16(high), Hex16(low));
    }
  }

  lemma CharHasNoNul(u: uchar)
    requires Scalar(u) && u != 0
    ensures 0 !in WriteChar(u)
  {
    FirstByte(u);
    if u <= 0x7F { Bits1(u); }
    else if u <= 0x7FF { Bits2(u); }
    else if u <= 0xFFFF { Lead3Facts(u); }
    else { Lead4Facts(u); }
    NotContinued();
  }

  lemma WideUnit(w: bv16)
    requires w != 0 && !IsSurrogate(w)
    ensures Scalar(w as uchar) && w as uchar != 0
  {}

  lemma UnitHasNoNul(w: bv16)
    requires w != 0 && !IsSurrogate(w)
    ensures 0 !in WriteChar(w as uchar)
  {
    WideUnit(w);
    CharHasNoNul(w as uchar);
  }

  lemma PairHasNoNul(uc: bv16, lc: bv16)
    requires FromSurrogatePair(uc, lc).Pair?
    ensures 0 !in WriteChar(FromSurrogatePair(uc, lc).unicode)
  {
    JoinThenSplit(uc, lc);
    CharHasNoNul(FromSurrogatePair(uc, lc).unicode);
  }
}
