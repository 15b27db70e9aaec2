/** The UTF-8 codec, the UTF-16 surrogates and the hexadecimal digits of src/db/Json.cpp.

    Bytes and code points are bit vectors.  A C string is the sequence of its bytes without the terminator;
    At reads the terminator behind its end. */
module Utf8 {
  type byte = bv8
  type bytes = seq<byte>
  type uchar = bv32

  /** Code points that are no surrogates. */
  predicate Scalar(u: uchar) { u <= 0x10FFFF && !(0xD800 <= u <= 0xDFFF) }

  function At(s: bytes, i: nat): byte { if i < |s| then s[i] else 0 }

  predicate Cont(c: byte) { c & 0xC0 == 0x80 }

  /** utf8_validate_cz: the length of the character that starts s, 0 when there is none. */
  function ValidateCz(s: bytes): nat {
    var c := At(s, 0);
    if c <= 0x7F then 1
    else if c <= 0xC1 then 0
    else if c <= 0xDF then if Cont(At(s, 1)) then 2 else 0
    else if c <= 0xEF then
      if c == 0xE0 && At(s, 1) < 0xA0 then 0
      else if c == 0xED && At(s, 1) > 0x9F then 0
      else if Cont(At(s, 1)) && Cont(At(s, 2)) then 3 else 0
    else if c <= 0xF4 then
      if c == 0xF0 && At(s, 1) < 0x90 then 0
      else if c == 0xF4 && At(s, 1) > 0x8F then 0
      else if Cont(At(s, 1)) && Cont(At(s, 2)) && Cont(At(s, 3)) then 4 else 0
    else 0
  }

  /** A character is never cut short by the terminator. */
  lemma ValidatedLength(s: bytes)
    requires s != []
    ensures ValidateCz(s) <= |s|
  {
    assert !Cont(0);
  }

  function Join2(a: byte, b: byte): uchar {
    (((a as uchar) & 0x1F) << 6) | ((b as uchar) & 0x3F)
  }

  function Join3(a: byte, b: byte, c: byte): uchar {
    (((a as uchar) & 0xF) << 12) | (((b as uchar) & 0x3F) << 6) | ((c as uchar) & 0x3F)
  }

  function Join4(a: byte, b: byte, c: byte, d: byte): uchar {
    (((a as uchar) & 0x7) << 18) | (((b as uchar) & 0x3F) << 12) | (((c as uchar) & 0x3F) << 6)
    | ((d as uchar) & 0x3F)
  }

  /** utf8_read_char. */
  function ReadChar(s: bytes): uchar {
    var c := At(s, 0);
    if c <= 0x7F then c as uchar
    else if c <= 0xDF then Join2(c, At(s, 1))
    else if c <= 0xEF then Join3(c, At(s, 1), At(s, 2))
    else Join4(c, At(s, 1), At(s, 2), At(s, 3))
  }

  /** A word stored in a char. */
  function Low(u: uchar): byte { (u & 0xFF) as byte }

  function Tail0(u: uchar): byte { Low(0x80 | (u & 0x3F)) }
  function Tail1(u: uchar): byte { Low(0x80 | ((u >> 6) & 0x3F)) }
  function Tail2(u: uchar): byte { Low(0x80 | ((u >> 12) & 0x3F)) }
  function Lead2(u: uchar): byte { Low(0xC0 | (u >> 6)) }
  function Lead3(u: uchar): byte { Low(0xE0 | (u >> 12)) }
  function Lead4(u: uchar): byte { Low(0xF0 | (u >> 18)) }

  /** utf8_write_char. */
  function WriteChar(u: uchar): (s: bytes)
    ensures 1 <= |s| <= 4
  {
    if u <= 0x7F then [Low(u)]
    else if u <= 0x7FF then [Lead2(u), Tail0(u)]
    else if u <= 0xFFFF then [Lead3(u), Tail1(u), Tail0(u)]
    else [Lead4(u), Tail2(u), Tail1(u), Tail0(u)]
  }

  // Bit facts.

  lemma Bits1(u: uchar)
    requires u <= 0x7F
    ensures Low(u) <= 0x7F && Low(u) as uchar == u
  {}

  lemma Bits2(u: uchar)
    requires 0x80 <= u <= 0x7FF
    ensures 0xC2 <= Lead2(u) <= 0xDF && Cont(Tail0(u)) && Join2(Lead2(u), Tail0(u)) == u
  {}

  lemma Lead3Facts(u: uchar)
    requires 0x800 <= u <= 0xFFFF && Scalar(u)
    ensures 0xE0 <= Lead3(u) <= 0xEF && Cont(Tail1(u)) && Cont(Tail0(u))
    ensures Lead3(u) == 0xE0 ==> Tail1(u) >= 0xA0
    ensures Lead3(u) == 0xED ==> Tail1(u) <= 0x9F
  {}

  lemma Lead4Facts(u: uchar)
    requires 0x10000 <= u <= 0x10FFFF
    ensures 0xF0 <= Lead4(u) <= 0xF4 && Cont(Tail2(u)) && Cont(Tail1(u)) && Cont(Tail0(u))
    ensures Lead4(u) == 0xF0 ==> Tail2(u) >= 0x90
    ensures Lead4(u) == 0xF4 ==> Tail2(u) <= 0x8F
  {}

  lemma Bits3(u: uchar)
    requires u <= 0xFFFF
    ensures Join3(Lead3(u), Tail1(u), Tail0(u)) == u
  {}

  lemma Bits4(u: uchar)
    requires 0x10000 <= u <= 0x10FFFF
    ensures Join4(Lead4(u), Tail2(u), Tail1(u), Tail0(u)) == u
  {}

  lemma Bytes2(a: byte, b: byte)
    requires 0xC2 <= a <= 0xDF && Cont(b)
    ensures 0x80 <= Join2(a, b) <= 0x7FF && Lead2(Join2(a, b)) == a && Tail0(Join2(a, b)) == b
  {}

  lemma Bytes3(a: byte, b: byte, c: byte)
    requires 0xE0 <= a <= 0xEF && Cont(b) && Cont(c)
    requires (a == 0xE0 ==> b >= 0xA0) && (a == 0xED ==> b <= 0x9F)
    ensures 0x800 <= Join3(a, b, c) <= 0xFFFF && Scalar(Join3(a, b, c))
    ensures Lead3(Join3(a, b, c)) == a && Tail1(Join3(a, b, c)) == b && Tail0(Join3(a, b, c)) == c
  {}

  lemma Bytes4(a: byte, b: byte, c: byte, d: byte)
    requires 0xF0 <= a <= 0xF4 && Cont(b) && Cont(c) && Cont(d)
    requires (a == 0xF0 ==> b >= 0x90) && (a == 0xF4 ==> b <= 0x8F)
    ensures 0x10000 <= Join4(a, b, c, d) <= 0x10FFFF
    ensures Lead4(Join4(a, b, c, d)) == a && Tail2(Join4(a, b, c, d)) == b
    ensures Tail1(Join4(a, b, c, d)) == c && Tail0(Join4(a, b, c, d)) == d
  {}

  // One character.

  /** The validator and the reader find what the writer wrote, whatever follows it. */
  lemma WriteRead(u: uchar, rest: bytes)
    requires Scalar(u)
    ensures ValidateCz(WriteChar(u) + rest) == |WriteChar(u)|
    ensures ReadChar(WriteChar(u) + rest) == u
  {
    var s := WriteChar(u) + rest;
    assert forall i | 0 <= i < |WriteChar(u)| :: At(s, i) == WriteChar(u)[i];
    if u <= 0x7F { Bits1(u); }
    else if u <= 0x7FF { Bits2(u); }
    else if u <= 0xFFFF { Lead3Facts(u); Bits3(u); }
    else { Lead4Facts(u); Bits4(u); }
  }

  /** The writer gives back what the validator accepted and the reader read. */
  lemma ReadWrite(s: bytes)
    requires s != [] && ValidateCz(s) > 0
    ensures ValidateCz(s) <= |s|
    ensures Scalar(ReadChar(s)) && WriteChar(ReadChar(s)) == s[..ValidateCz(s)]
  {
    ValidatedLength(s);
    var c := s[0];
    if c <= 0x7F {
      Low7(c);
    } else if c <= 0xDF {
      Bytes2(c, s[1]);
      Write2(ReadChar(s));
    } else if c <= 0xEF {
      Bytes3(c, s[1], s[2]);
      Write3(ReadChar(s));
    } else {
      Bytes4(c, s[1], s[2], s[3]);
      Write4(ReadChar(s));
    }
  }

  lemma Write2(u: uchar)
    requires 0x80 <= u <= 0x7FF
    ensures Scalar(u) && WriteChar(u) == [Lead2(u), Tail0(u)]
  {}

  lemma Write3(u: uchar)
    requires 0x800 <= u <= 0xFFFF
    ensures WriteChar(u) == [Lead3(u), Tail1(u), Tail0(u)]
  {}

  lemma Write4(u: uchar)
    requires 0x10000 <= u <= 0x10FFFF
    ensures Scalar(u) && WriteChar(u) == [Lead4(u), Tail2(u), Tail1(u), Tail0(u)]
  {}

  lemma Low7(c: byte)
    requires c <= 0x7F
    ensures c as uchar <= 0x7F && Low(c as uchar) == c
  {}

  /** The validator accepts exactly the encodings of scalar values. */
  lemma ValidatorIsExact(s: bytes, n: nat)
    requires s != []
    ensures (n > 0 && ValidateCz(s) == n)
            <==> (exists u :: Scalar(u) && n == |WriteChar(u)| && WriteChar(u) <= s)
  {
    if n > 0 && ValidateCz(s) == n {
      ReadWrite(s);
      assert WriteChar(ReadChar(s)) <= s;
    }
    if u :| Scalar(u) && n == |WriteChar(u)| && WriteChar(u) <= s {
      WriteRead(u, s[n..]);
      assert s == WriteChar(u) + s[n..];
    }
  }

  // What the bytes are worth, in numbers.

  /** Section 3 of RFC 3629: each byte behind the first is worth six bits, most significant first. */
  lemma ReadInNumbers(s: bytes)
    requires s != [] && ValidateCz(s) > 0
    ensures ValidateCz(s) <= |s| && ValidateCz(s) <= 4
    ensures ValidateCz(s) == 1 ==> s[0] <= 0x7F && ReadChar(s) == s[0] as uchar
    ensures ValidateCz(s) == 2 ==>
      0xC2 <= s[0] <= 0xDF && ReadChar(s) == (s[0] as uchar - 0xC0) * 0x40 + (s[1] as uchar - 0x80)
    ensures ValidateCz(s) == 3 ==>
      0xE0 <= s[0] <= 0xEF
      && ReadChar(s) == (s[0] as uchar - 0xE0) * 0x1000 + (s[1] as uchar - 0x80) * 0x40 + (s[2] as uchar - 0x80)
    ensures ValidateCz(s) == 4 ==>
      0xF0 <= s[0] <= 0xF4
      && ReadChar(s) == (s[0] as uchar - 0xF0) * 0x4_0000 + (s[1] as uchar - 0x80) * 0x1000
                        + (s[2] as uchar - 0x80) * 0x40 + (s[3] as uchar - 0x80)
  {
    ValidatedLength(s);
    var c := s[0];
    if c <= 0x7F {
    } else if c <= 0xDF {
      Sum2(c, s[1]);
    } else if c <= 0xEF {
      Sum3(c, s[1], s[2]);
    } else {
      Sum4(c, s[1], s[2], s[3]);
    }
  }

  lemma Sum2(a: byte, b: byte)
    requires 0xC0 <= a <= 0xDF && Cont(b)
    ensures Join2(a, b) == (a as uchar - 0xC0) * 0x40 + (b as uchar - 0x80)
  {}

  lemma Sum3(a: byte, b: byte, c: byte)
    requires 0xE0 <= a <= 0xEF && Cont(b) && Cont(c)
    ensures Join3(a, b, c) == (a as uchar - 0xE0) * 0x1000 + (b as uchar - 0x80) * 0x40 + (c as uchar - 0x80)
  {}

  lemma Sum4(a: byte, b: byte, c: byte, d: byte)
    requires 0xF0 <= a <= 0xF7 && Cont(b) && Cont(c) && Cont(d)
    ensures Join4(a, b, c, d)
            == (a as uchar - 0xF0) * 0x4_0000 + (b as uchar - 0x80) * 0x1000 + (c as uchar - 0x80) * 0x40
               + (d as uchar - 0x80)
  {}

  // Whole strings.

  function Encode(us: seq<uchar>): bytes {
    if us == [] then [] else WriteChar(us[0]) + Encode(us[1..])
  }

  predicate Scalars(us: seq<uchar>) { forall u | u in us :: Scalar(u) }

  /** utf8_validate. */
  predicate Valid(s: bytes)
    decreases |s|
  {
    s == [] ||
    (var n := ValidateCz(s); 0 < n <= |s| && Valid(s[n..]))
  }

  function Decode(s: bytes): (us: seq<uchar>)
    requires Valid(s)
    decreases |s|
  {
    if s == [] then [] else [ReadChar(s)] + Decode(s[ValidateCz(s)..])
  }

  lemma {:induction false} DecodeEncode(us: seq<uchar>)
    requires Scalars(us)
    ensures Valid(Encode(us)) && Decode(Encode(us)) == us
  {
    if us == [] {
    } else {
      var w, t := WriteChar(us[0]), Encode(us[1..]);
      WriteRead(us[0], t);
      assert (w + t)[|w|..] == t;
      DecodeEncode(us[1..]);
    }
  }

  lemma {:induction false} EncodeDecode(s: bytes)
    requires Valid(s)
    ensures Scalars(Decode(s)) && Encode(Decode(s)) == s
    decreases |s|
  {
    if s == [] {
    } else {
      var n := ValidateCz(s);
      ReadWrite(s);
      EncodeDecode(s[n..]);
      EncodeCons(ReadChar(s), Decode(s[n..]), s, n);
    }
  }

  lemma EncodeCons(u: uchar, us: seq<uchar>, s: bytes, n: nat)
    requires n <= |s| && Scalar(u) && WriteChar(u) == s[..n] && Scalars(us) && Encode(us) == s[n..]
    ensures Scalars([u] + us) && Encode([u] + us) == s
  {
    assert ([u] + us)[1..] == us;
    assert s == s[..n] + s[n..];
  }

  /** utf8_validate accepts exactly the concatenated encodings of scalar values. */
  lemma ValidStringsAreEncodings(s: bytes)
    ensures Valid(s) <==> exists us :: Scalars(us) && s == Encode(us)
  {
    if Valid(s) { EncodeDecode(s); }
    if us :| Scalars(us) && s == Encode(us) { DecodeEncode(us); }
  }

  // UTF-16 surrogates.

  predicate High(w: bv16) { 0xD800 <= w <= 0xDBFF }
  predicate LowHalf(w: bv16) { 0xDC00 <= w <= 0xDFFF }

  datatype SurrogatePair = NoPair | Pair(unicode: uchar)

  function JoinHalves(uc: bv16, lc: bv16): uchar {
    0x10000 + ((((uc as uchar) & 0x3FF) << 10) | ((lc as uchar) & 0x3FF))
  }

  /** from_surrogate_pair. */
  function FromSurrogatePair(uc: bv16, lc: bv16): SurrogatePair {
    if High(uc) && LowHalf(lc) then Pair(JoinHalves(uc, lc)) else NoPair
  }

  /** to_surrogate_pair. */
  function HighOf(u: uchar): bv16
    requires 0x10000 <= u <= 0x10FFFF
  {
    ((((u - 0x10000) >> 10) & 0x3FF) | 0xD800) as bv16
  }

  function LowOf(u: uchar): bv16
    requires 0x10000 <= u <= 0x10FFFF
  {
    (((u - 0x10000) & 0x3FF) | 0xDC00) as bv16
  }

  lemma SplitThenJoin(u: uchar)
    requires 0x10000 <= u <= 0x10FFFF
    ensures FromSurrogatePair(HighOf(u), LowOf(u)) == Pair(u)
  {
    SplitBits(u);
  }

  lemma SplitBits(u: uchar)
    requires 0x10000 <= u <= 0x10FFFF
    ensures High(HighOf(u)) && LowHalf(LowOf(u)) && JoinHalves(HighOf(u), LowOf(u)) == u
  {}

  lemma JoinThenSplit(uc: bv16, lc: bv16)
    requires FromSurrogatePair(uc, lc).Pair?
    ensures var u := FromSurrogatePair(uc, lc).unicode;
      0x10000 <= u <= 0x10FFFF && HighOf(u) == uc && LowOf(u) == lc
  {
    JoinBits(uc, lc);
  }

  lemma JoinBits(uc: bv16, lc: bv16)
    requires High(uc) && LowHalf(lc)
    ensures 0x10000 <= JoinHalves(uc, lc) <= 0x10FFFF
    ensures HighOf(JoinHalves(uc, lc)) == uc && LowOf(JoinHalves(uc, lc)) == lc
  {}

  /** In numbers: the high half counts in units of 0x400. */
  lemma PairInNumbers(uc: bv16, lc: bv16)
    ensures FromSurrogatePair(uc, lc).Pair? <==> 0xD800 <= uc < 0xDC00 <= lc < 0xE000
    ensures FromSurrogatePair(uc, lc).Pair? ==>
      FromSurrogatePair(uc, lc).unicode == 0x10000 + (uc as uchar - 0xD800) * 0x400 + (lc as uchar - 0xDC00)
  {
    if High(uc) && LowHalf(lc) { PairSum(uc, lc); }
  }

  lemma PairSum(uc: bv16, lc: bv16)
    requires High(uc) && LowHalf(lc)
    ensures JoinHalves(uc, lc) == 0x10000 + (uc as uchar - 0xD800) * 0x400 + (lc as uchar - 0xDC00)
  {}

  // Hexadecimal digits.

  /** "0123456789ABCDEF"[n & 0xF]. */
  function HexDigit(n: bv16): byte {
    if n & 0xF <= 9 then 0x30 + (n & 0xF) as byte else 0x37 + (n & 0xF) as byte
  }

  /** write_hex16. */
  function WriteHex16(val: bv16): (s: bytes)
    ensures |s| == 4
  {
    [HexDigit(val >> 12), HexDigit(val >> 8), HexDigit(val >> 4), HexDigit(val)]
  }

  predicate IsHex(c: byte) {
    0x30 <= c <= 0x39 || 0x41 <= c <= 0x46 || 0x61 <= c <= 0x66
  }

  /** The value of a digit, of either case. */
  function Nibble(c: byte): bv16
    requires IsHex(c)
  {
    if c <= 0x39 then (c - 0x30) as bv16
    else if c <= 0x46 then (c - 0x41) as bv16 + 10
    else (c - 0x61) as bv16 + 10
  }

  predicate IsHex16(s: bytes) { |s| == 4 && IsHex(s[0]) && IsHex(s[1]) && IsHex(s[2]) && IsHex(s[3]) }

  /** parse_hex16. */
  function Hex16(s: bytes): bv16
    requires IsHex16(s)
  {
    Shifted(Nibble(s[0]), Nibble(s[1]), Nibble(s[2]), Nibble(s[3]))
  }

  function Shifted(a: bv16, b: bv16, c: bv16, d: bv16): bv16 {
    (((((a << 4) | b) << 4) | c) << 4) | d
  }

  /** The source adds each digit; it could as well or it in. */
  lemma AddIsOr(acc: bv16, digit: bv16)
    requires digit <= 15
    ensures (acc << 4) + digit == ((acc << 4) | digit)
  {}

  lemma HexDigits(n: bv16)
    ensures IsHex(HexDigit(n)) && Nibble(HexDigit(n)) == n & 0xF
  {}

  lemma WriteHexParseHex(val: bv16)
    ensures IsHex16(WriteHex16(val)) && Hex16(WriteHex16(val)) == val
  {
    HexDigits(val >> 12);
    HexDigits(val >> 8);
    HexDigits(val >> 4);
    HexDigits(val);
    Nibbles(val);
  }

  lemma Nibbles(v: bv16)
    ensures Shifted((v >> 12) & 0xF, (v >> 8) & 0xF, (v >> 4) & 0xF, v & 0xF) == v
  {}

  // What the digits are worth.

  /** 0 to 9, then A to F or a to f. */
  lemma DigitsByValue(c: byte, v: bv16)
    requires v <= 15
    ensures IsHex(c) && Nibble(c) == v
            <==> if v <= 9 then c as bv16 == 0x30 + v else c as bv16 == 0x41 + (v - 10) || c as bv16 == 0x61 + (v - 10)
  {}

  /** The most significant digit comes first. */
  lemma HexInNumbers(s: bytes)
    requires IsHex16(s)
    ensures Hex16(s) == Nibble(s[0]) * 0x1000 + Nibble(s[1]) * 0x100 + Nibble(s[2]) * 0x10 + Nibble(s[3])
  {
    NibbleFacts(s[0]);
    NibbleFacts(s[1]);
    NibbleFacts(s[2]);
    NibbleFacts(s[3]);
    ShiftedSum(Nibble(s[0]), Nibble(s[1]), Nibble(s[2]), Nibble(s[3]));
  }

  lemma ShiftedSum(a: bv16, b: bv16, c: bv16, d: bv16)
    requires a <= 15 && b <= 15 && c <= 15 && d <= 15
    ensures Shifted(a, b, c, d) == a * 0x1000 + b * 0x100 + c * 0x10 + d
  {}

  /** A digit with its letter in capitals. */
  function Upper(c: byte): byte { if 0x61 <= c <= 0x66 then c - 0x20 else c }

  function Upper16(s: bytes): (t: bytes)
    requires |s| == 4
    ensures |t| == 4
  {
    [Upper(s[0]), Upper(s[1]), Upper(s[2]), Upper(s[3])]
  }

  /** Case does not matter to the value, and what is written back are the capitals. */
  lemma CaseDoesNotMatter(s: bytes)
    requires IsHex16(s)
    ensures IsHex16(Upper16(s)) && Hex16(Upper16(s)) == Hex16(s) && WriteHex16(Hex16(s)) == Upper16(s)
  {
    UpperDigit(s[0]);
    UpperDigit(s[1]);
    UpperDigit(s[2]);
    UpperDigit(s[3]);
    ParseHexWriteHex(Upper16(s));
    assert WriteHex16(Hex16(Upper16(s))) == Upper16(s);
  }

  lemma UpperDigit(c: byte)
    requires IsHex(c)
    ensures IsHex(Upper(c)) && Upper(c) <= 0x46 && Nibble(Upper(c)) == Nibble(c)
  {}

  /** The digits come back exactly when they are written in capitals. */
  lemma ParseHexWriteHex(s: bytes)
    requires IsHex16(s)
    ensures WriteHex16(Hex16(s)) == s <==> s[0] <= 0x46 && s[1] <= 0x46 && s[2] <= 0x46 && s[3] <= 0x46
  {
    var a, b, c, d := Nibble(s[0]), Nibble(s[1]), Nibble(s[2]), Nibble(s[3]);
    NibbleFacts(s[0]);
    NibbleFacts(s[1]);
    NibbleFacts(s[2]);
    NibbleFacts(s[3]);
    Spelling(a, b, c, d);
  }

  lemma NibbleFacts(c: byte)
    requires IsHex(c)
    ensures Nibble(c) <= 15
    ensures HexDigit(Nibble(c)) == c <==> c <= 0x46
  {}

  lemma Spelling(a: bv16, b: bv16, c: bv16, d: bv16)
    requires a <= 15 && b <= 15 && c <= 15 && d <= 15
    ensures WriteHex16(Shifted(a, b, c, d)) == [HexDigit(a), HexDigit(b), HexDigit(c), HexDigit(d)]
  {
    NibblesOf(a, b, c, d);
  }

  lemma NibblesOf(a: bv16, b: bv16, c: bv16, d: bv16)
    requires a <= 15 && b <= 15 && c <= 15 && d <= 15
    ensures var v := Shifted(a, b, c, d);
      HexDigit(v >> 12) == HexDigit(a) && HexDigit(v >> 8) == HexDigit(b)
      && HexDigit(v >> 4) == HexDigit(c) && HexDigit(v) == HexDigit(d)
  {}
}
