/** Machine words, and the bytes of a stream. */
module Words {
  type uint8 = n: nat | n < 0x100
  type uint16 = n: nat | n < 0x1_0000
  type uint32 = n: nat | n < 0x1_0000_0000

  /** A 16-bit word in network order. */
  function Big16(b: seq<uint8>): uint16
    requires |b| == 2
  {
    (b[0] as nat) * 0x100 + b[1] as nat
  }

  function Big32(b: seq<uint8>): uint32
    requires |b| == 4
  {
    (b[0] as nat) * 0x100_0000 + (b[1] as nat) * 0x1_0000 + (b[2] as nat) * 0x100 + b[3] as nat
  }

  /** A 32-bit word as the host stores it. */
  function Little32(b: seq<uint8>): uint32
    requires |b| == 4
  {
    b[0] as nat + (b[1] as nat) * 0x100 + (b[2] as nat) * 0x1_0000 + (b[3] as nat) * 0x100_0000
  }

  // The same words, written.

  /** Most significant byte first. */
  function Word16(w: uint16): (b: seq<uint8>)
    ensures |b| == 2
  {
    [w / 0x100, w % 0x100]
  }

  function Word32(w: uint32): (b: seq<uint8>)
    ensures |b| == 4
  {
    [w / 0x100_0000, w / 0x1_0000 % 0x100, w / 0x100 % 0x100, w % 0x100]
  }

  /** Least significant byte first. */
  function HostWord32(w: uint32): (b: seq<uint8>)
    ensures |b| == 4
  {
    [w % 0x100, w / 0x100 % 0x100, w / 0x1_0000 % 0x100, w / 0x100_0000]
  }

  lemma BytesOf(w: uint32)
    ensures w == w / 0x100_0000 * 0x100_0000 + w / 0x1_0000 % 0x100 * 0x1_0000 + w / 0x100 % 0x100 * 0x100 + w % 0x100
  {
    assert w / 0x100 == w / 0x1_0000 * 0x100 + w / 0x100 % 0x100;
    assert w / 0x1_0000 == w / 0x100_0000 * 0x100 + w / 0x1_0000 % 0x100;
  }

  lemma WrittenIsRead(v: uint16, w: uint32)
    ensures Big16(Word16(v)) == v && Big32(Word32(w)) == w && Little32(HostWord32(w)) == w
  {
    BytesOf(w);
  }

  lemma ReadIsWritten(a: seq<uint8>, b: seq<uint8>)
    requires |a| == 2 && |b| == 4
    ensures Word16(Big16(a)) == a && Word32(Big32(b)) == b && HostWord32(Little32(b)) == b
  {
    Digits32(b[0], b[1], b[2], b[3]);
    Digits32(b[3], b[2], b[1], b[0]);
  }

  lemma Digits32(a: uint8, b: uint8, c: uint8, d: uint8)
    ensures var w := (a as nat) * 0x100_0000 + (b as nat) * 0x1_0000 + (c as nat) * 0x100 + d as nat;
      w / 0x100_0000 == a && w / 0x1_0000 % 0x100 == b && w / 0x100 % 0x100 == c && w % 0x100 == d
  {
    var w := (a as nat) * 0x100_0000 + (b as nat) * 0x1_0000 + (c as nat) * 0x100 + d as nat;
    assert w / 0x100 == (a as nat) * 0x1_0000 + (b as nat) * 0x100 + c as nat;
    assert w / 0x1_0000 == (a as nat) * 0x100 + b as nat;
  }

  /** Pieces of a stream, one behind the other. */
  function Flatten(bs: seq<seq<uint8>>): seq<uint8> { if bs == [] then [] else bs[0] + Flatten(bs[1..]) }

  lemma FlattenCons(first: seq<uint8>, bs: seq<seq<uint8>>, rest: seq<uint8>)
    ensures Flatten([first] + bs) + rest == first + (Flatten(bs) + rest)
  {
    assert ([first] + bs)[1..] == bs;
  }
}
