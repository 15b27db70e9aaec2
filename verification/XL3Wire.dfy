/** What an XL3 writes, field by field in the order of the structures in src/net/XL3PacketTypes.h, and that the link
    reads just this: the inverse of module XL3Link. */
module XL3Wire {
  import opened Words
  import opened XL3Link

  /** An acknowledgement of some commands, or any other packet; what is behind the last command does not matter. */
  datatype Message =
    | Ack(num: uint16, bundles: uint8, commands: seq<Command>, padding: bytes)
    | Other(num: uint16, kind: uint8, bundles: uint8, payload: bytes)

  predicate CommandOk(c: Command) { |c.flags| == 2 && |c.address| == 4 }

  /** Packets have 1444 bytes, 4 of them before the payload; 80 commands are the most there can be. */
  predicate Fits(m: Message) {
    match m
    case Ack(_, _, commands, padding) =>
      |commands| <= 80 && |padding| == 1440 - 4 - 16 * |commands|
      && forall i | 0 <= i < |commands| :: CommandOk(commands[i])
    case Other(_, kind, _, payload) => kind != 0xDD && |payload| == 1440
  }

  predicate AllFit(ms: seq<Message>) { forall i | 0 <= i < |ms| :: Fits(ms[i]) }

  function CommandBytes(c: Command): (b: bytes)
    requires CommandOk(c)
    ensures |b| == 16
  {
    Word32(c.cmdNum) + Word16(c.packetNum) + c.flags + c.address + Word32(c.data)
  }

  function CommandsBytes(cs: seq<Command>): (b: bytes)
    requires forall i | 0 <= i < |cs| :: CommandOk(cs[i])
    ensures |b| == 16 * |cs|
  {
    if cs == [] then [] else CommandsBytes(cs[..|cs| - 1]) + CommandBytes(cs[|cs| - 1])
  }

  function Written(m: Message): (b: bytes)
    requires Fits(m)
    ensures |b| == 1444
  {
    match m
    case Ack(num, bundles, commands, padding) =>
      Word16(num) + [0xDD, bundles] + (Word32(|commands|) + CommandsBytes(commands) + padding)
    case Other(num, kind, bundles, payload) => Word16(num) + [kind, bundles] + payload
  }

  function WrittenAll(ms: seq<Message>): bytes
    requires AllFit(ms)
  {
    if ms == [] then [] else WrittenAll(ms[..|ms| - 1]) + Written(ms[|ms| - 1])
  }

  // What is to become of them.

  /** All acknowledged commands. */
  function CommandsOf(ms: seq<Message>): seq<Command> {
    if ms == [] then []
    else CommandsOf(ms[..|ms| - 1]) + var m := ms[|ms| - 1]; if m.Ack? then m.commands else []
  }

  /** Pings, which are answered. */
  predicate Ping(m: Message) { m.Other? && m.kind == 0xBB }

  /** Neither answered nor printed nor an acknowledgement. */
  predicate Answer(m: Message) { m.Other? && m.kind !in {0xBB, 0xCC, 0xEE, 0xFE, 0xFF} }

  /** The packets that answer requests, as they came. */
  function AnswersOf(ms: seq<Message>): seq<bytes>
    requires AllFit(ms)
  {
    if ms == [] then []
    else AnswersOf(ms[..|ms| - 1]) + var m := ms[|ms| - 1]; if Answer(m) then [Written(m)] else []
  }

  /** What is sent back for the pings: the same packets, with the kind of a pong. */
  function PongsOf(ms: seq<Message>): seq<bytes>
    requires AllFit(ms)
  {
    if ms == [] then []
    else PongsOf(ms[..|ms| - 1]) + var m := ms[|ms| - 1]; if Ping(m) then [Written(m.(kind := 0x01))] else []
  }

  // One packet.

  lemma CommandIsRead(b: bytes, i: nat, c: Command)
    requires Block(b) && i < MAX_ACKS_PER_PACKET && CommandOk(c) && b[8 + 16 * i..8 + 16 * i + 16] == CommandBytes(c)
    ensures CommandAt(b, i) == c
  {
    var at, t := 8 + 16 * i, CommandBytes(c);
    WrittenIsRead(c.packetNum, c.cmdNum);
    WrittenIsRead(c.packetNum, c.data);
    CommandParts(c);
    assert b[at..at + 4] == b[at..at + 16][0..4];
    assert b[at + 4..at + 6] == b[at..at + 16][4..6];
    assert b[at + 6..at + 8] == b[at..at + 16][6..8];
    assert b[at + 8..at + 12] == b[at..at + 16][8..12];
    assert b[at + 12..at + 16] == b[at..at + 16][12..16];
  }

  lemma CommandParts(c: Command)
    requires CommandOk(c)
    ensures var t := CommandBytes(c);
      t[0..4] == Word32(c.cmdNum) && t[4..6] == Word16(c.packetNum) && t[6..8] == c.flags && t[8..12] == c.address
      && t[12..16] == Word32(c.data)
  {}

  lemma LastCommand(b: bytes, before: bytes, last: bytes, n: nat)
    requires |before| == n && |last| == 16 && 8 + n + 16 <= |b| && b[8..8 + n + 16] == before + last
    ensures b[8..8 + n] == before && b[8 + n..8 + n + 16] == last
  {
    assert b[8..8 + n] == b[8..8 + n + 16][..n];
    assert b[8 + n..8 + n + 16] == b[8..8 + n + 16][n..];
  }

  lemma {:induction false} CommandsAreRead(b: bytes, cs: seq<Command>)
    requires Block(b) && |cs| <= 80 && forall i | 0 <= i < |cs| :: CommandOk(cs[i])
    requires b[8..8 + 16 * |cs|] == CommandsBytes(cs)
    ensures FirstCommands(b, |cs|) == cs
  {
    if cs != [] {
      var n, before := |cs| - 1, cs[..|cs| - 1];
      LastCommand(b, CommandsBytes(before), CommandBytes(cs[n]), 16 * n);
      CommandsAreRead(b, before);
      CommandIsRead(b, n, cs[n]);
    }
  }

  lemma AckParts(m: Message)
    requires Fits(m) && m.Ack?
    ensures var b := Written(m);
      b[2] == 0xDD && b[4..8] == Word32(|m.commands|) && b[8..8 + 16 * |m.commands|] == CommandsBytes(m.commands)
  {}

  /** Acknowledgements are taken apart into their commands. */
  lemma AckIsRead(m: Message)
    requires Fits(m) && m.Ack?
    ensures var b := Written(m); Sane(b) && Acks(b) == m.commands && Queued(b) == [] && Pongs(b) == []
  {
    var b := Written(m);
    AckParts(m);
    WrittenIsRead(m.num, |m.commands|);
    CommandsAreRead(b, m.commands);
  }

  lemma PongIsWritten(m: Message)
    requires Fits(m) && Ping(m)
    ensures Written(m)[2 := 0x01] == Written(m.(kind := 0x01))
  {}

  /** Other packets are answered, printed or queued. */
  lemma OtherIsRead(m: Message)
    requires Fits(m) && m.Other?
    ensures var b := Written(m);
      && Sane(b) && Acks(b) == []
      && Queued(b) == (if Answer(m) then [b] else [])
      && Pongs(b) == (if Ping(m) then [Written(m.(kind := 0x01))] else [])
  {
    assert Written(m)[2] == m.kind;
    if Ping(m) { PongIsWritten(m); }
  }

  /** The packet's number is read as it was written. */
  lemma NumberIsRead(m: Message)
    requires Fits(m)
    ensures Big16(Written(m)[0..2]) == m.num
  {
    WrittenIsRead(m.num, 0);
    assert Written(m)[0..2] == Word16(m.num);
  }

  // All packets.

  lemma {:induction false} AllAreRead(ms: seq<Message>)
    requires AllFit(ms)
    ensures var bs := Blocks(WrittenAll(ms));
      AllSane(bs) && AllAcks(bs) == CommandsOf(ms) && AllQueued(bs) == AnswersOf(ms) && AllPongs(bs) == PongsOf(ms)
    ensures Remainder(WrittenAll(ms)) == []
  {
    if ms != [] {
      var before, m := ms[..|ms| - 1], ms[|ms| - 1];
      AllAreRead(before);
      Complete(WrittenAll(before), Written(m));
      assert [] + Written(m) == Written(m);
      if m.Ack? { AckIsRead(m); } else { OtherIsRead(m); }
      OneMoreBlock(Blocks(WrittenAll(before)), Written(m));
    }
  }

  lemma OneMoreBlock(bs: seq<bytes>, b: bytes)
    requires AllSane(bs) && Sane(b)
    ensures AllSane(bs + [b]) && AllAcks(bs + [b]) == AllAcks(bs) + Acks(b)
    ensures AllQueued(bs + [b]) == AllQueued(bs) + Queued(b) && AllPongs(bs + [b]) == AllPongs(bs) + Pongs(b)
  {
    assert (bs + [b])[..|bs|] == bs;
  }

  /** Once a link has received what was written, in whatever chunks, and for as long as nothing has been taken, its
      queues hold exactly the acknowledged commands and the answers, in order, and it has sent exactly the pongs. */
  lemma EverythingArrives(link: Link, ms: seq<Message>)
    requires AllFit(ms) && link.Valid() && link.stream == WrittenAll(ms)
    ensures link.taken <= |AnswersOf(ms)| && link.recvQueue == AnswersOf(ms)[link.taken..]
    ensures link.takenAcks <= |CommandsOf(ms)| && link.recvCmdQueue == CommandsOf(ms)[link.takenAcks..]
    ensures link.sent == PongsOf(ms)
  {
    AllAreRead(ms);
  }
}
