/** Reassembly of XL3 packets from a byte stream, and the queues they go to (src/xl3/XL3Link.cpp).

    What a link holds is a function of the bytes it has received.  That is what makes it independent of the
    chunks in which they came. */
module XL3Link {
  import opened Words
  import opened Wrappers

  const XL3_PACKET_SIZE: nat := 1444
  const MAX_ACKS_PER_PACKET: nat := 80

  const PONG_ID: uint8 := 0x01
  const PING_ID: uint8 := 0xBB
  const MEGA_BUNDLE_ID: uint8 := 0xCC
  const CMD_ACK_ID: uint8 := 0xDD
  const MESSAGE_ID: uint8 := 0xEE
  const ERROR_ID: uint8 := 0xFE
  const SCREWED_ID: uint8 := 0xFF

  type bytes = seq<uint8>

  predicate Block(b: bytes) { |b| == XL3_PACKET_SIZE }

  function PacketType(b: bytes): uint8
    requires Block(b)
  {
    b[2]
  }

  /** One entry of a command acknowledgement; flags and address are not looked into. */
  datatype Command = Command(cmdNum: uint32, packetNum: uint16, flags: bytes, address: bytes, data: uint32)

  function HowMany(b: bytes): uint32
    requires Block(b)
  {
    Big32(b[4..8])
  }

  function CommandAt(b: bytes, i: nat): Command
    requires Block(b) && i < MAX_ACKS_PER_PACKET
  {
    var at := 8 + 16 * i;
    Command(Big32(b[at..at + 4]), Big16(b[at + 4..at + 6]), b[at + 6..at + 8], b[at + 8..at + 12],
      Big32(b[at + 12..at + 16]))
  }

  function FirstCommands(b: bytes, n: nat): (cs: seq<Command>)
    requires Block(b) && n <= MAX_ACKS_PER_PACKET
    ensures |cs| == n
  {
    if n == 0 then [] else FirstCommands(b, n - 1) + [CommandAt(b, n - 1)]
  }

  /** An acknowledgement has room for 80 commands; the source trusts the XL3 not to announce more. */
  predicate Sane(b: bytes) { Block(b) && (PacketType(b) == CMD_ACK_ID ==> HowMany(b) <= MAX_ACKS_PER_PACKET) }

  predicate AllSane(bs: seq<bytes>) { forall i | 0 <= i < |bs| :: Sane(bs[i]) }

  /** Packets that are only printed. */
  predicate Printed(t: uint8) { t == MESSAGE_ID || t == MEGA_BUNDLE_ID || t == ERROR_ID || t == SCREWED_ID }

  // What a packet contributes to the queues, and to what is sent back.

  function Queued(b: bytes): seq<bytes>
    requires Block(b)
  {
    var t := PacketType(b);
    if t == PING_ID || t == CMD_ACK_ID || Printed(t) then [] else [b]
  }

  function Acks(b: bytes): seq<Command>
    requires Sane(b)
  {
    if PacketType(b) == CMD_ACK_ID then FirstCommands(b, HowMany(b)) else []
  }

  function Pongs(b: bytes): seq<bytes>
    requires Block(b)
  {
    if PacketType(b) == PING_ID then [b[2 := PONG_ID]] else []
  }

  // The stream.

  function Blocks(stream: bytes): (bs: seq<bytes>)
    ensures forall i | 0 <= i < |bs| :: Block(bs[i])
  {
    if |stream| < XL3_PACKET_SIZE then [] else [stream[..XL3_PACKET_SIZE]] + Blocks(stream[XL3_PACKET_SIZE..])
  }

  function Remainder(stream: bytes): (r: bytes)
    ensures |r| < XL3_PACKET_SIZE
  {
    if |stream| < XL3_PACKET_SIZE then stream else Remainder(stream[XL3_PACKET_SIZE..])
  }

  function AllQueued(bs: seq<bytes>): (q: seq<bytes>)
    requires AllSane(bs)
    ensures forall i | 0 <= i < |q| :: Block(q[i])
  {
    if bs == [] then [] else AllQueued(bs[..|bs| - 1]) + Queued(bs[|bs| - 1])
  }

  function AllAcks(bs: seq<bytes>): seq<Command>
    requires AllSane(bs)
  {
    if bs == [] then [] else AllAcks(bs[..|bs| - 1]) + Acks(bs[|bs| - 1])
  }

  function AllPongs(bs: seq<bytes>): seq<bytes>
    requires AllSane(bs)
  {
    if bs == [] then [] else AllPongs(bs[..|bs| - 1]) + Pongs(bs[|bs| - 1])
  }

  /** The packets and the remainder, one behind the other, are the stream. */
  lemma {:induction false} BlocksAreTheStream(stream: bytes)
    ensures Flatten(Blocks(stream)) + Remainder(stream) == stream
  {
    if |stream| < XL3_PACKET_SIZE {
      assert [] + stream == stream;
    } else {
      var first, rest := stream[..XL3_PACKET_SIZE], stream[XL3_PACKET_SIZE..];
      BlocksAreTheStream(rest);
      FlattenCons(first, Blocks(rest), Remainder(rest));
      assert first + rest == stream;
    }
  }

  /** More bytes continue the packet that has been started. */
  lemma {:induction false} Continue(s: bytes, t: bytes)
    ensures Blocks(s + t) == Blocks(s) + Blocks(Remainder(s) + t)
    ensures Remainder(s + t) == Remainder(Remainder(s) + t)
  {
    if |s| < XL3_PACKET_SIZE {
      assert [] + Blocks(s + t) == Blocks(s + t);
    } else {
      var first, rest := s[..XL3_PACKET_SIZE], s[XL3_PACKET_SIZE..];
      assert (s + t)[..XL3_PACKET_SIZE] == first && (s + t)[XL3_PACKET_SIZE..] == rest + t;
      Continue(rest, t);
      assert [first] + (Blocks(rest) + Blocks(Remainder(rest) + t))
        == [first] + Blocks(rest) + Blocks(Remainder(rest) + t);
    }
  }

  lemma Complete(stream: bytes, more: bytes)
    requires |Remainder(stream)| + |more| == XL3_PACKET_SIZE
    ensures Blocks(stream + more) == Blocks(stream) + [Remainder(stream) + more]
    ensures Remainder(stream + more) == []
  {
    Continue(stream, more);
    var b := Remainder(stream) + more;
    assert b[..XL3_PACKET_SIZE] == b && b[XL3_PACKET_SIZE..] == [];
    assert Blocks(b) == [b] + Blocks([]);
  }

  lemma Incomplete(stream: bytes, more: bytes)
    requires |Remainder(stream)| + |more| < XL3_PACKET_SIZE
    ensures Blocks(stream + more) == Blocks(stream)
    ensures Remainder(stream + more) == Remainder(stream) + more
  {
    Continue(stream, more);
    assert Blocks(stream) + [] == Blocks(stream);
  }

  class Link {
    const tempPacket: array<uint8>
    var tempBytes: nat
    var bytesLeft: nat
    var recvQueue: seq<bytes>
    var recvCmdQueue: seq<Command>
    var sent: seq<bytes>

    /** All that has been received, and how many entries have been taken from either queue. */
    ghost var stream: bytes
    ghost var taken: nat
    ghost var takenAcks: nat

    /** The queues hold what the packets contributed, but for what has been taken. */
    ghost predicate Delivered(bs: seq<bytes>)
      reads this
    {
      && AllSane(bs)
      && taken <= |AllQueued(bs)| && recvQueue == AllQueued(bs)[taken..]
      && takenAcks <= |AllAcks(bs)| && recvCmdQueue == AllAcks(bs)[takenAcks..]
      && sent == AllPongs(bs)
    }

    ghost predicate Valid()
      reads this, tempPacket
    {
      && tempPacket.Length == XL3_PACKET_SIZE
      && (if tempBytes == 0 then bytesLeft == 0 else tempBytes + bytesLeft == XL3_PACKET_SIZE && bytesLeft > 0)
      && tempPacket[..tempBytes] == Remainder(stream)
      && Delivered(Blocks(stream))
    }

    constructor ()
      ensures Valid() && fresh(tempPacket) && stream == [] && taken == 0 && takenAcks == 0
    {
      tempPacket := new uint8[XL3_PACKET_SIZE](_ => 0);
      tempBytes, bytesLeft := 0, 0;
      recvQueue, recvCmdQueue, sent := [], [], [];
      stream, taken, takenAcks := [], 0, 0;
    }

    /** One packet: answered, printed, or put into one of the queues. */
    method ProcessPacket(packet: bytes, ghost bs: seq<bytes>)
      requires Sane(packet) && Delivered(bs)
      modifies this`recvQueue, this`recvCmdQueue, this`sent
      ensures Delivered(bs + [packet])
    {
      assert (bs + [packet])[..|bs|] == bs;
      Switch(packet);
    }

    method Switch(packet: bytes)
      requires Sane(packet)
      modifies this`recvQueue, this`recvCmdQueue, this`sent
      ensures recvQueue == old(recvQueue) + Queued(packet)
      ensures recvCmdQueue == old(recvCmdQueue) + Acks(packet)
      ensures sent == old(sent) + Pongs(packet)
    {
      var t := PacketType(packet);
      if t == PING_ID {
        sent := sent + [packet[2 := PONG_ID]];
      } else if t == CMD_ACK_ID {
        PushAcks(packet);
      } else if !Printed(t) {
        recvQueue := recvQueue + [packet];
      }
    }

    /** The entries of an acknowledgement, in host order. */
    method PushAcks(packet: bytes)
      requires Sane(packet) && PacketType(packet) == CMD_ACK_ID
      modifies this`recvCmdQueue
      ensures recvCmdQueue == old(recvCmdQueue) + FirstCommands(packet, HowMany(packet))
    {
      var n := HowMany(packet);
      for i := 0 to n
        invariant recvCmdQueue == old(recvCmdQueue) + FirstCommands(packet, i)
      {
        recvCmdQueue := recvCmdQueue + [CommandAt(packet, i)];
      }
    }

    lemma CompletedIsSane(more: bytes)
      requires |Remainder(stream)| + |more| == XL3_PACKET_SIZE && AllSane(Blocks(stream + more))
      ensures Sane(Remainder(stream) + more)
    {
      Complete(stream, more);
      var bs := Blocks(stream + more);
      assert Sane(bs[|bs| - 1]);
    }

    /** The bytes that complete a packet have come. */
    method ProcessNext(packet: bytes, ghost more: bytes)
      requires tempPacket.Length == XL3_PACKET_SIZE && Delivered(Blocks(stream))
      requires packet == Remainder(stream) + more && |packet| == XL3_PACKET_SIZE && AllSane(Blocks(stream + more))
      modifies this`recvQueue, this`recvCmdQueue, this`sent, this`stream
      ensures stream == old(stream) + more && Remainder(stream) == [] && Delivered(Blocks(stream))
    {
      CompletedIsSane(more);
      Complete(stream, more);
      ProcessPacket(packet, Blocks(stream));
      stream := stream + more;
    }

    /** A packet that is in the chunk as a whole. */
    method TakeWhole(packet: bytes)
      requires Valid() && tempBytes == 0 && |packet| == XL3_PACKET_SIZE && AllSane(Blocks(stream + packet))
      modifies this
      ensures Valid() && stream == old(stream) + packet && taken == old(taken) && takenAcks == old(takenAcks)
    {
      assert Remainder(stream) + packet == packet;
      ProcessNext(packet, packet);
    }

    /** The rest of a packet that was held back. */
    method TakeRest(more: bytes)
      requires Valid() && tempBytes > 0 && |more| == bytesLeft && AllSane(Blocks(stream + more))
      modifies this, tempPacket
      ensures Valid() && stream == old(stream) + more && taken == old(taken) && takenAcks == old(takenAcks)
    {
      Store(more);
      assert tempPacket[..] == tempPacket[..tempBytes + |more|];
      ProcessNext(tempPacket[..], more);
      Clear();
      tempBytes, bytesLeft := 0, 0;
    }

    method Clear()
      modifies tempPacket
      ensures forall i | 0 <= i < tempPacket.Length :: tempPacket[i] == 0
    {
      forall i | 0 <= i < tempPacket.Length {
        tempPacket[i] := 0;
      }
    }

    /** Bytes are copied behind those that are held. */
    method Store(more: bytes)
      requires tempBytes + |more| <= tempPacket.Length
      modifies tempPacket
      ensures tempPacket[..tempBytes + |more|] == old(tempPacket[..tempBytes]) + more
    {
      forall i | 0 <= i < |more| {
        tempPacket[tempBytes + i] := more[i];
      }
    }

    /** A packet is still incomplete: what there is of it is held back. */
    method KeepAll(more: bytes)
      requires Valid() && 0 < |more| && tempBytes + |more| < XL3_PACKET_SIZE
      modifies this, tempPacket
      ensures Valid() && stream == old(stream) + more && taken == old(taken) && takenAcks == old(takenAcks)
    {
      Incomplete(stream, more);
      Store(more);
      if tempBytes == 0 {
        bytesLeft := XL3_PACKET_SIZE - |more|;
        tempBytes := |more|;
      } else {
        bytesLeft := bytesLeft - |more|;
        tempBytes := tempBytes + |more|;
      }
      stream := stream + more;
    }

    static lemma SaneSoFar(s: bytes, t: bytes)
      requires AllSane(Blocks(s + t))
      ensures AllSane(Blocks(s))
    {
      Continue(s, t);
      forall i | 0 <= i < |Blocks(s)| ensures Sane(Blocks(s)[i]) {
        assert Sane(Blocks(s + t)[i]);
      }
    }

    /** Whatever the chunks: the packets that were processed are the successive blocks of the stream, and what is
        held back is its remainder. */
    method RecvCallback(input: bytes)
      requires Valid() && AllSane(Blocks(stream + input))
      modifies this, tempPacket
      ensures Valid() && stream == old(stream) + input && taken == old(taken) && takenAcks == old(takenAcks)
    {
      ghost var before := stream;
      var inputP := 0;
      assert before + input[..0] == before;
      while inputP < |input|
        invariant 0 <= inputP <= |input| && Valid() && stream == before + input[..inputP]
        invariant taken == old(taken) && takenAcks == old(takenAcks)
        decreases |input| - inputP
      {
        inputP := TakeSome(input, inputP, before);
      }
      assert input[..inputP] == input;
    }

    /** One turn of the loop. */
    method TakeSome(input: bytes, inputP: nat, ghost before: bytes) returns (next: nat)
      requires Valid() && inputP < |input| && stream == before + input[..inputP] && AllSane(Blocks(before + input))
      modifies this, tempPacket
      ensures inputP < next <= |input| && Valid() && stream == before + input[..next]
      ensures taken == old(taken) && takenAcks == old(takenAcks)
    {
      var totalLength := |input| - inputP;
      if tempBytes == 0 {
        if totalLength >= XL3_PACKET_SIZE {
          next := inputP + XL3_PACKET_SIZE;
          Cut(before, input, inputP, next);
          TakeWhole(input[inputP..next]);
        } else {
          next := |input|;
          Cut(before, input, inputP, next);
          KeepAll(input[inputP..next]);
        }
      } else {
        if totalLength >= bytesLeft {
          next := inputP + bytesLeft;
          Cut(before, input, inputP, next);
          TakeRest(input[inputP..next]);
        } else {
          next := |input|;
          Cut(before, input, inputP, next);
          KeepAll(input[inputP..next]);
        }
      }
    }

    static lemma Cut(before: bytes, input: bytes, from: nat, to: nat)
      requires from <= to <= |input| && AllSane(Blocks(before + input))
      ensures before + input[..from] + input[from..to] == before + input[..to]
      ensures AllSane(Blocks(before + input[..to]))
    {
      assert before + input[..to] + input[to..] == before + input;
      SaneSoFar(before + input[..to], input[to..]);
    }

    /** The number and the bytes of the next packet, or nothing when none comes. */
    method GetNextPacket() returns (r: Option<(uint16, bytes)>)
      requires Valid()
      modifies this`recvQueue, this`taken
      ensures Valid()
      ensures var q := AllQueued(Blocks(stream));
        if old(taken) < |q| then r == Some((Big16(q[old(taken)][0..2]), q[old(taken)])) && taken == old(taken) + 1
        else r == None && taken == old(taken)
    {
      if recvQueue == [] {
        r := None;
      } else {
        r := Some((Big16(recvQueue[0][0..2]), recvQueue[0]));
        recvQueue := recvQueue[1..];
        taken := taken + 1;
      }
    }

    method GetNextCmdAck() returns (r: Option<Command>)
      requires Valid()
      modifies this`recvCmdQueue, this`takenAcks
      ensures Valid()
      ensures var q := AllAcks(Blocks(stream));
        if old(takenAcks) < |q| then r == Some(q[old(takenAcks)]) && takenAcks == old(takenAcks) + 1
        else r == None && takenAcks == old(takenAcks)
    {
      if recvCmdQueue == [] {
        r := None;
      } else {
        r := Some(recvCmdQueue[0]);
        recvCmdQueue := recvCmdQueue[1..];
        takenAcks := takenAcks + 1;
      }
    }

    /** 0: nothing is waiting; -3: a packet is incomplete; -1: the queues have been emptied; -2: they are not
        empty. */
    method CheckQueue(empty: bool) returns (r: int)
      requires Valid()
      modifies this`recvQueue, this`recvCmdQueue, this`taken, this`takenAcks
      ensures Valid()
      ensures r == if old(recvQueue) == [] && old(recvCmdQueue) == []
                   then (if Remainder(stream) == [] then 0 else -3) else if empty then -1 else -2
      ensures r == -1 ==> recvQueue == [] && recvCmdQueue == []
      ensures r != -1 ==> taken == old(taken) && takenAcks == old(takenAcks)
    {
      if recvQueue == [] && recvCmdQueue == [] {
        return if bytesLeft != 0 then -3 else 0;
      } else if empty {
        recvQueue, recvCmdQueue := [], [];
        taken, takenAcks := |AllQueued(Blocks(stream))|, |AllAcks(Blocks(stream))|;
        return -1;
      }
      r := -2;
    }
  }

  /** Links that received the same bytes, in whatever chunks, hold the same. */
  lemma ChunksDoNotMatter(a: Link, b: Link)
    requires a.Valid() && b.Valid() && a.stream == b.stream && a.taken == b.taken && a.takenAcks == b.takenAcks
    ensures a.recvQueue == b.recvQueue && a.recvCmdQueue == b.recvCmdQueue && a.sent == b.sent
    ensures a.tempBytes == b.tempBytes && a.bytesLeft == b.bytesLeft
    ensures a.tempPacket[..a.tempBytes] == b.tempPacket[..b.tempBytes]
  {
    assert |a.tempPacket[..a.tempBytes]| == |b.tempPacket[..b.tempBytes]|;
  }
}
