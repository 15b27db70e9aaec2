/** Reassembly of the MTC server's packets, which start with their length, from a byte stream
    (src/mtc/MTCLink.cpp). */
module MTCLink {
  import opened Words
  import opened Wrappers

  const SBCPACKET_SIZE: nat := 1024 * 400 + 256 + 12

  type bytes = seq<uint8>

  function Zeros(n: nat): (z: bytes)
    ensures |z| == n && forall i | 0 <= i < n :: z[i] == 0
  {
    seq(n, _ => 0)
  }

  /** The length word.  Bytes that have not come are read as zeros, which the input buffer was filled with. */
  function NumBytes(b: bytes): uint32 { if |b| >= 4 then Little32(b[..4]) else Little32(b + Zeros(4 - |b|)) }

  /** A length that leaves room for the length word and fits the buffer. */
  predicate Fits(n: nat) { 4 <= n <= SBCPACKET_SIZE }

  /** The stream starts with a complete packet. */
  predicate Whole(stream: bytes) { Fits(NumBytes(stream)) && NumBytes(stream) <= |stream| }

  /** Every length that is read from the stream is usable. */
  predicate Sound(stream: bytes) {
    stream == [] || (Fits(NumBytes(stream)) && (Whole(stream) ==> Sound(stream[NumBytes(stream)..])))
  }

  function Packets(stream: bytes): seq<bytes> {
    if Whole(stream) then [stream[..NumBytes(stream)]] + Packets(stream[NumBytes(stream)..]) else []
  }

  function Remainder(stream: bytes): bytes {
    if Whole(stream) then Remainder(stream[NumBytes(stream)..]) else stream
  }

  lemma PacketsStep(stream: bytes, n: nat)
    requires Whole(stream) && n == NumBytes(stream)
    ensures Packets(stream) == [stream[..n]] + Packets(stream[n..]) && Remainder(stream) == Remainder(stream[n..])
    ensures stream[..n] + stream[n..] == stream
  {}

  /** The packets and the remainder, one behind the other, are the stream. */
  lemma {:induction false} PacketsAreTheStream(stream: bytes)
    ensures Flatten(Packets(stream)) + Remainder(stream) == stream
  {
    if Whole(stream) {
      var n := NumBytes(stream);
      PacketsAreTheStream(stream[n..]);
      PacketsStep(stream, n);
      FlattenCons(stream[..n], Packets(stream[n..]), Remainder(stream[n..]));
    } else {
      assert [] + stream == stream;
    }
  }

  /** Every packet has the length it says. */
  lemma {:induction false} PacketsHaveTheirLength(stream: bytes, i: nat)
    requires i < |Packets(stream)|
    ensures var p := Packets(stream)[i]; Fits(|p|) && NumBytes(p) == |p|
  {
    var n := NumBytes(stream);
    if i == 0 {
      StartOf(stream[..n], stream[n..]);
      assert stream[..n] + stream[n..] == stream;
    } else {
      PacketsHaveTheirLength(stream[n..], i - 1);
    }
  }

  lemma StartOf(s: bytes, t: bytes)
    requires |s| >= 4
    ensures NumBytes(s + t) == NumBytes(s)
  {
    assert (s + t)[..4] == s[..4];
  }

  /** More bytes continue the packet that has been started. */
  lemma {:induction false} Continue(s: bytes, t: bytes)
    ensures Packets(s + t) == Packets(s) + Packets(Remainder(s) + t)
    ensures Remainder(s + t) == Remainder(Remainder(s) + t)
  {
    if Whole(s) {
      var n := NumBytes(s);
      StartOf(s, t);
      assert (s + t)[..n] == s[..n] && (s + t)[n..] == s[n..] + t;
      Continue(s[n..], t);
      assert [s[..n]] + (Packets(s[n..]) + Packets(Remainder(s) + t))
        == [s[..n]] + Packets(s[n..]) + Packets(Remainder(s) + t);
    } else {
      assert [] + Packets(s + t) == Packets(s + t);
    }
  }

  lemma Incomplete(s: bytes, more: bytes)
    requires !Whole(Remainder(s) + more)
    ensures Packets(s + more) == Packets(s) && Remainder(s + more) == Remainder(s) + more
  {
    Continue(s, more);
    assert Packets(s) + [] == Packets(s);
  }

  lemma OnePacket(p: bytes)
    requires Fits(NumBytes(p)) && NumBytes(p) == |p|
    ensures Packets(p) == [p] && Remainder(p) == []
  {
    assert p[..|p|] == p && p[|p|..] == [];
    assert !Whole([]);
    assert [p] + Packets([]) == [p];
  }

  /** A length word of which only some bytes have come is read correctly exactly when the missing ones are zero. */
  lemma SplitWord(word: bytes, v: nat)
    requires |word| == 4 && v <= 4
    ensures NumBytes(word[..v]) == Little32(word) <==> forall i | v <= i < 4 :: word[i] == 0
  {
    var padded := word[..v] + Zeros(4 - v);
    if v == 4 {
      assert word[..4][..4] == word;
    } else {
      assert NumBytes(word[..v]) == Little32(padded);
      assert forall i | 0 <= i < 4 :: padded[i] == if i < v then word[i] else 0;
      if forall i | v <= i < 4 :: word[i] == 0 { assert padded == word; }
    }
  }

  // The queue holds whole structures: packets, with zeros behind them.

  predicate Small(p: bytes) { |p| <= SBCPACKET_SIZE }

  function Padded(p: bytes): (q: bytes)
    requires Small(p)
    ensures |q| == SBCPACKET_SIZE && q[..|p|] == p && forall i | |p| <= i < |q| :: q[i] == 0
  {
    p + Zeros(SBCPACKET_SIZE - |p|)
  }

  function AllPadded(ps: seq<bytes>): (q: seq<bytes>)
    requires forall i | 0 <= i < |ps| :: Small(ps[i])
    ensures |q| == |ps| && forall i | 0 <= i < |ps| :: q[i] == Padded(ps[i])
  {
    seq(|ps|, i requires 0 <= i < |ps| => Padded(ps[i]))
  }

  // The loop of RecvCallback, turn by turn, for any bytes at all.

  /** What is held, how many bytes it still needs, what is left of the chunk, and the queue.  Overrun: a copy
      beyond the buffer, or of a length that as a signed number is negative. */
  datatype LoopState = Running(held: bytes, needed: nat, rest: bytes, queue: seq<bytes>) | Overrun

  /** A packet is pushed, n bytes of the chunk being its last. */
  function Pushed(s: LoopState, n: nat): LoopState
    requires s.Running? && n <= |s.rest|
  {
    var packet := s.held + s.rest[..n];
    if Small(packet) then Running([], 0, s.rest[n..], s.queue + [Padded(packet)]) else Overrun
  }

  /** The whole chunk is held. */
  function Held(s: LoopState, needed: nat): LoopState
    requires s.Running?
  {
    var start := s.held + s.rest;
    if Small(start) then Running(start, needed, [], s.queue) else Overrun
  }

  function Turn(s: LoopState): LoopState {
    if s.Overrun? || s.rest == [] then s
    else if s.held != [] then
      if s.needed > |s.rest| then Held(s, s.needed - |s.rest|) else Pushed(s, s.needed)
    else
      var n := NumBytes(s.rest);
      if n >= 0x8000_0000 then Overrun
      else if n > |s.rest| then Held(s, n - |s.rest|)
      else Pushed(s, n)
  }

  function Turns(s: LoopState, k: nat): LoopState
    decreases k
  {
    if k == 0 then s else Turns(Turn(s), k - 1)
  }

  predicate Goes(s: LoopState) { s.Running? && s.rest != [] }

  ghost predicate Endless(s: LoopState) { forall k: nat :: Goes(Turns(s, k)) }

  /** Bytes are held only when more are needed. */
  predicate Needy(s: LoopState) { s.Running? && s.held != [] ==> s.needed > 0 }

  /** Where a packet should start there is a length of 0. */
  predicate AtZero(s: LoopState) { Goes(s) && s.held == [] && NumBytes(s.rest) == 0 }

  /** The loop comes to a length of 0. */
  predicate ComesToZero(s: LoopState)
    requires Needy(s)
    decreases if s.Running? then |s.rest| else 0
  {
    AtZero(s) || (Goes(s) && ComesToZero(Turn(s)))
  }

  function EmptyPackets(k: nat): (q: seq<bytes>)
    ensures |q| == k && forall i | 0 <= i < k :: q[i] == Zeros(SBCPACKET_SIZE)
  {
    seq(k, _ => Zeros(SBCPACKET_SIZE))
  }

  /** A length of 0 takes nothing off the chunk: every turn queues another empty packet. */
  lemma {:induction false} ZeroLength(s: LoopState, k: nat)
    requires AtZero(s)
    ensures Turns(s, k) == Running([], if k == 0 then s.needed else 0, s.rest, s.queue + EmptyPackets(k))
    decreases k
  {
    if k == 0 {
      assert s.queue + EmptyPackets(0) == s.queue;
    } else {
      assert [] + s.rest[..0] == [] && s.rest[0..] == s.rest && [] + Zeros(SBCPACKET_SIZE) == Zeros(SBCPACKET_SIZE);
      ZeroLength(Turn(s), k - 1);
      assert s.queue + [Zeros(SBCPACKET_SIZE)] + EmptyPackets(k - 1) == s.queue + EmptyPackets(k);
    }
  }

  /** The loop goes on for ever exactly when it comes to a length of 0. */
  lemma {:induction false} EndlessExactly(s: LoopState)
    requires Needy(s)
    ensures Endless(s) <==> ComesToZero(s)
    decreases if s.Running? then |s.rest| else 0
  {
    assert Turns(s, 0) == s;
    if AtZero(s) {
      forall k: nat ensures Goes(Turns(s, k)) { ZeroLength(s, k); }
    } else if Goes(s) {
      EndlessExactly(Turn(s));
      forall k: nat ensures Turns(s, k + 1) == Turns(Turn(s), k) {}
      if Endless(Turn(s)) {
        forall k: nat ensures Goes(Turns(s, k)) {
          if k > 0 { assert Goes(Turns(Turn(s), k - 1)); }
        }
      }
      if Endless(s) {
        forall k: nat ensures Goes(Turns(Turn(s), k)) { assert Goes(Turns(s, k + 1)); }
      }
    }
  }

  /** A length is read as 0 exactly when no byte of it that has come is anything else. */
  lemma ReadAsZero(b: bytes)
    ensures NumBytes(b) == 0 <==> forall i | 0 <= i < |b| && i < 4 :: b[i] == 0
  {
    var word := if |b| >= 4 then b[..4] else b + Zeros(4 - |b|);
    assert NumBytes(b) == Little32(word);
    assert forall i | 0 <= i < |b| && i < 4 :: word[i] == b[i];
  }

  class Link {
    const tempPacket: array<uint8>
    var tempBytes: nat
    var bytesLeft: nat
    var recvQueue: seq<bytes>

    /** All that has been received, and how many packets have been taken from the queue. */
    ghost var stream: bytes
    ghost var taken: nat

    ghost predicate Delivered(ps: seq<bytes>)
      reads this
    {
      && (forall i | 0 <= i < |ps| :: Small(ps[i]))
      && taken <= |ps| && recvQueue == AllPadded(ps)[taken..]
    }

    /** What is held is the remainder of the stream, with zeros behind it. */
    ghost predicate Holds(r: bytes)
      reads this, tempPacket
    {
      && tempPacket.Length == SBCPACKET_SIZE && Small(r) && tempBytes == |r| && tempPacket[..] == Padded(r)
      && (if r == [] then bytesLeft == 0 else bytesLeft > 0 && tempBytes + bytesLeft == NumBytes(r))
    }

    ghost predicate Valid()
      reads this, tempPacket
    {
      Holds(Remainder(stream)) && Delivered(Packets(stream))
    }

    constructor ()
      ensures Valid() && fresh(tempPacket) && stream == [] && taken == 0
    {
      tempPacket := new uint8[SBCPACKET_SIZE](_ => 0);
      tempBytes, bytesLeft := 0, 0;
      recvQueue := [];
      stream, taken := [], 0;
      new;
      assert [] + Zeros(SBCPACKET_SIZE) == Zeros(SBCPACKET_SIZE);
      assert !Whole([]);
    }

    /** Bytes are copied behind those that are held. */
    method Store(more: bytes, ghost r: bytes)
      requires tempPacket.Length == SBCPACKET_SIZE && Small(r) && tempBytes == |r| && tempPacket[..] == Padded(r)
        && Small(r + more)
      modifies tempPacket
      ensures tempPacket[..] == Padded(r + more)
    {
      ghost var before := tempPacket[..];
      forall i | 0 <= i < |more| {
        tempPacket[tempBytes + i] := more[i];
      }
      assert forall i | 0 <= i < SBCPACKET_SIZE :: before[i] == if i < |r| then r[i] else 0;
    }

    method Clear()
      requires tempPacket.Length == SBCPACKET_SIZE
      modifies tempPacket
      ensures tempPacket[..] == Padded([])
    {
      forall i | 0 <= i < tempPacket.Length {
        tempPacket[i] := 0;
      }
    }

    /** The packet in the buffer is pushed, and the buffer cleared. */
    method PushNext(ghost packet: bytes, ghost more: bytes)
      requires tempPacket.Length == SBCPACKET_SIZE && Delivered(Packets(stream))
      requires packet == Remainder(stream) + more && Fits(NumBytes(packet)) && NumBytes(packet) == |packet|
      requires tempPacket[..] == Padded(packet)
      modifies this, tempPacket
      ensures Valid() && stream == old(stream) + more && Remainder(stream) == [] && taken == old(taken)
      ensures recvQueue == old(recvQueue) + [Padded(packet)]
    {
      OnePush(stream, packet, more);
      ghost var ps := Packets(stream);
      assert AllPadded(ps + [packet]) == AllPadded(ps) + [Padded(packet)];
      recvQueue := recvQueue + [tempPacket[..]];
      Clear();
      bytesLeft := 0;
      tempBytes := 0;
      stream := stream + more;
    }

    /** A packet that is in the chunk as a whole. */
    method TakeWhole(packet: bytes)
      requires Valid() && tempBytes == 0 && Fits(NumBytes(packet)) && NumBytes(packet) == |packet|
      modifies this, tempPacket
      ensures Valid() && stream == old(stream) + packet && Remainder(stream) == [] && taken == old(taken)
      ensures recvQueue == old(recvQueue) + [Padded(packet)]
    {
      assert Remainder(stream) == [] && [] + packet == packet;
      Store(packet, []);
      PushNext(packet, packet);
    }

    /** The rest of a packet that was held back. */
    method TakeRest(more: bytes)
      requires Valid() && tempBytes > 0 && |more| == bytesLeft
      requires var p := Remainder(stream) + more; Fits(NumBytes(p)) && NumBytes(p) == |p|
      modifies this, tempPacket
      ensures Valid() && stream == old(stream) + more && Remainder(stream) == [] && taken == old(taken)
      ensures recvQueue == old(recvQueue) + [Padded(old(Remainder(stream)) + more)]
    {
      ghost var r := Remainder(stream);
      Store(more, r);
      PushNext(r + more, more);
    }

    /** The start of a packet is held back. */
    method KeepStart(more: bytes)
      requires Valid() && tempBytes == 0 && more != [] && Fits(NumBytes(more)) && NumBytes(more) > |more|
      modifies this, tempPacket
      ensures Valid() && stream == old(stream) + more && Remainder(stream) == more && taken == old(taken)
      ensures bytesLeft == NumBytes(more) - |more| && recvQueue == old(recvQueue)
    {
      assert Remainder(stream) == [] && [] + more == more;
      Incomplete(stream, more);
      Store(more, []);
      bytesLeft := NumBytes(more) - |more|;
      tempBytes := |more|;
      stream := stream + more;
    }

    /** A packet that is held back is still incomplete. */
    method KeepMore(more: bytes)
      requires Valid() && tempBytes > 0 && bytesLeft > |more|
      requires var r := Remainder(stream); Fits(NumBytes(r)) && NumBytes(r + more) == NumBytes(r)
      modifies this, tempPacket
      ensures Valid() && stream == old(stream) + more && Remainder(stream) == old(Remainder(stream)) + more
        && taken == old(taken)
      ensures bytesLeft == old(bytesLeft) - |more| && recvQueue == old(recvQueue)
    {
      ghost var r := Remainder(stream);
      Incomplete(stream, more);
      Store(more, r);
      bytesLeft := bytesLeft - |more|;
      tempBytes := tempBytes + |more|;
      stream := stream + more;
    }

    /** The chunk leads to usable lengths only, and a length word that was cut in two had been read correctly. */
    ghost predicate Readable(input: bytes)
      reads this
    {
      var r := Remainder(stream);
      Sound(r + input) && (r != [] ==> NumBytes(r + input) == NumBytes(r))
    }

    /** Where the loop is. */
    ghost function Loop(rest: bytes): (s: LoopState)
      requires tempBytes <= tempPacket.Length
      reads this, tempPacket
    {
      Running(tempPacket[..tempBytes], bytesLeft, rest, recvQueue)
    }

    lemma HeldBytes(r: bytes, rest: bytes)
      requires Holds(r)
      ensures Loop(rest) == Running(r, bytesLeft, rest, recvQueue)
    {
      assert (r + Zeros(SBCPACKET_SIZE - |r|))[..|r|] == r;
    }

    /** For such chunks the queue gets exactly the packets of the stream, in order, and the loop ends. */
    method RecvCallback(input: bytes)
      requires Valid() && Readable(input)
      modifies this, tempPacket
      ensures Valid() && stream == old(stream) + input && taken == old(taken)
    {
      var rest := input;
      while |rest| > 0
        invariant Valid() && Readable(rest) && stream + rest == old(stream) + input && taken == old(taken)
        decreases |rest|
      {
        rest := TakeSome(rest);
      }
      assert stream + [] == stream;
    }

    /** One turn of the loop. */
    method TakeSome(rest: bytes) returns (left: bytes)
      requires Valid() && Readable(rest) && rest != []
      modifies this, tempPacket
      ensures Valid() && Readable(left) && |left| < |rest| && stream + left == old(stream) + rest && taken == old(taken)
      ensures Loop(left) == Turn(old(Loop(rest)))
    {
      if tempBytes == 0 {
        left := TakeFromStart(rest);
      } else {
        left := TakeFromHeld(rest);
      }
    }

    method TakeFromStart(rest: bytes) returns (left: bytes)
      requires Valid() && Readable(rest) && rest != [] && tempBytes == 0
      modifies this, tempPacket
      ensures Valid() && Readable(left) && |left| < |rest| && stream + left == old(stream) + rest && taken == old(taken)
      ensures Loop(left) == Turn(old(Loop(rest)))
    {
      assert Remainder(stream) == [] && [] + rest == rest;
      HeldBytes([], rest);
      var numThisPacket := NumBytes(rest);
      if numThisPacket > |rest| {
        KeepStart(rest);
        left := [];
        HeldBytes(rest, left);
        NothingBehind(stream);
        NothingBehind(rest);
      } else {
        WholePacket(rest, numThisPacket);
        Divided(stream, rest, numThisPacket);
        assert [] + rest[..numThisPacket] == rest[..numThisPacket];
        TakeWhole(rest[..numThisPacket]);
        left := rest[numThisPacket..];
        HeldBytes([], left);
      }
    }

    method TakeFromHeld(rest: bytes) returns (left: bytes)
      requires Valid() && Readable(rest) && rest != [] && tempBytes > 0
      modifies this, tempPacket
      ensures Valid() && Readable(left) && |left| < |rest| && stream + left == old(stream) + rest && taken == old(taken)
      ensures Loop(left) == Turn(old(Loop(rest)))
    {
      ghost var r := Remainder(stream);
      HeldBytes(r, rest);
      if bytesLeft > |rest| {
        KeepMore(rest);
        left := [];
        HeldBytes(r + rest, left);
        NothingBehind(stream);
        NothingBehind(r + rest);
      } else {
        var n := bytesLeft;
        RestOfPacket(r, rest, n);
        Divided(stream, rest, n);
        TakeRest(rest[..n]);
        left := rest[n..];
        HeldBytes([], left);
      }
    }

    /** The next packet, or nothing when none comes. */
    method GetNextPacket() returns (r: Option<bytes>)
      requires Valid()
      modifies this`recvQueue, this`taken
      ensures Valid()
      ensures var ps := Packets(stream);
        if old(taken) < |ps| then
          Small(ps[old(taken)]) && r == Some(Padded(ps[old(taken)])) && taken == old(taken) + 1
        else r == None && taken == old(taken)
    {
      if recvQueue == [] {
        r := None;
      } else {
        r := Some(recvQueue[0]);
        recvQueue := recvQueue[1..];
        taken := taken + 1;
      }
    }
  }

  /** A link with nothing held gets the first byte of a length word, a zero, in a chunk of its own: the loop pushes
      empty packets without end. */
  lemma LoneZeroByte(link: Link, k: nat)
    requires link.Valid() && link.tempBytes == 0
    ensures var loop := link.Loop([0]);
      Endless(loop) && Turns(loop, k) == Running([], 0, [0], link.recvQueue + EmptyPackets(k))
  {
    link.HeldBytes([], [0]);
    ReadAsZero([0]);
    ZeroLength(link.Loop([0]), k);
    EndlessExactly(link.Loop([0]));
  }

  lemma NothingBehind(s: bytes)
    ensures s + [] == s
  {}

  lemma Divided(s: bytes, rest: bytes, n: nat)
    requires n <= |rest|
    ensures s + rest[..n] + rest[n..] == s + rest && [] + rest[n..] == rest[n..]
  {}

  lemma WholePacket(rest: bytes, n: nat)
    requires Sound(rest) && rest != [] && n == NumBytes(rest) <= |rest|
    ensures Fits(NumBytes(rest[..n])) && NumBytes(rest[..n]) == n && Sound(rest[n..])
  {
    StartOf(rest[..n], rest[n..]);
    assert rest[..n] + rest[n..] == rest;
  }

  lemma RestOfPacket(r: bytes, rest: bytes, n: nat)
    requires r != [] && Sound(r + rest) && NumBytes(r + rest) == NumBytes(r) == |r| + n && n <= |rest|
    ensures var p := r + rest[..n]; Fits(NumBytes(p)) && NumBytes(p) == |p| && Sound(rest[n..])
  {
    WholePacket(r + rest, |r| + n);
    assert (r + rest)[..|r| + n] == r + rest[..n] && (r + rest)[|r| + n..] == rest[n..];
  }

  /** A completed packet is the next one of the stream. */
  lemma OnePush(s: bytes, packet: bytes, more: bytes)
    requires packet == Remainder(s) + more && Fits(NumBytes(packet)) && NumBytes(packet) == |packet|
    ensures Packets(s + more) == Packets(s) + [packet] && Remainder(s + more) == []
  {
    Continue(s, more);
    OnePacket(packet);
  }

  // What the server writes.

  /** A packet as it is sent: its own length comes first, least significant byte first. */
  predicate Framed(p: bytes) { 4 <= |p| <= 409868 && p[..4] == HostWord32(|p|) }

  predicate AllFramed(ps: seq<bytes>) { forall i | 0 <= i < |ps| :: Framed(ps[i]) }

  lemma FramedIsRead(p: bytes, rest: bytes)
    requires Framed(p)
    ensures Fits(NumBytes(p + rest)) && NumBytes(p + rest) == |p|
  {
    assert (p + rest)[..4] == p[..4];
    WrittenIsRead(0, |p|);
  }

  /** The packets that were sent are the packets of the stream. */
  lemma {:induction false} FramedArrive(ps: seq<bytes>)
    requires AllFramed(ps)
    ensures Packets(Flatten(ps)) == ps && Remainder(Flatten(ps)) == [] && Sound(Flatten(ps))
  {
    if ps == [] {
      assert !Whole([]);
    } else {
      var p, rest := ps[0], Flatten(ps[1..]);
      FramedArrive(ps[1..]);
      FramedIsRead(p, rest);
      assert (p + rest)[..|p|] == p && (p + rest)[|p|..] == rest;
    }
  }

  /** Once a link has received all of them, its queue holds exactly those that have not been taken, in order, with
      zeros behind them. */
  lemma EverythingArrives(link: Link, ps: seq<bytes>)
    requires AllFramed(ps) && link.Valid() && link.stream == Flatten(ps)
    ensures link.taken <= |ps| && |link.recvQueue| == |ps| - link.taken
    ensures forall i | link.taken <= i < |ps| ::
      var q := link.recvQueue[i - link.taken];
      |q| == 409868 && q[..|ps[i]|] == ps[i] && forall k | |ps[i]| <= k < |q| :: q[k] == 0
  {
    FramedArrive(ps);
  }
}
