/** Commands to an XL3 and their answers: SendCommand, GetMultiFCResults and ReadOutBundles of
    src/xl3/XL3Model.cpp.  The queues stand for what arrives before a wait times out. */
module XL3Model {
  import opened Words
  import opened Wrappers
  import Receiver = XL3Link

  const NUMBERS: nat := 65536
  const MAX_TRIES: nat := 100

  datatype Packet = Packet(num: uint16, packetType: uint8, payload: seq<uint8>)

  datatype Outcome = Returned(packet: Packet) | TimedOut | TooMany | NumTooHigh | NotAwaited

  // SendCommand.

  /** The number of a received packet is above the expected one, and only because of the wrap. */
  predicate TooHigh(num: nat, expected: nat) { num > expected && (65536 - num) + expected < 5000 }

  predicate Answers(p: Packet, expected: nat, packetType: uint8) { p.packetType == packetType && p.num == expected }

  predicate Skipped(p: Packet, expected: nat, packetType: uint8) {
    !TooHigh(p.num, expected) && !Answers(p, expected, packetType)
  }

  predicate AllSkipped(q: seq<Packet>, n: nat, expected: nat, packetType: uint8) {
    n <= |q| && forall i | 0 <= i < n :: Skipped(q[i], expected, packetType)
  }

  /** Waiting on the queue q ends in r after n packets have been skipped. */
  predicate Ends(q: seq<Packet>, expected: nat, packetType: uint8, n: nat, r: Outcome) {
    && AllSkipped(q, n, expected, packetType)
    && match r
       case NotAwaited => false
       case TimedOut => n == |q| && n <= MAX_TRIES
       case TooMany => n == MAX_TRIES && n < |q|
       case NumTooHigh => n < MAX_TRIES && n < |q| && TooHigh(q[n].num, expected)
       case Returned(p) =>
         n < MAX_TRIES && n < |q| && !TooHigh(q[n].num, expected) && Answers(q[n], expected, packetType) && p == q[n]
  }

  /** The queue decides the outcome. */
  lemma OneEnd(q: seq<Packet>, expected: nat, packetType: uint8, n: nat, r: Outcome, n': nat, r': Outcome)
    requires Ends(q, expected, packetType, n, r) && Ends(q, expected, packetType, n', r')
    ensures n == n' && r == r'
  {
    assert n < n' ==> Skipped(q[n], expected, packetType);
    assert n' < n ==> Skipped(q[n'], expected, packetType);
  }

  /** Exactly when a command returns, gives up, or fails. */
  lemma WhenItReturns(q: seq<Packet>, expected: nat, packetType: uint8, n: nat, r: Outcome)
    requires Ends(q, expected, packetType, n, r)
    ensures r.Returned? <==> exists k :: 0 <= k < |q| && k < 100 && AllSkipped(q, k, expected, packetType)
                                         && !TooHigh(q[k].num, expected) && Answers(q[k], expected, packetType)
    ensures r.NumTooHigh? <==> exists k :: 0 <= k < |q| && k < 100 && AllSkipped(q, k, expected, packetType)
                                           && TooHigh(q[k].num, expected)
    ensures r.TooMany? <==> |q| > 100 && AllSkipped(q, 100, expected, packetType)
    ensures r.TimedOut? <==> |q| <= 100 && AllSkipped(q, |q|, expected, packetType)
  {
    forall k | 0 <= k < |q| && k < MAX_TRIES && AllSkipped(q, k, expected, packetType)
      && !Skipped(q[k], expected, packetType)
      ensures k == n
    {
      OneEnd(q, expected, packetType, n, r, k, if TooHigh(q[k].num, expected) then NumTooHigh else Returned(q[k]));
    }
    if |q| > MAX_TRIES && AllSkipped(q, MAX_TRIES, expected, packetType) {
      OneEnd(q, expected, packetType, n, r, MAX_TRIES, TooMany);
    }
    if |q| <= MAX_TRIES && AllSkipped(q, |q|, expected, packetType) {
      OneEnd(q, expected, packetType, n, r, |q|, TimedOut);
    }
  }

  /** The same, without the names of the conditions: it returns exactly when one of the first hundred packets has the
      type and the number that are awaited, and none before it has a higher number less than 5000 commands back. */
  lemma ReturnsExactly(q: seq<Packet>, expected: nat, packetType: uint8, n: nat, r: Outcome)
    requires Ends(q, expected, packetType, n, r)
    ensures r.Returned? <==>
      exists k ::
        0 <= k < |q| && k < 100 && q[k].packetType == packetType && q[k].num == expected
        && forall i | 0 <= i < k :: !(q[i].num > expected && 65536 - q[i].num + expected < 5000)
    ensures r.NumTooHigh? <==>
      exists k ::
        0 <= k < |q| && k < 100 && q[k].num > expected && 65536 - q[k].num + expected < 5000
        && forall i | 0 <= i < k :: !(q[i].packetType == packetType && q[i].num == expected)
    ensures r.Returned? ==> r.packet.packetType == packetType && r.packet.num == expected
  {
    forall k | 0 <= k < n ensures Skipped(q[k], expected, packetType) {}
  }

  // GetMultiFCResults.

  type Command = Receiver.Command

  datatype Multi = Done | AckTimedOut | WrongCommand

  /** The remainder of C, which has the sign of the dividend. */
  function CRemainder(a: int): int { if a >= 0 then a % NUMBERS else -((-a) % NUMBERS) }

  /** In numbers. */
  lemma CRemainderMeans(a: int)
    ensures -65536 < CRemainder(a) < 65536 && (a - CRemainder(a)) % 65536 == 0
    ensures (a >= 0 ==> CRemainder(a) >= 0) && (a <= 0 ==> CRemainder(a) <= 0)
  {}

  /** The acknowledgements of one packet. */
  function Filter(acks: seq<Command>, num: int): (f: seq<Command>)
    ensures |f| <= |acks| && forall i | 0 <= i < |f| :: f[i].packetNum == num
  {
    if acks == [] then []
    else
      var last := acks[|acks| - 1];
      Filter(acks[..|acks| - 1], num) + if last.packetNum == num then [last] else []
  }

  predicate InOrder(acks: seq<Command>, n: nat) { n <= |acks| && forall i | 0 <= i < n :: acks[i].cmdNum == i }

  function Data(acks: seq<Command>, n: nat): (words: seq<uint32>)
    requires n <= |acks|
    ensures |words| == n && forall i | 0 <= i < n :: words[i] == acks[i].data
  {
    if n == 0 then [] else Data(acks, n - 1) + [acks[n - 1].data]
  }

  /** Collecting numCmds results of packet num from the queue acks ends in r after n entries. */
  ghost predicate Collects(acks: seq<Command>, num: int, numCmds: nat, n: nat, r: Multi) {
    n <= |acks| &&
    var found := Filter(acks[..n], num);
    match r
    case Done => |found| == numCmds && InOrder(found, |found|) && (n > 0 ==> acks[n - 1].packetNum == num)
    case AckTimedOut => n == |acks| && |found| < numCmds && InOrder(found, |found|)
    case WrongCommand =>
      && n > 0 && acks[n - 1].packetNum == num && 0 < |found| <= numCmds
      && InOrder(found, |found| - 1) && found[|found| - 1].cmdNum != |found| - 1
  }

  lemma FilterOne(acks: seq<Command>, num: int, n: nat)
    requires n < |acks|
    ensures Filter(acks[..n + 1], num) == Filter(acks[..n], num) + if acks[n].packetNum == num then [acks[n]] else []
  {
    assert acks[..n + 1][..n] == acks[..n];
  }

  lemma {:induction false} FilterConcat(a: seq<Command>, b: seq<Command>, num: int)
    ensures Filter(a + b, num) == Filter(a, num) + Filter(b, num)
  {
    if b == [] {
      assert a + b == a;
    } else {
      var b' := b[..|b| - 1];
      assert (a + b)[..|a + b| - 1] == a + b';
      FilterConcat(a, b', num);
    }
  }

  lemma FilterPrefix(acks: seq<Command>, num: int, n: nat)
    requires n <= |acks|
    ensures Filter(acks, num) == Filter(acks[..n], num) + Filter(acks[n..], num)
  {
    FilterConcat(acks[..n], acks[n..], num);
    assert acks[..n] + acks[n..] == acks;
  }

  /** Collecting succeeds exactly when the first acknowledgements of the packet are numbered from zero; all
      others are dropped, wherever they are, because the flag started is never set. */
  lemma WhenCollected(acks: seq<Command>, num: int, numCmds: nat, n: nat, r: Multi)
    requires Collects(acks, num, numCmds, n, r)
    ensures r.Done? <==>
      numCmds <= |Filter(acks, num)| && forall i | 0 <= i < numCmds :: Filter(acks, num)[i].cmdNum == i
    ensures r.Done? ==> Filter(acks[..n], num) == Filter(acks, num)[..numCmds]
  {
    FilterPrefix(acks, num, n);
    var found := Filter(acks[..n], num);
    if r.AckTimedOut? { assert acks[..n] == acks; }
    if r.WrongCommand? { assert Filter(acks, num)[|found| - 1] == found[|found| - 1]; }
  }

  /** A buffer into which words have been written. */
  function Patched(buffer: seq<uint32>, at: nat, words: seq<uint32>): seq<uint32>
    requires at + |words| <= |buffer|
  {
    buffer[..at] + words + buffer[at + |words|..]
  }

  class Model {
    var commandNum: nat
    var recvQueue: seq<Packet>
    var recvCmdQueue: seq<Command>
    var sent: seq<Packet>

    constructor ()
      ensures commandNum == 0 && recvQueue == [] && recvCmdQueue == [] && sent == []
    {
      commandNum, recvQueue, recvCmdQueue, sent := 0, [], [], [];
    }

    /** SendCommand: how it ends is decided by the queue, unless no response is wanted. */
    method SendCommand(packet: Packet, withResponse: bool) returns (r: Outcome, ghost n: nat)
      requires commandNum < NUMBERS
      modifies this`commandNum, this`recvQueue, this`sent
      ensures withResponse ==> Ends(old(recvQueue), old(commandNum), packet.packetType, n, r)
      ensures withResponse ==> recvQueue == old(recvQueue)[if r.TimedOut? then n else n + 1..]
      ensures !withResponse ==> r == NotAwaited && recvQueue == old(recvQueue)
      ensures sent == old(sent) + [packet.(num := old(commandNum))]
      ensures commandNum == (old(commandNum) + 1) % 65536
    {
      var packetType, recvCommandNum := packet.packetType, commandNum;
      sent := sent + [packet.(num := commandNum)];
      commandNum := commandNum + 1;
      commandNum := commandNum % NUMBERS;
      n := 0;
      if !withResponse {
        return NotAwaited, n;
      }
      ghost var q := recvQueue;
      ghost var now := (commandNum, sent);
      var numPackets := 0;
      r := TimedOut;
      while true
        invariant 0 <= n == numPackets <= MAX_TRIES && AllSkipped(q, n, recvCommandNum, packetType)
        invariant recvQueue == q[n..] && (commandNum, sent) == now
        decreases |recvQueue|
      {
        if recvQueue == [] {
          r := TimedOut;
          break;
        }
        var received := recvQueue[0];
        recvQueue := recvQueue[1..];
        numPackets := numPackets + 1;
        if numPackets > MAX_TRIES {
          r := TooMany;
          break;
        }
        if received.num > recvCommandNum && (65536 - received.num) + recvCommandNum < 5000 {
          r := NumTooHigh;
          break;
        }
        if received.packetType == packetType && received.num == recvCommandNum {
          r := Returned(received);
          break;
        }
        n := n + 1;
      }
    }

    /** A result goes to its place in the buffer. */
    method Place(result: array<uint32>, at: nat, data: uint32)
      requires at < result.Length
      modifies result
      ensures result[..] == old(result[..])[at := data]
    {
      result[at] := data;
    }

    /** GetMultiFCResults. */
    method GetMultiFCResults(numCmds: nat, packetNum: int, result: array<uint32>, at: nat)
      returns (r: Multi, ghost n: nat)
      requires at + numCmds <= result.Length
      modifies this`recvCmdQueue, result
      ensures Collects(old(recvCmdQueue), CRemainder(packetNum), numCmds, n, r)
      ensures recvCmdQueue == old(recvCmdQueue)[n..]
      ensures r.Done? ==>
        result[..] == Patched(old(result[..]), at, Data(Filter(old(recvCmdQueue)[..n], CRemainder(packetNum)), numCmds))
    {
      var num := CRemainder(packetNum);
      ghost var acks, was := recvCmdQueue, result[..];
      var cmdNum := 0;
      n := 0;
      r := Done;
      assert acks[..0] == [];
      while numCmds > cmdNum && r.Done?
        invariant n <= |acks| && recvCmdQueue == acks[n..] && cmdNum <= numCmds
        invariant r.Done? ==>
          Collecting(acks, num, n, cmdNum) && (cmdNum == numCmds && n > 0 ==> acks[n - 1].packetNum == num)
        invariant r.Done? ==> Filled(was, result[..], at, Filter(acks[..n], num), cmdNum)
        invariant !r.Done? ==> Collects(acks, num, numCmds, n, r)
        decreases r.Done?, |acks| - n
      {
        if recvCmdQueue == [] {
          r := AckTimedOut;
        } else {
          var command := recvCmdQueue[0];
          recvCmdQueue := recvCmdQueue[1..];
          r := CollectOne(acks, num, numCmds, n, cmdNum, command, result, at, was);
          if r.Done? && command.packetNum == num {
            cmdNum := cmdNum + 1;
          }
          n := n + 1;
        }
      }
      if r.Done? { FilledAll(was, result[..], at, Filter(acks[..n], num), numCmds); }
    }

    /** One acknowledgement: of another packet, with a wrong number, or the next result. */
    method CollectOne(ghost acks: seq<Command>, num: int, ghost numCmds: nat, ghost n: nat, cmdNum: nat,
                      command: Command,
                      result: array<uint32>, at: nat, ghost was: seq<uint32>) returns (r: Multi)
      requires n < |acks| && acks[n] == command && cmdNum < numCmds && at + numCmds <= result.Length
      requires Collecting(acks, num, n, cmdNum) && Filled(was, result[..], at, Filter(acks[..n], num), cmdNum)
      modifies result
      ensures r.Done? || r.WrongCommand?
      ensures r.Done? ==> var k := if command.packetNum == num then cmdNum + 1 else cmdNum;
        Collecting(acks, num, n + 1, k) && Filled(was, result[..], at, Filter(acks[..n + 1], num), k)
      ensures r.WrongCommand? ==> Collects(acks, num, numCmds, n + 1, r)
    {
      FilterOne(acks, num, n);
      if command.packetNum != num {
        return Done;
      }
      if command.cmdNum != cmdNum {
        return WrongCommand;
      }
      ghost var before := result[..];
      Place(result, at + cmdNum, command.data);
      FilledOne(was, before, at, Filter(acks[..n], num), cmdNum, command);
      r := Done;
    }

    // ReadOutBundles.

    /** A READ_PEDESTALS request and its response; the acknowledgements come in behind those there are. */
    method RequestReads(response: Response) returns (readsQueued: nat)
      requires commandNum < NUMBERS
      modifies this`commandNum, this`recvCmdQueue
      ensures readsQueued == response.readsQueued && commandNum == (old(commandNum) + 1) % NUMBERS
      ensures recvCmdQueue == old(recvCmdQueue) + response.acks
    {
      commandNum := (commandNum + 1) % NUMBERS;
      recvCmdQueue := recvCmdQueue + response.acks;
      readsQueued := response.readsQueued;
    }

    /** The results of the reads of request num, looked up under fCommandNum - 1. */
    method CollectReads(thisRead: nat, pmtBuffer: array<uint32>, at: nat, ghost num: nat, ghost q: seq<Command>,
                        ghost response: Response, ghost words: seq<uint32>)
      returns (ok: bool, ghost n: nat)
      requires at + thisRead <= pmtBuffer.Length && num < NUMBERS && commandNum == (num + 1) % NUMBERS
      requires recvCmdQueue == q + response.acks && Filter(q, num) == [] && Serves(response, num, words)
      requires 0 < thisRead == response.readsQueued
      modifies this`recvCmdQueue, pmtBuffer
      ensures ok <==> num != 65535
      ensures ok ==> pmtBuffer[..] == Patched(old(pmtBuffer[..]), at, words[..thisRead])
      ensures ok ==> Filter(recvCmdQueue, num) == []
      ensures n <= |q + response.acks| && recvCmdQueue == (q + response.acks)[n..]
    {
      ghost var all := recvCmdQueue;
      var r;
      r, n := GetMultiFCResults(thisRead, commandNum - 1, pmtBuffer, at);
      LookedUp(num);
      if num == 65535 {
        NeverCollected(all, thisRead, n, r);
      } else {
        Collected(all, q, response, num, words, n, r);
      }
      ok := r.Done?;
    }

    /** One turn of the loop: a request, and the collection of what it queued. */
    method ReadSome(pmtBuffer: array<uint32>, at: nat, response: Response, ghost rest: seq<Response>,
                    ghost words: seq<uint32>)
      returns (ok: bool, thisRead: nat)
      requires commandNum < NUMBERS && words != [] && at + |words| <= pmtBuffer.Length
      requires Faithful([response] + rest, commandNum, words) && Clean(recvCmdQueue, [response] + rest, commandNum)
      modifies this`commandNum, this`recvCmdQueue, pmtBuffer
      ensures commandNum == (old(commandNum) + 1) % NUMBERS && thisRead == response.readsQueued <= |words|
      ensures ok <==> thisRead == 0 || old(commandNum) != 65535
      ensures ok ==> pmtBuffer[..] == Patched(old(pmtBuffer[..]), at, words[..thisRead])
      ensures ok ==> Faithful(rest, commandNum, words[thisRead..]) && Clean(recvCmdQueue, rest, commandNum)
    {
      ghost var num, q, before := commandNum, recvCmdQueue, pmtBuffer[..];
      FirstServes(response, rest, num, words);
      CleanNow(q, response, rest, num);
      thisRead := RequestReads(response);
      ok := true;
      ghost var n := 0;
      if thisRead > 0 {
        ok, n := CollectReads(thisRead, pmtBuffer, at, num, q, response, words);
      } else {
        NothingFound(q, response, num, words);
        NothingPatched(before, at, words);
      }
      if ok { StillClean(q, response, rest, num, n); }
    }

    /** The body of the loop. */
    method ReadTurn(pmtBuffer: array<uint32>, diff: nat, readsLeft: nat, responses: seq<Response>, i: nat,
                    ghost start: nat, ghost words: seq<uint32>, ghost was: seq<uint32>)
      returns (ok: bool, left: nat)
      requires commandNum < NUMBERS && 0 < readsLeft <= diff == |words|
      requires GoesWell(true, responses, start, words, was, i, diff - readsLeft, commandNum, recvCmdQueue,
                        pmtBuffer[..])
      modifies this`commandNum, this`recvCmdQueue, pmtBuffer
      ensures commandNum < NUMBERS && i < |responses| && left <= diff
      ensures GoesWell(ok, responses, start, words, was, i + 1, diff - left, commandNum, recvCmdQueue, pmtBuffer[..])
    {
      var thisRead;
      ok, thisRead := ReadAt(pmtBuffer, diff - readsLeft, responses, i, start, words, was);
      left := readsLeft - thisRead;
      assert diff - left == diff - readsLeft + thisRead;
    }

    method ReadAt(pmtBuffer: array<uint32>, at: nat, responses: seq<Response>, i: nat, ghost start: nat,
                  ghost words: seq<uint32>, ghost was: seq<uint32>)
      returns (ok: bool, thisRead: nat)
      requires commandNum < NUMBERS && at < |words|
      requires GoesWell(true, responses, start, words, was, i, at, commandNum, recvCmdQueue, pmtBuffer[..])
      modifies this`commandNum, this`recvCmdQueue, pmtBuffer
      ensures commandNum < NUMBERS && i < |responses| && at + thisRead <= |words|
      ensures GoesWell(ok, responses, start, words, was, i + 1, at + thisRead, commandNum, recvCmdQueue, pmtBuffer[..])
    {
      ghost var left, rest, num := words[at..], responses[i + 1..], commandNum;
      NextResponse(responses, start, words, was, i, at, num, recvCmdQueue, pmtBuffer[..]);
      ok, thisRead := ReadSome(pmtBuffer, at, responses[i], rest, left);
      if ok {
        Advance(responses, start, words, was, i, at, num, thisRead, commandNum, recvCmdQueue, pmtBuffer[..]);
      }
    }

    /** The loop: the buffer ends up with the first words of the FIFO, in order, each once, however the XL3 splits
        the requests and whatever stale acknowledgements come between. */
    method ReadWords(pmtBuffer: array<uint32>, diff: nat, responses: seq<Response>, ghost words: seq<uint32>)
      returns (ok: bool)
      requires commandNum < NUMBERS && diff == |words| <= pmtBuffer.Length
      requires Faithful(responses, commandNum, words) && Clean(recvCmdQueue, responses, commandNum)
      modifies this`commandNum, this`recvCmdQueue, pmtBuffer
      ensures commandNum < NUMBERS
      ensures ok <==> !Unlucky(responses, old(commandNum), words)
      ensures ok ==> pmtBuffer[..] == Patched(old(pmtBuffer[..]), 0, words)
    {
      ghost var start, was := commandNum, pmtBuffer[..];
      NothingRead(responses, start, words, was, recvCmdQueue);
      ghost var i;
      ok, i := ReadLoop(pmtBuffer, diff, responses, start, words, was);
      if ok { AllRead(responses, start, words, was, i, commandNum, recvCmdQueue, pmtBuffer[..]); }
    }

    method ReadLoop(pmtBuffer: array<uint32>, diff: nat, responses: seq<Response>, ghost start: nat,
                    ghost words: seq<uint32>, ghost was: seq<uint32>)
      returns (ok: bool, ghost i: nat)
      requires commandNum < NUMBERS && diff == |words|
      requires GoesWell(true, responses, start, words, was, 0, 0, commandNum, recvCmdQueue, pmtBuffer[..])
      modifies this`commandNum, this`recvCmdQueue, pmtBuffer
      ensures commandNum < NUMBERS
      ensures ok ==> InProgress(responses, start, words, was, i, diff, commandNum, recvCmdQueue, pmtBuffer[..])
      ensures !ok ==> Unlucky(responses, start, words)
    {
      var readsLeft, requests := diff, 0;
      ok := true;
      while readsLeft != 0 && ok
        invariant 0 <= readsLeft <= diff && 0 <= requests <= |responses| && commandNum < NUMBERS
        invariant GoesWell(ok, responses, start, words, was, requests, diff - readsLeft, commandNum, recvCmdQueue,
                           pmtBuffer[..])
        decreases ok, |responses| - requests
      {
        ok, readsLeft := ReadTurn(pmtBuffer, diff, readsLeft, responses, requests, start, words, was);
        requests := requests + 1;
      }
      i := requests;
    }

    /** A command of which only counts whether it returns. */
    method Simple(returned: bool) returns (ok: bool)
      requires commandNum < NUMBERS
      modifies this`commandNum
      ensures ok == returned && commandNum == Next(old(commandNum))
    {
      commandNum := (commandNum + 1) % NUMBERS;
      ok := returned;
    }

    /** ReadOutBundles: the register with the FIFO's pointer is read, if that command returns, then the words, and
        last the FECs are deselected. */
    method ReadOutBundles(pointer: Option<uint32>, pmtBuffer: array<uint32>, limit: nat, checkLimit: bool,
                          responses: seq<Response>, deselected: bool, ghost fifo: seq<uint32>)
      returns (count: Option<nat>)
      requires commandNum < NUMBERS
      requires pointer.Some? ==>
        Ready(pointer.value, limit, checkLimit, responses, Next(commandNum), recvCmdQueue, fifo)
        && Level(pointer.value, limit, checkLimit) <= pmtBuffer.Length
      modifies this`commandNum, this`recvCmdQueue, pmtBuffer
      ensures count.Some?
              <==> pointer.Some? && deselected
                   && !Unlucky(responses, Next(old(commandNum)), fifo[..Level(pointer.value, limit, checkLimit)])
      ensures count.Some? ==> 3 * count.value == Level(pointer.value, limit, checkLimit) <= |fifo|
      ensures count.Some? ==> pmtBuffer[..3 * count.value] == fifo[..3 * count.value]
      ensures count.Some? ==> pmtBuffer[3 * count.value..] == old(pmtBuffer[3 * count.value..])
    {
      var ok := Simple(pointer.Some?);
      if !ok {
        return None;
      }
      var diff := Level(pointer.value, limit, checkLimit);
      ok := ReadWords(pmtBuffer, diff, responses, fifo[..diff]);
      if !ok {
        return None;
      }
      ok := Simple(deselected);
      count := if ok then Some(diff / 3) else None;
    }
  }

  /** The FIFO holds what is to be read, and the XL3 serves the requests for it. */
  ghost predicate Ready(pointer: uint32, limit: nat, checkLimit: bool, responses: seq<Response>, num: nat,
                        queue: seq<Command>, fifo: seq<uint32>) {
    var diff := Level(pointer, limit, checkLimit);
    diff <= |fifo| && Faithful(responses, num, fifo[..diff]) && Clean(queue, responses, num)
  }

  /** The words to read: whole bundles, as many as there are, or as expected when that is checked. */
  function Level(pointer: uint32, limit: nat, checkLimit: bool): (diff: nat)
    ensures diff % 3 == 0 && diff <= pointer % 0x10_0000
    ensures
      if checkLimit && 3 * limit < pointer % 0x10_0000 - 2 then diff == 3 * limit
      else pointer % 0x10_0000 - diff < 3
  {
    var diff := pointer % 0x10_0000;
    var whole := diff - diff % 3;
    if checkLimit && 3 * limit < whole then 3 * limit else whole
  }

  // The loop of GetMultiFCResults.

  ghost predicate Collecting(acks: seq<Command>, num: int, n: nat, k: nat) {
    n <= |acks| && var found := Filter(acks[..n], num); |found| == k && InOrder(found, k)
  }

  /** The first k results are in the buffer, from at on, and nothing else has changed. */
  ghost predicate Filled(was: seq<uint32>, now: seq<uint32>, at: nat, found: seq<Command>, k: nat) {
    && |now| == |was| && at + k <= |was| && k == |found|
    && forall i {:trigger now[i]} | 0 <= i < |now| :: now[i] == if at <= i < at + k then found[i - at].data else was[i]
  }

  lemma FilledOne(was: seq<uint32>, now: seq<uint32>, at: nat, found: seq<Command>, k: nat, command: Command)
    requires Filled(was, now, at, found, k) && at + k < |was|
    ensures Filled(was, now[at + k := command.data], at, found + [command], k + 1)
  {}

  lemma FilledAll(was: seq<uint32>, now: seq<uint32>, at: nat, found: seq<Command>, k: nat)
    requires Filled(was, now, at, found, k)
    ensures now == Patched(was, at, Data(found, k))
  {}

  // What the XL3 does with read requests.

  /** How many reads were queued for a request, and the acknowledgements that arrive before the next one. */
  datatype Response = Response(readsQueued: nat, acks: seq<Command>)

  const MAX_FEC_COMMANDS: nat := 60000

  /** How many words are asked for at a time. */
  function ThisRead(readsLeft: nat): (n: nat)
    ensures n <= readsLeft && n <= 59000 && (n == readsLeft || n == 59000)
  {
    if readsLeft > MAX_FEC_COMMANDS - 1000 then MAX_FEC_COMMANDS - 1000 else readsLeft
  }

  /** The acknowledgements of request num are numbered from zero and hold the next words. */
  ghost predicate Serves(response: Response, num: nat, words: seq<uint32>) {
    var found := Filter(response.acks, num);
    response.readsQueued == |found| <= |words| && InOrder(found, |found|) && Data(found, |found|) == words[..|found|]
  }

  function Next(num: nat): nat { (num + 1) % NUMBERS }

  function Num(start: nat, i: nat): nat { (start + i) % NUMBERS }

  /** The XL3 serves every request with at most what was asked for, until the words are all there. */
  ghost predicate Faithful(responses: seq<Response>, num: nat, words: seq<uint32>)
    decreases |responses|
  {
    words != [] ==>
      && responses != []
      && responses[0].readsQueued <= ThisRead(|words|) && Serves(responses[0], num, words)
      && Faithful(responses[1..], Next(num), words[responses[0].readsQueued..])
  }

  /** No acknowledgement of a later request is there before that request. */
  ghost predicate Clean(queue: seq<Command>, responses: seq<Response>, num: nat) {
    && (forall j {:trigger Num(num, j)} | 0 <= j < |responses| :: Filter(queue, Num(num, j)) == [])
    && (forall i, j {:trigger Num(num, j), responses[i]} | 0 <= i < j < |responses| && Num(num, i) != Num(num, j) ::
          Filter(responses[i].acks, Num(num, j)) == [])
  }

  /** Some request that queues reads has the number 65535. */
  ghost predicate Unlucky(responses: seq<Response>, num: nat, words: seq<uint32>)
    decreases |responses|
  {
    && words != [] && responses != [] && responses[0].readsQueued <= |words|
    && ((num == 65535 && responses[0].readsQueued > 0)
        || Unlucky(responses[1..], Next(num), words[responses[0].readsQueued..]))
  }

  /** Three words, served by one request of number 65535: they are not read. */
  lemma WrapIsUnlucky(words: seq<uint32>) returns (responses: seq<Response>)
    requires |words| == 3
    ensures Faithful(responses, 65535, words) && Clean([], responses, 65535) && Unlucky(responses, 65535, words)
  {
    var acks := seq(3, i requires 0 <= i < 3 => Receiver.Command(i, 65535, [], [], words[i]));
    AllMatch(acks, 65535);
    assert Data(acks, 3) == words == words[..3];
    responses := [Response(3, acks)];
    assert Serves(responses[0], 65535, words) && words[3..] == [];
  }

  lemma {:induction false} AllMatch(acks: seq<Command>, num: nat)
    requires forall i | 0 <= i < |acks| :: acks[i].packetNum == num
    ensures Filter(acks, num) == acks
  {
    if acks != [] {
      AllMatch(acks[..|acks| - 1], num);
      assert acks[..|acks| - 1] + [acks[|acks| - 1]] == acks;
    }
  }

  /** A caller can rule that out: with so few requests the numbers do not reach the wrap. */
  lemma {:induction false} LuckyStart(responses: seq<Response>, num: nat, words: seq<uint32>)
    requires num + |responses| <= 65535
    ensures !Unlucky(responses, num, words)
    decreases |responses|
  {
    if words != [] && responses != [] && responses[0].readsQueued <= |words| {
      LuckyStart(responses[1..], num + 1, words[responses[0].readsQueued..]);
    }
  }

  lemma UnluckyStep(response: Response, rest: seq<Response>, num: nat, words: seq<uint32>)
    requires words != [] && response.readsQueued <= |words|
    ensures Unlucky([response] + rest, num, words)
            <==> (num == 65535 && response.readsQueued > 0) || Unlucky(rest, Next(num), words[response.readsQueued..])
  {
    assert ([response] + rest)[1..] == rest;
  }

  lemma FirstServes(response: Response, rest: seq<Response>, num: nat, words: seq<uint32>)
    requires Faithful([response] + rest, num, words) && words != []
    ensures response.readsQueued <= |words| && Serves(response, num, words)
    ensures Faithful(rest, Next(num), words[response.readsQueued..])
  {
    assert ([response] + rest)[1..] == rest;
  }

  lemma CleanNow(q: seq<Command>, response: Response, rest: seq<Response>, num: nat)
    requires Clean(q, [response] + rest, num) && num < NUMBERS
    ensures Filter(q, num) == []
  {
    assert Num(num, 0) == num;
  }

  lemma {:induction false} NobodyIsNegative(acks: seq<Command>, num: int)
    requires num < 0
    ensures Filter(acks, num) == []
  {
    if acks != [] { NobodyIsNegative(acks[..|acks| - 1], num); }
  }

  lemma NothingPatched(buffer: seq<uint32>, at: nat, words: seq<uint32>)
    requires at <= |buffer|
    ensures Patched(buffer, at, words[..0]) == buffer
  {}

  lemma NothingFound(q: seq<Command>, response: Response, num: nat, words: seq<uint32>)
    requires Filter(q, num) == [] && Serves(response, num, words) && response.readsQueued == 0
    ensures Filter(q + response.acks, num) == [] && (q + response.acks)[0..] == q + response.acks
  {
    FilterConcat(q, response.acks, num);
  }

  /** What is collected are the words, and no acknowledgement of the request is left. */
  lemma Served(all: seq<Command>, q: seq<Command>, response: Response, num: nat, words: seq<uint32>, n: nat)
    requires all == q + response.acks && Filter(q, num) == [] && Serves(response, num, words) && n <= |all|
    ensures Filter(all, num) == Filter(response.acks, num) && InOrder(Filter(all, num), response.readsQueued)
    ensures Filter(all[..n], num) == Filter(all, num)[..response.readsQueued] ==>
      Filter(all[n..], num) == [] && Data(Filter(all[..n], num), response.readsQueued) == words[..response.readsQueued]
  {
    FilterConcat(q, response.acks, num);
    FilterPrefix(all, num, n);
  }

  lemma LookedUp(num: nat)
    requires num < NUMBERS
    ensures CRemainder(Next(num) - 1) == if num == 65535 then -1 else num
  {}

  lemma NeverCollected(all: seq<Command>, k: nat, n: nat, r: Multi)
    requires Collects(all, -1, k, n, r) && k > 0
    ensures !r.Done?
  {
    NobodyIsNegative(all[..n], -1);
  }

  lemma Collected(all: seq<Command>, q: seq<Command>, response: Response, num: nat, words: seq<uint32>, n: nat,
                  r: Multi)
    requires all == q + response.acks && Filter(q, num) == [] && Serves(response, num, words)
    requires Collects(all, num, response.readsQueued, n, r)
    ensures r.Done? && Filter(all[n..], num) == []
    ensures |Filter(all[..n], num)| == response.readsQueued
    ensures Data(Filter(all[..n], num), response.readsQueued) == words[..response.readsQueued]
  {
    WhenCollected(all, num, response.readsQueued, n, r);
    Served(all, q, response, num, words, n);
  }

  lemma NextNum(num: nat, j: nat)
    requires num < NUMBERS
    ensures Num(Next(num), j) == Num(num, j + 1)
  {}

  /** What is left of the queue is clean for the requests to come. */
  lemma StillClean(q: seq<Command>, response: Response, rest: seq<Response>, num: nat, n: nat)
    requires num < NUMBERS && Clean(q, [response] + rest, num)
    requires n <= |q + response.acks| && Filter((q + response.acks)[n..], num) == []
    ensures Clean((q + response.acks)[n..], rest, Next(num))
  {
    forall j | 0 <= j < |rest| ensures Filter((q + response.acks)[n..], Num(Next(num), j)) == [] {
      NextNum(num, j);
      LeftClean(q, response, rest, num, n, j + 1);
    }
    RestIsClean(q, response, rest, num);
  }

  lemma LeftClean(q: seq<Command>, response: Response, rest: seq<Response>, num: nat, n: nat, j: nat)
    requires num < NUMBERS && Clean(q, [response] + rest, num) && 0 < j <= |rest|
    requires n <= |q + response.acks| && Filter((q + response.acks)[n..], num) == []
    ensures Filter((q + response.acks)[n..], Num(num, j)) == []
  {
    var rs, k := [response] + rest, Num(num, j);
    assert Num(num, 0) == num;
    if k != num {
      assert Filter(q, k) == [];
      assert Filter(rs[0].acks, k) == [];
      FilterConcat(q, response.acks, k);
      FilterPrefix(q + response.acks, k, n);
    }
  }

  lemma RestIsClean(q: seq<Command>, response: Response, rest: seq<Response>, num: nat)
    requires num < NUMBERS && Clean(q, [response] + rest, num)
    ensures forall i, j {:trigger Num(Next(num), j), rest[i]} | 0 <= i < j < |rest|
      && Num(Next(num), i) != Num(Next(num), j) ::
      Filter(rest[i].acks, Num(Next(num), j)) == []
  {
    var rs := [response] + rest;
    forall i, j | 0 <= i < j < |rest| && Num(Next(num), i) != Num(Next(num), j)
      ensures Filter(rest[i].acks, Num(Next(num), j)) == []
    {
      NextNum(num, i);
      NextNum(num, j);
      assert rs[i + 1] == rest[i] && Num(num, i + 1) != Num(num, j + 1);
    }
  }

  // The loop of ReadOutBundles.

  /** The loop goes on as it should, or a request has failed. */
  ghost predicate GoesWell(ok: bool, responses: seq<Response>, start: nat, words: seq<uint32>, was: seq<uint32>, i: nat,
                           at: nat, num: nat, queue: seq<Command>, now: seq<uint32>) {
    if ok then InProgress(responses, start, words, was, i, at, num, queue, now) else Unlucky(responses, start, words)
  }

  /** After i requests the buffer holds the first words, and the remaining responses have to do with the rest. */
  ghost predicate InProgress(responses: seq<Response>, start: nat, words: seq<uint32>, was: seq<uint32>, i: nat,
                             at: nat,
                             num: nat, queue: seq<Command>, buffer: seq<uint32>) {
    && i <= |responses| && at <= |words| <= |was|
    && Faithful(responses[i..], num, words[at..]) && Clean(queue, responses[i..], num)
    && (Unlucky(responses[i..], num, words[at..]) <==> Unlucky(responses, start, words))
    && buffer == words[..at] + was[at..]
  }

  lemma NothingRead(responses: seq<Response>, start: nat, words: seq<uint32>, was: seq<uint32>, queue: seq<Command>)
    requires Faithful(responses, start, words) && Clean(queue, responses, start) && |words| <= |was|
    ensures InProgress(responses, start, words, was, 0, 0, start, queue, was)
  {
    assert responses[0..] == responses && words[0..] == words && was == words[..0] + was[0..];
  }

  lemma NextResponse(responses: seq<Response>, start: nat, words: seq<uint32>, was: seq<uint32>, i: nat, at: nat,
                     num: nat, queue: seq<Command>, buffer: seq<uint32>)
    requires InProgress(responses, start, words, was, i, at, num, queue, buffer) && at < |words|
    ensures i < |responses| && [responses[i]] + responses[i + 1..] == responses[i..]
    ensures responses[i].readsQueued <= |words[at..]|
    ensures Unlucky(responses, start, words)
            <==> (num == 65535 && responses[i].readsQueued > 0)
                 || Unlucky(responses[i + 1..], Next(num), words[at..][responses[i].readsQueued..])
  {
    assert words[at..] != [];
    assert responses[i..] != [];
    assert [responses[i]] + responses[i + 1..] == responses[i..];
    FirstServes(responses[i], responses[i + 1..], num, words[at..]);
    UnluckyStep(responses[i], responses[i + 1..], num, words[at..]);
  }

  lemma Advance(responses: seq<Response>, start: nat, words: seq<uint32>, was: seq<uint32>, i: nat, at: nat,
                num: nat, k: nat, num': nat, queue: seq<Command>, buffer: seq<uint32>)
    requires i < |responses| && at + k <= |words| <= |was| && k == responses[i].readsQueued && num' == Next(num)
    requires Faithful(responses[i + 1..], num', words[at..][k..]) && Clean(queue, responses[i + 1..], num')
    requires k == 0 || num != 65535
    requires Unlucky(responses, start, words)
             <==> (num == 65535 && k > 0) || Unlucky(responses[i + 1..], num', words[at..][k..])
    requires buffer == Patched(words[..at] + was[at..], at, words[at..][..k])
    ensures InProgress(responses, start, words, was, i + 1, at + k, num', queue, buffer)
  {
    Grown(words, was, at, k);
    assert words[at..][k..] == words[at + k..];
  }

  lemma AllRead(responses: seq<Response>, start: nat, words: seq<uint32>, was: seq<uint32>, i: nat,
                num: nat, queue: seq<Command>, buffer: seq<uint32>)
    requires InProgress(responses, start, words, was, i, |words|, num, queue, buffer)
    ensures !Unlucky(responses, start, words) && buffer == Patched(was, 0, words)
  {
    assert words[|words|..] == [] && words[..|words|] == words;
    assert was[..0] + words == words;
  }

  /** The buffer after one more part. */
  lemma Grown(words: seq<uint32>, was: seq<uint32>, at: nat, k: nat)
    requires at + k <= |words| <= |was|
    ensures Patched(words[..at] + was[at..], at, words[at..][..k]) == words[..at + k] + was[at + k..]
  {}
}
