/** Runs of host, queue and XL3: what SendCommand may return (src/xl3/XL3Model.cpp).

    Commands are told apart by their place in the history, which neither side knows; the packets carry only
    the number modulo 65536. */
module XL3Protocol {
  import opened Words
  import opened Wrappers
  import opened XL3Model

  /** An answer, and the command it answers. */
  datatype Answer = Answer(origin: nat, packet: Packet)

  /** What a SendCommand returned: the answer to command origin, for command request. */
  datatype Return = Return(request: nat, origin: nat)

  /** The packet types of the commands so far; the command that is waiting for its answer; the commands the XL3 has
      not yet answered; the answers the host has not yet taken; and what has been returned. */
  datatype System = System(issued: seq<uint8>, waiting: Option<nat>, pending: seq<nat>, queue: seq<Answer>,
                           results: seq<Return>)

  const START := System([], None, [], [], [])

  function NumberOf(k: nat): uint16 { k % NUMBERS }

  // The steps.

  ghost predicate HostSends(s: System, s': System) {
    && s.waiting == None
    && exists t: uint8 ::
      s' == s.(issued := s.issued + [t], waiting := Some(|s.issued|), pending := s.pending + [|s.issued|])
  }

  /** The XL3 answers each command with its own type and number. */
  ghost predicate TrueAnswer(s: System, a: Answer) {
    a.origin < |s.issued| && a.packet.num == NumberOf(a.origin) && a.packet.packetType == s.issued[a.origin]
  }

  ghost predicate XL3Answers(s: System, s': System) {
    && s.pending != []
    && exists a: Answer ::
         a.origin == s.pending[0] && TrueAnswer(s, a) && s' == s.(pending := s.pending[1..], queue := s.queue + [a])
  }

  ghost predicate CommandLost(s: System, s': System) { s.pending != [] && s' == s.(pending := s.pending[1..]) }

  /** One turn of SendCommand's loop. */
  ghost predicate HostReceives(s: System, s': System) {
    && s.waiting.Some? && s.waiting.value < |s.issued| && s.queue != []
    && var k, a := s.waiting.value, s.queue[0];
       if TooHigh(a.packet.num, NumberOf(k)) then s' == s.(waiting := None, queue := s.queue[1..])
       else if Answers(a.packet, NumberOf(k), s.issued[k]) then
         s' == s.(waiting := None, queue := s.queue[1..], results := s.results + [Return(k, a.origin)])
       else s' == s.(queue := s.queue[1..])
  }

  /** The wait times out, or the host has had enough of wrong packets and takes no look at another. */
  ghost predicate HostGivesUp(s: System, s': System) {
    && s.waiting.Some?
    && (s' == s.(waiting := None) || (s.queue != [] && s' == s.(waiting := None, queue := s.queue[1..])))
  }

  ghost predicate QueueEmptied(s: System, s': System) { s' == s.(queue := []) }

  ghost predicate Next(s: System, s': System) {
    HostSends(s, s') || XL3Answers(s, s') || CommandLost(s, s') || HostReceives(s, s') || HostGivesUp(s, s')
    || QueueEmptied(s, s')
  }

  ghost predicate Run(run: seq<System>) {
    run != [] && run[0] == START && forall i | 0 <= i < |run| - 1 :: Next(run[i], run[i + 1])
  }

  // What holds in every run.

  /** The commands of the answers returned, of those in the queue, and of those to come. */
  function Origins(s: System): seq<nat> {
    seq(|s.results|, i requires 0 <= i < |s.results| => s.results[i].origin)
    + seq(|s.queue|, i requires 0 <= i < |s.queue| => s.queue[i].origin)
    + s.pending
  }

  predicate Increasing(os: seq<nat>) { forall i, j | 0 <= i < j < |os| :: os[i] < os[j] }

  /** A return is for a request with the type of the answer and its number, and not before the command. */
  ghost predicate TrueReturn(s: System, r: Return) {
    r.origin <= r.request < |s.issued| && s.issued[r.origin] == s.issued[r.request]
      && NumberOf(r.origin) == NumberOf(r.request)
  }

  ghost predicate Inv(s: System) {
    && Increasing(Origins(s)) && (forall i | 0 <= i < |Origins(s)| :: Origins(s)[i] < |s.issued|)
    && (s.waiting.Some? ==> s.waiting.value + 1 == |s.issued|)
    && (forall i {:trigger s.queue[i]} | 0 <= i < |s.queue| :: TrueAnswer(s, s.queue[i]))
    && (forall i {:trigger s.results[i]} | 0 <= i < |s.results| :: TrueReturn(s, s.results[i]))
  }

  lemma DropSome(os: seq<nat>, from: nat, to: nat, bound: nat)
    requires from <= to <= |os| && Increasing(os) && forall i | 0 <= i < |os| :: os[i] < bound
    ensures var rest := os[..from] + os[to..]; Increasing(rest) && forall i | 0 <= i < |rest| :: rest[i] < bound
  {}

  lemma SendKeepsInv(s: System, s': System)
    requires Inv(s) && HostSends(s, s')
    ensures Inv(s')
  {
    assert Origins(s') == Origins(s) + [|s.issued|];
    forall i | 0 <= i < |s'.queue| ensures TrueAnswer(s', s'.queue[i]) { assert TrueAnswer(s, s.queue[i]); }
    forall i | 0 <= i < |s'.results| ensures TrueReturn(s', s'.results[i]) { assert TrueReturn(s, s.results[i]); }
  }

  lemma AnswerKeepsInv(s: System, s': System)
    requires Inv(s) && XL3Answers(s, s')
    ensures Inv(s')
  {
    assert Origins(s') == Origins(s);
    forall i | 0 <= i < |s'.queue| ensures TrueAnswer(s', s'.queue[i]) {
      if i < |s.queue| { assert TrueAnswer(s, s.queue[i]); }
    }
    forall i | 0 <= i < |s'.results| ensures TrueReturn(s', s'.results[i]) { assert TrueReturn(s, s.results[i]); }
  }

  lemma LossKeepsInv(s: System, s': System)
    requires Inv(s) && CommandLost(s, s')
    ensures Inv(s')
  {
    var at := |s.results| + |s.queue|;
    DropSome(Origins(s), at, at + 1, |s.issued|);
    assert Origins(s') == Origins(s)[..at] + Origins(s)[at + 1..];
    forall i | 0 <= i < |s'.queue| ensures TrueAnswer(s', s'.queue[i]) { assert TrueAnswer(s, s.queue[i]); }
    forall i | 0 <= i < |s'.results| ensures TrueReturn(s', s'.results[i]) { assert TrueReturn(s, s.results[i]); }
  }

  /** Answers may be dropped from the front of the queue. */
  lemma DroppingKeepsInv(s: System, s': System, n: nat)
    requires Inv(s) && n <= |s.queue| && s' == s.(waiting := s'.waiting, queue := s.queue[n..])
    requires s'.waiting == None || s'.waiting == s.waiting
    ensures Inv(s')
  {
    DropSome(Origins(s), |s.results|, |s.results| + n, |s.issued|);
    OriginsDropped(s, s', n);
    forall i | 0 <= i < |s'.queue| ensures TrueAnswer(s', s'.queue[i]) {
      assert s'.queue[i] == s.queue[i + n] && TrueAnswer(s, s.queue[i + n]);
    }
    forall i | 0 <= i < |s'.results| ensures TrueReturn(s', s'.results[i]) { assert TrueReturn(s, s.results[i]); }
  }

  lemma OriginsDropped(s: System, s': System, n: nat)
    requires n <= |s.queue| && s' == s.(waiting := s'.waiting, queue := s.queue[n..])
    ensures Origins(s') == Origins(s)[..|s.results|] + Origins(s)[|s.results| + n..]
  {}

  lemma ReturningKeepsInv(s: System, s': System, k: nat)
    requires Inv(s) && s.waiting == Some(k) && s.queue != []
    requires Answers(s.queue[0].packet, NumberOf(k), s.issued[k])
    requires s' == s.(waiting := None, queue := s.queue[1..], results := s.results + [Return(k, s.queue[0].origin)])
    ensures Inv(s')
  {
    assert Origins(s') == Origins(s);
    forall i | 0 <= i < |s'.queue| ensures TrueAnswer(s', s'.queue[i]) {
      assert s'.queue[i] == s.queue[i + 1] && TrueAnswer(s, s.queue[i + 1]);
    }
    assert TrueAnswer(s, s.queue[0]);
    forall i | 0 <= i < |s'.results| ensures TrueReturn(s', s'.results[i]) {
      if i < |s.results| { assert TrueReturn(s, s.results[i]); }
    }
  }

  lemma ReceiveKeepsInv(s: System, s': System)
    requires Inv(s) && HostReceives(s, s')
    ensures Inv(s')
  {
    if s'.results == s.results {
      DroppingKeepsInv(s, s', 1);
    } else {
      ReturningKeepsInv(s, s', s.waiting.value);
    }
  }

  lemma GiveUpKeepsInv(s: System, s': System)
    requires Inv(s) && HostGivesUp(s, s')
    ensures Inv(s')
  {
    assert s.queue[0..] == s.queue;
    DroppingKeepsInv(s, s', |s.queue| - |s'.queue|);
  }

  lemma EmptyingKeepsInv(s: System, s': System)
    requires Inv(s) && QueueEmptied(s, s')
    ensures Inv(s')
  {
    DroppingKeepsInv(s, s', |s.queue|);
  }

  lemma StepKeepsInv(s: System, s': System)
    requires Inv(s) && Next(s, s')
    ensures Inv(s')
  {
    if HostSends(s, s') { SendKeepsInv(s, s'); }
    else if XL3Answers(s, s') { AnswerKeepsInv(s, s'); }
    else if CommandLost(s, s') { LossKeepsInv(s, s'); }
    else if HostReceives(s, s') { ReceiveKeepsInv(s, s'); }
    else if HostGivesUp(s, s') { GiveUpKeepsInv(s, s'); }
    else { EmptyingKeepsInv(s, s'); }
  }

  /** In every run every answer is returned at most once, for a request with its type and its number modulo 65536,
      and never before it. */
  lemma {:induction false} RunKeepsInv(run: seq<System>, i: nat)
    requires Run(run) && i < |run|
    ensures Inv(run[i])
    ensures forall r, r' | 0 <= r < r' < |run[i].results| :: run[i].results[r].origin < run[i].results[r'].origin
  {
    if i > 0 {
      RunKeepsInv(run, i - 1);
      assert Next(run[i - 1], run[i]);
      StepKeepsInv(run[i - 1], run[i]);
    }
    var s := run[i];
    forall r, r' | 0 <= r < r' < |s.results| ensures s.results[r].origin < s.results[r'].origin {
      assert Origins(s)[r] < Origins(s)[r'];
    }
  }

  // Whose answer it is.

  /** No answer in the queue is 65536 or more commands old. */
  ghost predicate Fresh(s: System) {
    forall i {:trigger s.queue[i]} | 0 <= i < |s.queue| :: |s.issued| <= s.queue[i].origin + NUMBERS
  }

  ghost predicate OwnReturns(s: System) {
    forall i {:trigger s.results[i]} | 0 <= i < |s.results| :: s.results[i].origin == s.results[i].request
  }

  lemma SameNumber(o: nat, k: nat)
    requires o <= k < o + NUMBERS
    ensures NumberOf(o) == NumberOf(k) <==> o == k
  {
    assert o == NUMBERS * (o / NUMBERS) + NumberOf(o) && k == NUMBERS * (k / NUMBERS) + NumberOf(k);
    assert k / NUMBERS == o / NUMBERS || k / NUMBERS == o / NUMBERS + 1;
  }

  /** A return is the request's own answer exactly when the answer is young enough. */
  lemma ReceivesItsOwn(s: System, s': System)
    requires Inv(s) && HostReceives(s, s') && |s'.results| > |s.results|
    ensures var r := s'.results[|s.results|];
      r.origin == r.request <==> |s.issued| <= s.queue[0].origin + NUMBERS
  {
    var o, k := s.queue[0].origin, s.waiting.value;
    assert TrueAnswer(s, s.queue[0]);
    if k < o + NUMBERS { SameNumber(o, k); }
  }

  lemma StepReturnsOwn(s: System, s': System)
    requires Inv(s) && Fresh(s) && OwnReturns(s) && Next(s, s')
    ensures OwnReturns(s')
  {
    if HostReceives(s, s') && |s'.results| > |s.results| { ReceivesItsOwn(s, s'); }
  }

  /** While no answer in the queue is that old, every SendCommand that returns has the answer to its own request. */
  lemma {:induction false} RunReturnsOwn(run: seq<System>, i: nat)
    requires Run(run) && i < |run| && forall k | 0 <= k < i :: Fresh(run[k])
    ensures OwnReturns(run[i])
  {
    if i > 0 {
      RunReturnsOwn(run, i - 1);
      RunKeepsInv(run, i - 1);
      assert Next(run[i - 1], run[i]) && Fresh(run[i - 1]);
      StepReturnsOwn(run[i - 1], run[i]);
    }
  }

  // SendCommand itself.

  function Packets(queue: seq<Answer>): (ps: seq<Packet>)
    ensures |ps| == |queue| && forall i | 0 <= i < |ps| :: ps[i] == queue[i].packet
  {
    seq(|queue|, i requires 0 <= i < |queue| => queue[i].packet)
  }

  /** The system after the wait for command k has ended in r behind n packets. */
  function After(s: System, k: nat, n: nat, r: Outcome): System
    requires if r.TimedOut? then n <= |s.queue| else n < |s.queue|
  {
    var left := s.(waiting := None, queue := s.queue[if r.TimedOut? then n else n + 1..]);
    if r.Returned? then left.(results := s.results + [Return(k, s.queue[n].origin)]) else left
  }

  ghost predicate Steps(run: seq<System>) { forall i | 0 <= i < |run| - 1 :: Next(run[i], run[i + 1]) }

  /** The packets that are skipped, one step each. */
  lemma {:induction false} SkippingSteps(s: System, k: nat, n: nat) returns (run: seq<System>)
    requires s.waiting == Some(k) && k < |s.issued| && AllSkipped(Packets(s.queue), n, NumberOf(k), s.issued[k])
    ensures |run| == n + 1 && run[0] == s && run[n] == s.(queue := s.queue[n..]) && Steps(run)
    decreases n
  {
    if n == 0 {
      run := [s];
    } else {
      var before := SkippingSteps(s, k, n - 1);
      assert Skipped(Packets(s.queue)[n - 1], NumberOf(k), s.issued[k]);
      assert s.queue[n - 1..][1..] == s.queue[n..];
      run := before + [s.(queue := s.queue[n..])];
      assert HostReceives(run[n - 1], run[n]);
      forall i | 0 <= i < n ensures Next(run[i], run[i + 1]) { assert i < n - 1 ==> Next(before[i], before[i + 1]); }
    }
  }

  /** What the loop of SendCommand does with a queue are steps of the protocol. */
  lemma WaitIsSteps(s: System, k: nat, n: nat, r: Outcome) returns (run: seq<System>)
    requires s.waiting == Some(k) && k < |s.issued| && Ends(Packets(s.queue), NumberOf(k), s.issued[k], n, r)
    ensures |run| == n + 2 && run[0] == s && run[n + 1] == After(s, k, n, r) && Steps(run)
  {
    var before := SkippingSteps(s, k, n);
    var t, t' := s.(queue := s.queue[n..]), After(s, k, n, r);
    if !r.TimedOut? { assert t.queue[0] == s.queue[n] && t.queue[1..] == s.queue[n + 1..]; }
    assert if r.TimedOut? || r.TooMany? then HostGivesUp(t, t') else HostReceives(t, t');
    run := before + [t'];
    forall i | 0 <= i < n + 1 ensures Next(run[i], run[i + 1]) { assert i < n ==> Next(before[i], before[i + 1]); }
  }

  /** The model's queue and number are those of the system, in which command k is waiting. */
  ghost predicate InSystem(m: Model, s: System, k: nat)
    reads m
  {
    s.waiting == Some(k) && k < |s.issued| && m.commandNum == NumberOf(k) && m.recvQueue == Packets(s.queue)
  }

  /** Command k ended in r: when it returned a packet, that is an answer from the queue, and its own if none there is
      too old. */
  ghost predicate Ended(s: System, s': System, k: nat, r: Outcome) {
    && s'.waiting == None
    && (!r.Returned? ==> s'.results == s.results)
    && (r.Returned? ==>
          exists a :: a in s.queue && a.packet == r.packet && s'.results == s.results + [Return(k, a.origin)]
                      && (Fresh(s) ==> a.origin == k))
  }

  /** A SendCommand in a run whose last command is waiting: the run goes on to its end, the queue of the model is
      that of the protocol, and while no answer is too old, what is returned is the answer to this command. */
  method SendCommandInRun(m: Model, packet: Packet, ghost run: seq<System>, ghost k: nat)
    returns (r: Outcome, ghost more: seq<System>)
    requires Run(run) && InSystem(m, run[|run| - 1], k) && packet.packetType == run[|run| - 1].issued[k]
    modifies m
    ensures Run(run + more) && more != []
    ensures Ended(run[|run| - 1], more[|more| - 1], k, r)
    ensures m.recvQueue == Packets(more[|more| - 1].queue) && m.commandNum == NumberOf(k + 1)
    ensures m.sent == old(m.sent) + [packet.(num := NumberOf(k))]
  {
    ghost var s := run[|run| - 1];
    ghost var n;
    r, n := m.SendCommand(packet, true);
    more := RestOfRun(run, k, n, r);
    QueueAfter(s, k, n, r);
  }

  lemma RestOfRun(run: seq<System>, k: nat, n: nat, r: Outcome) returns (more: seq<System>)
    requires Run(run)
    requires var s := run[|run| - 1];
      s.waiting == Some(k) && k < |s.issued| && Ends(Packets(s.queue), NumberOf(k), s.issued[k], n, r)
    ensures Run(run + more) && more != [] && more[|more| - 1] == After(run[|run| - 1], k, n, r)
    ensures Ended(run[|run| - 1], more[|more| - 1], k, r)
  {
    var steps := WaitIsSteps(run[|run| - 1], k, n, r);
    more := steps[1..];
    Joined(run, steps);
    RunKeepsInv(run, |run| - 1);
    EndOfWait(run[|run| - 1], k, n, r);
  }

  lemma QueueAfter(s: System, k: nat, n: nat, r: Outcome)
    requires s.waiting == Some(k) && k < |s.issued| && Ends(Packets(s.queue), NumberOf(k), s.issued[k], n, r)
    ensures Packets(After(s, k, n, r).queue) == Packets(s.queue)[if r.TimedOut? then n else n + 1..]
  {}

  lemma EndOfWait(s: System, k: nat, n: nat, r: Outcome)
    requires Inv(s) && s.waiting == Some(k) && Ends(Packets(s.queue), NumberOf(k), s.issued[k], n, r)
    ensures Ended(s, After(s, k, n, r), k, r)
  {
    if r.Returned? {
      assert TrueAnswer(s, s.queue[n]);
      if Fresh(s) { SameNumber(s.queue[n].origin, k); }
      assert s.queue[n] in s.queue && s.queue[n].packet == r.packet;
    }
  }

  lemma Joined(run: seq<System>, steps: seq<System>)
    requires Run(run) && steps != [] && steps[0] == run[|run| - 1] && Steps(steps)
    ensures Run(run + steps[1..])
  {
    var all := run + steps[1..];
    forall i | 0 <= i < |all| - 1 ensures Next(all[i], all[i + 1]) {
      if i < |run| - 1 { assert Next(run[i], run[i + 1]); }
      else { assert Next(steps[i - |run| + 1], steps[i - |run| + 2]); }
    }
  }

  /** The check for a number that is too high: it fires exactly on stale answers from before the wrap that are less
      than 5000 commands old. */
  lemma TooHighIsStale(o: nat, k: nat)
    requires o <= k < o + 65536
    ensures NumberOf(o) == o % 65536 && NumberOf(k) == k % 65536
    ensures TooHigh(NumberOf(o), NumberOf(k)) <==> o / 65536 < k / 65536 && k - o < 5000
  {
    var a, b := o / NUMBERS, k / NUMBERS;
    assert o == NUMBERS * a + NumberOf(o) && k == NUMBERS * b + NumberOf(k);
    assert b == a || b == a + 1;
  }

  /** An answer that is exactly 65536 commands old is taken for the request's own. */
  lemma StaleAnswerIsReturned(s: System, s': System)
    requires Inv(s) && s.waiting.Some? && s.queue != [] && HostReceives(s, s')
    requires s.queue[0].origin + NUMBERS == s.waiting.value && s.issued[s.waiting.value] == s.queue[0].packet.packetType
    ensures s'.results == s.results + [Return(s.waiting.value, s.queue[0].origin)]
  {
    assert TrueAnswer(s, s.queue[0]);
    assert s.queue[0].origin + NUMBERS < |s.issued|;
  }

  /** n commands of type t have timed out, and the XL3 has not come to any of them. */
  function Unanswered(t: uint8, n: nat): System { System(seq(n, _ => t), None, seq(n, i => i), [], []) }

  lemma {:induction false} ManyTimeouts(t: uint8, n: nat) returns (run: seq<System>)
    ensures Run(run) && run[|run| - 1] == Unanswered(t, n)
    decreases n
  {
    if n == 0 {
      run := [START];
    } else {
      run := ManyTimeouts(t, n - 1);
      var s := run[|run| - 1];
      var sent := s.(issued := s.issued + [t], waiting := Some(n - 1), pending := s.pending + [n - 1]);
      var over := Unanswered(t, n);
      assert HostSends(s, sent);
      assert over.issued == sent.issued && over.pending == sent.pending;
      assert HostGivesUp(sent, over);
      run := OneMore(run, sent);
      run := OneMore(run, over);
    }
  }

  lemma OneMore(run: seq<System>, s: System) returns (longer: seq<System>)
    requires Run(run) && Next(run[|run| - 1], s)
    ensures Run(longer) && longer == run + [s]
  {
    longer := run + [s];
    forall i | 0 <= i < |longer| - 1 ensures Next(longer[i], longer[i + 1]) {
      if i < |run| - 1 { assert Next(run[i], run[i + 1]); }
    }
  }

  /** A run in which command 65536 gets the answer to command 0. */
  lemma StaleRun(t: uint8) returns (run: seq<System>)
    ensures Run(run) && run[|run| - 1].results == [Return(NUMBERS, 0)]
  {
    run := ManyTimeouts(t, NUMBERS);
    var s := run[|run| - 1];
    var sent := s.(issued := s.issued + [t], waiting := Some(NUMBERS), pending := s.pending + [NUMBERS]);
    assert HostSends(s, sent);
    run := OneMore(run, sent);
    var a := Answer(0, Packet(0, t, []));
    var answered := sent.(pending := sent.pending[1..], queue := [a]);
    assert sent.queue + [a] == [a] && TrueAnswer(sent, a);
    assert XL3Answers(sent, answered);
    run := OneMore(run, answered);
    RunKeepsInv(run, |run| - 1);
    var got := answered.(waiting := None, queue := [], results := [Return(NUMBERS, 0)]);
    assert HostReceives(answered, got);
    run := OneMore(run, got);
  }
}
