/** All-or-nothing locking of links (src/core/Globals.cpp), and what it is worth among many clients. */
module Globals {
  const MAX_XL3_CON: nat := 20
  const NO_CONNECTION_FLAG: int := 1
  const BUSY_CONNECTION_FLAG: int := 2

  datatype Link = Mtc | Xl3(crate: nat)

  /** The arguments of LockConnections and UnlockConnections. */
  datatype Request = Request(sbc: int, crates: set<nat>)

  function Crates(r: Request): set<Link> { set i | 0 <= i < MAX_XL3_CON && i in r.crates :: Xl3(i) }

  /** The links that are locked when the request is granted. */
  function Wanted(r: Request): set<Link> { (if r.sbc != 0 then {Mtc} else {}) + Crates(r) }

  /** The links that have to be connected. */
  function NeedsConnection(r: Request): set<Link> { (if r.sbc == 1 then {Mtc} else {}) + Crates(r) }

  /** The links that are looked at for being free. */
  function NeedsFree(r: Request): set<Link> { (if r.sbc == 1 || r.sbc == 2 then {Mtc} else {}) + Crates(r) }

  predicate Disconnected(r: Request, connected: set<Link>) { exists l :: l in NeedsConnection(r) && l !in connected }

  /** Only a connected link is ever reported busy. */
  predicate Busy(r: Request, connected: set<Link>, locked: set<Link>) {
    exists l :: l in NeedsFree(r) && l in connected && l in locked
  }

  predicate Granted(r: Request, connected: set<Link>, locked: set<Link>) {
    !Disconnected(r, connected) && !Busy(r, connected, locked)
  }

  class Connections {
    var mtcConnected: bool
    var mtcLocked: bool
    const connected: array<bool>
    const locked: array<bool>

    ghost predicate Valid() { connected.Length == locked.Length == MAX_XL3_CON && connected != locked }

    function Locked(): set<Link>
      requires Valid()
      reads this, locked
    {
      (if mtcLocked then {Mtc} else {}) + set i | 0 <= i < MAX_XL3_CON && locked[i] :: Xl3(i)
    }

    function Connected(): set<Link>
      requires Valid()
      reads this, connected
    {
      (if mtcConnected then {Mtc} else {}) + set i | 0 <= i < MAX_XL3_CON && connected[i] :: Xl3(i)
    }

    constructor ()
      ensures Valid() && fresh(connected) && fresh(locked) && Locked() == {} && Connected() == {}
    {
      mtcConnected, mtcLocked := false, false;
      connected := new bool[MAX_XL3_CON](_ => false);
      locked := new bool[MAX_XL3_CON](_ => false);
    }

    /** CheckLock of either kind of link: not connected comes before busy. */
    static method CheckLock(isConnected: bool, isLocked: bool) returns (check: int)
      ensures check == 1 <==> !isConnected
      ensures check == 2 <==> isConnected && isLocked
      ensures check == 0 <==> isConnected && !isLocked
    {
      if !isConnected {
        return NO_CONNECTION_FLAG;
      }
      if isLocked {
        return BUSY_CONNECTION_FLAG;
      }
      check := 0;
    }

    method CheckMtc(sbc: int) returns (busy: bool, nc: bool)
      ensures busy <==> (sbc == 1 || sbc == 2) && mtcConnected && mtcLocked
      ensures nc <==> sbc == 1 && !mtcConnected
    {
      busy, nc := false, false;
      if sbc == 1 {
        var check := CheckLock(mtcConnected, mtcLocked);
        if check == BUSY_CONNECTION_FLAG {
          busy := true;
        }
        if check == NO_CONNECTION_FLAG {
          nc := true;
        }
      }
      if sbc == 2 {
        var check := CheckLock(mtcConnected, mtcLocked);
        if check == BUSY_CONNECTION_FLAG {
          busy := true;
        }
      }
    }

    method CheckCrates(crates: set<nat>) returns (busy: bool, nc: bool)
      requires Valid()
      ensures busy <==> exists i :: 0 <= i < MAX_XL3_CON && i in crates && connected[i] && locked[i]
      ensures nc <==> exists i :: 0 <= i < MAX_XL3_CON && i in crates && !connected[i]
    {
      busy, nc := false, false;
      for i := 0 to MAX_XL3_CON
        invariant busy <==> exists k :: 0 <= k < i && k in crates && connected[k] && locked[k]
        invariant nc <==> exists k :: 0 <= k < i && k in crates && !connected[k]
      {
        if i in crates {
          var check := CheckLock(connected[i], locked[i]);
          if check == BUSY_CONNECTION_FLAG {
            busy := true;
          }
          if check == NO_CONNECTION_FLAG {
            nc := true;
          }
        }
      }
    }

    method SetLocks(r: Request, to: bool)
      requires Valid()
      modifies this`mtcLocked, locked
      ensures mtcLocked == if r.sbc != 0 then to else old(mtcLocked)
      ensures forall i | 0 <= i < MAX_XL3_CON :: locked[i] == if i in r.crates then to else old(locked[i])
      ensures Locked() == if to then old(Locked()) + Wanted(r) else old(Locked()) - Wanted(r)
    {
      ghost var was := Locked();
      if r.sbc != 0 {
        mtcLocked := to;
      }
      for i := 0 to MAX_XL3_CON
        invariant mtcLocked == if r.sbc != 0 then to else old(mtcLocked)
        invariant forall k | 0 <= k < i && k in r.crates :: locked[k] == to
        invariant forall k | 0 <= k < MAX_XL3_CON && !(k < i && k in r.crates) :: locked[k] == old(locked[k])
      {
        if i in r.crates {
          locked[i] := to;
        }
      }
      ghost var now := if to then was + Wanted(r) else was - Wanted(r);
      forall l ensures l in Locked() <==> l in now {
        match l {
          case Mtc =>
            assert Mtc in Wanted(r) <==> r.sbc != 0;
            assert Mtc in was <==> old(mtcLocked);
            assert Mtc in Locked() <==> mtcLocked;
          case Xl3(i) =>
            if i < MAX_XL3_CON {
              assert l in was <==> old(locked[i]);
              assert l in Locked() <==> locked[i];
              assert l in Wanted(r) <==> i in r.crates;
            } else {
              assert l !in Locked() && l !in was && l !in Wanted(r);
            }
        }
      }
    }

    /** LockConnections: all the wanted links are locked, or nothing is.  First in terms of the flags, then of the
        sets of links. */
    method LockConnections(r: Request) returns (result: int)
      requires Valid()
      modifies this`mtcLocked, locked
      ensures (result == 1 || result == 11)
              <==> ((r.sbc == 1 || r.sbc == 2) && mtcConnected && old(mtcLocked))
                   || exists i :: 0 <= i < MAX_XL3_CON && i in r.crates && connected[i] && old(locked[i])
      ensures (result == 10 || result == 11)
              <==> (r.sbc == 1 && !mtcConnected) || exists i :: 0 <= i < MAX_XL3_CON && i in r.crates && !connected[i]
      ensures result in {0, 1, 10, 11}
      ensures result == 0 ==>
        mtcLocked == (old(mtcLocked) || r.sbc != 0)
        && forall i | 0 <= i < MAX_XL3_CON :: locked[i] == (old(locked[i]) || i in r.crates)
      ensures result != 0 ==> mtcLocked == old(mtcLocked) && locked[..] == old(locked[..])
      ensures result == (if Busy(r, Connected(), old(Locked())) then 1 else 0)
        + (if Disconnected(r, Connected()) then 10 else 0)
      ensures Locked() == if result == 0 then old(Locked()) + Wanted(r) else old(Locked())
      ensures result == 0 <==> Granted(r, Connected(), old(Locked()))
      ensures result > 9 <==> Disconnected(r, Connected())
    {
      BusyMeans(r);
      var busyFlag, ncFlag := CheckMtc(r.sbc);
      var busy, nc := CheckCrates(r.crates);
      busyFlag, ncFlag := busyFlag || busy, ncFlag || nc;
      if !busyFlag && !ncFlag {
        SetLocks(r, true);
      }
      result := (if busyFlag then 1 else 0) + 10 * (if ncFlag then 1 else 0);
    }

    method UnlockConnections(r: Request)
      requires Valid()
      modifies this`mtcLocked, locked
      ensures mtcLocked == (old(mtcLocked) && r.sbc == 0)
      ensures forall i | 0 <= i < MAX_XL3_CON :: locked[i] == (old(locked[i]) && i !in r.crates)
      ensures Locked() == old(Locked()) - Wanted(r)
    {
      SetLocks(r, false);
    }

    /** The flags of the links, in terms of the sets. */
    lemma BusyMeans(r: Request)
      requires Valid()
      ensures Busy(r, Connected(), Locked())
              <==> ((r.sbc == 1 || r.sbc == 2) && mtcConnected && mtcLocked)
                   || exists i :: 0 <= i < MAX_XL3_CON && i in r.crates && connected[i] && locked[i]
      ensures Disconnected(r, Connected())
              <==> (r.sbc == 1 && !mtcConnected) || exists i :: 0 <= i < MAX_XL3_CON && i in r.crates && !connected[i]
    {
      assert Mtc in NeedsFree(r) <==> r.sbc == 1 || r.sbc == 2;
      assert Mtc in NeedsConnection(r) <==> r.sbc == 1;
      assert Mtc in Connected() <==> mtcConnected;
      assert Mtc in Locked() <==> mtcLocked;
      forall i | 0 <= i < MAX_XL3_CON
        ensures Xl3(i) in Connected() <==> connected[i]
        ensures Xl3(i) in Locked() <==> locked[i]
        ensures Xl3(i) in Crates(r) <==> i in r.crates
      {}
    }
  }

  // Many clients.

  /** The links, and who holds what.  The mutex makes each call one step. */
  datatype State = State(locked: set<Link>, connected: set<Link>, holds: map<nat, Request>)

  const START := State({}, {}, map[])

  ghost predicate ClientLocks(s: State, s': State, client: nat, r: Request) {
    && client !in s.holds
    && s' == if Granted(r, s.connected, s.locked)
             then s.(locked := s.locked + Wanted(r), holds := s.holds[client := r]) else s
  }

  /** A client unlocks with the arguments it locked with. */
  ghost predicate ClientUnlocks(s: State, s': State, client: nat) {
    client in s.holds && s' == s.(locked := s.locked - Wanted(s.holds[client]), holds := s.holds - {client})
  }

  ghost predicate LinkChanges(s: State, s': State) { s' == s.(connected := s'.connected) }

  /** Clients that ask for the MTC with sbc == 1 or not at all. */
  ghost predicate Next(s: State, s': State) {
    || (exists client: nat, r: Request :: (r.sbc == 0 || r.sbc == 1) && ClientLocks(s, s', client, r))
    || (exists client: nat :: ClientUnlocks(s, s', client))
    || LinkChanges(s, s')
  }

  ghost predicate Run(run: seq<State>) {
    run != [] && run[0] == START && forall i | 0 <= i < |run| - 1 :: Next(run[i], run[i + 1])
  }

  /** No link is held by two clients. */
  ghost predicate Exclusive(s: State) {
    forall a, b | a in s.holds && b in s.holds && a != b :: Wanted(s.holds[a]) !! Wanted(s.holds[b])
  }

  ghost predicate LockedIsHeld(s: State) {
    forall l :: l in s.locked <==> exists c :: c in s.holds && l in Wanted(s.holds[c])
  }

  ghost predicate Inv(s: State) { Exclusive(s) && LockedIsHeld(s) }

  /** A request that is granted finds its links free. */
  lemma GrantedIsFree(r: Request, connected: set<Link>, locked: set<Link>)
    requires (r.sbc == 0 || r.sbc == 1) && Granted(r, connected, locked)
    ensures Wanted(r) !! locked
  {
    forall l | l in Wanted(r) ensures l !in locked {
      assert l in NeedsConnection(r) && l in NeedsFree(r);
    }
  }

  lemma LockKeepsInv(s: State, s': State, client: nat, r: Request)
    requires Inv(s) && ClientLocks(s, s', client, r) && (Granted(r, s.connected, s.locked) ==> Wanted(r) !! s.locked)
    ensures Inv(s')
  {
    if Granted(r, s.connected, s.locked) {
      forall c | c in s.holds ensures Wanted(s.holds[c]) !! Wanted(r) {
        assert forall l | l in Wanted(s.holds[c]) :: l in s.locked;
      }
      forall l ensures l in s'.locked <==> exists c :: c in s'.holds && l in Wanted(s'.holds[c]) {
        if l in s.locked {
          var c :| c in s.holds && l in Wanted(s.holds[c]);
          assert c in s'.holds && l in Wanted(s'.holds[c]);
        } else if l in Wanted(r) {
          assert client in s'.holds && l in Wanted(s'.holds[client]);
        }
      }
    }
  }

  lemma UnlockKeepsInv(s: State, s': State, client: nat)
    requires Inv(s) && ClientUnlocks(s, s', client)
    ensures Inv(s')
  {
    forall l ensures l in s'.locked <==> exists c :: c in s'.holds && l in Wanted(s'.holds[c]) {
      if l in s'.locked {
        var c :| c in s.holds && l in Wanted(s.holds[c]);
        assert c in s'.holds && l in Wanted(s'.holds[c]);
      }
    }
  }

  /** In every interleaving no crate is held by two clients, nor the MTC when it is asked for with sbc == 1. */
  lemma {:induction false} RunKeepsInv(run: seq<State>, i: nat)
    requires Run(run) && i < |run|
    ensures Inv(run[i])
  {
    if i > 0 {
      RunKeepsInv(run, i - 1);
      var s, s' := run[i - 1], run[i];
      assert Next(s, s');
      if client: nat, r: Request :| (r.sbc == 0 || r.sbc == 1) && ClientLocks(s, s', client, r) {
        if Granted(r, s.connected, s.locked) { GrantedIsFree(r, s.connected, s.locked); }
        LockKeepsInv(s, s', client, r);
      } else if client: nat :| ClientUnlocks(s, s', client) {
        UnlockKeepsInv(s, s', client);
      }
    }
  }

  /** Of two clients, at no time both hold a crate, nor both the MTC. */
  lemma HoldersAreApart(run: seq<State>, i: nat, a: nat, b: nat)
    requires Run(run) && i < |run| && a in run[i].holds && b in run[i].holds && a != b
    ensures var r, r' := run[i].holds[a], run[i].holds[b];
      !(r.sbc != 0 && r'.sbc != 0) && forall k | 0 <= k < 20 :: !(k in r.crates && k in r'.crates)
  {
    RunKeepsInv(run, i);
    var r, r' := run[i].holds[a], run[i].holds[b];
    assert Wanted(r) !! Wanted(r');
    assert r.sbc != 0 ==> Mtc in Wanted(r);
    assert r'.sbc != 0 ==> Mtc in Wanted(r');
    forall k | 0 <= k < 20 && k in r.crates ensures k !in r'.crates {
      assert Xl3(k) in Wanted(r);
      assert Xl3(k) in Wanted(r') <==> k in r'.crates;
    }
  }

  /** With sbc == 2 the MTC may be shared: exactly when it is locked and not connected. */
  lemma SharedMtc(s: State, s': State, client: nat, r: Request)
    requires Inv(s) && ClientLocks(s, s', client, r) && r.sbc == 2 && Granted(r, s.connected, s.locked)
    ensures Exclusive(s') <==> !(Mtc in s.locked && Mtc !in s.connected)
  {
    forall l | l in Crates(r) ensures l !in s.locked {
      assert l in NeedsConnection(r) && l in NeedsFree(r);
    }
    assert Mtc in NeedsFree(r) && Mtc in Wanted(r);
    if Mtc in s.locked {
      var c :| c in s.holds && Mtc in Wanted(s.holds[c]);
      assert c in s'.holds && s'.holds[c] == s.holds[c] && s'.holds[client] == r;
    } else {
      LockKeepsInv(s, s', client, r);
    }
  }

  /** Whatever clients ask for. */
  ghost predicate AnyNext(s: State, s': State) {
    || (exists client: nat, r: Request :: ClientLocks(s, s', client, r))
    || (exists client: nat :: ClientUnlocks(s, s', client))
    || LinkChanges(s, s')
  }

  /** A run that ends with two holders: the MTC connects and is locked, it disconnects, and another client locks it
      with sbc == 2. */
  lemma SharedMtcRun() returns (run: seq<State>)
    ensures |run| == 5 && run[0] == START && forall i | 0 <= i < 4 :: AnyNext(run[i], run[i + 1])
    ensures !Exclusive(run[4])
  {
    var r1, r2 := Request(1, {}), Request(2, {});
    assert Crates(r1) == {} && Crates(r2) == {};
    var s1 := START.(connected := {Mtc});
    var s2 := s1.(locked := s1.locked + Wanted(r1), holds := s1.holds[0 := r1]);
    assert ClientLocks(s1, s2, 0, r1);
    var s3 := s2.(connected := {});
    var s4 := s3.(locked := s3.locked + Wanted(r2), holds := s3.holds[1 := r2]);
    assert ClientLocks(s3, s4, 1, r2);
    run := [START, s1, s2, s3, s4];
    assert Mtc in Wanted(s4.holds[0]) && Mtc in Wanted(s4.holds[1]);
  }
}
