/** The locks of libgep and in which order each of its calls takes them. `Take` blocks while another
    thread holds the lock; only the vector lock may be taken again by its holder. */
module Locks {
  /** Locks of the user's program, gep_channel_vector_lock_, and the socket_lock_ of each channel.
      The user's own locks are numbered in the order in which the user takes them. */
  datatype Lock = User(n: nat) | Vector | Socket(channel: nat)

  datatype Op = Take(l: Lock) | Drop(l: Lock)

  // What a thread holds, and what it is still going to do with locks in its current call.
  datatype Thread = Thread(held: multiset<Lock>, prog: seq<Op>)

  type Tid = nat
  type System = map<Tid, Thread>

  // The hierarchy: user locks, then the vector lock, then socket locks.
  predicate Before(a: Lock, b: Lock) {
    match (a, b)
    case (User(m), User(n)) => m < n
    case (User(_), _) => true
    case (Vector, Socket(_)) => true
    case (Socket(m), Socket(n)) => m < n
    case _ => false
  }

  // Holding these, this lock comes later in the hierarchy, or is the vector lock taken again
  // before any socket lock.
  ghost predicate MayTake(held: multiset<Lock>, l: Lock) {
    forall h | h in held :: Before(h, l) || h == l == Vector
  }

  // What a thread holds after a program.
  function HeldAfter(held: multiset<Lock>, prog: seq<Op>): multiset<Lock>
    decreases |prog|
  {
    if prog == [] then held
    else
      match prog[0]
      case Take(l) => HeldAfter(held + multiset{l}, prog[1..])
      case Drop(l) => HeldAfter(held - multiset{l}, prog[1..])
  }

  // A program that takes locks only up the hierarchy, and drops only what it holds.
  ghost predicate Legal(held: multiset<Lock>, prog: seq<Op>)
    decreases |prog|
  {
    prog == [] ||
    match prog[0]
    case Take(l) => MayTake(held, l) && Legal(held + multiset{l}, prog[1..])
    case Drop(l) => l in held && Legal(held - multiset{l}, prog[1..])
  }

  // A program that can be run in full: legal, and holding nothing at its end.
  ghost predicate Disciplined(held: multiset<Lock>, prog: seq<Op>) {
    Legal(held, prog) && HeldAfter(held, prog) == multiset{}
  }

  // ---------- threads running together ----------

  ghost predicate Blocked(s: System, t: Tid)
    requires t in s
  {
    && s[t].prog != [] && s[t].prog[0].Take?
    && exists u | u in s :: Holds(s, u, s[t].prog[0].l) && (u != t || !s[t].prog[0].l.Vector?)
  }

  predicate Holds(s: System, u: Tid, l: Lock)
    requires u in s
  {
    l in s[u].held
  }

  datatype Step = Run(t: Tid) | Call(t: Tid, prog: seq<Op>)

  // A thread runs unless it is done or blocked; a thread that is done may make another call.
  ghost predicate Enabled(s: System, step: Step) {
    match step
    case Run(t) => t in s && s[t].prog != [] && !Blocked(s, t)
    case Call(t, prog) =>
      (t in s ==> s[t].prog == []) && Disciplined(multiset{}, prog)
  }

  function Next(s: System, step: Step): System
    requires step.Run? ==> step.t in s && s[step.t].prog != []
  {
    match step
    case Run(t) =>
      var held := match s[t].prog[0] {
        case Take(l) => s[t].held + multiset{l}
        case Drop(l) => s[t].held - multiset{l}
      };
      s[t := Thread(held, s[t].prog[1..])]
    case Call(t, prog) => s[t := Thread(multiset{}, prog)]
  }

  ghost function Runs(s: System, steps: seq<Step>): System
    decreases |steps|
  {
    if steps == [] then s
    else Runs(if Enabled(s, steps[0]) then Next(s, steps[0]) else s, steps[1..])
  }

  ghost predicate AllDisciplined(s: System) {
    forall t | t in s :: Disciplined(s[t].held, s[t].prog)
  }

  ghost predicate Exclusive(s: System) {
    forall t, u, l | t in s && u in s && Holds(s, t, l) && Holds(s, u, l) :: t == u
  }

  /** Every thread keeps to the hierarchy, and no lock is held by two threads. */
  ghost predicate Inv(s: System) {
    AllDisciplined(s) && Exclusive(s)
  }

  // A thread that is not blocked takes a lock nobody else holds.
  lemma TakenIsFree(s: System, t: Tid)
    requires t in s && s[t].prog != [] && s[t].prog[0].Take? && !Blocked(s, t)
    ensures forall u | u in s && u != t :: !Holds(s, u, s[t].prog[0].l)
  {
  }

  lemma NextKeepsExclusive(s: System, step: Step)
    requires Exclusive(s) && Enabled(s, step)
    ensures Exclusive(Next(s, step))
  {
    hide Disciplined, Blocked;
    var s', t := Next(s, step), step.t;
    if step.Run? && s[t].prog[0].Take? {
      TakenIsFree(s, t);
    }
    forall u, l | u in s' && u != t && t in s' && Holds(s', u, l)
      ensures u in s && Holds(s, u, l) && !Holds(s', t, l)
    {
      assert s'[u] == s[u];
      assert t in s && Holds(s, t, l) ==> t == u;
    }
  }

  lemma NextKeepsInv(s: System, step: Step)
    requires Inv(s) && Enabled(s, step)
    ensures Inv(Next(s, step))
  {
    NextKeepsExclusive(s, step);
    hide Exclusive, Blocked;
    assert AllDisciplined(Next(s, step));
  }

  lemma {:induction false} RunsKeepInv(s: System, steps: seq<Step>)
    requires Inv(s)
    ensures Inv(Runs(s, steps))
    decreases |steps|
  {
    if steps != [] {
      if Enabled(s, steps[0]) {
        NextKeepsInv(s, steps[0]);
        RunsKeepInv(Next(s, steps[0]), steps[1..]);
      } else {
        RunsKeepInv(s, steps[1..]);
      }
    }
  }

  // ---------- no deadlock ----------

  // Thread t waits for thread u, which would be t itself for a lock it may not take twice.
  ghost predicate WaitsFor(s: System, t: Tid, u: Tid) {
    && t in s && u in s
    && s[t].prog != [] && s[t].prog[0].Take?
    && Holds(s, u, s[t].prog[0].l) && (u != t || !s[t].prog[0].l.Vector?)
  }

  // The lock a thread is about to take.
  function Wanted(s: System, t: Tid): Lock {
    if t in s && s[t].prog != [] then s[t].prog[0].l else Vector
  }

  // Whoever is waited for is not done, and if it waits too, then for a lock further up.
  lemma WaitsGoUp(s: System, t: Tid, u: Tid)
    requires Inv(s) && WaitsFor(s, t, u)
    ensures s[u].prog != []
    ensures Blocked(s, u) ==> Before(Wanted(s, t), Wanted(s, u))
  {
    var l := Wanted(s, t);
    assert Disciplined(s[u].held, s[u].prog);
    if Blocked(s, u) {
      var w :| w in s && Holds(s, w, Wanted(s, u)) && (w != u || !Wanted(s, u).Vector?);
      assert MayTake(s[u].held, Wanted(s, u)) && l in s[u].held;
    }
  }

  lemma BeforeIsTransitive(a: Lock, b: Lock, c: Lock)
    requires Before(a, b) && Before(b, c)
    ensures Before(a, c) && a != b
  {
  }

  // Following who waits for whom from a blocked thread, one arrives at a thread that can run.
  lemma {:induction false} FindRunnable(s: System, t: Tid, seen: set<Tid>) returns (r: Tid)
    requires Inv(s) && t in s && Blocked(s, t) && seen <= s.Keys
    requires forall v | v in seen :: s[v].prog != [] && s[v].prog[0].Take? && Before(Wanted(s, v), Wanted(s, t))
    ensures r in s && s[r].prog != [] && !Blocked(s, r)
    decreases |s.Keys - seen|
  {
    var u :| u in s && Holds(s, u, s[t].prog[0].l) && (u != t || !s[t].prog[0].l.Vector?);
    WaitsGoUp(s, t, u);
    if Blocked(s, u) {
      forall v | v in seen
        ensures Before(Wanted(s, v), Wanted(s, u))
      {
        BeforeIsTransitive(Wanted(s, v), Wanted(s, t), Wanted(s, u));
      }
      assert t in s.Keys - seen;
      assert s.Keys - (seen + {t}) < s.Keys - seen;
      SmallerSet(s.Keys - (seen + {t}), s.Keys - seen);
      r := FindRunnable(s, u, seen + {t});
    } else {
      r := u;
    }
  }

  lemma SmallerSet(a: set<Tid>, b: set<Tid>)
    requires a < b
    ensures |a| < |b|
  {
    var x :| x in b && x !in a;
    assert a <= b - {x};
    SubsetIsSmaller(a, b - {x});
  }

  lemma {:induction false} SubsetIsSmaller(a: set<Tid>, b: set<Tid>)
    requires a <= b
    ensures |a| <= |b|
  {
    if a != {} {
      var x :| x in a;
      SubsetIsSmaller(a - {x}, b - {x});
    }
  }

  /** Deadlock freedom: whatever calls the threads have made, in whatever interleaving, as long as
      somebody is not done, somebody can run. */
  lemma SomebodyCanRun(steps: seq<Step>)
    ensures var s := Runs(map[], steps);
      (exists t :: t in s && s[t].prog != []) ==> exists r :: r in s && s[r].prog != [] && !Blocked(s, r)
  {
    var s := Runs(map[], steps);
    RunsKeepInv(map[], steps);
    if t :| t in s && s[t].prog != [] {
      if Blocked(s, t) {
        var r := FindRunnable(s, t, {});
      }
    }
  }

  // Each thread of the path waits for the next one.
  ghost predicate WaitPath(s: System, path: seq<Tid>) {
    forall i | 0 <= i < |path| - 1 :: WaitsFor(s, path[i], path[i + 1])
  }

  lemma {:induction false} PathGoesUp(s: System, path: seq<Tid>, n: nat)
    requires Inv(s) && WaitPath(s, path) && 0 < n < |path|
    requires forall t | t in path :: t in s && Blocked(s, t)
    requires path[0] in path && path[n] in path
    ensures Before(Wanted(s, path[0]), Wanted(s, path[n]))
  {
    assert WaitsFor(s, path[n - 1], path[n - 1 + 1]);
    WaitsGoUp(s, path[n - 1], path[n]);
    if n > 1 {
      PathGoesUp(s, path, n - 1);
      BeforeIsTransitive(Wanted(s, path[0]), Wanted(s, path[n - 1]), Wanted(s, path[n]));
    }
  }

  /** No reachable state has a cycle of threads each waiting for the next. */
  lemma NoCyclicWait(steps: seq<Step>, path: seq<Tid>)
    requires |path| >= 2 && WaitPath(Runs(map[], steps), path)
    ensures path[0] != path[|path| - 1]
  {
    var s := Runs(map[], steps);
    RunsKeepInv(map[], steps);
    if path[0] == path[|path| - 1] {
      forall t | t in path
        ensures t in s && Blocked(s, t)
      {
        var i :| 0 <= i < |path| && path[i] == t;
        var k := if i < |path| - 1 then i else 0;
        assert WaitsFor(s, path[k], path[k + 1]);
      }
      PathGoesUp(s, path, |path| - 1);
      assert false;
    }
  }

  // ---------- the calls of libgep ----------

  lemma {:induction false} LegalConcat(held: multiset<Lock>, a: seq<Op>, b: seq<Op>)
    ensures Legal(held, a + b) <==> Legal(held, a) && Legal(HeldAfter(held, a), b)
    ensures HeldAfter(held, a + b) == HeldAfter(HeldAfter(held, a), b)
    decreases |a|
  {
    if a == [] {
      assert a + b == b;
    } else {
      assert (a + b)[1..] == a[1..] + b;
      match a[0]
      case Take(l) => LegalConcat(held + multiset{l}, a[1..], b);
      case Drop(l) => LegalConcat(held - multiset{l}, a[1..], b);
    }
  }

  // Taking and releasing socket locks one after the other: GetSocket, IsOpenSocket, recv() in
  // GepChannel::RecvData, SendTLV, Close.
  function Touch(channels: seq<nat>): seq<Op> {
    if channels == [] then []
    else [Take(Socket(channels[0]))] + [Drop(Socket(channels[0]))] + Touch(channels[1..])
  }

  // Some code under the vector lock.
  function UnderVector(body: seq<Op>): seq<Op> {
    [Take(Vector)] + body + [Drop(Vector)]
  }

  // A body of AddClient or DelClient that may run where it is called: it takes no user lock.
  ghost predicate FitsUnderVector(body: seq<Op>) {
    forall held | Vector in held && (forall h | h in held :: Before(h, Vector) || h == Vector) ::
      Legal(held, body) && HeldAfter(held, body) == held
  }

  // Both SendMessage: for each channel whether it is open, and a send on some of them.
  function SendCall(touched: seq<nat>): seq<Op> {
    UnderVector(Touch(touched))
  }

  // One turn of the server's service loop: collecting the sockets; looking for a ready channel, which
  // stops at the first and may meet a changed vector; receiving on it, and the callbacks for what was
  // received; DelClient and Close if that failed; and a new client.
  function ServiceTurn(polled: seq<nat>, scanned: seq<nat>, c: nat, callbacks: seq<Op>, failed: bool,
                       del: seq<Op>, accepted: bool, add: seq<Op>): seq<Op>
  {
    SendCall(polled) + (SendCall(scanned) + (Touch([c]) + (callbacks
    + ((if failed then UnderVector(del) + Touch([c]) else [])
    + (if accepted then UnderVector(add) else [])))))
  }

  lemma {:induction false} TouchIsLegal(held: multiset<Lock>, channels: seq<nat>)
    requires forall h | h in held :: !h.Socket?
    ensures Legal(held, Touch(channels)) && HeldAfter(held, Touch(channels)) == held
    decreases |channels|
  {
    if channels != [] {
      var l, rest := Socket(channels[0]), Touch(channels[1..]);
      var p := Touch(channels);
      TouchIsLegal(held, channels[1..]);
      assert p[1..] == [Drop(l)] + rest && p[1..][1..] == rest;
      assert held + multiset{l} - multiset{l} == held;
    }
  }

  lemma UnderVectorIsLegal(held: multiset<Lock>, body: seq<Op>)
    requires MayTake(held, Vector)
    requires Legal(held + multiset{Vector}, body)
    requires HeldAfter(held + multiset{Vector}, body) == held + multiset{Vector}
    ensures Legal(held, UnderVector(body)) && HeldAfter(held, UnderVector(body)) == held
  {
    var with := held + multiset{Vector};
    assert UnderVector(body)[1..] == body + [Drop(Vector)];
    LegalConcat(with, body, [Drop(Vector)]);
    assert with - multiset{Vector} == held;
    assert [Drop(Vector)][1..] == [];
  }

  /** A send may be called wherever the vector lock may be taken, and nowhere else: with any user
      locks held, inside AddClient and DelClient, but not while holding a socket lock. It leaves the
      locks as they were. */
  lemma SendIsLegalAnywhereBelow(held: multiset<Lock>, touched: seq<nat>)
    ensures Legal(held, SendCall(touched)) <==> MayTake(held, Vector)
    ensures MayTake(held, Vector) ==> HeldAfter(held, SendCall(touched)) == held
  {
    if MayTake(held, Vector) {
      TouchIsLegal(held + multiset{Vector}, touched);
      UnderVectorIsLegal(held, Touch(touched));
    }
  }

  // AddClient and DelClient may send.
  lemma SendFitsUnderVector(touched: seq<nat>)
    ensures FitsUnderVector(SendCall(touched))
  {
    forall held: multiset<Lock> | Vector in held && forall h | h in held :: Before(h, Vector) || h == Vector
      ensures Legal(held, SendCall(touched)) && HeldAfter(held, SendCall(touched)) == held
    {
      SendIsLegalAnywhereBelow(held, touched);
    }
  }

  /** The service thread keeps to the hierarchy whatever the callbacks take, as long as they do,
      because it holds nothing while they run; AddClient and DelClient must take no user lock. */
  lemma ServiceTurnIsDisciplined(polled: seq<nat>, scanned: seq<nat>, c: nat, callbacks: seq<Op>,
                                 failed: bool, del: seq<Op>, accepted: bool, add: seq<Op>)
    requires Disciplined(multiset{}, callbacks) && FitsUnderVector(del) && FitsUnderVector(add)
    ensures Disciplined(multiset{}, ServiceTurn(polled, scanned, c, callbacks, failed, del, accepted, add))
  {
    hide Legal, HeldAfter, Touch, UnderVector;
    var none: multiset<Lock> := multiset{};
    var dying := if failed then UnderVector(del) + Touch([c]) else [];
    var coming := if accepted then UnderVector(add) else [];
    SendIsLegalAnywhereBelow(none, polled);
    SendIsLegalAnywhereBelow(none, scanned);
    TouchIsLegal(none, [c]);
    NothingIsLegal(none);
    assert none + multiset{Vector} == multiset{Vector};
    UnderVectorIsLegal(none, del);
    UnderVectorIsLegal(none, add);
    LegalConcat(none, UnderVector(del), Touch([c]));
    LegalConcat(none, dying, coming);
    LegalConcat(none, callbacks, dying + coming);
    LegalConcat(none, Touch([c]), callbacks + (dying + coming));
    LegalConcat(none, SendCall(scanned), Touch([c]) + (callbacks + (dying + coming)));
    LegalConcat(none, SendCall(polled), SendCall(scanned) + (Touch([c]) + (callbacks + (dying + coming))));
  }

  // Stopping the array reports every client under the vector lock and then closes every channel.
  function StopCall(dels: seq<Op>, channels: seq<nat>): seq<Op> {
    UnderVector(dels + Touch(channels))
  }

  // One turn of the client's service loop: GetSocket, recv(), the callbacks, and whatever it does to
  // its channel afterwards.
  function ClientTurn(c: nat, callbacks: seq<Op>, after: seq<nat>): seq<Op> {
    Touch([c] + [c]) + (callbacks + Touch(after))
  }

  lemma StopIsDisciplined(dels: seq<Op>, channels: seq<nat>)
    requires FitsUnderVector(dels)
    ensures Disciplined(multiset{}, StopCall(dels, channels))
  {
    hide Legal, HeldAfter, Touch, UnderVector;
    var with := multiset{} + multiset{Vector};
    TouchIsLegal(with, channels);
    LegalConcat(with, dels, Touch(channels));
    UnderVectorIsLegal(multiset{}, dels + Touch(channels));
  }

  lemma ClientTurnIsDisciplined(c: nat, callbacks: seq<Op>, after: seq<nat>)
    requires Disciplined(multiset{}, callbacks)
    ensures Disciplined(multiset{}, ClientTurn(c, callbacks, after))
  {
    hide Legal, HeldAfter, Touch;
    var none: multiset<Lock> := multiset{};
    TouchIsLegal(none, [c] + [c]);
    TouchIsLegal(none, after);
    LegalConcat(none, callbacks, Touch(after));
    LegalConcat(none, Touch([c] + [c]), callbacks + Touch(after));
  }

  // The locks a program takes, in order.
  function Takes(prog: seq<Op>): seq<Lock> {
    if prog == [] then []
    else (if prog[0].Take? then [prog[0].l] else []) + Takes(prog[1..])
  }

  function SocketsOf(channels: seq<nat>): seq<Lock> {
    seq(|channels|, i requires 0 <= i < |channels| => Socket(channels[i]))
  }

  lemma {:induction false} TakesConcat(a: seq<Op>, b: seq<Op>)
    ensures Takes(a + b) == Takes(a) + Takes(b)
  {
    if a == [] {
      assert a + b == b;
    } else {
      assert (a + b)[0] == a[0] && (a + b)[1..] == a[1..] + b;
      TakesConcat(a[1..], b);
    }
  }

  lemma {:induction false} TouchTakes(channels: seq<nat>)
    ensures Takes(Touch(channels)) == SocketsOf(channels)
  {
    if channels != [] {
      var l, rest, p := Socket(channels[0]), Touch(channels[1..]), Touch(channels);
      TouchTakes(channels[1..]);
      assert p[0] == Take(l) && p[1..][0] == Drop(l) && p[1..][1..] == rest;
      assert SocketsOf(channels) == [l] + SocketsOf(channels[1..]);
    }
  }

  lemma UnderVectorTakes(body: seq<Op>)
    ensures Takes(UnderVector(body)) == [Vector] + Takes(body)
  {
    var p := UnderVector(body);
    assert p[0] == Take(Vector) && p[1..] == body + [Drop(Vector)];
    TakesConcat(body, [Drop(Vector)]);
    assert Takes([Drop(Vector)]) == Takes([Drop(Vector)][1..]) == [];
  }

  /** Which locks each call takes, in order: a send the vector lock and the socket lock of each channel it
      touches; the service thread the vector lock for each pass over the vector, that of the channel it
      serves, and again the vector lock to erase it or to add another; the client only socket locks. */
  lemma WhatCallsTake(polled: seq<nat>, scanned: seq<nat>, c: nat, callbacks: seq<Op>, failed: bool,
                      del: seq<Op>, accepted: bool, add: seq<Op>)
    ensures Takes(SendCall(polled)) == [Vector] + SocketsOf(polled)
    ensures Takes(ServiceTurn(polled, scanned, c, callbacks, failed, del, accepted, add)) ==
      [Vector] + SocketsOf(polled) + ([Vector] + SocketsOf(scanned) + ([Socket(c)] + (Takes(callbacks)
      + ((if failed then [Vector] + Takes(del) + [Socket(c)] else [])
         + (if accepted then [Vector] + Takes(add) else [])))))
    ensures Takes(StopCall(del, polled)) == [Vector] + (Takes(del) + SocketsOf(polled))
    ensures Takes(ClientTurn(c, callbacks, polled))
         == [Socket(c), Socket(c)] + (Takes(callbacks) + SocketsOf(polled))
  {
    hide Takes, Touch, UnderVector;
    var dying := if failed then UnderVector(del) + Touch([c]) else [];
    var coming := if accepted then UnderVector(add) else [];
    assert Takes([]) == [] by { NothingTaken(); }
    TouchTakes(polled);
    TouchTakes(scanned);
    TouchTakes([c]);
    TouchTakes([c] + [c]);
    UnderVectorTakes(Touch(polled));
    UnderVectorTakes(Touch(scanned));
    UnderVectorTakes(del);
    UnderVectorTakes(add);
    TakesConcat(UnderVector(del), Touch([c]));
    TakesConcat(dying, coming);
    TakesConcat(callbacks, dying + coming);
    TakesConcat(Touch([c]), callbacks + (dying + coming));
    TakesConcat(SendCall(scanned), Touch([c]) + (callbacks + (dying + coming)));
    TakesConcat(SendCall(polled), SendCall(scanned) + (Touch([c]) + (callbacks + (dying + coming))));
    TakesConcat(del, Touch(polled));
    UnderVectorTakes(del + Touch(polled));
    TakesConcat(callbacks, Touch(polled));
    TakesConcat(Touch([c] + [c]), callbacks + Touch(polled));
    assert SocketsOf([c]) == [Socket(c)] && SocketsOf([c] + [c]) == [Socket(c), Socket(c)];
  }

  lemma NothingTaken()
    ensures Takes([]) == []
  {
  }

  /** While the callbacks of a turn run, nothing is held. */
  lemma NothingHeldInCallbacks(polled: seq<nat>, scanned: seq<nat>, c: nat)
    ensures HeldAfter(multiset{}, SendCall(polled) + (SendCall(scanned) + Touch([c]))) == multiset{}
  {
    hide Legal, HeldAfter, Touch, UnderVector;
    var none: multiset<Lock> := multiset{};
    SendIsLegalAnywhereBelow(none, polled);
    SendIsLegalAnywhereBelow(none, scanned);
    TouchIsLegal(none, [c]);
    LegalConcat(none, SendCall(scanned), Touch([c]));
    LegalConcat(none, SendCall(polled), SendCall(scanned) + Touch([c]));
  }

  lemma NothingIsLegal(held: multiset<Lock>)
    ensures Legal(held, []) && HeldAfter(held, []) == held
  {
  }

  /** Were the vector lock held while a callback runs, a callback and a sender that meet on one user
      lock would block each other for good. */
  lemma HoldingAcrossCallbackDeadlocks(touched: seq<nat>)
    ensures var service := [Take(Vector)] + [Take(User(0))] + [Drop(User(0))] + [Drop(Vector)];
      var sender := [Take(User(0))] + (SendCall(touched) + [Drop(User(0))]);
      var s := map[0 := Thread(multiset{}, service), 1 := Thread(multiset{}, sender)];
      && Enabled(s, Run(0)) && Enabled(Next(s, Run(0)), Run(1))
      && var s' := Next(Next(s, Run(0)), Run(1));
      Blocked(s', 0) && Blocked(s', 1)
  {
    var service := [Take(Vector)] + [Take(User(0))] + [Drop(User(0))] + [Drop(Vector)];
    var sender := [Take(User(0))] + (SendCall(touched) + [Drop(User(0))]);
    var s := map[0 := Thread(multiset{}, service), 1 := Thread(multiset{}, sender)];
    var s1 := Next(s, Run(0));
    var s2 := Next(s1, Run(1));
    assert service[1..][0] == Take(User(0));
    assert sender[1..] == SendCall(touched) + [Drop(User(0))];
    assert sender[1..][0] == Take(Vector);
    assert Holds(s2, 0, Vector) && Holds(s2, 1, User(0));
  }
}
