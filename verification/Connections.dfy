/** A channel over its successive connections, seen by its senders. Close and the assignment of the
    socket in OpenClientSocket take socket_lock_ (src/gep_channel.cc), as SendTLV does for all of a
    frame, so no send lies across two connections. */
module Connections {
  import opened Protocol
  import opened Framing
  import opened FullSend
  import opened Channel
  import opened Delivery
  import opened Promise

  /** The connection that the socket is for, or was for if it is closed, with all the threads that send;
      and those before it, whose receivers may still be reading. */
  datatype Link = Link(now: System, open: bool, past: seq<System>)

  datatype LinkStep =
    | Use(step: Delivery.Step)
    | CloseSocket
    | OpenSocket(fd: nat)
    | ReadPast(k: nat, size: pos)

  // On a closed socket every attempt to send is an error.
  predicate CanTake(cfg: Config, l: Link, step: LinkStep) {
    match step
    case Use(st) => Enabled(cfg, l.now, st) && (l.open || (st.TrySend? ==> st.a.Error?))
    case CloseSocket => l.open && l.now.lock.Free?
    case OpenSocket(_) => !l.open && l.now.lock.Free?
    case ReadPast(k, size) => k < |l.past| && Enabled(cfg, l.past[k], Read(size))
  }

  // What is left of a connection: the threads are not its own.
  function Ended(s: System): System {
    s.(pcs := map[], lock := Free)
  }

  function After(cfg: Config, l: Link, step: LinkStep): Link
    requires CanTake(cfg, l, step)
  {
    match step
    case Use(st) => l.(now := Next(cfg, l.now, st))
    case CloseSocket => l.(open := false)
    case OpenSocket(fd) =>
      Link(Start(fd).(pcs := l.now.pcs), true, l.past + [Ended(l.now)])
    case ReadPast(k, size) => l.(past := l.past[k := Next(cfg, l.past[k], Read(size))])
  }

  function LinkRuns(cfg: Config, l: Link, steps: seq<LinkStep>): Link
    decreases |steps|
  {
    if steps == [] then l
    else LinkRuns(cfg, if CanTake(cfg, l, steps[0]) then After(cfg, l, steps[0]) else l, steps[1..])
  }

  // ---------- what every run keeps ----------

  ghost predicate AllSane(cfg: Config, l: Link) {
    && Inv(cfg, l.now)
    && forall k | 0 <= k < |l.past| :: Inv(cfg, l.past[k]) && l.past[k].lock.Free?
  }

  // A connection ends between two sends.
  lemma EndedSane(cfg: Config, s: System)
    requires Inv(cfg, s) && s.lock.Free?
    ensures Inv(cfg, Ended(s))
  {
    hide Pieces, Follows, Messages;
    assert forall t :: PcOf(Ended(s), t) == Idle;
  }

  // The next one starts with nothing on its wire, and nobody in the middle of a send.
  lemma ReopenedSane(cfg: Config, s: System, fd: nat)
    requires Inv(cfg, s) && s.lock.Free?
    ensures Inv(cfg, Start(fd).(pcs := s.pcs))
  {
    var s' := Start(fd).(pcs := s.pcs);
    assert forall t :: PcOf(s', t) == PcOf(s, t);
    FollowsFromStart(cfg, s'.reader.chan, s'.wire);
    assert Messages([]) == [];
  }

  lemma StepKeepsSane(cfg: Config, l: Link, step: LinkStep)
    requires AllSane(cfg, l) && CanTake(cfg, l, step)
    ensures AllSane(cfg, After(cfg, l, step))
  {
    hide Inv, Enabled, Next;
    match step
    case Use(st) => NextKeepsInv(cfg, l.now, st);
    case CloseSocket =>
    case OpenSocket(fd) =>
      EndedSane(cfg, l.now);
      ReopenedSane(cfg, l.now, fd);
    case ReadPast(k, size) =>
      NextKeepsInv(cfg, l.past[k], Read(size));
      ReadKeepsLock(cfg, l.past[k], size);
  }

  lemma ReadKeepsLock(cfg: Config, s: System, size: pos)
    requires Enabled(cfg, s, Read(size))
    ensures Next(cfg, s, Read(size)).lock == s.lock
  {
  }

  lemma {:induction false} LinkRunsKeepSane(cfg: Config, l: Link, steps: seq<LinkStep>)
    requires AllSane(cfg, l)
    ensures AllSane(cfg, LinkRuns(cfg, l, steps))
    decreases |steps|
  {
    hide AllSane, After, CanTake;
    if steps != [] {
      if CanTake(cfg, l, steps[0]) {
        StepKeepsSane(cfg, l, steps[0]);
        LinkRunsKeepSane(cfg, After(cfg, l, steps[0]), steps[1..]);
      } else {
        LinkRunsKeepSane(cfg, l, steps[1..]);
      }
    }
  }

  /** A channel can always be closed and opened again when nobody is in the middle of a send: the old
      connection is kept as it was, the new one has nothing on it, and the threads that wait to send wait
      for the new one. */
  lemma ReopenGoesOn(cfg: Config, l: Link, fd: nat)
    requires l.open && l.now.lock.Free?
    ensures var l' := LinkRuns(cfg, l, [CloseSocket] + [OpenSocket(fd)]);
      && l'.open && l'.past == l.past + [Ended(l.now)]
      && l'.now.wire == [] && l'.now.history == [] && l'.now.acquired == []
      && l'.now.reader == Reader(Chan(fd, [], []), 0, false)
      && l'.now.pcs == l.now.pcs && l'.now.lock.Free?
  {
    var steps := [CloseSocket] + [OpenSocket(fd)];
    assert steps[0] == CloseSocket && steps[1..] == [OpenSocket(fd)] && steps[1..][1..] == [];
    var l1 := After(cfg, l, CloseSocket);
    var l2 := After(cfg, l1, OpenSocket(fd));
    assert LinkRuns(cfg, l, steps) == LinkRuns(cfg, l1, steps[1..]);
    assert LinkRuns(cfg, l1, steps[1..]) == LinkRuns(cfg, l2, steps[1..][1..]);
  }

  /** A closed socket: nothing reaches the wire until the next connection. */
  lemma ClosedWritesNothing(cfg: Config, l: Link, step: LinkStep)
    requires CanTake(cfg, l, step) && !l.open && !step.OpenSocket?
    ensures After(cfg, l, step).now.wire == l.now.wire
  {
    hide Part, ReadStream;
    if step.Use? && step.step.TrySend? {
      var pc := PcOf(l.now, step.step.t);
      assert Part(cfg.magic, pc)[pc.sent..pc.sent] == [];
      assert l.now.wire + [] == l.now.wire;
    }
  }

  // Every connection there has been.
  function Each(l: Link): seq<System> {
    l.past + [l.now]
  }

  /** What one connection owes to its own sends alone. Its wire is what each of them has written of its
      frame, so it begins at a frame boundary; until its receiver reads a byte behind a torn frame of
      this connection, it has dispatched exactly the messages that it has read whole, in lock order; and
      a result of 0 on it means delivery unless the send completed behind a torn frame of this
      connection. */
  ghost predicate StandsAlone(cfg: Config, c: System) {
    && c.wire == Pieces(cfg.magic, c.history) + CurrentBytes(cfg, c)
    && (c.reader.read <= SafeEnd(cfg, c) && AllAcceptable(cfg, c.acquired) ==>
          && !c.reader.failed
          && c.reader.chan.log
             == Dispatched(cfg.ops, OnWire(c)[..WholeFrames(cfg.magic, OnWire(c), c.reader.read)])
          && (c.reader.read == |c.wire| && Current(c) == [] ==>
                c.reader.chan.log == Dispatched(cfg.ops, Completed(c.history))))
    && (HistoryAcceptable(cfg, c.history) && NoneCompletesBehindTorn(c.history) ==>
          ZeroMeansDelivered(cfg, c))
  }

  lemma SaneStandsAlone(cfg: Config, c: System)
    requires Inv(cfg, c)
    ensures StandsAlone(cfg, c)
  {
    assert PiecesOnWire(cfg, c);
    hide Inv, Pieces, CurrentBytes, SafeEnd, AllAcceptable, OnWire, WholeFrames, Dispatched, Completed;
    hide HistoryAcceptable, NoneCompletesBehindTorn, ZeroMeansDelivered, FirstTorn, Delivered, Current;
    if c.reader.read <= SafeEnd(cfg, c) && AllAcceptable(cfg, c.acquired) {
      DeliveredIsCut(cfg, c);
    }
    if HistoryAcceptable(cfg, c.history) {
      WorthOfZero(cfg, c);
    }
  }

  /** A torn frame harms no other connection. In every interleaving of any number of threads that send
      with closing and opening the socket, and with the receivers of all connections: each connection
      stands alone. */
  lemma EveryConnectionStandsAlone(cfg: Config, fd: nat, steps: seq<LinkStep>)
    ensures var l := LinkRuns(cfg, Link(Start(fd), true, []), steps);
      forall c | c in Each(l) :: StandsAlone(cfg, c)
  {
    hide LinkRuns, StandsAlone, Inv;
    StartIsInv(cfg, fd);
    LinkRunsKeepSane(cfg, Link(Start(fd), true, []), steps);
    var l := LinkRuns(cfg, Link(Start(fd), true, []), steps);
    forall c | c in Each(l)
      ensures StandsAlone(cfg, c)
    {
      var k :| 0 <= k < |Each(l)| && Each(l)[k] == c;
      assert Inv(cfg, c);
      SaneStandsAlone(cfg, c);
    }
  }
}
