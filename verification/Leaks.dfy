/** What becomes of the descriptors that accept() returns, src/gep_channel_array.cc: the one of a client
    that is refused because the vector is full is never closed. */
module Leaks {
  import opened Protocol
  import opened Channel
  import opened Descriptors
  import opened Registry

  // No close has followed the opening that event k records.
  ghost predicate StillOpen(fds: seq<FdEvent>, k: nat)
    requires k < |fds| && fds[k].Opened?
  {
    Closed(fds[k].fd) !in fds[k + 1..]
  }

  // An operation only appends to the log of descriptors.
  lemma LogGrows(cfg: Config, r: Registry, op: Op)
    ensures r.fds <= Next(cfg, r, op).fds
  {
    hide AfterRecv, Taken;
  }

  lemma ServerAndRefusedOpen(r: Registry, fd: int)
    requires FdsSane(r) && fd in r.refused
    ensures fd in OpenFds(r.fds) && fd != r.server && fd !in Sockets(r.vec)
  {
  }

  lemma NotAmongCloses(vec: seq<Entry>, fd: int)
    ensures Closed(fd) in Closes(vec) <==> fd in Sockets(vec)
  {
    if fd in Sockets(vec) {
      var i :| 0 <= i < |vec| && vec[i].chan.socket == fd;
      assert Closes(vec)[i] == Closed(fd);
    }
  }

  // A refused descriptor stays refused, and no operation closes it.
  lemma RefusedStays(cfg: Config, r: Registry, op: Op, fd: int)
    requires Inv(cfg, r) && Enabled(r, op) && fd in r.refused
    ensures fd in Next(cfg, r, op).refused
    ensures Closed(fd) !in Next(cfg, r, op).fds[|r.fds|..]
  {
    hide AfterRecv, Taken, OpenFds, ClosesAreOfOpen, IdsSane, ChannelsInSync, Closes, Dels;
    ServerAndRefusedOpen(r, fd);
    var r' := Next(cfg, r, op);
    match op
    case StopAll =>
      hide FdsSane;
      NotAmongCloses(r.vec, fd);
    case Receive(ready, recv) =>
      var i := FirstReady(r.vec, ready);
      if i < |r.vec| {
        assert r.vec[i].chan.socket in Sockets(r.vec);
      }
    case _ =>
  }

  lemma ReceiveKeepsOrCloses(cfg: Config, r: Registry, ready: set<int>, recv: Recvd, k: nat)
    requires k < |r.vec|
    ensures var r', fd := AfterReceive(cfg, r, ready, recv), r.vec[k].chan.socket;
      fd in Sockets(r'.vec) || Closed(fd) in r'.fds[|r.fds|..]
  {
    hide AfterRecv, Taken;
    var r', fd := AfterReceive(cfg, r, ready, recv), r.vec[k].chan.socket;
    var i := FirstReady(r.vec, ready);
    if i < |r.vec| {
      RecvKeepsSocket(cfg, r.vec[i].chan, recv);
      if AfterRecv(cfg, r.vec[i].chan, recv).1 < 0 {
        if k == i {
          assert r'.fds[|r.fds|] == Closed(fd);
        } else {
          assert r'.vec[if k < i then k else k - 1] == r.vec[k];
        }
      } else {
        assert r'.vec[k].chan.socket == fd;
      }
    } else {
      assert r'.vec[k].chan.socket == fd;
    }
  }

  // A channel's descriptor stays its own until it is closed.
  lemma AdmittedStaysOrCloses(cfg: Config, r: Registry, op: Op, fd: int)
    requires fd in Sockets(r.vec)
    ensures fd in Sockets(Next(cfg, r, op).vec) || Closed(fd) in Next(cfg, r, op).fds[|r.fds|..]
  {
    hide AfterRecv, Taken, Closes, Dels;
    var k :| 0 <= k < |r.vec| && r.vec[k].chan.socket == fd;
    var r' := Next(cfg, r, op);
    match op
    case StopAll =>
      NotAmongCloses(r.vec, fd);
      assert r'.fds[|r.fds|..]
          == (if r.server >= 0 then [Closed(r.server)] else []) + Closes(r.vec);
    case Receive(ready, recv) =>
      ReceiveKeepsOrCloses(cfg, r, ready, recv, k);
    case SendAll(msg, oks) =>
      SendAllReachesAll(r.vec, 0, msg, oks);
      assert r'.vec[k].chan.socket == fd;
    case SendOne(msg, id, ok) =>
      assert r'.vec[k].chan.socket == fd;
    case _ =>
      assert r'.vec[k] == r.vec[k];
  }

  lemma {:induction false} RefusedForGood(cfg: Config, r: Registry, ops: seq<Op>, fd: int)
    requires Inv(cfg, r) && fd in r.refused
    ensures var r' := Run(cfg, r, ops);
      Inv(cfg, r') && fd in r'.refused && r.fds <= r'.fds && Closed(fd) !in r'.fds[|r.fds|..]
    decreases |ops|
  {
    hide Inv, Next, Enabled;
    if ops != [] {
      if Enabled(r, ops[0]) {
        var r1 := Next(cfg, r, ops[0]);
        LogGrows(cfg, r, ops[0]);
        RefusedStays(cfg, r, ops[0], fd);
        NextKeepsInv(cfg, r, ops[0]);
        RefusedForGood(cfg, r1, ops[1..], fd);
        var r' := Run(cfg, r1, ops[1..]);
        assert r'.fds[|r.fds|..] == r1.fds[|r.fds|..] + r'.fds[|r1.fds|..];
      } else {
        RefusedForGood(cfg, r, ops[1..], fd);
      }
    }
  }

  lemma {:induction false} AdmittedUntilClosed(cfg: Config, r: Registry, ops: seq<Op>, fd: int)
    requires fd in Sockets(r.vec)
    ensures var r' := Run(cfg, r, ops);
      r.fds <= r'.fds && (fd in Sockets(r'.vec) || Closed(fd) in r'.fds[|r.fds|..])
    decreases |ops|
  {
    hide Next, Enabled, Sockets;
    if ops != [] {
      if Enabled(r, ops[0]) {
        var r1 := Next(cfg, r, ops[0]);
        LogGrows(cfg, r, ops[0]);
        AdmittedStaysOrCloses(cfg, r, ops[0], fd);
        var r' := Run(cfg, r1, ops[1..]);
        RunGrows(cfg, r1, ops[1..]);
        assert r'.fds[|r.fds|..] == r1.fds[|r.fds|..] + r'.fds[|r1.fds|..];
        if fd in Sockets(r1.vec) {
          AdmittedUntilClosed(cfg, r1, ops[1..], fd);
        }
      } else {
        AdmittedUntilClosed(cfg, r, ops[1..], fd);
      }
    }
  }

  lemma {:induction false} RunGrows(cfg: Config, r: Registry, ops: seq<Op>)
    ensures r.fds <= Run(cfg, r, ops).fds
    decreases |ops|
  {
    hide Next, Enabled;
    if ops != [] {
      if Enabled(r, ops[0]) {
        LogGrows(cfg, r, ops[0]);
        RunGrows(cfg, Next(cfg, r, ops[0]), ops[1..]);
      } else {
        RunGrows(cfg, r, ops[1..]);
      }
    }
  }

  /** Which accepted descriptors leak. Whatever happened before a client is accepted and whatever
      happens after it, once the array is stopped its descriptor is still open if and only if the
      vector was full when it was accepted. */
  lemma AcceptedLeaksIffFull(cfg: Config, max: int, before: seq<Op>, fd: nat, after: seq<Op>)
    requires Enabled(Run(cfg, NewRegistry(max), before), AcceptOne(Accepted(fd)))
    ensures var r := Run(cfg, NewRegistry(max), before);
      var end := AfterStop(Run(cfg, AfterAccept(r, Accepted(fd)), after));
      && |r.fds| < |end.fds| && end.fds[|r.fds|] == Opened(fd)
      && (StillOpen(end.fds, |r.fds|) <==> Full(max, |r.vec|))
  {
    hide Run, Inv, Sockets, Enabled;
    var r := Run(cfg, NewRegistry(max), before);
    NewIsInv(cfg, max);
    RunKeepsInv(cfg, NewRegistry(max), before);
    RunKeepsMax(cfg, NewRegistry(max), before);
    var r1 := AfterAccept(r, Accepted(fd));
    assert r1 == Next(cfg, r, AcceptOne(Accepted(fd)));
    NextKeepsInv(cfg, r, AcceptOne(Accepted(fd)));
    var r2 := Run(cfg, r1, after);
    var end := AfterStop(r2);
    RunGrows(cfg, r1, after);
    assert end == Next(cfg, r2, StopAll);
    LogGrows(cfg, r2, StopAll);
    assert r1.fds == r.fds + [Opened(fd)];
    assert end.fds[|r.fds| + 1..] == r2.fds[|r1.fds|..] + end.fds[|r2.fds|..];
    if Full(r.max, |r.vec|) {
      RefusedForGood(cfg, r1, after, fd);
      assert Enabled(r2, StopAll) by { StopIsEnabled(r2); }
      RefusedStays(cfg, r2, StopAll, fd);
    } else {
      SocketsOfMore(r.vec, r1.vec[|r.vec|]);
      AdmittedUntilClosed(cfg, r1, after, fd);
      if fd in Sockets(r2.vec) {
        AdmittedStaysOrCloses(cfg, r2, StopAll, fd);
        assert fd !in Sockets(end.vec) by { SocketsOfNone(); }
      }
    }
  }

  lemma StopIsEnabled(r: Registry)
    ensures Enabled(r, StopAll)
  {
  }

  // ---------- the leak can be reached ----------

  // That many clients, each with a descriptor of its own.
  function Arrivals(n: nat): seq<Op> {
    if n == 0 then [] else Arrivals(n - 1) + [AcceptOne(Accepted(n - 1))]
  }

  lemma {:induction false} RunAppend(cfg: Config, r: Registry, a: seq<Op>, b: seq<Op>)
    ensures Run(cfg, r, a + b) == Run(cfg, Run(cfg, r, a), b)
    decreases |a|
  {
    if a == [] {
      assert a + b == b;
    } else {
      assert (a + b)[0] == a[0] && (a + b)[1..] == a[1..] + b;
      RunAppend(cfg, if Enabled(r, a[0]) then Next(cfg, r, a[0]) else r, a[1..], b);
    }
  }

  lemma RunOne(cfg: Config, r: Registry, op: Op)
    requires Enabled(r, op)
    ensures Run(cfg, r, [op]) == Next(cfg, r, op)
  {
    assert Run(cfg, r, [op]) == Run(cfg, Next(cfg, r, op), [op][1..]);
  }

  lemma {:induction false} ArrivalsRun(cfg: Config, max: int, n: nat)
    requires 0 <= max && n <= max + 1
    ensures var r := Run(cfg, NewRegistry(max), Arrivals(n));
      && r.max == max
      && |r.vec| == (if n <= max then n else max)
      && (r.refused == {} <==> n <= max)
      && forall fd | fd in OpenFds(r.fds) :: fd < n
  {
    hide Run, OpenFds;
    if n == 0 {
      assert Run(cfg, NewRegistry(max), []) == NewRegistry(max) by { RunNone(cfg, NewRegistry(max)); }
      assert OpenFds([]) == {} by { NoneOpen(); }
    } else {
      ArrivalsRun(cfg, max, n - 1);
      var r := Run(cfg, NewRegistry(max), Arrivals(n - 1));
      var op := AcceptOne(Accepted(n - 1));
      RunAppend(cfg, NewRegistry(max), Arrivals(n - 1), [op]);
      RunOne(cfg, r, op);
      FdsLast(r.fds, Opened(n - 1));
    }
  }

  lemma RunNone(cfg: Config, r: Registry)
    ensures Run(cfg, r, []) == r
  {
  }

  lemma NoneOpen()
    ensures OpenFds([]) == {}
  {
  }

  lemma {:induction false} NegativeNeverRefuses(cfg: Config, r: Registry, ops: seq<Op>)
    requires r.max < 0 && r.refused == {}
    ensures Run(cfg, r, ops).refused == {}
    decreases |ops|
  {
    if ops != [] {
      NegativeNeverRefuses(cfg, if Enabled(r, ops[0]) then Next(cfg, r, ops[0]) else r, ops[1..]);
    }
  }

  /** A descriptor can leak if and only if the limit is not negative, whatever it is. */
  lemma LeakIsReachableIffLimited(cfg: Config, max: int)
    ensures (exists ops :: Run(cfg, NewRegistry(max), ops).refused != {}) <==> max >= 0
  {
    if max >= 0 {
      ArrivalsRun(cfg, max, max + 1);
    } else {
      forall ops
        ensures Run(cfg, NewRegistry(max), ops).refused == {}
      {
        NegativeNeverRefuses(cfg, NewRegistry(max), ops);
      }
    }
  }
}
