/** Everything that happens to the channel array, interleaved (src/gep_channel_array.cc). A broadcast
    holds gep_channel_vector_lock_ from its first send to its last, and each of its sends is a step.
    RecvData takes the lock twice, to select a channel and to erase it if it has failed, and receives in
    between without it: three steps, between which others may send, accept, broadcast or stop. At the
    far end of each wire there is a client that reads. */
module Concurrent {
  import opened Bytes
  import opened Protocol
  import opened Framing
  import opened FullSend
  import opened Channel
  import opened Descriptors
  import opened Registry
  import Array = Registry

  // Who holds the vector lock across steps: nobody, or a broadcast about to send to channel `next`.
  datatype Phase = Unlocked | Broadcasting(msg: Msg, next: nat)

  /** Where the service thread is in RecvData: not in it, holding the channel it has selected, or about
      to erase it. */
  datatype Service = Elsewhere | Selected(id: nat) | Failed(id: nat)

  datatype System = System(
    reg: Registry,
    orphan: seq<Entry>,         // the channel in service if the vector no longer has it, kept alive by it
    service: Service,
    phase: Phase,
    all: seq<Msg>,              // every message ever broadcast, in the order the lock was taken
    joined: map<nat, nat>,      // for each identifier, how many broadcasts had begun when it was added
    left: map<nat, nat>,        // and when it was removed from the vector
    wires: map<nat, seq<byte>>, // for each identifier, the bytes sent on its connection
    far: map<nat, Reader>)      // and the client at the other end of it

  datatype Step =
    | Begin(msg: Msg)
    | SendNext(e: SendEnv)
    | End
    | SendTo(msg: Msg, id: int, e: SendEnv)
    | OpenServer(how: Listen)
    | Accept(conn: Array.Accept)
    | StopAll
    | Select(ready: set<int>)
    | Handle(recv: Recvd)
    | Erase
    | FarRead(client: nat, size: pos)

  ghost predicate CanStep(s: System, step: Step) {
    match step
    case Begin(_) => s.phase.Unlocked?
    case SendNext(e) =>
      && s.phase.Broadcasting? && s.phase.next < |s.reg.vec|
      && SendRun(s.phase.msg, e).code.Returns?
    case End => s.phase.Broadcasting? && s.phase.next >= |s.reg.vec|
    case SendTo(msg, _, e) => s.phase.Unlocked? && SendRun(msg, e).code.Returns?
    case OpenServer(how) => Enabled(s.reg, Array.OpenServer(how))
    case Accept(conn) => s.phase.Unlocked? && Enabled(s.reg, AcceptOne(conn))
    case StopAll => s.phase.Unlocked?
    case Select(_) => s.phase.Unlocked? && s.service.Elsewhere?
    case Handle(_) => s.service.Selected?
    case Erase => s.phase.Unlocked? && s.service.Failed?
    case FarRead(id, _) =>
      id in s.far && id in s.wires && !s.far[id].failed && s.far[id].read < |s.wires[id]|
  }

  function Succeeds(msg: Msg, e: SendEnv): bool {
    SendRun(msg, e).code == Returns(0)
  }

  // The first channel with the identifier, or the size of the vector.
  function IndexOf(vec: seq<Entry>, id: nat): (i: nat)
    ensures i <= |vec|
    ensures i < |vec| ==> vec[i].id == id
    ensures forall j | 0 <= j < i :: vec[j].id != id
  {
    if vec == [] || vec[0].id == id then 0 else 1 + IndexOf(vec[1..], id)
  }

  function HandledEntry(cfg: Config, e: Entry, recv: Recvd): Entry {
    e.(chan := AfterRecv(cfg, e.chan, recv).0, got := e.got + Taken(e.chan, recv))
  }

  // Neither the broadcasts nor the wires nor the clients are touched.
  predicate SameOutside(s: System, s': System) {
    && s'.phase == s.phase && s'.all == s.all && s'.joined == s.joined && s'.left == s.left
    && s'.wires == s.wires && s'.far == s.far
  }

  // The service thread lets go of its channel; if it was the last to hold it, the channel is closed.
  function Released(s: System): (s': System)
    ensures SameOutside(s, s') && s'.reg.vec == s.reg.vec
  {
    if s.orphan == [] then s.(service := Elsewhere)
    else
      var e := s.orphan[0];
      s.(service := Elsewhere, orphan := [],
         reg := s.reg.(gone := s.reg.gone + [e], fds := s.reg.fds + [Closed(e.chan.socket)]))
  }

  function AfterHandle(cfg: Config, s: System, recv: Recvd): (s': System)
    requires s.service.Selected?
    ensures SameOutside(s, s') && |s'.reg.vec| == |s.reg.vec|
    ensures forall i | 0 <= i < |s.reg.vec| ::
              s'.reg.vec[i].id == s.reg.vec[i].id && s'.reg.vec[i].out == s.reg.vec[i].out
  {
    var i := IndexOf(s.reg.vec, s.service.id);
    if s.orphan != [] then
      Received(s.(orphan := [HandledEntry(cfg, s.orphan[0], recv)]),
               AfterRecv(cfg, s.orphan[0].chan, recv).1)
    else if i < |s.reg.vec| then
      Received(s.(reg := s.reg.(vec := s.reg.vec[i := HandledEntry(cfg, s.reg.vec[i], recv)])),
               AfterRecv(cfg, s.reg.vec[i].chan, recv).1)
    else Released(s)
  }

  // `if (ret < 0)`
  function Received(s: System, ret: int): (s': System)
    requires s.service.Selected?
    ensures SameOutside(s, s') && s'.reg.vec == s.reg.vec
  {
    if ret < 0 then s.(service := Failed(s.service.id)) else Released(s)
  }

  function AfterErase(s: System): (s': System)
    requires s.service.Failed?
    ensures SameOutside(s, s')
  {
    var i := IndexOf(s.reg.vec, s.service.id);
    if i < |s.reg.vec| then
      s.(service := Elsewhere, reg := AfterDeath(s.reg, i, s.reg.vec[i]))
    else Released(s)
  }

  // Stop, when the service thread holds the channel at i: all others are destroyed.
  function AfterStopBut(r: Registry, i: nat): Registry
    requires i < |r.vec|
  {
    var others := r.vec[..i] + r.vec[i + 1..];
    r.(server := -1, vec := [], gone := r.gone + others, events := r.events + Dels(r.vec),
       fds := r.fds + (if r.server >= 0 then [Closed(r.server)] else []) + Closes(others))
  }

  function AfterStopAll(s: System): (s': System)
    ensures SameOutside(s, s') && s'.reg.vec == []
  {
    var i := if s.service.Elsewhere? then |s.reg.vec| else IndexOf(s.reg.vec, s.service.id);
    if i < |s.reg.vec| then s.(orphan := [s.reg.vec[i]], reg := AfterStopBut(s.reg, i))
    else s.(reg := AfterStop(s.reg))
  }

  // With a note of how much had been broadcast when the channels left the vector.
  function Erased(s: System): System
    requires s.service.Failed?
  {
    AfterErase(s).(left := if IndexOf(s.reg.vec, s.service.id) < |s.reg.vec|
                           then s.left[s.service.id := |s.all|] else s.left)
  }

  function Stopped(s: System): System {
    AfterStopAll(s).(left := s.left + map id | id in Ids(s.reg.vec) :: |s.all|)
  }

  function Append(wires: map<nat, seq<byte>>, id: nat, bytes: seq<byte>): map<nat, seq<byte>> {
    if id in wires then wires[id := wires[id] + bytes] else wires
  }

  const FAR_END := Reader(Chan(0, [], []), 0, false)

  ghost function Next(cfg: Config, peer: Config, s: System, step: Step): System
    requires CanStep(s, step)
  {
    match step
    case Begin(msg) => s.(all := s.all + [msg], phase := Broadcasting(msg, 0))
    case SendNext(e) =>
      var n, msg := s.phase.next, s.phase.msg;
      s.(reg := s.reg.(vec := SendToMember(s.reg.vec, n, msg, Succeeds(msg, e))),
         wires := if s.reg.vec[n].chan.socket != -1
                  then Append(s.wires, s.reg.vec[n].id, Written(cfg.magic, msg, e)) else s.wires,
         phase := Broadcasting(msg, n + 1))
    case End => s.(phase := Unlocked)
    case SendTo(msg, id, e) =>
      var k := FirstOpen(s.reg.vec, id);
      s.(reg := s.reg.(vec := AfterSendOne(s.reg.vec, msg, id, Succeeds(msg, e))),
         wires := if k < |s.reg.vec| then Append(s.wires, s.reg.vec[k].id, Written(cfg.magic, msg, e))
                  else s.wires)
    case OpenServer(how) => s.(reg := AfterOpenServer(s.reg, how))
    case Accept(conn) =>
      var s' := s.(reg := AfterAccept(s.reg, conn));
      var id := s.reg.nextId;
      if s'.reg.nextId == id then s'
      else s'.(joined := s.joined[id := |s.all|], wires := s.wires[id := []], far := s.far[id := FAR_END])
    case StopAll => Stopped(s)
    case Select(ready) =>
      var i := FirstReady(s.reg.vec, ready);
      if i < |s.reg.vec| then s.(service := Selected(s.reg.vec[i].id)) else s
    case Handle(recv) => AfterHandle(cfg, s, recv)
    case Erase => Erased(s)
    case FarRead(id, size) =>
      s.(far := s.far[id := ReadStream(peer, s.far[id], s.wires[id], [size])])
  }

  // A run; steps that cannot be taken are skipped.
  ghost function Runs(cfg: Config, peer: Config, s: System, steps: seq<Step>): System
    decreases |steps|
  {
    if steps == [] then s
    else Runs(cfg, peer, if CanStep(s, steps[0]) then Next(cfg, peer, s, steps[0]) else s, steps[1..])
  }

  function New(max: int): System {
    System(NewRegistry(max), [], Elsewhere, Unlocked, [], map[], map[], map[], map[])
  }

  // ---------- what every run keeps ----------

  // The registry as if the orphan's descriptor belonged to nobody.
  function View(s: System): Registry {
    s.reg.(refused := s.reg.refused + Sockets(s.orphan))
  }

  /** The channel in service is in the vector, or out of it and owned by the service thread alone. */
  ghost predicate ServiceSane(s: System) {
    && |s.orphan| <= 1
    && (s.service.Elsewhere? ==> s.orphan == [])
    && (!s.service.Elsewhere? ==>
          if s.orphan == [] then s.service.id in Ids(s.reg.vec)
          else s.orphan[0].id == s.service.id && s.service.id !in Ids(s.reg.vec))
    && (s.orphan != [] ==>
          && 0 <= s.orphan[0].chan.socket && s.orphan[0].chan.socket !in s.reg.refused
          && s.orphan[0].id < s.reg.nextId)
  }

  // A channel is in step with its stream unless its receive has just failed.
  ghost predicate EntrySane(cfg: Config, service: Service, e: Entry) {
    if service == Failed(e.id) then DispatchedOwn(cfg, e) else InSync(cfg, e.chan, [], e.got)
  }

  ghost predicate StreamsSane(cfg: Config, s: System) {
    && (forall i | 0 <= i < |s.reg.vec| :: EntrySane(cfg, s.service, s.reg.vec[i]))
    && (forall i | 0 <= i < |s.orphan| :: EntrySane(cfg, s.service, s.orphan[i]))
    && (forall i | 0 <= i < |s.reg.gone| :: DispatchedOwn(cfg, s.reg.gone[i]))
  }

  ghost predicate Inv(cfg: Config, s: System) {
    IdsSane(s.reg) && FdsSane(View(s)) && ServiceSane(s) && StreamsSane(cfg, s)
  }

  lemma IndexOfLive(r: Registry, id: nat)
    requires IdsSane(r)
    ensures IndexOf(r.vec, id) < |r.vec| <==> id in Ids(r.vec)
  {
    hide IndexOf;
    var i := IndexOf(r.vec, id);
    if i < |r.vec| {
      assert Ids(r.vec)[i] == id;
    }
    forall j | 0 <= j < |r.vec|
      ensures Ids(r.vec)[j] == r.vec[j].id
    {
    }
  }

  // Steps that leave every identifier, socket and stream where it was.
  lemma ShapeKeepsInv(cfg: Config, s: System, s': System)
    requires Inv(cfg, s)
    requires s'.reg == s.reg.(vec := s'.reg.vec) && s'.orphan == s.orphan
    requires |s'.reg.vec| == |s.reg.vec| && forall i | 0 <= i < |s.reg.vec| ::
               s'.reg.vec[i].id == s.reg.vec[i].id
               && s'.reg.vec[i].chan.socket == s.reg.vec[i].chan.socket
    requires ServiceSane(s.(service := s'.service)) && StreamsSane(cfg, s')
    ensures Inv(cfg, s')
  {
    hide FdsSane, IdsSane, StreamsSane;
    ViewSane(s);
    SameShape(View(s), View(s'));
    ViewSane(s');
    assert Ids(s'.reg.vec) == Ids(s.reg.vec);
  }

  lemma ViewSane(s: System)
    ensures IdsSane(s.reg) <==> IdsSane(View(s))
  {
  }

  lemma SendKeepsInv(cfg: Config, s: System, s': System)
    requires Inv(cfg, s)
    requires s'.reg == s.reg.(vec := s'.reg.vec) && s'.orphan == s.orphan && s'.service == s.service
    requires |s'.reg.vec| == |s.reg.vec| && forall i | 0 <= i < |s.reg.vec| ::
               s'.reg.vec[i] == s.reg.vec[i].(out := s'.reg.vec[i].out)
    ensures Inv(cfg, s')
  {
    hide FdsSane, IdsSane, InSync;
    assert StreamsSane(cfg, s') by {
      forall i | 0 <= i < |s'.reg.vec|
        ensures EntrySane(cfg, s'.service, s'.reg.vec[i])
      {
        assert EntrySane(cfg, s.service, s.reg.vec[i]);
      }
    }
    ShapeKeepsInv(cfg, s, s');
  }

  // A channel that has received is in step, or has failed having dispatched its own bytes.
  lemma HandledSane(cfg: Config, e: Entry, recv: Recvd)
    requires InSync(cfg, e.chan, [], e.got)
    ensures var e' := HandledEntry(cfg, e, recv);
      && e'.id == e.id && e'.out == e.out && e'.chan.socket == e.chan.socket
      && DispatchedOwn(cfg, e')
      && (AfterRecv(cfg, e.chan, recv).1 >= 0 ==> InSync(cfg, e'.chan, [], e'.got))
  {
    hide InSync, AfterRecv;
    RecvKeepsSync(cfg, e.chan, [], e.got, recv);
  }

  lemma SyncDispatchedOwn(cfg: Config, e: Entry)
    requires InSync(cfg, e.chan, [], e.got)
    ensures DispatchedOwn(cfg, e)
  {
  }

  lemma ReleaseKeepsFds(r: Registry, fd: int, gone: seq<Entry>)
    requires FdsSane(r.(refused := r.refused + {fd})) && fd !in r.refused
    ensures FdsSane(r.(gone := gone, fds := r.fds + [Closed(fd)]))
  {
    hide OpenFds, ClosesAreOfOpen;
    FdsLast(r.fds, Closed(fd));
  }

  // Letting go of a channel that is no longer in the vector closes it.
  lemma ReleasedKeepsInv(cfg: Config, s: System)
    requires IdsSane(s.reg) && FdsSane(View(s)) && ServiceSane(s)
    requires forall i | 0 <= i < |s.reg.vec| :: InSync(cfg, s.reg.vec[i].chan, [], s.reg.vec[i].got)
    requires forall i | 0 <= i < |s.orphan| :: DispatchedOwn(cfg, s.orphan[i])
    requires forall i | 0 <= i < |s.reg.gone| :: DispatchedOwn(cfg, s.reg.gone[i])
    ensures Inv(cfg, Released(s))
  {
    hide InSync, DispatchedOwn, IdsSane, FdsSane, Sockets;
    var s' := Released(s);
    SocketsOfNone();
    if s.orphan == [] {
      assert View(s') == View(s);
    } else {
      var e := s.orphan[0];
      assert s.orphan == [e] && s'.reg == s.reg.(gone := s'.reg.gone, fds := s'.reg.fds);
      OneSocket(e);
      assert View(s) == s.reg.(refused := s.reg.refused + {e.chan.socket});
      ReleaseKeepsFds(s.reg, e.chan.socket, s'.reg.gone);
      SameIds(s.reg, s'.reg);
      assert View(s') == s'.reg.(refused := s.reg.refused);
    }
  }

  lemma OneSocket(e: Entry)
    ensures Sockets([e]) == {e.chan.socket}
  {
    assert [e][0] == e;
  }

  lemma HandleKeepsInv(cfg: Config, s: System, recv: Recvd)
    requires Inv(cfg, s) && s.service.Selected?
    ensures Inv(cfg, AfterHandle(cfg, s, recv))
  {
    hide IdsSane, FdsSane, InSync, DispatchedOwn, AfterRecv, HandledEntry, IndexOf, Released;
    var i := IndexOf(s.reg.vec, s.service.id);
    IndexOfLive(s.reg, s.service.id);
    forall k | 0 <= k < |s.reg.vec|
      ensures InSync(cfg, s.reg.vec[k].chan, [], s.reg.vec[k].got)
    {
      assert EntrySane(cfg, s.service, s.reg.vec[k]);
    }
    if s.orphan != [] {
      OrphanHandled(cfg, s, recv);
    } else {
      var e := s.reg.vec[i];
      HandledSane(cfg, e, recv);
      var s1 := s.(reg := s.reg.(vec := s.reg.vec[i := HandledEntry(cfg, e, recv)]));
      if AfterRecv(cfg, e.chan, recv).1 < 0 {
        OnlyOne(s.reg, i);
        var s2 := s1.(service := Failed(s.service.id));
        ShapeKeepsInv(cfg, s, s2);
      } else {
        ShapeKeepsInv(cfg, s, s1);
        ReleasedKeepsInv(cfg, s1);
      }
    }
  }

  // No other channel has the identifier of the one at i.
  lemma OnlyOne(r: Registry, i: nat)
    requires IdsSane(r) && i < |r.vec|
    ensures forall k | 0 <= k < |r.vec| && k != i :: r.vec[k].id != r.vec[i].id
  {
  }

  lemma OrphanHandled(cfg: Config, s: System, recv: Recvd)
    requires Inv(cfg, s) && s.service.Selected? && s.orphan != []
    ensures Inv(cfg, AfterHandle(cfg, s, recv))
  {
    hide IdsSane, FdsSane, InSync, DispatchedOwn, AfterRecv, HandledEntry, IndexOf, Released;
    var e := s.orphan[0];
    assert EntrySane(cfg, s.service, e);
    HandledSane(cfg, e, recv);
    var s1 := s.(orphan := [HandledEntry(cfg, e, recv)]);
    OneSocket(e);
    OneSocket(s1.orphan[0]);
    assert s.orphan == [e] && View(s1) == View(s);
    forall k | 0 <= k < |s.reg.vec|
      ensures s.reg.vec[k].id != s.service.id
      ensures InSync(cfg, s.reg.vec[k].chan, [], s.reg.vec[k].got)
    {
      assert Ids(s.reg.vec)[k] == s.reg.vec[k].id;
      assert EntrySane(cfg, s.service, s.reg.vec[k]);
    }
    if AfterRecv(cfg, e.chan, recv).1 < 0 {
      var s2 := s1.(service := Failed(s.service.id));
      assert StreamsSane(cfg, s2);
      assert View(s2) == View(s);
    } else {
      ReleasedKeepsInv(cfg, s1);
    }
  }

  // The channel in service, wherever it is.
  function InService(s: System): Entry
    requires s.orphan != [] || (!s.service.Elsewhere? && IndexOf(s.reg.vec, s.service.id) < |s.reg.vec|)
  {
    if s.orphan != [] then s.orphan[0] else s.reg.vec[IndexOf(s.reg.vec, s.service.id)]
  }

  /** The channel in service receives, also when it has left the vector meanwhile. If that fails, it waits
      to be erased; else the service thread lets go of it, which closes it if it has left. */
  lemma HandleServes(cfg: Config, s: System, recv: Recvd)
    requires Inv(cfg, s) && s.service.Selected?
    ensures s.orphan != [] || IndexOf(s.reg.vec, s.service.id) < |s.reg.vec|
    ensures var s', e := AfterHandle(cfg, s, recv), InService(s);
      var got := e.got + Taken(e.chan, recv);
      if !recv.Data? || Parse(cfg, got).verdict.Rejected? then
        && s'.service == Failed(s.service.id) && s'.reg.fds == s.reg.fds
        && (s'.orphan != [] <==> s.orphan != [])
        && (s'.orphan != [] ==> s'.orphan[0].got == got)
        && (s'.orphan == [] ==> s'.reg.vec[IndexOf(s.reg.vec, s.service.id)].got == got)
      else
        && s'.service.Elsewhere? && s'.orphan == []
        && (s.orphan != [] ==>
              && s'.reg.fds == s.reg.fds + [Closed(e.chan.socket)]
              && |s'.reg.gone| == |s.reg.gone| + 1 && s'.reg.gone[|s.reg.gone|].got == got)
        && (s.orphan == [] ==>
              && s'.reg.fds == s.reg.fds
              && s'.reg.vec[IndexOf(s.reg.vec, s.service.id)].got == got)
  {
    hide IdsSane, FdsSane, InSync, AfterRecv, IndexOf, Parse, Taken, DispatchedOwn, Sockets;
    IndexOfLive(s.reg, s.service.id);
    var e := InService(s);
    assert EntrySane(cfg, s.service, e);
    hide Inv, Ids;
    RecvKeepsSync(cfg, e.chan, [], e.got, recv);
  }

  lemma EraseKeepsInv(cfg: Config, s: System)
    requires Inv(cfg, s) && s.service.Failed?
    ensures Inv(cfg, AfterErase(s))
  {
    hide IdsSane, FdsSane, InSync, DispatchedOwn, IndexOf, Released;
    var i := IndexOf(s.reg.vec, s.service.id);
    IndexOfLive(s.reg, s.service.id);
    forall k | 0 <= k < |s.reg.vec|
      ensures EntrySane(cfg, s.service, s.reg.vec[k])
    {
    }
    if i < |s.reg.vec| {
      OnlyOne(s.reg, i);
      var s' := AfterErase(s);
      ViewSane(s);
      DeathKeepsIds(s.reg, i, s.reg.vec[i]);
      DeathKeepsFds(View(s), i, s.reg.vec[i]);
      assert View(s') == AfterDeath(View(s), i, s.reg.vec[i]);
      assert EntrySane(cfg, s.service, s.reg.vec[i]);
      assert s'.reg.vec == s.reg.vec[..i] + s.reg.vec[i + 1..];
      assert StreamsSane(cfg, s');
    } else {
      forall k | 0 <= k < |s.reg.vec|
        ensures InSync(cfg, s.reg.vec[k].chan, [], s.reg.vec[k].got)
      {
        assert Ids(s.reg.vec)[k] == s.reg.vec[k].id;
      }
      ReleasedKeepsInv(cfg, s);
    }
  }

  // Stopping while the service thread holds a channel reports all clients and closes all others.
  lemma StopButKeepsFds(r: Registry, i: nat)
    requires FdsSane(r) && i < |r.vec|
    ensures var fd := r.vec[i].chan.socket;
      && fd >= 0 && fd !in r.refused
      && FdsSane(AfterStopBut(r, i).(refused := r.refused + {fd}))
  {
    hide OpenFds, ClosesAreOfOpen;
    var others, fd := r.vec[..i] + r.vec[i + 1..], r.vec[i].chan.socket;
    assert fd in Sockets(r.vec);
    SocketsOfRest(r.vec, i);
    var fds := r.fds;
    if r.server >= 0 {
      FdsLast(r.fds, Closed(r.server));
      fds := r.fds + [Closed(r.server)];
    } else {
      assert r.fds + [] == r.fds;
    }
    assert OpenFds(fds) == Sockets(others) + (r.refused + {fd});
    ClosesOfAll(fds, others, r.refused + {fd});
    SocketsOfNone();
  }

  lemma StopButKeepsIds(r: Registry, i: nat)
    requires IdsSane(r) && i < |r.vec|
    ensures IdsSane(AfterStopBut(r, i))
  {
    StopKeepsIds(r);
  }

  lemma StopKeepsInv(cfg: Config, s: System)
    requires Inv(cfg, s)
    ensures Inv(cfg, AfterStopAll(s))
  {
    hide IdsSane, FdsSane, InSync, DispatchedOwn, IndexOf, AfterStopBut, AfterStop;
    var i := if s.service.Elsewhere? then |s.reg.vec| else IndexOf(s.reg.vec, s.service.id);
    var s' := AfterStopAll(s);
    if !s.service.Elsewhere? {
      IndexOfLive(s.reg, s.service.id);
    }
    if i < |s.reg.vec| {
      OnlyOne(s.reg, i);
      StopButKeepsIds(s.reg, i);
      StopButKeepsFds(View(s), i);
      SocketsOfNone();
      OneSocket(s.reg.vec[i]);
      StopButShape(s, i);
      EntryBelowNext(s.reg, i);
      OthersDispatched(cfg, s, i);
      assert EntrySane(cfg, s.service, s.reg.vec[i]);
    } else {
      StopKeepsIds(s.reg);
      StopKeepsFds(View(s));
      StopShape(s);
      OthersDispatched(cfg, s, i);
    }
  }

  lemma EntryBelowNext(r: Registry, i: nat)
    requires IdsSane(r) && i < |r.vec|
    ensures r.vec[i].id < r.nextId
  {
  }

  // The channels that go with the vector have dispatched their own bytes.
  lemma OthersDispatched(cfg: Config, s: System, i: nat)
    requires IdsSane(s.reg) && StreamsSane(cfg, s) && i <= |s.reg.vec|
    requires s.service.Elsewhere? || i == IndexOf(s.reg.vec, s.service.id)
    ensures forall k | 0 <= k < |s.reg.vec| && k != i :: DispatchedOwn(cfg, s.reg.vec[k])
  {
    hide InSync, DispatchedOwn, IndexOf, IdsSane;
    if i < |s.reg.vec| {
      OnlyOne(s.reg, i);
    }
    forall k | 0 <= k < |s.reg.vec| && k != i
      ensures DispatchedOwn(cfg, s.reg.vec[k])
    {
      assert EntrySane(cfg, s.service, s.reg.vec[k]);
      if s.service != Failed(s.reg.vec[k].id) {
        SyncDispatchedOwn(cfg, s.reg.vec[k]);
      }
    }
  }

  lemma StopButShape(s: System, i: nat)
    requires ServiceSane(s) && !s.service.Elsewhere? && s.orphan == []
    requires i == IndexOf(s.reg.vec, s.service.id) < |s.reg.vec|
    ensures var s', e := AfterStopAll(s), s.reg.vec[i];
      && s'.orphan == [e] && s'.service == s.service && s'.reg == AfterStopBut(s.reg, i)
      && s'.reg.vec == [] && s'.reg.nextId == s.reg.nextId && s'.reg.refused == s.reg.refused
      && s'.reg.gone == s.reg.gone + (s.reg.vec[..i] + s.reg.vec[i + 1..])
      && View(s') == AfterStopBut(View(s), i).(refused := s.reg.refused + Sockets([e]))
      && View(s).refused == s.reg.refused
      && Ids(s'.reg.vec) == []
  {
    SocketsOfNone();
    assert s.reg.refused + Sockets([]) == s.reg.refused;
  }

  lemma StopShape(s: System)
    requires !(if s.service.Elsewhere? then false else IndexOf(s.reg.vec, s.service.id) < |s.reg.vec|)
    ensures var s' := AfterStopAll(s);
      && s' == s.(reg := AfterStop(s.reg)) && s'.reg.vec == [] && Ids(s'.reg.vec) == []
      && s'.reg.gone == s.reg.gone + s.reg.vec && s'.reg.nextId == s.reg.nextId
      && s'.reg.refused == s.reg.refused
      && View(s') == AfterStop(View(s))
  {
  }

  lemma AcceptKeepsInv(cfg: Config, s: System, s': System, conn: Array.Accept)
    requires Inv(cfg, s) && Enabled(s.reg, AcceptOne(conn))
    requires s'.reg == AfterAccept(s.reg, conn) && s'.orphan == s.orphan && s'.service == s.service
    ensures Inv(cfg, s')
  {
    hide FdsSane, InSync, DispatchedOwn, OpenFds, IdsSane;
    AcceptKeepsFds(View(s), conn);
    if conn.Accepted? {
      var r1 := s.reg.(fds := s.reg.fds + [Opened(conn.fd)]);
      SameIds(s.reg, r1);
      AddKeepsIds(r1, conn.fd);
      OrphanOpen(s);
      StartsInSync(cfg, Chan(conn.fd, [], []));
      AcceptView(s, s', conn);
      if s.service.Failed? {
        IdBelowNext(s);
      }
      assert StreamsSane(cfg, s') by {
        forall i | 0 <= i < |s'.reg.vec|
          ensures EntrySane(cfg, s'.service, s'.reg.vec[i])
        {
          if i < |s.reg.vec| {
            assert EntrySane(cfg, s.service, s.reg.vec[i]);
          }
        }
      }
      AcceptServiceSane(s, s', conn);
    }
  }

  lemma IdBelowNext(s: System)
    requires IdsSane(s.reg) && ServiceSane(s) && !s.service.Elsewhere?
    ensures s.service.id < s.reg.nextId
  {
  }

  // The orphan's descriptor is open.
  lemma OrphanOpen(s: System)
    requires FdsSane(View(s)) && ServiceSane(s)
    ensures s.orphan != [] ==> s.orphan[0].chan.socket in OpenFds(s.reg.fds)
  {
    if s.orphan != [] {
      assert s.orphan[0].chan.socket in Sockets(s.orphan);
    }
  }

  lemma AcceptView(s: System, s': System, conn: Array.Accept)
    requires s'.reg == AfterAccept(s.reg, conn) && s'.orphan == s.orphan
    ensures View(s') == AfterAccept(View(s), conn)
  {
    if conn.Accepted? && Full(s.reg.max, |s.reg.vec|) {
      assert (s.reg.refused + {conn.fd}) + Sockets(s.orphan)
          == (s.reg.refused + Sockets(s.orphan)) + {conn.fd};
    }
  }

  lemma AcceptServiceSane(s: System, s': System, conn: Array.Accept)
    requires ServiceSane(s) && IdsSane(s.reg) && conn.Accepted?
    requires s.orphan != [] ==> s.orphan[0].chan.socket != conn.fd
    requires s'.reg == AfterAccept(s.reg, conn) && s'.orphan == s.orphan && s'.service == s.service
    ensures ServiceSane(s')
  {
    hide IdsSane;
    if |s'.reg.vec| > |s.reg.vec| {
      assert Ids(s'.reg.vec) == Ids(s.reg.vec) + [s.reg.nextId];
    } else {
      assert s'.reg.vec == s.reg.vec;
    }
  }

  lemma OpenServerKeepsInv(cfg: Config, s: System, s': System, how: Listen)
    requires Inv(cfg, s) && Enabled(s.reg, Array.OpenServer(how))
    requires s'.reg == AfterOpenServer(s.reg, how) && s'.orphan == s.orphan && s'.service == s.service
    ensures Inv(cfg, s')
  {
    hide FdsSane, InSync, DispatchedOwn, OpenFds;
    OpenServerKeepsFds(View(s), how);
    assert View(s') == AfterOpenServer(View(s), how);
  }

  lemma SelectKeepsInv(cfg: Config, s: System, i: nat)
    requires Inv(cfg, s) && s.service.Elsewhere? && i < |s.reg.vec|
    ensures Inv(cfg, s.(service := Selected(s.reg.vec[i].id)))
  {
    hide FdsSane, InSync, DispatchedOwn, IdsSane;
    var s' := s.(service := Selected(s.reg.vec[i].id));
    assert Ids(s.reg.vec)[i] == s.reg.vec[i].id;
    forall k | 0 <= k < |s.reg.vec|
      ensures EntrySane(cfg, s'.service, s.reg.vec[k])
    {
      assert EntrySane(cfg, s.service, s.reg.vec[k]);
    }
    assert View(s') == View(s);
  }

  // Only the array, the orphan and the service thread matter.
  lemma RestIsFree(cfg: Config, s: System, s': System)
    requires Inv(cfg, s) && s'.reg == s.reg && s'.orphan == s.orphan && s'.service == s.service
    ensures Inv(cfg, s')
  {
    hide FdsSane, InSync, DispatchedOwn, IdsSane;
    assert View(s') == View(s);
  }

  lemma StepKeepsInv(cfg: Config, peer: Config, s: System, step: Step)
    requires Inv(cfg, s) && CanStep(s, step)
    ensures Inv(cfg, Next(cfg, peer, s, step))
  {
    hide Inv, AfterHandle, AfterErase, AfterStopAll, Written, SendRun, AfterAccept, AfterOpenServer;
    hide ReadStream, AfterSendOne;
    var s' := Next(cfg, peer, s, step);
    match step
    case SendNext(e) =>
      SendKeepsInv(cfg, s, s');
    case SendTo(msg, id, e) =>
      SendOneShape(s.reg.vec, msg, id, Succeeds(msg, e));
      SendKeepsInv(cfg, s, s');
    case OpenServer(how) => OpenServerKeepsInv(cfg, s, s', how);
    case Accept(conn) => AcceptKeepsInv(cfg, s, s', conn);
    case StopAll =>
      StopKeepsInv(cfg, s);
      RestIsFree(cfg, AfterStopAll(s), s');
    case Select(ready) =>
      var i := FirstReady(s.reg.vec, ready);
      if i < |s.reg.vec| {
        SelectKeepsInv(cfg, s, i);
      }
    case Handle(recv) => HandleKeepsInv(cfg, s, recv);
    case Erase =>
      EraseKeepsInv(cfg, s);
      RestIsFree(cfg, AfterErase(s), s');
    case _ => RestIsFree(cfg, s, s');
  }

  lemma SendOneShape(vec: seq<Entry>, msg: Msg, id: int, ok: bool)
    ensures var v := AfterSendOne(vec, msg, id, ok);
      |v| == |vec| && forall i | 0 <= i < |vec| :: v[i] == vec[i].(out := v[i].out)
  {
  }

  /** Every interleaving keeps identifiers, descriptors and streams in order, also while the service
      thread is between its critical sections. */
  lemma {:induction false} RunsKeepInv(cfg: Config, peer: Config, s: System, steps: seq<Step>)
    requires Inv(cfg, s)
    ensures Inv(cfg, Runs(cfg, peer, s, steps))
    decreases |steps|
  {
    hide Inv, Next;
    if steps != [] {
      if CanStep(s, steps[0]) {
        StepKeepsInv(cfg, peer, s, steps[0]);
        RunsKeepInv(cfg, peer, Next(cfg, peer, s, steps[0]), steps[1..]);
      } else {
        RunsKeepInv(cfg, peer, s, steps[1..]);
      }
    }
  }

  lemma StartKeepsInv(cfg: Config, max: int)
    ensures Inv(cfg, New(max))
  {
    NewIsInv(cfg, max);
    SocketsOfNone();
    assert View(New(max)) == NewRegistry(max);
  }

  /** In every interleaving: AddClient is called once for each identifier and DelClient at most once,
      exactly for those no longer in the vector, although a channel may leave it while the service
      thread is about to erase it. Every descriptor is closed at most once for each time it is opened;
      those open are the server's, one for each channel in the vector, the one still in service, and
      those refused. */
  lemma EveryClientEndsOnce(cfg: Config, peer: Config, max: int, steps: seq<Step>, id: nat)
    ensures var s := Runs(cfg, peer, New(max), steps);
      && multiset(Added(s.reg.events))[id] == (if id < s.reg.nextId then 1 else 0)
      && multiset(Deleted(s.reg.events))[id]
         == (if id < s.reg.nextId && id !in Ids(s.reg.vec) then 1 else 0)
      && ClosesAreOfOpen(s.reg.fds)
      && OpenFds(s.reg.fds) == Sockets(s.reg.vec) + Sockets(s.orphan) + s.reg.refused
                               + (if s.reg.server >= 0 then {s.reg.server} else {})
      && (s.service.Elsewhere? ==> s.orphan == [])
  {
    hide Runs, Added, Deleted, Live, Inv, OpenFds, ClosesAreOfOpen;
    var s := Runs(cfg, peer, New(max), steps);
    StartKeepsInv(cfg, max);
    RunsKeepInv(cfg, peer, New(max), steps);
    assert IdsSane(s.reg) && FdsSane(View(s)) && ServiceSane(s) by { PartsOfInv(cfg, s); }
    EventsCount(s.reg, id);
  }

  lemma PartsOfInv(cfg: Config, s: System)
    requires Inv(cfg, s)
    ensures IdsSane(s.reg) && FdsSane(View(s)) && ServiceSane(s)
  {
  }

  /** Without anything in between, the three steps of RecvData are the one operation on the array. */
  lemma ThreeStepsAreReceive(cfg: Config, peer: Config, s: System, ready: set<int>, recv: Recvd)
    requires Inv(cfg, s) && s.service.Elsewhere? && s.phase.Unlocked?
    ensures var s' := Runs(cfg, peer, s, [Select(ready), Handle(recv), Erase]);
      s' == s.(reg := AfterReceive(cfg, s.reg, ready, recv), left := s'.left)
  {
    CanReceive(s, ready, recv);
    hide Runs, AfterRecv, Inv, IndexOf, Next, AfterReceive, HandledEntry, AfterDeath, CanStep;
    ReceiveInParts(cfg, s.reg, ready, recv);
    var i := FirstReady(s.reg.vec, ready);
    var s1 := Next(cfg, peer, s, Select(ready));
    CanReceive(s1, ready, recv);
    NextOfSelect(cfg, peer, s, ready);
    RunsThree(cfg, peer, s, Select(ready), Handle(recv), Erase);
    if i < |s.reg.vec| {
      var e := s.reg.vec[i];
      assert IdsSane(s.reg) && ServiceSane(s) by { PartsOfInv(cfg, s); }
      hide IdsSane, FirstReady;
      IndexOfThis(s.reg, i);
      NextOfHandle(cfg, peer, s1, recv);
      var s2 := Next(cfg, peer, s1, Handle(recv));
      CanReceive(s2, ready, recv);
      if AfterRecv(cfg, e.chan, recv).1 < 0 {
        NextOfErase(cfg, peer, s2);
        ErasedAfterHandling(cfg, s1, i, recv);
      }
    }
  }

  // When the three steps can be taken.
  lemma CanReceive(s: System, ready: set<int>, recv: Recvd)
    ensures CanStep(s, Select(ready)) <==> s.phase.Unlocked? && s.service.Elsewhere?
    ensures CanStep(s, Handle(recv)) <==> s.service.Selected?
    ensures CanStep(s, Erase) <==> s.phase.Unlocked? && s.service.Failed?
  {
  }

  lemma ReceiveInParts(cfg: Config, r: Registry, ready: set<int>, recv: Recvd)
    ensures var i := FirstReady(r.vec, ready);
      AfterReceive(cfg, r, ready, recv)
      == if i == |r.vec| then r
         else if AfterRecv(cfg, r.vec[i].chan, recv).1 < 0 then
           AfterDeath(r, i, HandledEntry(cfg, r.vec[i], recv))
         else r.(vec := r.vec[i := HandledEntry(cfg, r.vec[i], recv)])
  {
    hide AfterRecv, Taken, AfterDeath;
  }

  lemma IndexOfThis(r: Registry, i: nat)
    requires IdsSane(r) && i < |r.vec|
    ensures IndexOf(r.vec, r.vec[i].id) == i
  {
    IndexIs(r.vec, i);
  }

  // A receive that fails, and the channel erased at once.
  lemma ErasedAfterHandling(cfg: Config, s: System, i: nat, recv: Recvd)
    requires i < |s.reg.vec| && IdsSane(s.reg) && s.orphan == []
    requires s.service == Selected(s.reg.vec[i].id) && AfterRecv(cfg, s.reg.vec[i].chan, recv).1 < 0
    ensures var s2 := AfterHandle(cfg, s, recv);
      && s2.service.Failed?
      && AfterErase(s2) == s.(service := Elsewhere,
           reg := AfterDeath(s.reg, i, HandledEntry(cfg, s.reg.vec[i], recv)))
  {
    hide AfterRecv, Taken, IndexOf;
    var e' := HandledEntry(cfg, s.reg.vec[i], recv);
    IndexIs(s.reg.vec, i);
    RecvKeepsSocket(cfg, s.reg.vec[i].chan, recv);
    IndexIs(s.reg.vec[i := e'], i);
    DeathAfterHandling(s.reg, i, e');
  }

  /** Whenever nobody holds the lock, each operation of the array can be taken as a step, and does what
      it does by itself; and a client with unread bytes on its wire can read them. */
  lemma OperationsAreSteps(cfg: Config, peer: Config, s: System, op: Array.Op)
    requires s.phase.Unlocked? && Enabled(s.reg, op)
    ensures match op
            case OpenServer(how) =>
              && CanStep(s, Step.OpenServer(how))
              && Next(cfg, peer, s, Step.OpenServer(how)).reg == Array.Next(cfg, s.reg, op)
            case AcceptOne(conn) =>
              && CanStep(s, Accept(conn))
              && Next(cfg, peer, s, Accept(conn)).reg == Array.Next(cfg, s.reg, op)
            case SendOne(msg, id, ok) =>
              forall e | SendRun(msg, e).code.Returns? && ok == Succeeds(msg, e) ::
                && CanStep(s, SendTo(msg, id, e))
                && Next(cfg, peer, s, SendTo(msg, id, e)).reg == Array.Next(cfg, s.reg, op)
            case StopAll =>
              && CanStep(s, Step.StopAll)
              && (s.service.Elsewhere? ==>
                    Next(cfg, peer, s, Step.StopAll).reg == Array.Next(cfg, s.reg, op))
            case _ => true
  {
    hide SendRun, Written, Append;
  }

  lemma ClientsCanRead(cfg: Config, peer: Config, s: System, id: nat, size: pos)
    requires id in s.far && id in s.wires && !s.far[id].failed && s.far[id].read < |s.wires[id]|
    ensures CanStep(s, FarRead(id, size))
    ensures Next(cfg, peer, s, FarRead(id, size)).far[id] == ReadStream(peer, s.far[id], s.wires[id], [size])
  {
  }

  // The sends of a broadcast that are still to come, and its end.
  function SendSteps(from: nat, n: nat, envs: nat -> SendEnv): seq<Step>
    requires from <= n
    decreases n - from
  {
    if from == n then [End] else [SendNext(envs(from))] + SendSteps(from + 1, n, envs)
  }

  // The next step of a broadcast.
  lemma BroadcastSteps(cfg: Config, peer: Config, s: System, e: SendEnv)
    requires s.phase.Broadcasting? && SendRun(s.phase.msg, e).code.Returns?
    ensures s.phase.next >= |s.reg.vec| ==>
              CanStep(s, End) && Next(cfg, peer, s, End) == s.(phase := Unlocked)
    ensures var n, msg := s.phase.next, s.phase.msg;
      n < |s.reg.vec| ==>
        && CanStep(s, SendNext(e))
        && var s' := Next(cfg, peer, s, SendNext(e));
        && s'.reg == s.reg.(vec := SendToMember(s.reg.vec, n, msg, Succeeds(msg, e)))
        && s'.phase == Broadcasting(msg, n + 1) && s'.all == s.all
        && s'.orphan == s.orphan && s'.service == s.service
  {
    hide SendRun, Written, Append, SendToMember;
  }

  lemma {:induction false} BroadcastGoesOn(cfg: Config, peer: Config, s: System, msg: Msg, from: nat,
                                           envs: nat -> SendEnv)
    requires from <= |s.reg.vec| && s.phase == Broadcasting(msg, from)
    requires forall i: nat :: SendRun(msg, envs(i)).code.Returns?
    ensures var s' := Runs(cfg, peer, s, SendSteps(from, |s.reg.vec|, envs));
      && s'.reg == s.reg.(vec := AfterSendAll(s.reg.vec, from, msg, Oks(msg, envs)))
      && s'.phase.Unlocked? && s'.all == s.all && s'.orphan == s.orphan && s'.service == s.service
    decreases |s.reg.vec| - from
  {
    hide SendRun, AfterSendAll, Next, CanStep, SendToMember;
    var n, steps := |s.reg.vec|, SendSteps(from, |s.reg.vec|, envs);
    SendAllFrom(s.reg.vec, from, msg, Oks(msg, envs));
    BroadcastSteps(cfg, peer, s, envs(from));
    if from == n {
      assert steps == [End] && steps[1..] == [];
      assert Runs(cfg, peer, s, steps) == Runs(cfg, peer, Next(cfg, peer, s, End), []);
    } else {
      var step := SendNext(envs(from));
      assert steps[0] == step && steps[1..] == SendSteps(from + 1, n, envs);
      var s1 := Next(cfg, peer, s, step);
      assert Succeeds(msg, envs(from)) == Oks(msg, envs)(from);
      BroadcastGoesOn(cfg, peer, s1, msg, from + 1, envs);
    }
  }

  /** With nothing in between, the steps of a broadcast are the one operation of the array. */
  lemma BroadcastIsSendAll(cfg: Config, peer: Config, s: System, msg: Msg, envs: nat -> SendEnv)
    requires s.phase.Unlocked? && forall i: nat :: SendRun(msg, envs(i)).code.Returns?
    ensures var s' := Runs(cfg, peer, s, [Begin(msg)] + SendSteps(0, |s.reg.vec|, envs));
      && s'.reg == s.reg.(vec := AfterSendAll(s.reg.vec, 0, msg, Oks(msg, envs)))
      && s'.phase.Unlocked? && s'.all == s.all + [msg]
      && s'.orphan == s.orphan && s'.service == s.service
  {
    hide SendRun, Written, Append, AfterSendAll;
    var steps := [Begin(msg)] + SendSteps(0, |s.reg.vec|, envs);
    assert steps[0] == Begin(msg) && steps[1..] == SendSteps(0, |s.reg.vec|, envs);
    BroadcastGoesOn(cfg, peer, Next(cfg, peer, s, Begin(msg)), msg, 0, envs);
  }

  lemma NextOfSelect(cfg: Config, peer: Config, s: System, ready: set<int>)
    requires s.service.Elsewhere? && s.phase.Unlocked?
    ensures var i := FirstReady(s.reg.vec, ready);
      Next(cfg, peer, s, Select(ready))
      == if i < |s.reg.vec| then s.(service := Selected(s.reg.vec[i].id)) else s
  {
  }

  lemma NextOfHandle(cfg: Config, peer: Config, s: System, recv: Recvd)
    requires s.service.Selected?
    ensures Next(cfg, peer, s, Handle(recv)) == AfterHandle(cfg, s, recv)
  {
  }

  lemma NextOfErase(cfg: Config, peer: Config, s: System)
    requires s.service.Failed? && s.phase.Unlocked?
    ensures var s' := Next(cfg, peer, s, Erase);
      s' == AfterErase(s).(left := s'.left)
  {
  }

  lemma IndexIs(vec: seq<Entry>, i: nat)
    requires i < |vec| && forall j, k | 0 <= j < k < |vec| :: vec[j].id < vec[k].id
    ensures IndexOf(vec, vec[i].id) == i
  {
    hide IndexOf;
  }

  lemma RunsThree(cfg: Config, peer: Config, s: System, a: Step, b: Step, c: Step)
    ensures var s1 := if CanStep(s, a) then Next(cfg, peer, s, a) else s;
      var s2 := if CanStep(s1, b) then Next(cfg, peer, s1, b) else s1;
      Runs(cfg, peer, s, [a, b, c]) == if CanStep(s2, c) then Next(cfg, peer, s2, c) else s2
  {
    hide Next, CanStep;
    assert [a, b, c][1..] == [b, c] && [b, c][1..] == [c];
    var s1 := if CanStep(s, a) then Next(cfg, peer, s, a) else s;
    var s2 := if CanStep(s1, b) then Next(cfg, peer, s1, b) else s1;
    assert Runs(cfg, peer, s2, [c]) == if CanStep(s2, c) then Next(cfg, peer, s2, c) else s2;
    assert Runs(cfg, peer, s1, [b, c]) == Runs(cfg, peer, s2, [c]);
  }
}
