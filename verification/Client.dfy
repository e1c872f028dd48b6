/** The client's connection life cycle, src/gep_client.cc: start, receive, fail, close, reconnect,
    stop. `Client` and the functions on it specify the class `GepClient`. */
module Client {
  import opened Bytes
  import opened Protocol
  import opened Framing
  import opened Channel
  import opened Descriptors

  // The service thread: not there, in its loop with its own copy of the socket, or past it.
  datatype Thread = NoThread | InLoop(socket: int) | Exited

  /** One turn of the service loop as the environment makes it go: thread_ctrl_ as read at the head
      and after select, how a reconnect would fare, what select reports and what recv finds. */
  datatype Turn = Turn(ctrl: bool, how: Connect, selectFails: bool, ctrlAfter: bool, ready: bool,
                       recv: Recvd)

  datatype Client = Client(
    chan: Chan,
    thread: Thread,
    reconnects: nat,
    sessions: seq<seq<byte>>,  // the bytes received on each connection ever opened
    startedAt: nat,            // how many connections there had been before the last Start
    failures: nat,             // failed calls of RecvData since the last Start
    fds: seq<FdEvent>)         // descriptors opened and closed by the channel

  datatype Op = Start(how: Connect) | Service(turn: Turn) | Stop

  predicate Enabled(c: Client, op: Op) {
    match op
    case Start(_) => c.thread.NoThread?
    case Service(_) => c.thread.InLoop?
    case Stop => !c.thread.NoThread?
  }

  function AfterStart(c: Client, how: Connect): Client {
    if how.Connected? then
      c.(chan := AfterOpen(c.chan, how), thread := InLoop(how.fd), sessions := c.sessions + [[]],
         startedAt := |c.sessions|, failures := 0, fds := c.fds + Opening(how))
    else c.(fds := c.fds + Opening(how))
  }

  function AfterStop(c: Client): Client {
    c.(chan := AfterClose(c.chan), thread := NoThread, reconnects := 0,
       fds := c.fds + Closing(c.chan))
  }

  function AfterReconnect(c: Client, how: Connect): Client {
    var chan := AfterOpen(c.chan, how);
    if how.Connected? then
      c.(chan := chan, reconnects := c.reconnects + 1, sessions := c.sessions + [[]],
         fds := c.fds + Opening(how))
    else c.(fds := c.fds + Opening(how))
  }

  // RecvData in the service loop, and what the loop does about its result.
  function AfterReady(cfg: Config, c: Client, recv: Recvd): Client
    requires c.sessions != []
  {
    var (chan, ret) := AfterRecv(cfg, c.chan, recv);
    var last := |c.sessions| - 1;
    var c' := c.(sessions := c.sessions[..last] + [c.sessions[last] + Taken(c.chan, recv)]);
    if ret < 0 then
      c'.(chan := AfterClose(chan), thread := InLoop(-1), failures := c.failures + 1,
          fds := c.fds + Closing(chan))
    else c'.(chan := chan)
  }

  function AfterTurn(cfg: Config, c: Client, t: Turn): Client
    requires c.thread.InLoop? && c.sessions != []
  {
    if !t.ctrl then c.(thread := Exited)
    else if c.thread.socket == -1 then
      var c' := AfterReconnect(c, t.how);
      c'.(thread := InLoop(c'.chan.socket))
    else if t.selectFails || !t.ctrlAfter then c.(thread := Exited)
    else if t.ready then AfterReady(cfg, c, t.recv)
    else c
  }

  function AfterTurns(cfg: Config, c: Client, turns: seq<Turn>): (c': Client)
    requires c.thread.InLoop? && c.sessions != []
    ensures c'.sessions != []
    decreases |turns|
  {
    if turns == [] then c
    else
      var next := AfterTurn(cfg, c, turns[0]);
      if next.thread.InLoop? then AfterTurns(cfg, next, turns[1..]) else next
  }

  function Next(cfg: Config, c: Client, op: Op): Client
    requires Enabled(c, op) && (op.Service? ==> c.sessions != [])
  {
    match op
    case Start(how) => AfterStart(c, how)
    case Service(t) => AfterTurn(cfg, c, t)
    case Stop => AfterStop(c)
  }

  const NEW_CLIENT := Client(Chan(-1, [], []), NoThread, 0, [], 0, 0, [])

  // A whole life of a client; operations out of their place are skipped.
  function Life(cfg: Config, c: Client, ops: seq<Op>): Client
    decreases |ops|
  {
    if ops == [] then c
    else if Enabled(c, ops[0]) && (ops[0].Service? ==> c.sessions != []) then
      Life(cfg, Next(cfg, c, ops[0]), ops[1..])
    else Life(cfg, c, ops[1..])
  }

  // ---------- what every life keeps ----------

  // What the connections dispatch when each is parsed by itself.
  function SessionsLog(cfg: Config, sessions: seq<seq<byte>>): seq<Msg> {
    if sessions == [] then []
    else
      var last := |sessions| - 1;
      SessionsLog(cfg, sessions[..last]) + Dispatched(cfg.ops, Parse(cfg, sessions[last]).frames)
  }

  /** Session isolation: every message dispatched comes from the parse of one connection's own bytes,
      the open connection is in step with its own bytes, and a closed channel holds no bytes. */
  ghost predicate Isolated(cfg: Config, c: Client) {
    && c.chan.socket >= -1
    && c.chan.log == SessionsLog(cfg, c.sessions)
    && (c.chan.socket == -1 ==> c.chan.pending == [])
    && (c.chan.socket != -1 ==>
          && c.sessions != []
          && var last := |c.sessions| - 1;
          InSync(cfg, c.chan, SessionsLog(cfg, c.sessions[..last]), c.sessions[last]))
  }

  /** Reconnect accounting: since Start, one connection for the start and one for each reconnect
      counted, and one receive failure for each reconnect, plus one while disconnected. */
  ghost predicate Accounted(c: Client) {
    if c.thread.NoThread? then c.chan.socket == -1 && c.reconnects == 0
    else
      && |c.sessions| == c.startedAt + 1 + c.reconnects
      && c.failures == c.reconnects + (if c.chan.socket == -1 then 1 else 0)
      && (c.thread.InLoop? ==> c.thread.socket == c.chan.socket)
  }

  /** The only descriptor open is the channel's, and every connection that ends is closed once. */
  ghost predicate OwnsItsSocket(c: Client) {
    && OpenFds(c.fds) == (if c.chan.socket == -1 then {} else {c.chan.socket})
    && ClosesAreOfOpen(c.fds)
  }

  ghost predicate Inv(cfg: Config, c: Client) {
    Isolated(cfg, c) && Accounted(c) && OwnsItsSocket(c)
  }

  lemma OpenOwns(c: Client, how: Connect, c': Client)
    requires OwnsItsSocket(c) && c.chan.socket == -1
    requires c'.chan == AfterOpen(c.chan, how) && c'.fds == c.fds + Opening(how)
    ensures OwnsItsSocket(c')
  {
    hide OpenFds, ClosesAreOfOpen;
    match how
    case NoSocket =>
      assert c'.fds == c.fds;
    case Connected(fd) =>
      FdsLast(c.fds, Opened(fd));
    case Refused(fd) =>
      FdsLast(c.fds, Opened(fd));
      FdsLast(c.fds + [Opened(fd)], Closed(fd));
      assert c'.fds == c.fds + [Opened(fd)] + [Closed(fd)];
  }

  lemma CloseOwns(c: Client, chan: Chan, c': Client)
    requires OwnsItsSocket(c) && chan.socket == c.chan.socket
    requires c'.chan == AfterClose(chan) && c'.fds == c.fds + Closing(chan)
    ensures OwnsItsSocket(c')
  {
    hide OpenFds, ClosesAreOfOpen;
    if chan.socket != -1 {
      FdsLast(c.fds, Closed(chan.socket));
    } else {
      assert c'.fds == c.fds;
    }
  }

  lemma SessionsLogLast(cfg: Config, sessions: seq<seq<byte>>, got: seq<byte>)
    ensures SessionsLog(cfg, sessions + [got])
         == SessionsLog(cfg, sessions) + Dispatched(cfg.ops, Parse(cfg, got).frames)
  {
    assert (sessions + [got])[..|sessions|] == sessions;
  }

  // A new connection starts with nothing in the buffer, although opening it clears nothing.
  lemma OpenIsolates(cfg: Config, c: Client, how: Connect, c': Client)
    requires Isolated(cfg, c) && c.chan.socket == -1 && how.Connected?
    requires c'.chan == AfterOpen(c.chan, how) && c'.sessions == c.sessions + [[]]
    ensures Isolated(cfg, c')
  {
    var last := |c.sessions|;
    assert c'.sessions[..last] == c.sessions;
    StartsInSync(cfg, c'.chan);
    SessionsLogLast(cfg, c.sessions, []);
    assert Dispatched(cfg.ops, Parse(cfg, []).frames) == [];
  }

  lemma ReadyIsolates(cfg: Config, c: Client, recv: Recvd)
    requires Isolated(cfg, c) && c.chan.socket != -1
    ensures Isolated(cfg, AfterReady(cfg, c, recv))
  {
    hide Parse, Dispatched;
    var last := |c.sessions| - 1;
    var base, got := SessionsLog(cfg, c.sessions[..last]), c.sessions[last];
    RecvKeepsSync(cfg, c.chan, base, got, recv);
    var got' := got + Taken(c.chan, recv);
    SessionsLogLast(cfg, c.sessions[..last], got');
    assert (c.sessions[..last] + [got'])[..last] == c.sessions[..last];
  }

  lemma NextKeepsInv(cfg: Config, c: Client, op: Op)
    requires Inv(cfg, c) && Enabled(c, op)
    ensures op.Service? ==> c.sessions != []
    ensures Inv(cfg, Next(cfg, c, op))
  {
    hide SessionsLog, InSync, OpenFds, ClosesAreOfOpen, Opening, Closing;
    var c' := Next(cfg, c, op);
    match op
    case Start(how) =>
      OpenOwns(c, how, c');
      if how.Connected? {
        OpenIsolates(cfg, c, how, c');
      }
    case Stop =>
      CloseOwns(c, c.chan, c');
    case Service(t) =>
      if t.ctrl {
        if c.thread.socket == -1 {
          OpenOwns(c, t.how, c');
          if t.how.Connected? {
            OpenIsolates(cfg, c, t.how, c');
          }
        } else if !t.selectFails && t.ctrlAfter && t.ready {
          ReadyIsolates(cfg, c, t.recv);
          RecvKeepsSocket(cfg, c.chan, t.recv);
          var (chan, ret) := AfterRecv(cfg, c.chan, t.recv);
          if ret < 0 {
            CloseOwns(c, chan, c');
          }
        }
      }
  }

  lemma {:induction false} LifeKeepsInv(cfg: Config, c: Client, ops: seq<Op>)
    requires Inv(cfg, c)
    ensures Inv(cfg, Life(cfg, c, ops))
    decreases |ops|
  {
    if ops != [] {
      if Enabled(c, ops[0]) {
        NextKeepsInv(cfg, c, ops[0]);
        LifeKeepsInv(cfg, Next(cfg, c, ops[0]), ops[1..]);
      } else {
        LifeKeepsInv(cfg, c, ops[1..]);
      }
    }
  }

  /** Over every life of a client, whatever the environment does: the messages dispatched are those
      of each connection's own bytes, in order, the counters add up, and the open descriptors are the
      channel's socket while it is connected and none otherwise. */
  lemma EveryLife(cfg: Config, ops: seq<Op>)
    ensures var c := Life(cfg, NEW_CLIENT, ops);
      && c.chan.log == SessionsLog(cfg, c.sessions)
      && (c.chan.socket == -1 ==> c.chan.pending == [])
      && (!c.thread.NoThread? ==>
            && |c.sessions| - c.startedAt == 1 + c.reconnects
            && c.failures == c.reconnects + (if c.chan.socket == -1 then 1 else 0))
      && (c.thread.InLoop? ==> c.thread.socket == c.chan.socket)
      && OpenFds(c.fds) == (if c.chan.socket == -1 then {} else {c.chan.socket})
      && ClosesAreOfOpen(c.fds)
  {
    LifeKeepsInv(cfg, NEW_CLIENT, ops);
  }

  // ---------- what each turn does ----------

  // The connection has been closed, and the loop knows.
  ghost predicate Disconnects(c: Client, c': Client) {
    && c'.chan.socket == -1 && c'.chan.pending == []
    && c'.thread == InLoop(-1)
    && c'.failures == c.failures + 1 && c'.reconnects == c.reconnects
    && c'.fds == c.fds + [Closed(c.chan.socket)]
  }

  // The connection goes on.
  ghost predicate StaysConnected(c: Client, c': Client) {
    && c'.chan.socket == c.chan.socket && c'.thread == c.thread
    && c'.failures == c.failures && c'.reconnects == c.reconnects && c'.fds == c.fds
  }

  /** A turn that finds the socket ready receives on it. If the peer has closed the connection, or recv
      fails, or the bytes of this connection are now such that the parser rejects them, the connection is
      closed, and otherwise it goes on. */
  lemma ReadyTurn(cfg: Config, c: Client, t: Turn)
    requires Inv(cfg, c) && c.thread.InLoop? && c.chan.socket != -1
    requires t.ctrl && !t.selectFails && t.ctrlAfter && t.ready
    ensures c.sessions != []
    ensures var c', last := AfterTurn(cfg, c, t), |c.sessions| - 1;
      var got := c.sessions[last] + Taken(c.chan, t.recv);
      && c'.sessions == c.sessions[..last] + [got]
      && (if !t.recv.Data? || Parse(cfg, got).verdict.Rejected? then Disconnects(c, c')
          else StaysConnected(c, c'))
  {
    hide Parse, Dispatched;
    var last := |c.sessions| - 1;
    RecvKeepsSync(cfg, c.chan, SessionsLog(cfg, c.sessions[..last]), c.sessions[last], t.recv);
  }

  /** A turn without a connection tries to open one, whatever select or the second look at thread_ctrl_
      would have said: a new connection has an empty buffer and counts as a reconnect, a failed attempt
      changes nothing and leaves the thread in its loop. */
  lemma DisconnectedTurn(cfg: Config, c: Client, t: Turn)
    requires Inv(cfg, c) && c.thread.InLoop? && c.chan.socket == -1 && c.sessions != [] && t.ctrl
    ensures var c' := AfterTurn(cfg, c, t);
      && c'.chan.log == c.chan.log && c'.chan.pending == [] && c'.failures == c.failures
      && match t.how
         case Connected(fd) =>
           && c'.chan.socket == fd && c'.thread == InLoop(fd)
           && c'.reconnects == c.reconnects + 1 && c'.sessions == c.sessions + [[]]
           && c'.fds == c.fds + [Opened(fd)]
         case Refused(fd) => c' == c.(fds := c.fds + [Opened(fd), Closed(fd)])
         case NoSocket => c' == c
  {
  }

  /** The thread leaves its loop exactly when it finds thread_ctrl_ cleared or select failing, and then
      leaves everything as it is; a turn in which the socket is not ready changes nothing. */
  lemma LeavesLoop(cfg: Config, c: Client, t: Turn)
    requires Inv(cfg, c) && c.thread.InLoop? && c.sessions != []
    ensures var c', connected := AfterTurn(cfg, c, t), c.chan.socket != -1;
      && (c'.thread.Exited? <==> !t.ctrl || (connected && (t.selectFails || !t.ctrlAfter)))
      && (c'.thread.Exited? ==> c' == c.(thread := Exited))
      && (connected && !c'.thread.Exited? && !t.ready ==> c' == c)
  {
  }

  /** Turns follow each other until the thread leaves its loop. */
  lemma {:induction false} TurnsCompose(cfg: Config, c: Client, a: seq<Turn>, b: seq<Turn>)
    requires c.thread.InLoop? && c.sessions != []
    ensures var c' := AfterTurns(cfg, c, a);
      AfterTurns(cfg, c, a + b) == if c'.thread.InLoop? then AfterTurns(cfg, c', b) else c'
    ensures |a| == 1 ==> AfterTurns(cfg, c, a) == AfterTurn(cfg, c, a[0])
    decreases |a|
  {
    hide AfterTurn;
    if a == [] {
      assert a + b == b;
    } else {
      assert (a + b)[0] == a[0] && (a + b)[1..] == a[1..] + b;
      var c1 := AfterTurn(cfg, c, a[0]);
      TurnKeepsSessions(cfg, c, a[0]);
      if c1.thread.InLoop? {
        TurnsCompose(cfg, c1, a[1..], b);
      }
    }
  }

  lemma TurnKeepsSessions(cfg: Config, c: Client, t: Turn)
    requires c.thread.InLoop? && c.sessions != []
    ensures AfterTurn(cfg, c, t).sessions != []
  {
  }

  /** Starting and stopping. A start that connects leaves the thread in its loop on that socket, and one
      that does not leaves the client as it was. After a stop the thread is gone, the channel is closed
      and holds nothing, and nothing is counted any more; its descriptor is closed if it was open. */
  lemma StartAndStop(c: Client, how: Connect)
    ensures var c' := AfterStart(c, how);
      match how
      case Connected(fd) =>
        && c'.chan == c.chan.(socket := fd) && c'.thread == InLoop(fd)
        && c'.sessions == c.sessions + [[]] && c'.startedAt == |c.sessions| && c'.failures == 0
        && c'.reconnects == c.reconnects && c'.fds == c.fds + [Opened(fd)]
      case Refused(fd) => c' == c.(fds := c.fds + [Opened(fd), Closed(fd)])
      case NoSocket => c' == c
    ensures var c' := AfterStop(c);
      && c'.thread.NoThread? && c'.chan.socket == -1 && c'.reconnects == 0
      && (c.chan.socket != -1 ==> c'.chan.pending == [] && c'.fds == c.fds + [Closed(c.chan.socket)])
      && (c.chan.socket == -1 ==> c'.chan == c.chan && c'.fds == c.fds)
      && c'.chan.log == c.chan.log && c'.sessions == c.sessions
  {
  }

  // What a client dispatches from streams of valid frames, of which each connection saw a part.
  function DeliveredParts(cfg: Config, streams: seq<seq<Msg>>, sessions: seq<seq<byte>>): seq<Msg>
    requires |streams| == |sessions|
  {
    if streams == [] then []
    else
      var last := |streams| - 1;
      var whole := WholeFrames(cfg.magic, streams[last], |sessions[last]|);
      DeliveredParts(cfg, streams[..last], sessions[..last])
      + Dispatched(cfg.ops, streams[last][..whole])
  }

  lemma {:induction false} PartsAreParsed(cfg: Config, streams: seq<seq<Msg>>, sessions: seq<seq<byte>>)
    requires |streams| == |sessions|
    requires forall i | 0 <= i < |streams| ::
               AllAcceptable(cfg, streams[i]) && sessions[i] <= EncodeAll(cfg.magic, streams[i])
    ensures SessionsLog(cfg, sessions) == DeliveredParts(cfg, streams, sessions)
  {
    hide Parse, Dispatched, EncodeAll, WholeFrames;
    if streams != [] {
      var last := |streams| - 1;
      PartsAreParsed(cfg, streams[..last], sessions[..last]);
      var all, got := EncodeAll(cfg.magic, streams[last]), sessions[last];
      assert all[..|got|] == got;
      ParseTruncated(cfg, streams[last], |got|);
    }
  }

  /** Zero-or-one delivery across reconnects: if what each connection received is the beginning of a
      stream of valid frames, wherever it broke off, then the callbacks have seen exactly the frames
      each connection received whole, once each and in order, and nothing in between. */
  lemma ZeroOrOneAcrossReconnects(cfg: Config, ops: seq<Op>, streams: seq<seq<Msg>>)
    requires var c := Life(cfg, NEW_CLIENT, ops);
      && |streams| == |c.sessions|
      && forall i | 0 <= i < |streams| ::
           AllAcceptable(cfg, streams[i]) && c.sessions[i] <= EncodeAll(cfg.magic, streams[i])
    ensures var c := Life(cfg, NEW_CLIENT, ops);
      c.chan.log == DeliveredParts(cfg, streams, c.sessions)
  {
    EveryLife(cfg, ops);
    PartsAreParsed(cfg, streams, Life(cfg, NEW_CLIENT, ops).sessions);
  }

  // ---------- the class ----------

  class GepClient {
    const gepChannel: GepChannel
    var threadCtrl: bool
    var reconnectCount: nat
    ghost var thread: Thread
    ghost var sessions: seq<seq<byte>>
    ghost var startedAt: nat
    ghost var failures: nat

    ghost predicate Valid()
      reads this, gepChannel
    {
      && gepChannel.Valid()
      && (thread.InLoop? ==> thread.socket == gepChannel.socket && sessions != [])
    }

    ghost function State(): Client
      reads this, gepChannel, gepChannel.buf
      requires Valid()
    {
      Client(gepChannel.State(), thread, reconnectCount, sessions, startedAt, failures, gepChannel.fds)
    }

    constructor (cfg: Config)
      ensures Valid() && fresh(gepChannel) && fresh(gepChannel.buf)
      ensures gepChannel.cfg == cfg && State() == NEW_CLIENT
    {
      gepChannel := new GepChannel(0, cfg, -1);
      threadCtrl, reconnectCount := false, 0;
      thread, sessions, startedAt, failures := NoThread, [], 0, 0;
    }

    method Start(how: Connect) returns (ret: int)
      requires Valid() && thread.NoThread?
      modifies this, gepChannel, gepChannel.io
      ensures how.Connected? ==> gepChannel.io.wire == []
      ensures Valid() && State() == AfterStart(old(State()), how)
      ensures ret == if how.Connected? then 0 else -1
      ensures how.Connected? ==> threadCtrl
    {
      var res := gepChannel.OpenClientSocket(how);
      if res < 0 {
        return -1;
      }
      threadCtrl := true;
      thread, startedAt, failures := InLoop(gepChannel.socket), |sessions|, 0;
      sessions := sessions + [[]];
      return 0;
    }

    method Stop()
      requires Valid() && !thread.NoThread?
      modifies this, gepChannel
      ensures Valid() && State() == AfterStop(old(State()))
      ensures !threadCtrl
    {
      threadCtrl := false;
      thread := NoThread;
      var _ := gepChannel.Close();
      reconnectCount := 0;
    }

    method Reconnect(how: Connect)
      requires gepChannel.Valid()
      modifies this`reconnectCount, this`sessions, gepChannel, gepChannel.io
      ensures gepChannel.io.wire == if how.Connected? then [] else old(gepChannel.io.wire)
      ensures gepChannel.Valid() && gepChannel.State() == AfterOpen(old(gepChannel.State()), how)
      ensures gepChannel.fds == old(gepChannel.fds) + Opening(how)
      ensures reconnectCount == old(reconnectCount) + if how.Connected? then 1 else 0
      ensures sessions == old(sessions) + if how.Connected? then [[]] else []
    {
      var res := gepChannel.OpenClientSocket(how);
      if res >= 0 {
        reconnectCount := reconnectCount + 1;
        sessions := sessions + [[]];
      }
    }

    // Receives; on any error the connection is closed.
    method Receive(recv: Recvd) returns (lost: bool)
      requires Valid() && thread.InLoop? && thread.socket == gepChannel.socket
      modifies this`thread, this`sessions, this`failures, gepChannel, gepChannel.buf
      ensures Valid() && State() == AfterReady(gepChannel.cfg, old(State()), recv)
      ensures thread == if lost then InLoop(-1) else old(thread)
    {
      hide AfterRecv, Taken;
      ghost var before := State();
      ghost var last := |sessions| - 1;
      sessions := sessions[..last] + [sessions[last] + Taken(gepChannel.State(), recv)];
      var res := gepChannel.RecvData(recv);
      RecvKeepsSocket(gepChannel.cfg, before.chan, recv);
      lost := res < 0;
      if lost {
        var _ := gepChannel.Close();
        thread := InLoop(-1);
        failures := failures + 1;
      }
    }

    // The service loop, for as many turns as the environment gives; past the last one the thread
    // is still in the loop.
    method RunThread(env: seq<Turn>)
      requires Valid() && thread.InLoop?
      modifies this`reconnectCount, this`thread, this`sessions, this`failures
      modifies gepChannel, gepChannel.buf, gepChannel.io
      ensures Valid() && State() == AfterTurns(gepChannel.cfg, old(State()), env)
    {
      hide AfterRecv, Opening, AfterReady;
      ghost var cfg := gepChannel.cfg;
      ghost var end := AfterTurns(cfg, State(), env);
      var socket := gepChannel.socket;
      var i := 0;
      while i < |env|
        invariant i <= |env| && Valid() && thread == InLoop(socket)
        invariant end == AfterTurns(cfg, State(), env[i..])
      {
        var t := env[i];
        i := i + 1;
        ghost var before := State();
        if !t.ctrl {
          thread := Exited;
          return;
        }
        if socket == -1 {
          Reconnect(t.how);
          socket := gepChannel.socket;
          thread := InLoop(socket);
          assert State() == AfterTurn(cfg, before, t);
          continue;
        }
        if t.selectFails {
          thread := Exited;
          return;
        }
        if !t.ctrlAfter {
          thread := Exited;
          return;
        }
        if t.ready {
          var lost := Receive(t.recv);
          if lost {
            socket := -1;
          }
        }
        assert State() == AfterTurn(cfg, before, t);
      }
    }
  }
}
