/** The server's service thread, src/gep_server.cc: the order in which it drives the channel array. */
module Server {
  import opened Protocol
  import opened Channel
  import opened Registry

  /** One turn of the service loop as the environment makes it go: thread_ctrl_ at its three reads,
      whether select fails, which descriptors are readable, what recv finds, how accept fares. */
  datatype Turn = Turn(ctrl1: bool, selectFails: bool, ctrl2: bool, readable: set<int>, recv: Recvd,
                       ctrl3: bool, conn: Accept)

  // Every readable descriptor among the listening one and the channels'.
  function Ready(r: Registry, serverSocket: int, t: Turn): set<int> {
    t.readable * ({serverSocket} + Sockets(r.vec))
  }

  // The state of the array, and whether the thread is still in its loop.
  datatype Served = Served(reg: Registry, inLoop: bool)

  function AfterTurn(cfg: Config, r: Registry, serverSocket: int, t: Turn): Served {
    if !t.ctrl1 || t.selectFails || !t.ctrl2 then Served(r, false)
    else
      var ready := Ready(r, serverSocket, t);
      var r1 := AfterReceive(cfg, r, ready, t.recv);
      if !t.ctrl3 then Served(r1, false)
      else if serverSocket in ready then Served(AfterAccept(r1, t.conn), t.conn.Accepted?)
      else Served(r1, true)
  }

  function AfterTurns(cfg: Config, r: Registry, serverSocket: int, turns: seq<Turn>): Served
    decreases |turns|
  {
    if turns == [] then Served(r, true)
    else
      var s := AfterTurn(cfg, r, serverSocket, turns[0]);
      if s.inLoop then AfterTurns(cfg, s.reg, serverSocket, turns[1..]) else s
  }

  // Accept returns only descriptors that are not open at the time.
  ghost predicate Plausible(cfg: Config, r: Registry, serverSocket: int, turns: seq<Turn>)
    decreases |turns|
  {
    turns == [] ||
    (&& Enabled(AfterReceive(cfg, r, Ready(r, serverSocket, turns[0]), turns[0].recv),
                AcceptOne(turns[0].conn))
     && Plausible(cfg, AfterTurn(cfg, r, serverSocket, turns[0]).reg, serverSocket, turns[1..]))
  }

  /** The service loop keeps the registry invariant, and its listening descriptor, which it polls
      beside those of the channels, is never taken for one of them. */
  lemma {:induction false} TurnsKeepInv(cfg: Config, r: Registry, turns: seq<Turn>)
    requires Inv(cfg, r) && r.server >= 0 && Plausible(cfg, r, r.server, turns)
    ensures var s := AfterTurns(cfg, r, r.server, turns);
      && Inv(cfg, s.reg)
      && s.reg.server == r.server
      && r.server !in Sockets(s.reg.vec)
    decreases |turns|
  {
    hide Inv;
    assert Inv(cfg, r) ==> r.server !in Sockets(r.vec) by { ServerApart(cfg, r); }
    if turns != [] {
      var t := turns[0];
      var s := AfterTurn(cfg, r, r.server, t);
      TurnKeepsInv(cfg, r, t);
      if s.inLoop {
        TurnsKeepInv(cfg, s.reg, turns[1..]);
      } else {
        ServerApart(cfg, s.reg);
      }
    }
  }

  lemma ServerApart(cfg: Config, r: Registry)
    ensures Inv(cfg, r) ==> r.server !in Sockets(r.vec)
  {
  }

  lemma TurnKeepsInv(cfg: Config, r: Registry, t: Turn)
    requires Inv(cfg, r)
    requires Enabled(AfterReceive(cfg, r, Ready(r, r.server, t), t.recv), AcceptOne(t.conn))
    ensures var s := AfterTurn(cfg, r, r.server, t);
      Inv(cfg, s.reg) && s.reg.server == r.server
  {
    hide Inv;
    var ready := Ready(r, r.server, t);
    NextKeepsInv(cfg, r, Receive(ready, t.recv));
    var r1 := AfterReceive(cfg, r, ready, t.recv);
    NextKeepsInv(cfg, r1, AcceptOne(t.conn));
  }

  // ---------- what each turn does ----------

  /** The thread stays in its loop exactly when it finds thread_ctrl_ set all three times, select does not
      fail, and no accept fails. */
  lemma StaysInLoop(cfg: Config, r: Registry, serverSocket: int, t: Turn)
    ensures AfterTurn(cfg, r, serverSocket, t).inLoop
       <==> (&& t.ctrl1 && !t.selectFails && t.ctrl2 && t.ctrl3
             && !(serverSocket in t.readable && t.conn.AcceptFails?))
  {
  }

  // The thread comes as far as looking at what select has found.
  predicate Looks(t: Turn) {
    t.ctrl1 && !t.selectFails && t.ctrl2
  }

  /** With nothing to read, or before it looks, a turn leaves the array as it was. */
  lemma IdleTurn(cfg: Config, r: Registry, serverSocket: int, t: Turn)
    requires !Looks(t) || (serverSocket !in t.readable && Sockets(r.vec) !! t.readable)
    ensures AfterTurn(cfg, r, serverSocket, t).reg == r
  {
    if Looks(t) {
      NotReady(r, Ready(r, serverSocket, t));
      ReceiveServesNobody(cfg, r, Ready(r, serverSocket, t), t.recv);
    }
  }

  lemma NotReady(r: Registry, ready: set<int>)
    requires ready !! Sockets(r.vec)
    ensures forall j | 0 <= j < |r.vec| :: r.vec[j].chan.socket !in ready
  {
    forall j | 0 <= j < |r.vec|
      ensures r.vec[j].chan.socket in Sockets(r.vec)
    {
    }
  }

  /** A turn first serves the first readable channel, if there is one, and then, if the server socket is
      readable too and the thread is still wanted, admits the new client: behind all others, with the next
      identifier, unless the vector is full by then. */
  lemma TurnServesAndAdmits(cfg: Config, r: Registry, serverSocket: int, t: Turn)
    requires Looks(t)
    ensures var s := AfterTurn(cfg, r, serverSocket, t);
      var served := AfterReceive(cfg, r, t.readable, t.recv);
      && s.reg == (if t.ctrl3 && serverSocket in t.readable then AfterAccept(served, t.conn) else served)
      && (t.ctrl3 && serverSocket in t.readable && t.conn.Accepted?
          && (r.max < 0 || |served.vec| < r.max) ==>
            && s.inLoop
            && s.reg.vec == served.vec + [Entry(r.nextId, Chan(t.conn.fd, [], []), [], [])]
            && s.reg.events == served.events + [Add(r.nextId)])
  {
    hide AfterRecv, Taken;
    SameFirst(r.vec, t.readable, Ready(r, serverSocket, t));
  }

  // Restricting what is readable to what is polled makes no difference for the channels.
  lemma SameFirst(vec: seq<Entry>, a: set<int>, b: set<int>)
    requires forall i | 0 <= i < |vec| :: vec[i].chan.socket in a <==> vec[i].chan.socket in b
    ensures FirstReady(vec, a) == FirstReady(vec, b)
  {
  }

  /** Turns follow each other until the thread leaves its loop. */
  lemma {:induction false} TurnsCompose(cfg: Config, r: Registry, serverSocket: int,
                                        a: seq<Turn>, b: seq<Turn>)
    ensures var s := AfterTurns(cfg, r, serverSocket, a);
      AfterTurns(cfg, r, serverSocket, a + b)
      == if s.inLoop then AfterTurns(cfg, s.reg, serverSocket, b) else s
    ensures |a| == 1 ==> AfterTurns(cfg, r, serverSocket, a) == AfterTurn(cfg, r, serverSocket, a[0])
    decreases |a|
  {
    hide AfterTurn;
    if a == [] {
      assert a + b == b;
    } else {
      assert (a + b)[0] == a[0] && (a + b)[1..] == a[1..] + b;
      var s := AfterTurn(cfg, r, serverSocket, a[0]);
      if s.inLoop {
        TurnsCompose(cfg, s.reg, serverSocket, a[1..], b);
      }
    }
  }

  class GepServer {
    const channelArray: GepChannelArray
    var threadCtrl: bool

    constructor (cfg: Config, maxChannels: int, port: int)
      ensures fresh(channelArray) && channelArray.Valid() && channelArray.cfg == cfg
      ensures channelArray.State() == NewRegistry(maxChannels) && !threadCtrl
    {
      channelArray := new GepChannelArray(cfg, maxChannels, port);
      threadCtrl := false;
    }

    method Start(how: Listen) returns (ret: int)
      requires channelArray.Valid()
      modifies this, channelArray
      ensures channelArray.Valid() && channelArray.channels == old(channelArray.channels)
      ensures channelArray.State() == AfterOpenServer(old(channelArray.State()), how)
      ensures ret == (if how.Listening? then 0 else -1)
      ensures threadCtrl == (how.Listening? || old(threadCtrl))
    {
      var res := channelArray.OpenServerSocket(how);
      if res < 0 {
        return -1;
      }
      threadCtrl := true;
      return 0;
    }

    method Stop()
      requires channelArray.Valid()
      modifies this, channelArray, Parts(channelArray.channels)
      ensures channelArray.Valid() && channelArray.State() == AfterStop(old(channelArray.State()))
      ensures forall c <- old(channelArray.channels) :: c.socket == -1 && c.len == 0
      ensures !threadCtrl
    {
      threadCtrl := false;
      var _ := channelArray.Stop();
    }

    // The body of the service loop, without its test of thread_ctrl_; tells whether it goes on.
    method Serve(serverSocket: int, t: Turn) returns (goOn: bool)
      requires channelArray.Valid() && t.ctrl1
      modifies channelArray, Parts(channelArray.channels)
      ensures channelArray.Valid()
      ensures fresh(Parts(channelArray.channels) - old(Parts(channelArray.channels)))
      ensures var s := AfterTurn(channelArray.cfg, old(channelArray.State()), serverSocket, t);
        channelArray.State() == s.reg && goOn == s.inLoop
    {
      hide AfterReceive, AfterAccept, Apart, Mirrors, OnWire, Sockets;
      var maxFds, readFds := channelArray.GetVectorReadFds(serverSocket, {serverSocket});
      if t.selectFails {
        return false;
      }
      if !t.ctrl2 {
        return false;
      }
      // select looks at descriptors up to max_fds only
      var ready := set fd | fd in readFds && fd <= maxFds && fd in t.readable;
      assert ready == Ready(channelArray.State(), serverSocket, t);
      channelArray.RecvData(ready, t.recv);
      if !t.ctrl3 {
        return false;
      }
      if serverSocket in ready {
        var res := channelArray.AcceptConnection(t.conn);
        if res < 0 {
          return false;
        }
      }
      goOn := true;
    }

    // The service loop, for as many turns as the environment gives.
    method RunThread(env: seq<Turn>)
      requires channelArray.Valid()
      modifies channelArray, Parts(channelArray.channels)
      ensures channelArray.Valid()
      ensures fresh(Parts(channelArray.channels) - old(Parts(channelArray.channels)))
      ensures channelArray.State()
           == if old(channelArray.serverSocket) < 0 then old(channelArray.State())
              else AfterTurns(channelArray.cfg, old(channelArray.State()),
                              old(channelArray.serverSocket), env).reg
    {
      hide AfterReceive, AfterAccept, Wires, Apart, Mirrors;
      var serverSocket := channelArray.serverSocket;
      if serverSocket < 0 {
        return;
      }
      ghost var cfg := channelArray.cfg;
      ghost var end := AfterTurns(cfg, channelArray.State(), serverSocket, env);
      var i := 0;
      while i < |env|
        invariant i <= |env| && channelArray.Valid()
        invariant fresh(Parts(channelArray.channels) - old(Parts(channelArray.channels)))
        invariant end == AfterTurns(cfg, channelArray.State(), serverSocket, env[i..])
      {
        var t := env[i];
        i := i + 1;
        if !t.ctrl1 {
          break;
        }
        var goOn := Serve(serverSocket, t);
        if !goOn {
          break;
        }
      }
    }
  }
}
