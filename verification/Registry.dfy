/** The server's channel array, src/gep_channel_array.cc: identifiers, capacity, the AddClient and
    DelClient callbacks, and who owns which descriptor. `Registry` and the functions on it specify
    the class `GepChannelArray`. */
module Registry {
  import opened Bytes
  import opened Protocol
  import opened Framing
  import opened Channel
  import opened Descriptors

  // One attempt to send on a channel, by a broadcast or to that channel alone.
  datatype Sent = Sent(msg: Msg, ok: bool, toAll: bool)

  // A channel in the vector, with the bytes it has received and the sends attempted on it.
  datatype Entry = Entry(id: nat, chan: Chan, got: seq<byte>, out: seq<Sent>)

  datatype ClientEvent = Add(id: nat) | Del(id: nat)

  datatype Registry = Registry(
    max: int,
    nextId: nat,                // last_channel_id_
    vec: seq<Entry>,
    server: int,                // server_socket_
    events: seq<ClientEvent>,   // calls of AddClient and DelClient
    fds: seq<FdEvent>,          // descriptors opened and closed
    refused: set<int>,          // descriptors accepted while the vector was full
    gone: seq<Entry>)           // channels no longer in the vector, as they were at their end

  /** How OpenServerSocket fares: socket() fails, a later call fails and the descriptor is closed, or
      a listening descriptor on a port. */
  datatype Listen = NoListener | Abandoned(fd: nat) | Listening(fd: nat, port: int)

  datatype Accept = AcceptFails | Accepted(fd: nat)

  datatype Op =
    | OpenServer(how: Listen)
    | AcceptOne(conn: Accept)
    | Receive(ready: set<int>, recv: Recvd)
    | SendAll(msg: Msg, oks: nat -> bool)
    | SendOne(msg: Msg, id: int, ok: bool)
    | StopAll

  // `size() >= max_channels_` compares as unsigned, so a negative limit is never reached.
  predicate Full(max: int, size: nat) {
    0 <= max <= size
  }

  function AfterOpenServer(r: Registry, how: Listen): Registry {
    match how
    case NoListener => r
    case Abandoned(fd) => r.(fds := r.fds + [Opened(fd), Closed(fd)])
    case Listening(fd, _) => r.(server := fd, fds := r.fds + [Opened(fd)])
  }

  function AfterAdd(r: Registry, socket: nat): Registry {
    if Full(r.max, |r.vec|) then r.(refused := r.refused + {socket})
    else r.(nextId := r.nextId + 1,
            vec := r.vec + [Entry(r.nextId, Chan(socket, [], []), [], [])],
            events := r.events + [Add(r.nextId)])
  }

  function AfterAccept(r: Registry, conn: Accept): Registry {
    match conn
    case AcceptFails => r
    case Accepted(fd) => AfterAdd(r.(fds := r.fds + [Opened(fd)]), fd)
  }

  // The first channel whose socket is ready, or the size of the vector.
  function FirstReady(vec: seq<Entry>, ready: set<int>): (i: nat)
    ensures i <= |vec|
    ensures i < |vec| ==> vec[i].chan.socket >= 0 && vec[i].chan.socket in ready
    ensures forall j | 0 <= j < i :: vec[j].chan.socket < 0 || vec[j].chan.socket !in ready
  {
    if vec == [] || (vec[0].chan.socket >= 0 && vec[0].chan.socket in ready) then 0
    else 1 + FirstReady(vec[1..], ready)
  }

  // The channel at i dies: DelClient, out of the vector, and its destructor closes its socket.
  function AfterDeath(r: Registry, i: nat, end: Entry): Registry
    requires i < |r.vec|
  {
    r.(vec := r.vec[..i] + r.vec[i + 1..],
       gone := r.gone + [end],
       events := r.events + [Del(r.vec[i].id)],
       fds := r.fds + [Closed(r.vec[i].chan.socket)])
  }

  function AfterReceive(cfg: Config, r: Registry, ready: set<int>, recv: Recvd): Registry {
    var i := FirstReady(r.vec, ready);
    if i == |r.vec| then r
    else
      var e := r.vec[i];
      var (chan, ret) := AfterRecv(cfg, e.chan, recv);
      var e' := e.(chan := chan, got := e.got + Taken(e.chan, recv));
      if ret < 0 then AfterDeath(r, i, e') else r.(vec := r.vec[i := e'])
  }

  function Attempted(e: Entry, msg: Msg, ok: bool, toAll: bool): Entry {
    e.(out := e.out + [Sent(msg, ok, toAll)])
  }

  // What a broadcast does at one channel of the vector.
  function SendToMember(vec: seq<Entry>, i: nat, msg: Msg, ok: bool): (v: seq<Entry>)
    requires i < |vec|
    ensures |v| == |vec|
  {
    if vec[i].chan.socket != -1 then vec[i := Attempted(vec[i], msg, ok, true)] else vec
  }

  // A broadcast, from the channel at `from` on.
  function AfterSendAll(vec: seq<Entry>, from: nat, msg: Msg, oks: nat -> bool): (v: seq<Entry>)
    requires from <= |vec|
    decreases |vec| - from
  {
    if from == |vec| then vec
    else
      AfterSendAll(SendToMember(vec, from, msg, oks(from)), from + 1, msg, oks)
  }

  // The first open channel with the identifier, or the size of the vector.
  function FirstOpen(vec: seq<Entry>, id: int): (i: nat)
    ensures i <= |vec|
    ensures i < |vec| ==> vec[i].chan.socket != -1 && vec[i].id == id
    ensures forall j | 0 <= j < i :: vec[j].chan.socket == -1 || vec[j].id != id
  {
    if vec == [] || (vec[0].chan.socket != -1 && vec[0].id == id) then 0
    else 1 + FirstOpen(vec[1..], id)
  }

  function AfterSendOne(vec: seq<Entry>, msg: Msg, id: int, ok: bool): seq<Entry> {
    var i := FirstOpen(vec, id);
    if i == |vec| then vec else vec[i := Attempted(vec[i], msg, ok, false)]
  }

  function Dels(vec: seq<Entry>): seq<ClientEvent> {
    seq(|vec|, i requires 0 <= i < |vec| => Del(vec[i].id))
  }

  function Closes(vec: seq<Entry>): seq<FdEvent> {
    seq(|vec|, i requires 0 <= i < |vec| => Closed(vec[i].chan.socket))
  }

  function AfterStop(r: Registry): Registry {
    r.(server := -1, vec := [], gone := r.gone + r.vec, events := r.events + Dels(r.vec),
       fds := r.fds + (if r.server >= 0 then [Closed(r.server)] else []) + Closes(r.vec))
  }

  function Next(cfg: Config, r: Registry, op: Op): Registry {
    match op
    case OpenServer(how) => AfterOpenServer(r, how)
    case AcceptOne(conn) => AfterAccept(r, conn)
    case Receive(ready, recv) => AfterReceive(cfg, r, ready, recv)
    case SendAll(msg, oks) => r.(vec := AfterSendAll(r.vec, 0, msg, oks))
    case SendOne(msg, id, ok) => r.(vec := AfterSendOne(r.vec, msg, id, ok))
    case StopAll => AfterStop(r)
  }

  // ---------- reading the event logs ----------

  // The list a subclass keeps that appends in AddClient and erases in DelClient.
  function Live(events: seq<ClientEvent>): seq<nat> {
    if events == [] then []
    else
      var before := Live(events[..|events| - 1]);
      match events[|events| - 1]
      case Add(id) => before + [id]
      case Del(id) => Without(before, id)
  }

  function Without(ids: seq<nat>, id: nat): seq<nat> {
    if ids == [] then []
    else if ids[0] == id then ids[1..]
    else [ids[0]] + Without(ids[1..], id)
  }

  // Every DelClient is for a client that is in the list.
  ghost predicate DelsFindTheirClient(events: seq<ClientEvent>) {
    forall k | 0 <= k < |events| && events[k].Del? :: events[k].id in Live(events[..k])
  }

  function Added(events: seq<ClientEvent>): seq<nat> {
    if events == [] then []
    else
      var last := events[|events| - 1];
      Added(events[..|events| - 1]) + if last.Add? then [last.id] else []
  }

  function Deleted(events: seq<ClientEvent>): seq<nat> {
    if events == [] then []
    else
      var last := events[|events| - 1];
      Deleted(events[..|events| - 1]) + if last.Del? then [last.id] else []
  }

  // The system hands out only descriptors that are not open, and a server is opened when stopped.
  ghost predicate Enabled(r: Registry, op: Op) {
    match op
    case OpenServer(how) => r.server == -1 && (how.NoListener? || how.fd !in OpenFds(r.fds))
    case AcceptOne(conn) => conn.AcceptFails? || conn.fd !in OpenFds(r.fds)
    case _ => true
  }

  function Ids(vec: seq<Entry>): seq<nat> {
    seq(|vec|, i requires 0 <= i < |vec| => vec[i].id)
  }

  function Sockets(vec: seq<Entry>): set<int> {
    set i | 0 <= i < |vec| :: vec[i].chan.socket
  }

  // ---------- what every run keeps ----------

  /** Identifiers grow along the vector and are never reused; the vector respects its limit; and
      the clients announced by AddClient and not yet by DelClient are those in the vector. */
  ghost predicate IdsSane(r: Registry) {
    && (r.max >= 0 ==> |r.vec| <= r.max)
    && (forall i, j | 0 <= i < j < |r.vec| :: r.vec[i].id < r.vec[j].id)
    && (forall i | 0 <= i < |r.vec| :: r.vec[i].id < r.nextId)
    && Added(r.events) == seq(r.nextId, i => i)
    && DelsFindTheirClient(r.events)
    && Live(r.events) == Ids(r.vec)
  }

  /** The open descriptors are the server's, one for each channel in the vector, and those refused:
      no two of these are the same, and none was ever closed while not open. */
  ghost predicate FdsSane(r: Registry) {
    && r.server >= -1
    && (forall i | 0 <= i < |r.vec| :: r.vec[i].chan.socket >= 0)
    && (forall i, j | 0 <= i < j < |r.vec| :: r.vec[i].chan.socket != r.vec[j].chan.socket)
    && (forall fd | fd in r.refused :: fd >= 0)
    && r.server !in Sockets(r.vec) && r.server !in r.refused
    && Sockets(r.vec) !! r.refused
    && OpenFds(r.fds) == Sockets(r.vec) + r.refused + (if r.server >= 0 then {r.server} else {})
    && ClosesAreOfOpen(r.fds)
  }

  /** Every channel, there or gone, has dispatched exactly the parse of the bytes of its own
      connection, and those in the vector are in step with it. */
  ghost predicate ChannelsInSync(cfg: Config, r: Registry) {
    && (forall i | 0 <= i < |r.vec| :: InSync(cfg, r.vec[i].chan, [], r.vec[i].got))
    && (forall i | 0 <= i < |r.gone| :: DispatchedOwn(cfg, r.gone[i]))
  }

  ghost predicate DispatchedOwn(cfg: Config, e: Entry) {
    e.chan.log == [] + Dispatched(cfg.ops, Parse(cfg, e.got).frames)
  }

  ghost predicate Inv(cfg: Config, r: Registry) {
    IdsSane(r) && FdsSane(r) && ChannelsInSync(cfg, r)
  }

  lemma EventsLast(events: seq<ClientEvent>, x: ClientEvent)
    ensures Live(events + [x])
         == if x.Add? then Live(events) + [x.id] else Without(Live(events), x.id)
    ensures Added(events + [x]) == Added(events) + if x.Add? then [x.id] else []
    ensures Deleted(events + [x]) == Deleted(events) + if x.Del? then [x.id] else []
    ensures DelsFindTheirClient(events) && (x.Del? ==> x.id in Live(events)) ==>
              DelsFindTheirClient(events + [x])
  {
    var all := events + [x];
    assert all[..|events|] == events;
    assert forall k | 0 <= k < |events| :: all[..k] == events[..k];
  }

  lemma {:induction false} WithoutAt(ids: seq<nat>, i: nat)
    requires i < |ids| && forall j, k | 0 <= j < k < |ids| :: ids[j] < ids[k]
    ensures Without(ids, ids[i]) == ids[..i] + ids[i + 1..]
  {
    if i > 0 {
      WithoutAt(ids[1..], i - 1);
      assert ids[..i] == [ids[0]] + ids[1..][..i - 1];
    }
  }

  // Clearing the vector reports every client in it, and nobody else.
  lemma {:induction false} DelsOfAll(events: seq<ClientEvent>, vec: seq<Entry>)
    requires DelsFindTheirClient(events) && Live(events) == Ids(vec)
    ensures Live(events + Dels(vec)) == []
    ensures DelsFindTheirClient(events + Dels(vec))
    ensures Added(events + Dels(vec)) == Added(events)
    decreases |vec|
  {
    hide Live, Added, Deleted, DelsFindTheirClient;
    if vec == [] {
      assert events + Dels(vec) == events;
    } else {
      var first := Del(vec[0].id);
      assert Ids(vec)[0] == vec[0].id && Ids(vec)[1..] == Ids(vec[1..]);
      EventsLast(events, first);
      DelsOfAll(events + [first], vec[1..]);
      assert events + Dels(vec) == events + [first] + Dels(vec[1..]);
    }
  }

  lemma SocketsOfRest(vec: seq<Entry>, i: nat)
    requires i < |vec| && forall j, k | 0 <= j < k < |vec| :: vec[j].chan.socket != vec[k].chan.socket
    ensures Sockets(vec[..i] + vec[i + 1..]) == Sockets(vec) - {vec[i].chan.socket}
  {
    var rest := vec[..i] + vec[i + 1..];
    forall fd | fd in Sockets(vec) - {vec[i].chan.socket}
      ensures fd in Sockets(rest)
    {
      var j :| 0 <= j < |vec| && vec[j].chan.socket == fd;
      assert rest[if j < i then j else j - 1] == vec[j];
    }
  }

  // Clearing the vector closes every socket in it once, and leaves the other descriptors open.
  lemma {:induction false} ClosesOfAll(fds: seq<FdEvent>, vec: seq<Entry>, others: set<int>)
    requires ClosesAreOfOpen(fds) && OpenFds(fds) == Sockets(vec) + others && Sockets(vec) !! others
    requires forall j, k | 0 <= j < k < |vec| :: vec[j].chan.socket != vec[k].chan.socket
    ensures OpenFds(fds + Closes(vec)) == others
    ensures ClosesAreOfOpen(fds + Closes(vec))
    decreases |vec|
  {
    hide OpenFds, ClosesAreOfOpen, Sockets;
    if vec == [] {
      assert fds + Closes(vec) == fds;
      assert Sockets(vec) == {} by { SocketsOfNone(); }
    } else {
      var first := Closed(vec[0].chan.socket);
      SocketsOfTail(vec);
      FdsLast(fds, first);
      ClosesOfAll(fds + [first], vec[1..], others);
      assert Closes(vec) == [first] + Closes(vec[1..]);
      assert fds + ([first] + Closes(vec[1..])) == fds + [first] + Closes(vec[1..]);
    }
  }

  lemma SocketsOfNone()
    ensures Sockets([]) == {}
  {
  }

  lemma SocketsOfTail(vec: seq<Entry>)
    requires vec != []
    requires forall j, k | 0 <= j < k < |vec| :: vec[j].chan.socket != vec[k].chan.socket
    ensures vec[0].chan.socket in Sockets(vec)
    ensures Sockets(vec[1..]) == Sockets(vec) - {vec[0].chan.socket}
  {
    SocketsOfRest(vec, 0);
    assert vec[..0] + vec[1..] == vec[1..];
  }

  lemma AddKeepsIds(r: Registry, socket: nat)
    requires IdsSane(r)
    ensures IdsSane(AfterAdd(r, socket))
  {
    hide Live, Added, Deleted, DelsFindTheirClient;
    if !Full(r.max, |r.vec|) {
      EventsLast(r.events, Add(r.nextId));
      var r' := AfterAdd(r, socket);
      assert Ids(r'.vec) == Ids(r.vec) + [r.nextId];
    }
  }

  lemma IdsOfRest(vec: seq<Entry>, i: nat)
    requires i < |vec| && forall j, k | 0 <= j < k < |vec| :: vec[j].id < vec[k].id
    ensures vec[i].id in Ids(vec)
    ensures Ids(vec[..i] + vec[i + 1..]) == Without(Ids(vec), vec[i].id)
  {
    hide Without;
    var ids := Ids(vec);
    assert ids[i] == vec[i].id;
    WithoutAt(ids, i);
    assert Ids(vec[..i] + vec[i + 1..]) == ids[..i] + ids[i + 1..];
  }

  lemma DeathKeepsIds(r: Registry, i: nat, end: Entry)
    requires IdsSane(r) && i < |r.vec|
    ensures IdsSane(AfterDeath(r, i, end))
  {
    hide Live, Added, Deleted, DelsFindTheirClient, Without, Ids;
    IdsOfRest(r.vec, i);
    EventsLast(r.events, Del(r.vec[i].id));
  }

  lemma SocketsOfMore(vec: seq<Entry>, e: Entry)
    ensures Sockets(vec + [e]) == Sockets(vec) + {e.chan.socket}
  {
    var more := vec + [e];
    assert more[|vec|] == e;
    forall fd | fd in Sockets(vec)
      ensures fd in Sockets(more)
    {
      var j :| 0 <= j < |vec| && vec[j].chan.socket == fd;
      assert more[j] == vec[j];
    }
  }

  lemma AcceptKeepsFds(r: Registry, conn: Accept)
    requires FdsSane(r) && Enabled(r, AcceptOne(conn))
    ensures FdsSane(AfterAccept(r, conn))
  {
    hide OpenFds, ClosesAreOfOpen;
    if conn.Accepted? {
      FdsLast(r.fds, Opened(conn.fd));
      SocketsOfMore(r.vec, Entry(r.nextId, Chan(conn.fd, [], []), [], []));
      forall i | 0 <= i < |r.vec|
        ensures r.vec[i].chan.socket != conn.fd
      {
        assert r.vec[i].chan.socket in Sockets(r.vec);
      }
    }
  }

  lemma DeathKeepsFds(r: Registry, i: nat, end: Entry)
    requires FdsSane(r) && i < |r.vec|
    ensures FdsSane(AfterDeath(r, i, end))
  {
    hide OpenFds, ClosesAreOfOpen;
    assert r.vec[i].chan.socket in Sockets(r.vec);
    FdsLast(r.fds, Closed(r.vec[i].chan.socket));
    SocketsOfRest(r.vec, i);
  }

  lemma StopKeepsFds(r: Registry)
    requires FdsSane(r)
    ensures FdsSane(AfterStop(r)) && OpenFds(AfterStop(r).fds) == r.refused
  {
    hide OpenFds, ClosesAreOfOpen;
    var fds := r.fds;
    if r.server >= 0 {
      FdsLast(r.fds, Closed(r.server));
      fds := r.fds + [Closed(r.server)];
    } else {
      assert r.fds + [] == r.fds;
    }
    ClosesOfAll(fds, r.vec, r.refused);
  }

  lemma OpenServerKeepsFds(r: Registry, how: Listen)
    requires FdsSane(r) && Enabled(r, OpenServer(how))
    ensures FdsSane(AfterOpenServer(r, how))
  {
    hide OpenFds, ClosesAreOfOpen, Sockets;
    if how.Listening? {
      FdsLast(r.fds, Opened(how.fd));
    } else if how.Abandoned? {
      FdsLast(r.fds, Opened(how.fd));
      FdsLast(r.fds + [Opened(how.fd)], Closed(how.fd));
      assert r.fds + [Opened(how.fd), Closed(how.fd)] == r.fds + [Opened(how.fd)] + [Closed(how.fd)];
    }
  }

  // Operations that leave every identifier and socket where it was.
  lemma SameShape(r: Registry, r': Registry)
    requires IdsSane(r) && FdsSane(r) && r' == r.(vec := r'.vec) && |r'.vec| == |r.vec|
    requires forall i | 0 <= i < |r.vec| ::
               r'.vec[i].id == r.vec[i].id && r'.vec[i].chan.socket == r.vec[i].chan.socket
    ensures IdsSane(r') && FdsSane(r')
  {
    assert Ids(r'.vec) == Ids(r.vec);
    assert Sockets(r'.vec) == Sockets(r.vec);
  }

  lemma ReceiveKeepsInv(cfg: Config, r: Registry, ready: set<int>, recv: Recvd)
    requires Inv(cfg, r)
    ensures Inv(cfg, AfterReceive(cfg, r, ready, recv))
  {
    hide InSync, AfterRecv, IdsSane, FdsSane, Taken;
    var i := FirstReady(r.vec, ready);
    if i < |r.vec| {
      RecvKeepsSync(cfg, r.vec[i].chan, [], r.vec[i].got, recv);
      var r' := AfterReceive(cfg, r, ready, recv);
      if AfterRecv(cfg, r.vec[i].chan, recv).1 < 0 {
        var end := r'.gone[|r.gone|];
        DeathKeepsIds(r, i, end);
        DeathKeepsFds(r, i, end);
        assert DispatchedOwn(cfg, end);
        hide DispatchedOwn;
        assert ChannelsInSync(cfg, r');
      } else {
        SameShape(r, r');
        assert ChannelsInSync(cfg, r');
      }
    }
  }

  lemma AcceptKeepsSync(cfg: Config, r: Registry, conn: Accept)
    requires ChannelsInSync(cfg, r)
    ensures ChannelsInSync(cfg, AfterAccept(r, conn))
  {
    hide InSync;
    if conn.Accepted? {
      StartsInSync(cfg, Chan(conn.fd, [], []));
    }
  }

  lemma StopKeepsIds(r: Registry)
    requires IdsSane(r)
    ensures IdsSane(AfterStop(r)) && Live(AfterStop(r).events) == []
  {
    hide Live, Added, DelsFindTheirClient;
    DelsOfAll(r.events, r.vec);
    assert Ids([]) == [];
  }

  /** A broadcast makes exactly one attempt on every open channel, whatever became of the attempts
      before it, and touches nothing else. */
  lemma {:induction false} SendAllReachesAll(vec: seq<Entry>, from: nat, msg: Msg, oks: nat -> bool)
    requires from <= |vec|
    ensures var v := AfterSendAll(vec, from, msg, oks);
      && |v| == |vec|
      && forall i | 0 <= i < |vec| ::
           v[i] == if i >= from && vec[i].chan.socket != -1
                   then vec[i].(out := vec[i].out + [Sent(msg, oks(i), true)]) else vec[i]
    decreases |vec| - from
  {
    if from < |vec| {
      SendAllReachesAll(SendToMember(vec, from, msg, oks(from)), from + 1, msg, oks);
    }
  }

  lemma StopKeepsSync(cfg: Config, r: Registry)
    requires ChannelsInSync(cfg, r)
    ensures ChannelsInSync(cfg, AfterStop(r))
  {
    forall i | 0 <= i < |r.vec|
      ensures DispatchedOwn(cfg, r.vec[i])
    {
    }
  }

  lemma SendKeepsInv(cfg: Config, r: Registry, op: Op)
    requires Inv(cfg, r) && (op.SendAll? || op.SendOne?)
    ensures Inv(cfg, Next(cfg, r, op))
  {
    hide InSync, IdsSane, FdsSane;
    var r' := Next(cfg, r, op);
    if op.SendAll? {
      SendAllReachesAll(r.vec, 0, op.msg, op.oks);
    }
    SameShape(r, r');
  }

  lemma NextKeepsInv(cfg: Config, r: Registry, op: Op)
    requires Inv(cfg, r) && Enabled(r, op)
    ensures Inv(cfg, Next(cfg, r, op))
  {
    hide InSync, IdsSane, FdsSane, OpenFds;
    match op
    case OpenServer(how) =>
      OpenServerKeepsFds(r, how);
      assert IdsSane(Next(cfg, r, op)) by { SameIds(r, Next(cfg, r, op)); }
    case AcceptOne(conn) =>
      AcceptKeepsFds(r, conn);
      AcceptKeepsSync(cfg, r, conn);
      if conn.Accepted? {
        var r1 := r.(fds := r.fds + [Opened(conn.fd)]);
        SameIds(r, r1);
        AddKeepsIds(r1, conn.fd);
      }
    case Receive(ready, recv) =>
      ReceiveKeepsInv(cfg, r, ready, recv);
    case StopAll =>
      StopKeepsIds(r);
      StopKeepsFds(r);
      StopKeepsSync(cfg, r);
    case _ =>
      SendKeepsInv(cfg, r, op);
  }

  lemma SameIds(r: Registry, r': Registry)
    requires IdsSane(r) && r'.max == r.max && r'.vec == r.vec && r'.nextId == r.nextId
    requires r'.events == r.events
    ensures IdsSane(r')
  {
  }

  function NewRegistry(max: int): Registry {
    Registry(max, 0, [], -1, [], [], {}, [])
  }

  // A run; operations the system would not allow are skipped.
  ghost function Run(cfg: Config, r: Registry, ops: seq<Op>): Registry
    decreases |ops|
  {
    if ops == [] then r
    else Run(cfg, if Enabled(r, ops[0]) then Next(cfg, r, ops[0]) else r, ops[1..])
  }

  /** The registry over any run of opening, accepting, receiving, sending and stopping. */
  lemma {:induction false} RunKeepsInv(cfg: Config, r: Registry, ops: seq<Op>)
    requires Inv(cfg, r)
    ensures Inv(cfg, Run(cfg, r, ops))
    decreases |ops|
  {
    if ops != [] {
      if Enabled(r, ops[0]) {
        NextKeepsInv(cfg, r, ops[0]);
        RunKeepsInv(cfg, Next(cfg, r, ops[0]), ops[1..]);
      } else {
        RunKeepsInv(cfg, r, ops[1..]);
      }
    }
  }

  // ---------- what each operation does ----------

  /** A receive serves the first channel whose descriptor is ready, and no other. If its peer has closed
      the connection, or recv fails, or the bytes of this connection are now such that the parser rejects
      them, the client is reported gone, its channel leaves the vector and its descriptor is closed;
      otherwise it stays, and what it holds are its new bytes. */
  lemma ReceiveServes(cfg: Config, r: Registry, i: nat, ready: set<int>, recv: Recvd)
    requires Inv(cfg, r) && i < |r.vec| && r.vec[i].chan.socket in ready
    requires forall j | 0 <= j < i :: r.vec[j].chan.socket !in ready
    ensures var r', e := AfterReceive(cfg, r, ready, recv), r.vec[i];
      var got := e.got + Taken(e.chan, recv);
      && (!recv.Data? || Parse(cfg, got).verdict.Rejected? ==>
            && r'.vec == r.vec[..i] + r.vec[i + 1..]
            && r'.events == r.events + [Del(e.id)]
            && r'.fds == r.fds + [Closed(e.chan.socket)]
            && |r'.gone| == |r.gone| + 1 && r'.gone[|r.gone|].id == e.id && r'.gone[|r.gone|].got == got)
      && (recv.Data? && !Parse(cfg, got).verdict.Rejected? ==>
            && |r'.vec| == |r.vec| && r'.vec[i].id == e.id && r'.vec[i].got == got
            && InSync(cfg, r'.vec[i].chan, [], got) && r'.vec[i].chan.socket == e.chan.socket
            && (forall j | 0 <= j < |r.vec| && j != i :: r'.vec[j] == r.vec[j])
            && r'.events == r.events && r'.fds == r.fds && r'.gone == r.gone)
      && r'.nextId == r.nextId && r'.server == r.server && r'.refused == r.refused && r'.max == r.max
  {
    hide Parse, IdsSane, InSync, AfterRecv, Taken;
    var e := r.vec[i];
    assert FirstReady(r.vec, ready) == i;
    RecvKeepsSync(cfg, e.chan, [], e.got, recv);
  }

  /** With no channel ready, nothing happens. */
  lemma ReceiveServesNobody(cfg: Config, r: Registry, ready: set<int>, recv: Recvd)
    requires forall j | 0 <= j < |r.vec| :: r.vec[j].chan.socket !in ready
    ensures AfterReceive(cfg, r, ready, recv) == r
  {
    assert FirstReady(r.vec, ready) == |r.vec|;
  }

  /** A client that is accepted while there is room becomes the last in the vector, with the next
      identifier, the accepted descriptor, an empty buffer and nothing received or sent, and is announced;
      one that is accepted when there is none is refused. */
  lemma AcceptAdmits(r: Registry, fd: nat)
    ensures var r' := AfterAccept(r, Accepted(fd));
      && r'.fds == r.fds + [Opened(fd)] && r'.server == r.server && r'.gone == r.gone
      && if r.max < 0 || |r.vec| < r.max then
           && r'.vec == r.vec + [Entry(r.nextId, Chan(fd, [], []), [], [])]
           && r'.nextId == r.nextId + 1 && r'.events == r.events + [Add(r.nextId)]
           && r'.refused == r.refused
         else
           && r'.vec == r.vec && r'.nextId == r.nextId && r'.events == r.events
           && r'.refused == r.refused + {fd}
    ensures AfterAccept(r, AcceptFails) == r
  {
  }

  /** A server socket that is opened becomes the one to accept on; one that fails on the way is closed,
      and changes nothing else. Stopping closes it, and leaves nobody in the vector. */
  lemma ServerSocketOpensAndCloses(r: Registry, how: Listen)
    ensures var r' := AfterOpenServer(r, how);
      match how
      case Listening(fd, _) => r' == r.(server := fd, fds := r.fds + [Opened(fd)])
      case Abandoned(fd) => r' == r.(fds := r.fds + [Opened(fd), Closed(fd)])
      case NoListener => r' == r
    ensures var r' := AfterStop(r);
      && r'.server == -1 && r'.vec == [] && r'.nextId == r.nextId && r'.refused == r.refused
      && (r.server >= 0 ==> Closed(r.server) in r'.fds[|r.fds|..])
      && (forall i | 0 <= i < |r.vec| ::
            && Closed(r.vec[i].chan.socket) in r'.fds[|r.fds|..]
            && Del(r.vec[i].id) in r'.events[|r.events|..])
      && |r'.fds| == |r.fds| + |r.vec| + (if r.server >= 0 then 1 else 0)
      && |r'.events| == |r.events| + |r.vec|
      && r'.gone == r.gone + r.vec
  {
    var r' := AfterStop(r);
    var own := if r.server >= 0 then [Closed(r.server)] else [];
    assert r'.fds[|r.fds|..] == own + Closes(r.vec) && r'.events[|r.events|..] == Dels(r.vec);
    forall i | 0 <= i < |r.vec|
      ensures Closed(r.vec[i].chan.socket) in own + Closes(r.vec) && Del(r.vec[i].id) in Dels(r.vec)
    {
      assert Closes(r.vec)[i] == Closed(r.vec[i].chan.socket) && Dels(r.vec)[i] == Del(r.vec[i].id);
    }
  }

  // ---------- what a run means for its clients and descriptors ----------

  lemma {:induction false} WithoutTakesOne(ids: seq<nat>, id: nat)
    requires id in ids
    ensures multiset(Without(ids, id)) + multiset{id} == multiset(ids)
  {
    assert ids == [ids[0]] + ids[1..];
    if ids[0] != id {
      WithoutTakesOne(ids[1..], id);
    }
  }

  lemma LastDelFinds(events: seq<ClientEvent>)
    requires DelsFindTheirClient(events) && events != [] && events[|events| - 1].Del?
    ensures events[|events| - 1].id in Live(events[..|events| - 1])
  {
  }

  /** Every client ever announced is either still there or was reported gone, and never both. */
  lemma {:induction false} EventsBalance(events: seq<ClientEvent>)
    requires DelsFindTheirClient(events)
    ensures multiset(Added(events)) == multiset(Live(events)) + multiset(Deleted(events))
    decreases |events|
  {
    hide Without;
    if events != [] {
      var front, x := events[..|events| - 1], events[|events| - 1];
      assert DelsFindTheirClient(front) by {
        assert forall k | 0 <= k < |front| :: front[..k] == events[..k];
      }
      hide DelsFindTheirClient;
      EventsBalance(front);
      if x.Del? {
        assert x.id in Live(front) by { LastDelFinds(events); }
        WithoutTakesOne(Live(front), x.id);
      }
    }
  }

  lemma {:induction false} CountUpTo(n: nat, id: nat)
    ensures multiset(seq(n, i => i))[id] == if id < n then 1 else 0
  {
    if n > 0 {
      CountUpTo(n - 1, id);
      assert seq(n, i => i) == seq(n - 1, i => i) + [n - 1];
    }
  }

  /** Over any run: AddClient was called exactly once for each identifier below the next one and
      for no other; DelClient at most once for each, exactly for those no longer in the vector. */
  lemma EveryClientOnce(cfg: Config, max: int, ops: seq<Op>, id: nat)
    ensures var r := Run(cfg, NewRegistry(max), ops);
      && multiset(Added(r.events))[id] == (if id < r.nextId then 1 else 0)
      && multiset(Deleted(r.events))[id] == (if id < r.nextId && id !in Ids(r.vec) then 1 else 0)
      && Live(r.events) == Ids(r.vec)
      && (max >= 0 ==> |r.vec| <= max)
  {
    hide Run, Added, Deleted, Live;
    var r := Run(cfg, NewRegistry(max), ops);
    NewIsInv(cfg, max);
    RunKeepsInv(cfg, NewRegistry(max), ops);
    RunKeepsMax(cfg, NewRegistry(max), ops);
    EventsCount(r, id);
  }

  lemma EventsCount(r: Registry, id: nat)
    requires IdsSane(r)
    ensures multiset(Added(r.events))[id] == (if id < r.nextId then 1 else 0)
    ensures multiset(Deleted(r.events))[id] == (if id < r.nextId && id !in Ids(r.vec) then 1 else 0)
  {
    hide Added, Deleted, Live;
    EventsBalance(r.events);
    CountUpTo(r.nextId, id);
    var ids := Ids(r.vec);
    if id in ids {
      assert id in multiset(ids);
      assert r.nextId > id;
    }
  }

  lemma NewIsInv(cfg: Config, max: int)
    ensures Inv(cfg, NewRegistry(max))
  {
    assert Ids([]) == [];
    assert Sockets([]) == {};
  }

  lemma {:induction false} RunKeepsMax(cfg: Config, r: Registry, ops: seq<Op>)
    ensures Run(cfg, r, ops).max == r.max
    decreases |ops|
  {
    if ops != [] {
      var r' := if Enabled(r, ops[0]) then Next(cfg, r, ops[0]) else r;
      RunKeepsMax(cfg, r', ops[1..]);
    }
  }

  /** After Stop nobody is left: every client announced has been reported gone exactly once, and
      every descriptor is closed but those refused while the vector was full. */
  lemma StopLeavesOnlyRefused(cfg: Config, max: int, ops: seq<Op>)
    ensures var r := AfterStop(Run(cfg, NewRegistry(max), ops));
      && r.vec == []
      && Live(r.events) == []
      && multiset(Deleted(r.events)) == multiset(Added(r.events))
      && OpenFds(r.fds) == r.refused
      && ClosesAreOfOpen(r.fds)
  {
    hide Run, Added, Deleted, Live;
    NewIsInv(cfg, max);
    RunKeepsInv(cfg, NewRegistry(max), ops);
    var r0 := Run(cfg, NewRegistry(max), ops);
    StopKeepsIds(r0);
    StopKeepsFds(r0);
    EventsBalance(AfterStop(r0).events);
  }

  /** Readiness of a descriptor selects the one channel that owns it. */
  lemma ReadySelectsOwner(r: Registry, i: nat, ready: set<int>)
    requires FdsSane(r) && i < |r.vec|
    requires ready * Sockets(r.vec) == {r.vec[i].chan.socket}
    ensures FirstReady(r.vec, ready) == i
  {
    var k := FirstReady(r.vec, ready);
    assert r.vec[i].chan.socket in ready * Sockets(r.vec);
    if k < |r.vec| {
      assert r.vec[k].chan.socket in ready * Sockets(r.vec);
    }
  }

  /** A targeted send makes one attempt, on the only channel with that identifier, and none when
      there is no such channel. */
  lemma SendOneReachesOne(r: Registry, msg: Msg, id: int, ok: bool)
    requires IdsSane(r) && FdsSane(r)
    ensures var v := AfterSendOne(r.vec, msg, id, ok);
      && |v| == |r.vec|
      && (FirstOpen(r.vec, id) == |r.vec| <==> id !in Ids(r.vec))
      && forall i | 0 <= i < |v| ::
           v[i] == if r.vec[i].id == id
                   then r.vec[i].(out := r.vec[i].out + [Sent(msg, ok, false)]) else r.vec[i]
  {
    var k := FirstOpen(r.vec, id);
    if k < |r.vec| {
      assert Ids(r.vec)[k] == id;
    }
    forall i | 0 <= i < |r.vec| && r.vec[i].id == id
      ensures i == k
    {
      assert r.vec[i].chan.socket >= 0;
    }
    forall i | 0 <= i < |r.vec|
      ensures Ids(r.vec)[i] == id ==> i == k
    {
    }
  }

  // ---------- the class ----------

  // Whether the send on each channel succeeds, given what the system does during it.
  function Oks(msg: Msg, envs: nat -> SendEnv): nat -> bool {
    (i: nat) => SendRun(msg, envs(i)).code == Returns(0)
  }

  // What one send leaves on the wire.
  function Written(magic: u32, msg: Msg, e: SendEnv): (w: seq<byte>) {
    SendIsAllOrFailure(BodyLen(msg), e);
    Encode(magic, msg)[..SendRun(msg, e).written]
  }

  function Msgs(out: seq<Sent>): seq<Msg> {
    seq(|out|, i requires 0 <= i < |out| => out[i].msg)
  }

  predicate AllOk(out: seq<Sent>) {
    forall s <- out :: s.ok
  }

  // Until a send on a channel fails, its wire holds the frames sent on it, whole and in order.
  ghost predicate OnWire(cfg: Config, out: seq<Sent>, wire: seq<byte>) {
    AllOk(out) ==> wire == EncodeAll(cfg.magic, Msgs(out))
  }

  lemma SendExtendsWire(cfg: Config, out: seq<Sent>, wire: seq<byte>, msg: Msg, e: SendEnv, toAll: bool)
    requires OnWire(cfg, out, wire)
    ensures OnWire(cfg, out + [Sent(msg, SendRun(msg, e).code == Returns(0), toAll)],
                   wire + Written(cfg.magic, msg, e))
  {
    hide SendRunOf, Encode;
    var s := Sent(msg, SendRun(msg, e).code == Returns(0), toAll);
    if AllOk(out + [s]) {
      assert s in out + [s] && forall s' <- out :: s' in out + [s];
      SendIsAllOrFailure(BodyLen(msg), e);
      assert Encode(cfg.magic, msg)[..FrameLen(msg)] == Encode(cfg.magic, msg);
      assert Msgs(out + [s]) == Msgs(out) + [msg];
      EncodeAllAppend(cfg.magic, Msgs(out), [msg]);
      EncodeAllOne(cfg.magic, msg);
    }
  }

  /** What a client receives: while no send to it fails, having read any part of the wire it finds
      exactly the messages sent to it, to all or to it alone, that were whole in that part, once
      each and in the order of the sends, and no error. */
  lemma ClientReceivesWhatWasSent(cfg: Config, out: seq<Sent>, wire: seq<byte>, k: nat)
    requires OnWire(cfg, out, wire) && AllOk(out) && AllAcceptable(cfg, Msgs(out)) && k <= |wire|
    ensures var p := Parse(cfg, wire[..k]);
      && p.frames == Msgs(out)[..WholeFrames(cfg.magic, Msgs(out), k)]
      && p.verdict == Waiting
      && (k == |wire| ==> p.frames == Msgs(out))
  {
    hide Parse, WholeFrames;
    ParseTruncated(cfg, Msgs(out), k);
    if k == |wire| {
      ParseThenIncomplete(cfg, Msgs(out), []);
      assert wire[..k] == wire == EncodeAll(cfg.magic, Msgs(out)) + [];
    }
  }

  // The channels and their buffers.
  ghost function Parts(channels: seq<GepChannel>): set<object> {
    (set i | 0 <= i < |channels| :: channels[i] as object)
    + (set i | 0 <= i < |channels| :: channels[i].buf as object)
  }

  // The interfaces the channels send through.
  ghost function Wires(channels: seq<GepChannel>): set<object> {
    set i | 0 <= i < |channels| :: channels[i].io as object
  }

  ghost predicate Apart(channels: seq<GepChannel>) {
    forall i, j | 0 <= i < j < |channels| ::
      && channels[i] != channels[j]
      && channels[i].buf != channels[j].buf
      && channels[i].io != channels[j].io
      && channels[i].id < channels[j].id
  }

  // The entry is what the channel is now.
  ghost predicate Mirrors(cfg: Config, e: Entry, c: GepChannel)
    reads c, c.buf
  {
    && c.Valid() && c.cfg == cfg && c.socket >= 0
    && e.id == c.id && e.chan == c.State()
  }

  // Dying after it has received something, a channel leaves the same behind.
  lemma DeathAfterHandling(r: Registry, i: nat, e: Entry)
    requires i < |r.vec| && e.id == r.vec[i].id && e.chan.socket == r.vec[i].chan.socket
    ensures AfterDeath(r.(vec := r.vec[i := e]), i, e) == AfterDeath(r, i, e)
  {
    assert r.vec[i := e][..i] == r.vec[..i] && r.vec[i := e][i + 1..] == r.vec[i + 1..];
  }

  // Where the channel is, or the size of the vector.
  ghost function Position(channels: seq<GepChannel>, c: GepChannel): (i: nat)
    ensures i <= |channels|
    ensures i < |channels| ==> channels[i] == c
    ensures forall j | 0 <= j < i :: channels[j] != c
  {
    if channels == [] || channels[0] == c then 0 else 1 + Position(channels[1..], c)
  }

  lemma Mirrored(cfg: Config, e: Entry, c: GepChannel)
    ensures Mirrors(cfg, e, c)
       <==> (&& c.Valid() && c.cfg == cfg && c.socket >= 0
             && e.id == c.id && e.chan.socket == c.socket && e.chan == c.State())
  {
  }

  lemma Member(channels: seq<GepChannel>, i: nat)
    requires i < |channels|
    ensures channels[i] in Parts(channels) && channels[i].buf in Parts(channels)
    ensures channels[i].io in Wires(channels)
  {
  }

  lemma Others(channels: seq<GepChannel>, i: nat)
    requires i < |channels| && Apart(channels)
    ensures forall j | 0 <= j < |channels| && j != i ::
      && channels[j] != channels[i]
      && channels[j].buf != channels[i].buf
      && channels[j].io != channels[i].io
      && channels[j].id != channels[i].id
  {
  }

  lemma Separate(channels: seq<GepChannel>, all: GepChannelArray)
    ensures all !in Parts(channels) && all !in Wires(channels)
    ensures forall i | 0 <= i < |channels| ::
              && channels[i] !in Wires(channels) && channels[i].buf !in Wires(channels)
              && channels[i].io !in Parts(channels)
  {
  }

  lemma NothingSent(cfg: Config)
    ensures OnWire(cfg, [], [])
  {
  }

  lemma NoneApart()
    ensures Apart([])
  {
  }

  lemma ApartWith(channels: seq<GepChannel>, c: GepChannel)
    requires Apart(channels)
    requires forall i | 0 <= i < |channels| ::
      && channels[i].id < c.id && channels[i].buf != c.buf && channels[i].io != c.io
    ensures Apart(channels + [c])
    ensures Parts(channels + [c]) == Parts(channels) + {c, c.buf}
    ensures Wires(channels + [c]) == Wires(channels) + {c.io}
  {
    var all := channels + [c];
    assert all[|channels|] == c;
    assert forall i | 0 <= i < |channels| :: all[i] == channels[i];
  }

  lemma ApartWithout(channels: seq<GepChannel>, i: nat)
    requires Apart(channels) && i < |channels|
    ensures var rest := channels[..i] + channels[i + 1..];
      && Apart(rest)
      && channels[i] !in rest
      && Parts(rest) <= Parts(channels) - {channels[i], channels[i].buf}
      && Wires(rest) <= Wires(channels)
  {
    var rest := channels[..i] + channels[i + 1..];
    forall k | 0 <= k < |rest|
      ensures rest[k] == channels[if k < i then k else k + 1]
    {
    }
  }

  lemma LogsGrow(vec: seq<Entry>, i: nat)
    requires i < |vec|
    ensures Dels(vec[..i + 1]) == Dels(vec[..i]) + [Del(vec[i].id)]
    ensures Closes(vec[..i + 1]) == Closes(vec[..i]) + [Closed(vec[i].chan.socket)]
  {
  }

  lemma NoLogs(vec: seq<Entry>)
    ensures Dels(vec[..0]) == [] && Closes(vec[..0]) == []
  {
  }

  // A broadcast goes on behind the channel it has sent to, and ends at the end of the vector.
  lemma SendAllFrom(vec: seq<Entry>, i: nat, msg: Msg, oks: nat -> bool)
    requires i <= |vec|
    ensures AfterSendAll(vec, i, msg, oks)
         == if i == |vec| then vec else AfterSendAll(SendToMember(vec, i, msg, oks(i)), i + 1, msg, oks)
  {
  }

  // None of the first n sends fails.
  ghost predicate NoneFails(oks: nat -> bool, n: nat) {
    forall i | 0 <= i < n :: oks(i)
  }

  lemma OneMore(oks: nat -> bool, n: nat)
    ensures NoneFails(oks, 0)
    ensures NoneFails(oks, n + 1) <==> NoneFails(oks, n) && oks(n)
  {
  }

  class GepChannelArray {
    const cfg: Config
    const maxChannels: int
    var lastChannelId: nat
    var channels: seq<GepChannel>
    var serverSocket: int
    var events: seq<ClientEvent>
    var port: int  // the protocol's, 0 to have one assigned
    ghost var vec: seq<Entry>
    ghost var fds: seq<FdEvent>
    ghost var refused: set<int>
    ghost var gone: seq<Entry>

    ghost predicate Valid()
      reads this, Parts(channels), Wires(channels)
    {
      && Apart(channels) && |vec| == |channels|
      && forall i | 0 <= i < |channels| ::
           && Mirrors(cfg, vec[i], channels[i]) && channels[i].id < lastChannelId
           && OnWire(cfg, vec[i].out, channels[i].io.wire)
    }

    ghost function State(): Registry
      reads this
    {
      Registry(maxChannels, lastChannelId, vec, serverSocket, events, fds, refused, gone)
    }

    constructor (cfg: Config, maxChannels: int, port: int)
      ensures Valid() && Parts(channels) == {} && Wires(channels) == {}
      ensures this.cfg == cfg && this.port == port && State() == NewRegistry(maxChannels)
    {
      this.cfg, this.maxChannels, this.port := cfg, maxChannels, port;
      lastChannelId, channels, serverSocket, events := 0, [], -1, [];
      vec, fds, refused, gone := [], [], {}, [];
    }

    method OpenServerSocket(how: Listen) returns (ret: int)
      requires Valid()
      modifies this`fds, this`serverSocket, this`port
      ensures port == if how.Listening? && old(port) == 0 then how.port else old(port)
      ensures Valid() && State() == AfterOpenServer(old(State()), how)
      ensures ret == if how.Listening? then 0 else -1
    {
      match how {
        case NoListener =>
          return -1;
        case Abandoned(fd) =>
          fds := fds + [Opened(fd), Closed(fd)];
          return -1;
        case Listening(fd, given) =>
          fds := fds + [Opened(fd)];
          if port == 0 {
            port := given;
          }
          serverSocket := fd;
          return 0;
      }
    }

    /** Every channel is reported gone, then destroyed, which closes its socket. */
    method Stop() returns (ret: int)
      requires Valid()
      modifies this, Parts(channels)
      ensures Valid() && channels == [] && port == old(port)
      ensures State() == AfterStop(old(State())) && ret == 0
      ensures forall c <- old(channels) :: c.socket == -1 && c.len == 0
    {
      hide Mirrors, OnWire, Apart, Parts, Wires, Dels, Closes;
      Separate(channels, this);
      if serverSocket >= 0 {
        fds := fds + [Closed(serverSocket)];
      }
      serverSocket := -1;
      assert Dels(vec[..0]) == [] by { NoLogs(vec); }
      ghost var before := events;
      for i := 0 to |channels|
        invariant Valid()
        invariant unchanged(`channels) && unchanged(`vec) && unchanged(`lastChannelId)
        invariant unchanged(`port) && unchanged(`refused) && unchanged(`gone) && serverSocket == -1
        invariant fds == old(fds) + if old(serverSocket) >= 0 then [Closed(old(serverSocket))] else []
        invariant events == before + Dels(vec[..i])
      {
        Mirrored(cfg, vec[i], channels[i]);
        events := events + [Del(channels[i].id)];
        LogsGrow(vec, i);
      }
      assert vec[..|vec|] == vec;
      gone := gone + vec;
      Clear();
      ret := 0;
    }

    // gep_channel_vector_.clear()
    method Clear()
      requires Valid()
      modifies this`channels, this`vec, this`fds, Parts(channels)
      ensures Valid() && channels == []
      ensures fds == old(fds) + Closes(old(vec))
      ensures forall c <- old(channels) :: c.socket == -1 && c.len == 0
    {
      hide Mirrors, OnWire, Apart, Parts, Wires, Dels, Closes;
      Separate(channels, this);
      ghost var all := channels;
      NoLogs(vec);
      for i := 0 to |channels|
        invariant channels == all && unchanged(`vec)
        invariant forall j | i <= j < |channels| :: Mirrors(cfg, vec[j], channels[j])
        invariant forall j | 0 <= j < i :: channels[j].socket == -1 && channels[j].len == 0
        invariant fds == old(fds) + Closes(vec[..i])
      {
        Mirrored(cfg, vec[i], channels[i]);
        Member(channels, i);
        Others(channels, i);
        LogsGrow(vec, i);
        fds := fds + [Closed(channels[i].socket)];
        var _ := channels[i].Close();
      }
      assert vec[..|vec|] == vec;
      channels, vec := [], [];
      assert Apart(channels) by { NoneApart(); }
    }

    method AddChannel(socket: nat) returns (ret: int)
      requires Valid()
      modifies this`lastChannelId, this`channels, this`events, this`refused, this`vec
      ensures Valid() && fresh(Parts(channels) - old(Parts(channels))) && fresh(Wires(channels) - old(Wires(channels)))
      ensures State() == AfterAdd(old(State()), socket)
      ensures ret == if Full(maxChannels, |old(channels)|) then -1 else 0
    {
      hide Mirrors, OnWire, Apart, Parts, Wires;
      if maxChannels >= 0 && |channels| >= maxChannels {
        refused := refused + {socket};
        return -1;
      }
      var id := lastChannelId;
      lastChannelId := lastChannelId + 1;
      var c := new GepChannel(id, cfg, socket);
      ghost var e := Entry(id, Chan(socket, [], []), [], []);
      Mirrored(cfg, e, c);
      assert OnWire(cfg, [], []) by { NothingSent(cfg); }
      forall i | 0 <= i < |channels|
        ensures channels[i].id < c.id && channels[i].buf != c.buf && channels[i].io != c.io
      {
        Member(channels, i);
      }
      ApartWith(channels, c);
      channels := channels + [c];
      vec := vec + [e];
      events := events + [Add(id)];
      return 0;
    }

    method AcceptConnection(conn: Accept) returns (ret: int)
      requires Valid()
      modifies this
      ensures port == old(port)
      ensures Valid() && fresh(Parts(channels) - old(Parts(channels))) && fresh(Wires(channels) - old(Wires(channels)))
      ensures State() == AfterAccept(old(State()), conn)
      ensures ret == if conn.Accepted? then 0 else -1
    {
      if conn.AcceptFails? {
        return -1;
      }
      fds := fds + [Opened(conn.fd)];
      var _ := AddChannel(conn.fd);
      return 0;
    }

    // One channel's SendMessage, on record.
    method SendAt(i: nat, msg: Msg, e: SendEnv, toAll: bool) returns (ret: int)
      requires Valid() && i < |channels| && SendRun(msg, e).code.Returns?
      modifies this`vec, channels[i].io
      ensures Valid()
      ensures vec == old(vec)[i := Attempted(old(vec)[i], msg, SendRun(msg, e).code == Returns(0), toAll)]
      ensures channels[i].io.wire == old(channels[i].io.wire) + Written(cfg.magic, msg, e)
      ensures ret == if SendRun(msg, e).code == Returns(0) then 0 else -1
    {
      hide Mirrors, OnWire, Apart, Parts, Wires, SendRun, Encode;
      Mirrored(cfg, vec[i], channels[i]);
      Others(channels, i);
      SendExtendsWire(cfg, vec[i].out, channels[i].io.wire, msg, e, toAll);
      var sent := channels[i].SendString(msg.tag, msg.value, e);
      vec := vec[i := Attempted(vec[i], msg, sent.code == Returns(0), toAll)];
      Mirrored(cfg, vec[i], channels[i]);
      ret := sent.code.code;
    }

    /** Every open channel is sent the message, whatever became of the sends before; the result
        tells whether one of them failed. */
    method SendMessage(msg: Msg, envs: nat -> SendEnv) returns (ret: int)
      requires Valid() && forall i: nat :: SendRun(msg, envs(i)).code.Returns?
      modifies this`vec, Wires(channels)
      ensures Valid() && vec == AfterSendAll(old(vec), 0, msg, Oks(msg, envs))
      ensures forall i | 0 <= i < |channels| ::
        channels[i].io.wire == old(channels[i].io.wire) + Written(cfg.magic, msg, envs(i))
      ensures ret == if NoneFails(Oks(msg, envs), |channels|) then 0 else -1
    {
      hide Mirrors, OnWire, Apart, Parts, Wires, SendRun, Written, AfterSendAll, NoneFails;
      Separate(channels, this);
      var oks := Oks(msg, envs);
      ret := 0;
      OneMore(oks, 0);
      ghost var end := AfterSendAll(vec, 0, msg, oks);
      for i := 0 to |channels|
        invariant Valid()
        invariant end == AfterSendAll(vec, i, msg, oks)
        invariant forall j | 0 <= j < i ::
          channels[j].io.wire == old(channels[j].io.wire) + Written(cfg.magic, msg, envs(j))
        invariant forall j | i <= j < |channels| :: unchanged(channels[j].io)
        invariant ret == if NoneFails(oks, i) then 0 else -1
      {
        Mirrored(cfg, vec[i], channels[i]);
        OneMore(oks, i);
        SendAllFrom(vec, i, msg, oks);
        if channels[i].socket != -1 {
          Member(channels, i);
          Others(channels, i);
          var sent := SendAt(i, msg, envs(i), true);
          if sent < 0 {
            ret := -1;
          }
        }
      }
      SendAllFrom(vec, |vec|, msg, oks);
    }

    method SendMessageTo(msg: Msg, id: int, e: SendEnv) returns (ret: int)
      requires Valid() && SendRun(msg, e).code.Returns?
      modifies this`vec, Wires(channels)
      ensures Valid() && vec == AfterSendOne(old(vec), msg, id, SendRun(msg, e).code == Returns(0))
      ensures forall i | 0 <= i < |channels| ::
        channels[i].io.wire == old(channels[i].io.wire)
          + if channels[i].id == id then Written(cfg.magic, msg, e) else []
      ensures ret == if FirstOpen(old(vec), id) < |channels| && SendRun(msg, e).code == Returns(0)
                     then 0 else -1
    {
      hide Mirrors, OnWire, Apart, Parts, Wires, SendRun, Written, FirstOpen;
      Separate(channels, this);
      for i := 0 to |channels|
        invariant unchanged(`vec)
        invariant forall j | 0 <= j < |channels| :: unchanged(channels[j].io)
        invariant forall j | 0 <= j < i :: vec[j].id != id && channels[j].id != id
      {
        Mirrored(cfg, vec[i], channels[i]);
        if channels[i].socket != -1 && id == channels[i].id {
          Member(channels, i);
          Others(channels, i);
          ret := SendAt(i, msg, e, false);
          return;
        }
      }
      return -1;
    }

    method GetVectorReadFds(maxFds: int, readFds: set<int>) returns (newMax: int, newFds: set<int>)
      requires Valid() && forall fd | fd in readFds :: fd <= maxFds
      ensures newFds == readFds + Sockets(vec)
      ensures forall fd | fd in newFds :: fd <= newMax
      ensures newMax == maxFds || newMax in newFds
    {
      hide Mirrors, OnWire, Apart, Parts, Wires, Sockets;
      newMax, newFds := maxFds, readFds;
      assert Sockets(vec[..0]) == {} by { SocketsOfNone(); }
      for i := 0 to |channels|
        invariant newFds == readFds + Sockets(vec[..i])
        invariant maxFds <= newMax && forall fd | fd in newFds :: fd <= newMax
        invariant newMax == maxFds || newMax in newFds
      {
        var socket := channels[i].socket;
        Mirrored(cfg, vec[i], channels[i]);
        assert vec[..i + 1] == vec[..i] + [vec[i]];
        SocketsOfMore(vec[..i], vec[i]);
        if socket < 0 {
          continue;
        }
        newFds := newFds + {socket};
        newMax := if socket > newMax then socket else newMax;
      }
      assert vec[..|vec|] == vec;
    }

    // The first critical section of RecvData: the first channel whose socket is set.
    method SelectReady(ready: set<int>) returns (used: nat)
      requires Valid()
      ensures used == FirstReady(vec, ready)
    {
      used := 0;
      while used < |channels| && !(channels[used].socket >= 0 && channels[used].socket in ready)
        invariant used <= |channels|
        invariant forall j | 0 <= j < used :: vec[j].chan.socket < 0 || vec[j].chan.socket !in ready
      {
        used := used + 1;
      }
    }

    // Between them, under no lock of the array: the channel receives.
    method Handle(i: nat, recv: Recvd) returns (ret: int)
      requires Valid() && i < |channels|
      modifies this`vec, channels[i], channels[i].buf
      ensures Valid()
      ensures var e := old(vec)[i];
        && ret == AfterRecv(cfg, e.chan, recv).1
        && vec == old(vec)[i := e.(chan := AfterRecv(cfg, e.chan, recv).0,
                                   got := e.got + Taken(e.chan, recv))]
      ensures vec[i].chan.socket == old(vec)[i].chan.socket
    {
      hide Mirrors, OnWire, Apart, Parts, Wires, AfterRecv, Taken;
      Mirrored(cfg, vec[i], channels[i]);
      Others(channels, i);
      ghost var e := vec[i];
      ret := channels[i].RecvData(recv);
      vec := vec[i := e.(chan := channels[i].State(), got := e.got + Taken(e.chan, recv))];
      Mirrored(cfg, vec[i], channels[i]);
    }

    // The second one: the channel, if it is still there, is reported gone and erased.
    method Erase(c: GepChannel)
      requires Valid()
      modifies this`channels, this`vec, this`events
      ensures Valid() && Parts(channels) <= old(Parts(channels)) && Wires(channels) <= old(Wires(channels))
      ensures c !in channels && (c in old(channels) ==> c.buf !in Parts(channels))
      ensures var i := Position(old(channels), c);
        if i == |old(channels)| then
          vec == old(vec) && channels == old(channels) && events == old(events)
        else
          vec == old(vec)[..i] + old(vec)[i + 1..] && events == old(events) + [Del(c.id)]
    {
      hide Mirrors, OnWire, Apart, Parts, Wires;
      var it := 0;
      while it < |channels|
        invariant it <= |channels| && unchanged(this)
        invariant forall j | 0 <= j < it :: channels[j] != c
      {
        if channels[it] == c {
          Mirrored(cfg, vec[it], c);
          ApartWithout(channels, it);
          events := events + [Del(channels[it].id)];
          channels := channels[..it] + channels[it + 1..];
          vec := vec[..it] + vec[it + 1..];
          return;
        }
        it := it + 1;
      }
    }

    // The channel is erased, and destroyed with its last reference, which closes its socket.
    method Discard(c: GepChannel, ghost i: nat)
      requires Valid() && i < |channels| && channels[i] == c
      modifies this`channels, this`vec, this`events, this`fds, this`gone, c
      ensures Valid() && Parts(channels) <= old(Parts(channels)) && Wires(channels) <= old(Wires(channels))
      ensures State() == AfterDeath(old(State()), i, old(vec)[i])
      ensures c.socket == -1 && c.len == 0
    {
      hide Mirrors, OnWire, Apart, Parts, Wires;
      Mirrored(cfg, vec[i], c);
      Others(channels, i);
      assert Position(channels, c) == i;
      hide Position;
      gone := gone + [vec[i]];
      fds := fds + [Closed(c.socket)];
      Erase(c);
      assert State() == AfterDeath(old(State()), i, old(vec)[i]);
      hide AfterDeath;
      var _ := c.Close();
    }

    /** Serves the first ready channel; one that fails to receive is reported gone, erased and
        destroyed, which closes its socket. */
    method RecvData(ready: set<int>, recv: Recvd)
      requires Valid()
      modifies this, Parts(channels)
      ensures port == old(port)
      ensures Valid() && Parts(channels) <= old(Parts(channels)) && Wires(channels) <= old(Wires(channels))
      ensures State() == AfterReceive(cfg, old(State()), ready, recv)
    {
      hide Mirrors, OnWire, Apart, Parts, Wires, AfterRecv, Taken, FirstReady;
      Separate(channels, this);
      var used := SelectReady(ready);
      if used == |channels| {
        return;
      }
      var c := channels[used];
      Member(channels, used);
      Others(channels, used);
      Mirrored(cfg, vec[used], c);
      var ret := Handle(used, recv);
      if ret < 0 {
        DeathAfterHandling(old(State()), used, vec[used]);
        Discard(c, used);
      }
    }
  }
}
