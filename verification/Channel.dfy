/** One end of a connection, src/gep_channel.cc: the receive buffer and its framing loop, the
    opening and closing of the socket, and the sender. `Chan` and the functions on it specify the
    class `GepChannel`. */
module Channel {
  import opened Bytes
  import opened Protocol
  import opened Framing
  import opened FullSend
  import opened Descriptors
  import Escape

  type chunk = s: seq<byte> | s != [] witness [0]

  /** What recv() finds: bytes waiting in the kernel, of which it takes what fits in the space it is
      given; an orderly shutdown (0); or an error (< 0). */
  datatype Recvd = Data(waiting: chunk) | PeerClosed | RecvFailed

  /** How OpenClientSocket fares: socket() fails, connect() fails, or a connected descriptor. */
  datatype Connect = NoSocket | Refused(fd: nat) | Connected(fd: nat)

  /** A channel as its users see it: the socket, the bytes waiting in the buffer, and the messages
      handed to callbacks so far. */
  datatype Chan = Chan(socket: int, pending: seq<byte>, log: seq<Msg>)

  function Taken(c: Chan, r: Recvd): seq<byte> {
    if r.Data? && c.socket >= 0 && |c.pending| < MAX_MSG_LEN then
      if |r.waiting| <= MAX_MSG_LEN - |c.pending| then r.waiting
      else r.waiting[..MAX_MSG_LEN - |c.pending|]
    else []
  }

  // RecvData, and what it returns.
  function AfterRecv(cfg: Config, c: Chan, r: Recvd): (Chan, int) {
    if c.socket < 0 || |c.pending| >= MAX_MSG_LEN then (c, -1)
    else
      match r
      case PeerClosed => (c, -2)
      case RecvFailed => (c, -1)
      case Data(_) =>
        var p := Parse(cfg, c.pending + Taken(c, r));
        (Chan(c.socket, p.rest, c.log + Dispatched(cfg.ops, p.frames)),
         if p.verdict.Rejected? then -1 else 0)
  }

  // On a socket that is closed, or with a full buffer, nothing is received.
  lemma RecvRefused(cfg: Config, c: Chan, r: Recvd)
    requires c.socket < 0 || |c.pending| >= MAX_MSG_LEN
    ensures AfterRecv(cfg, c, r) == (c, -1)
  {
  }

  lemma RecvKeepsSocket(cfg: Config, c: Chan, r: Recvd)
    ensures AfterRecv(cfg, c, r).0.socket == c.socket
  {
  }

  function AfterOpen(c: Chan, how: Connect): Chan {
    if how.Connected? then c.(socket := how.fd) else c
  }

  function AfterClose(c: Chan): Chan {
    if c.socket != -1 then Chan(-1, [], c.log) else c
  }

  // The descriptors that OpenClientSocket opens and closes, and those that Close closes.
  function Opening(how: Connect): seq<FdEvent> {
    match how
    case NoSocket => []
    case Refused(fd) => [Opened(fd), Closed(fd)]
    case Connected(fd) => [Opened(fd)]
  }

  function Closing(c: Chan): seq<FdEvent> {
    if c.socket != -1 then [Closed(c.socket)] else []
  }

  // ---------- the receiver over whole streams ----------

  /** The channel is open and has received exactly `got` on this connection, starting from the
      callback log `base`, without error. */
  ghost predicate InSync(cfg: Config, c: Chan, base: seq<Msg>, got: seq<byte>) {
    var p := Parse(cfg, got);
    && c.socket >= 0
    && p.verdict.Waiting?
    && c.pending == p.rest
    && c.log == base + Dispatched(cfg.ops, p.frames)
  }

  lemma StartsInSync(cfg: Config, c: Chan)
    requires c.socket >= 0 && c.pending == []
    ensures InSync(cfg, c, c.log, [])
  {
    assert c.log + [] == c.log;
  }

  /** The buffer never wedges: a channel in step with its stream has room for at least two bytes,
      so recv() is always called, and asked for at least one byte. */
  lemma NeverFull(cfg: Config, c: Chan, base: seq<Msg>, got: seq<byte>, waiting: chunk)
    requires InSync(cfg, c, base, got)
    ensures |c.pending| <= MAX_MSG_LEN - 2
    ensures Taken(c, Data(waiting)) != [] && Taken(c, Data(waiting)) <= waiting
    ensures Taken(c, Data(waiting)) == waiting || |c.pending| + |Taken(c, Data(waiting))| == MAX_MSG_LEN
  {
    RestLeavesRoom(cfg, got);
  }

  /** One call of RecvData on a channel in step with its stream: it dispatches what the parser of
      the longer stream adds, fails exactly when that parser rejects, and else stays in step. */
  lemma RecvKeepsSync(cfg: Config, c: Chan, base: seq<Msg>, got: seq<byte>, r: Recvd)
    requires InSync(cfg, c, base, got)
    ensures var (c', ret) := AfterRecv(cfg, c, r);
      var got' := got + Taken(c, r);
      && c'.socket == c.socket
      && c'.log == base + Dispatched(cfg.ops, Parse(cfg, got').frames)
      && ret <= 0
      && (ret == 0 ==> r.Data? && InSync(cfg, c', base, got'))
      && (ret < 0 <==> !r.Data? || Parse(cfg, got').verdict.Rejected?)
      && (ret == -2 <==> r.PeerClosed?)
      && (if r.Data? then c'.pending == Parse(cfg, got').rest else c' == c)
  {
    hide Parse, Dispatched;
    RestLeavesRoom(cfg, got);
    var t := Taken(c, r);
    if r.Data? {
      ParseAppend(cfg, got, t);
      var p, q := Parse(cfg, got), Parse(cfg, c.pending + t);
      DispatchedAppend(cfg.ops, p.frames, q.frames);
      assert base + (Dispatched(cfg.ops, p.frames) + Dispatched(cfg.ops, q.frames))
          == c.log + Dispatched(cfg.ops, q.frames);
    } else {
      assert got + t == got;
    }
  }

  datatype Reader = Reader(chan: Chan, read: nat, failed: bool)

  // Reads a stream by calls of RecvData, each finding at most the given number of bytes waiting,
  // until the stream is drained, a call fails or no more calls are made.
  function ReadStream(cfg: Config, r: Reader, stream: seq<byte>, sizes: seq<pos>): Reader
    requires r.read <= |stream|
    decreases |sizes|
  {
    if sizes == [] || r.failed || r.read == |stream| then r
    else
      var upTo := if sizes[0] <= |stream| - r.read then r.read + sizes[0] else |stream|;
      var found := Data(stream[r.read..upTo]);
      var (c, ret) := AfterRecv(cfg, r.chan, found);
      ReadStream(cfg, Reader(c, r.read + |Taken(r.chan, found)|, ret < 0), stream, sizes[1..])
  }

  /** The reader has read that much of the stream, has dispatched (after `base`) what the parser of
      that much dispatches, has failed exactly if that parser rejects, and is else in step. */
  ghost predicate Follows(cfg: Config, r: Reader, base: seq<Msg>, stream: seq<byte>) {
    && r.read <= |stream|
    && var p := Parse(cfg, stream[..r.read]);
    && (r.failed || InSync(cfg, r.chan, base, stream[..r.read]))
    && p.verdict.Rejected? == r.failed
    && r.chan.log == base + Dispatched(cfg.ops, p.frames)
  }

  lemma FollowsFromStart(cfg: Config, c: Chan, stream: seq<byte>)
    requires c.socket >= 0 && c.pending == []
    ensures Follows(cfg, Reader(c, 0, false), c.log, stream)
  {
    assert stream[..0] == [];
    StartsInSync(cfg, c);
  }

  // Bytes that arrive later do not disturb the reader.
  lemma FollowsGrowing(cfg: Config, r: Reader, base: seq<Msg>, stream: seq<byte>, longer: seq<byte>)
    requires Follows(cfg, r, base, stream) && stream <= longer
    ensures Follows(cfg, r, base, longer)
  {
    assert longer[..r.read] == stream[..r.read];
  }

  lemma {:induction false} ReadStreamSync(cfg: Config, r: Reader, base: seq<Msg>,
                                          stream: seq<byte>, sizes: seq<pos>)
    requires Follows(cfg, r, base, stream)
    ensures Follows(cfg, ReadStream(cfg, r, stream, sizes), base, stream)
    decreases |sizes|
  {
    hide Parse, Dispatched;
    if sizes != [] && !r.failed && r.read < |stream| {
      var upTo := if sizes[0] <= |stream| - r.read then r.read + sizes[0] else |stream|;
      var found := Data(stream[r.read..upTo]);
      var t := Taken(r.chan, found);
      NeverFull(cfg, r.chan, base, stream[..r.read], found.waiting);
      RecvKeepsSync(cfg, r.chan, base, stream[..r.read], found);
      assert t == stream[r.read..r.read + |t|];
      assert stream[..r.read] + t == stream[..r.read + |t|];
      var (c, ret) := AfterRecv(cfg, r.chan, found);
      ReadStreamSync(cfg, Reader(c, r.read + |t|, ret < 0), base, stream, sizes[1..]);
    }
  }

  /** Each call takes at least a byte, so as many calls as there are bytes left drain the stream, unless
      one fails. */
  lemma {:induction false} ReadsDrain(cfg: Config, r: Reader, base: seq<Msg>, stream: seq<byte>,
                                      sizes: seq<pos>)
    requires Follows(cfg, r, base, stream) && |sizes| >= |stream| - r.read
    ensures var r' := ReadStream(cfg, r, stream, sizes); r'.failed || r'.read == |stream|
    decreases |sizes|
  {
    hide Follows;
    FollowsBehind(cfg, r, base, stream);
    if sizes != [] {
      if !r.failed && r.read < |stream| {
        var r1 := ReadStream(cfg, r, stream, [sizes[0]]);
        OneReadTakes(cfg, r, base, stream, sizes);
        hide ReadStream;
        ReadStreamSync(cfg, r, base, stream, [sizes[0]]);
        ReadsDrain(cfg, r1, base, stream, sizes[1..]);
      }
    }
  }

  lemma FollowsBehind(cfg: Config, r: Reader, base: seq<Msg>, stream: seq<byte>)
    requires Follows(cfg, r, base, stream)
    ensures r.read <= |stream|
  {
  }

  // The first read takes at least a byte, and the others follow.
  lemma OneReadTakes(cfg: Config, r: Reader, base: seq<Msg>, stream: seq<byte>, sizes: seq<pos>)
    requires Follows(cfg, r, base, stream) && !r.failed && r.read < |stream| && sizes != []
    ensures var r1 := ReadStream(cfg, r, stream, [sizes[0]]);
      && r.read < r1.read <= |stream|
      && ReadStream(cfg, r, stream, sizes) == ReadStream(cfg, r1, stream, sizes[1..])
  {
    hide Parse, Dispatched, AfterRecv, InSync;
    assert InSync(cfg, r.chan, base, stream[..r.read]);
    var upTo := if sizes[0] <= |stream| - r.read then r.read + sizes[0] else |stream|;
    NeverFull(cfg, r.chan, base, stream[..r.read], stream[r.read..upTo]);
    hide Taken;
    FirstRead(cfg, r, stream, sizes, stream[r.read..upTo]);
  }

  lemma FirstRead(cfg: Config, r: Reader, stream: seq<byte>, sizes: seq<pos>, waiting: chunk)
    requires !r.failed && r.read < |stream| && sizes != []
    requires waiting == stream[r.read..if sizes[0] <= |stream| - r.read then r.read + sizes[0] else |stream|]
    ensures var r1 := ReadStream(cfg, r, stream, [sizes[0]]);
      && r1.read == r.read + |Taken(r.chan, Data(waiting))|
      && ReadStream(cfg, r, stream, sizes) == ReadStream(cfg, r1, stream, sizes[1..])
  {
    hide Parse, Dispatched, AfterRecv;
    var (c, ret) := AfterRecv(cfg, r.chan, Data(waiting));
    var r1 := Reader(c, r.read + |Taken(r.chan, Data(waiting))|, ret < 0);
    assert [sizes[0]][1..] == [];
    assert ReadStream(cfg, r1, stream, []) == r1;
  }

  /** Chunking independence. However a stream is split into reads, a fresh connection that has read
      all of it, or has failed on the way, has dispatched exactly what the parser of the whole
      stream dispatches, has failed exactly if that parser rejects, and otherwise holds exactly the
      bytes that parser leaves over. */
  lemma ChunkingIndependent(cfg: Config, c: Chan, stream: seq<byte>, sizes: seq<pos>)
    requires c.socket >= 0 && c.pending == []
    ensures var r := ReadStream(cfg, Reader(c, 0, false), stream, sizes);
      var p := Parse(cfg, stream);
      r.failed || r.read == |stream| ==>
        && r.chan.log == c.log + Dispatched(cfg.ops, p.frames)
        && r.failed == p.verdict.Rejected?
        && (!r.failed ==> r.chan.pending == p.rest)
  {
    hide Parse, Dispatched;
    FollowsFromStart(cfg, c, stream);
    ReadStreamSync(cfg, Reader(c, 0, false), c.log, stream, sizes);
    var r := ReadStream(cfg, Reader(c, 0, false), stream, sizes);
    if r.failed {
      ParseAppend(cfg, stream[..r.read], stream[r.read..]);
      assert stream[..r.read] + stream[r.read..] == stream;
    } else if r.read == |stream| {
      assert stream[..r.read] == stream;
    }
  }

  // ---------- the sender ----------

  type i32 = x: int | -0x8000_0000 <= x < 0x8000_0000

  const SEND_TIMEOUT_MS: i64 := 5

  // How far SendTLV has come, and what it has returned if it has.
  datatype Sending = Sending(code: Ret, written: nat)
  datatype Ret = NotYet | Returns(code: int)

  /** What the system does during one SendTLV: for each of its two calls of FullSend, the clock at
      its start and its turns. */
  datatype SendEnv = SendEnv(started1: u64, env1: seq<Attempt>, started2: u64, env2: seq<Attempt>)

  // SendTLV with a value of which `bodyLen` bytes are to be sent after the header.
  function SendRunOf(bodyLen: nat, e: SendEnv): Sending {
    match Run(0, HDR_LEN, SEND_TIMEOUT_MS, MsElapse(e.started1, 0), e.env1)
    case Running(n) => Sending(NotYet, n)
    case Done(code, n) =>
      if code != HDR_LEN then Sending(Returns(-1), n)
      else if bodyLen == 0 then Sending(Returns(0), n)
      else
        match Run(0, bodyLen, SEND_TIMEOUT_MS, MsElapse(e.started2, 0), e.env2)
        case Running(k) => Sending(NotYet, n + k)
        case Done(code2, k) => Sending(Returns(if code2 != bodyLen then -1 else 0), n + k)
  }

  function SendRun(m: Msg, e: SendEnv): Sending {
    SendRunOf(BodyLen(m), e)
  }

  /** SendTLV returns 0 exactly when its whole frame is on the wire, and -1 exactly when it has
      given up on a strict prefix of it. */
  lemma SendIsAllOrFailure(bodyLen: nat, e: SendEnv)
    ensures var s := SendRunOf(bodyLen, e);
      && s.written <= HDR_LEN + bodyLen
      && (s.code == Returns(0) <==> s.written == HDR_LEN + bodyLen)
      && (s.code.Returns? ==> s.code.code in {0, -1})
  {
    ReturnsSizeIffAllSent(0, HDR_LEN, SEND_TIMEOUT_MS, MsElapse(e.started1, 0), e.env1);
    if bodyLen > 0 {
      ReturnsSizeIffAllSent(0, bodyLen, SEND_TIMEOUT_MS, MsElapse(e.started2, 0), e.env2);
    }
  }

  /** If nothing goes wrong in either call, for 5 milliseconds each, and there is room for the header and
      for the body, the whole frame goes out and the result is 0. */
  lemma SendSucceeds(bodyLen: nat, e: SendEnv)
    requires Smooth(e.started1, 5, e.env1) && Rooms(e.env1) >= 12
    requires bodyLen > 0 ==> Smooth(e.started2, 5, e.env2) && Rooms(e.env2) >= bodyLen
    ensures SendRunOf(bodyLen, e) == Sending(Returns(0), 12 + bodyLen)
  {
    SendsAll(0, HDR_LEN, SEND_TIMEOUT_MS, e.started1, e.env1);
    if bodyLen > 0 {
      SendsAll(0, bodyLen, SEND_TIMEOUT_MS, e.started2, e.env2);
    }
  }

  /** A send that finds the socket full more than 5 milliseconds after its start gives up. */
  lemma LateSendFails(bodyLen: nat, e: SendEnv, now: u64, num: int, wake: u64)
    requires e.env1 == [Blocked(now, num, wake)] && e.started1 <= now
    requires now / NSECS_PER_MSEC - e.started1 / NSECS_PER_MSEC > 5
    ensures SendRunOf(bodyLen, e) == Sending(Returns(-1), 0)
  {
    MsElapseExact(e.started1, now);
    DeadlineTests(SEND_TIMEOUT_MS, now, MsElapse(e.started1, 0));
  }

  // The same on a socket, which may be closed.
  function OnSocket(socket: int, e: SendEnv): SendEnv {
    SendEnv(e.started1, OnFd(socket, e.env1), e.started2, OnFd(socket, e.env2))
  }

  /** A send on a closed socket fails at once and writes nothing. */
  lemma ClosedSendFails(socket: int, bodyLen: nat, e: SendEnv)
    requires socket < 0
    ensures SendRunOf(bodyLen, OnSocket(socket, e)) == Sending(Returns(-1), 0)
  {
  }

  // What SendTLV is given as its value: a pointer that may be null.
  datatype Value = Null | Bytes(bytes: seq<byte>)

  // `if (!value) value_len = 0`
  function LenToSend(valueLen: i32, value: Value): i32 {
    if value.Null? then 0 else valueLen
  }

  // The frame that SendTLV sends: a length that is not positive goes into the header all the same.
  function FrameOf(magic: u32, tag: u32, valueLen: i32, value: Value): (f: seq<byte>)
    requires value.Bytes? ==> valueLen <= |value.bytes|
    ensures |f| >= HDR_LEN
  {
    var n := LenToSend(valueLen, value);
    Header(magic, tag, n % 0x1_0000_0000) + if n > 0 then value.bytes[..n] else []
  }

  /** A frame without a value is a header with length 0; a negative length goes into the header with its
      32 bits, and no value follows. */
  lemma FrameWithoutValue(magic: u32, tag: u32, valueLen: i32, value: Value)
    requires value.Null? || valueLen <= 0
    ensures FrameOf(magic, tag, valueLen, value)
         == Header(magic, tag, if value.Null? || valueLen == 0 then 0 else valueLen + 0x1_0000_0000)
  {
    hide Header;
  }

  lemma FrameOfString(magic: u32, tag: u32, s: seq<byte>, len: i32)
    requires len == ValueLen(Msg(tag, s))
    ensures len <= |s| && FrameOf(magic, tag, len, Bytes(s)) == Encode(magic, Msg(tag, s))
  {
    hide Header;
  }

  // What is on the wire when SendTLV stops inside the header, and when it stops inside the value.
  lemma FrameParts(wire: seq<byte>, header: seq<byte>, body: seq<byte>, h: nat, k: nat)
    requires h <= |header| && k <= |body|
    ensures wire + header[..h] == wire + (header + body)[..h]
    ensures wire + header[..|header|] + body[..k] == wire + (header + body)[..|header| + k]
  {
    assert (header + body)[..h] == header[..h];
    assert (header + body)[..|header| + k] == header[..|header|] + body[..k];
    Regroup(wire, header[..|header|], body[..k]);
  }

  // ---------- the class ----------

  datatype Result = CmdError | CmdOk | CmdFragmented | CmdDropped {
    predicate IsRecoverable() {
      this != CmdError
    }
  }

  class GepChannel {
    const id: int
    const cfg: Config
    const io: SocketInterface
    const buf: array<byte>
    var socket: int
    var len: nat
    var log: seq<Msg>  // the calls made to callbacks
    ghost var fds: seq<FdEvent>

    ghost predicate Valid()
      reads this
    {
      buf.Length == MAX_MSG_LEN && len <= MAX_MSG_LEN
    }

    ghost function State(): Chan
      reads this, buf
      requires Valid()
    {
      Chan(socket, buf[..len], log)
    }

    constructor (id: int, cfg: Config, socket: int)
      ensures Valid() && fresh(buf) && fresh(io) && io.wire == []
      ensures this.id == id && this.cfg == cfg && State() == Chan(socket, [], []) && fds == []
    {
      this.id := id;
      this.cfg := cfg;
      this.io := new SocketInterface();
      this.buf := new byte[MAX_MSG_LEN];
      this.socket := socket;
      this.len := 0;
      this.log := [];
      this.fds := [];
    }

    method OpenClientSocket(how: Connect) returns (ret: int)
      requires Valid()
      modifies this, io
      ensures Valid() && State() == AfterOpen(old(State()), how)
      ensures io.wire == if how.Connected? then [] else old(io.wire)
      ensures fds == old(fds) + Opening(how)
      ensures ret == if how.Connected? then 0 else -1
    {
      fds := fds + Opening(how);
      if !how.Connected? {
        return -1;
      }
      io.Connected();
      socket := how.fd;
      return 0;
    }

    method Close() returns (ret: int)
      requires Valid()
      modifies this
      ensures Valid() && State() == AfterClose(old(State()))
      ensures fds == old(fds) + Closing(old(State()))
      ensures ret == if old(socket) != -1 then 0 else -1
    {
      fds := fds + Closing(State());
      if socket != -1 {
        socket := -1;
        len := 0;
        return 0;
      }
      return -1;
    }

    /** Every store is in bounds except for an empty body that does not parse: the text that is made
        of it for the log has no room at all. */
    method RecvTLV(tag: u32, value: seq<byte>) returns (ret: Result, inBounds: bool)
      requires Valid()
      modifies this`log
      ensures inBounds <==> !(tag in cfg.ops && !cfg.parses(tag, value) && value == [])
      ensures tag !in cfg.ops ==> ret == CmdDropped && log == old(log)
      ensures tag in cfg.ops && !cfg.parses(tag, value) ==> ret == CmdError && log == old(log)
      ensures tag in cfg.ops && cfg.parses(tag, value) ==>
        ret == CmdOk && log == old(log) + [Msg(tag, value)]
    {
      inBounds := true;
      if tag in cfg.ops {
        if !cfg.parses(tag, value) {
          var tmp;
          inBounds, tmp := Escape.UnpackableText(value);
          ret := CmdError;
          return;
        }
        log := log + [Msg(tag, value)];
      } else {
        ret := CmdDropped;
        return;
      }
      ret := CmdOk;
    }

    // memmove(buf_, buf_ + from, n)
    method MoveToFront(from: nat, n: nat)
      requires from + n <= buf.Length
      modifies buf
      ensures buf[..n] == old(buf[from..from + n])
    {
      forall i | 0 <= i < n {
        buf[i] := buf[from + i];
      }
    }

    /** The framing loop in place over the buffer does what the parser does on its contents. */
    method RecvString() returns (ret: Result)
      requires Valid()
      modifies this`len, this`log, buf
      ensures Valid()
      ensures var p := Parse(cfg, old(buf[..len]));
        && buf[..len] == p.rest
        && log == old(log) + Dispatched(cfg.ops, p.frames)
        && ret == (if p.verdict.Rejected? then CmdError
                   else if p.rest == [] then CmdOk else CmdFragmented)
    {
      hide Parse, Dispatched;
      ghost var entry := buf[..len];
      ghost var done: seq<Msg> := [];
      AfterNothing(Parse(cfg, entry));
      DispatchedNothing(cfg.ops);
      while len >= HDR_LEN
        invariant Valid()
        invariant Parse(cfg, entry) == Parse(cfg, buf[..len]).After(done)
        invariant log == old(log) + Dispatched(cfg.ops, done)
        decreases len
      {
        ghost var s := buf[..len];
        var header := ScanHeader(cfg.magic, buf);
        ScanOfPrefix(cfg.magic, s, buf[..]);
        if !header.valid {
          len := 0;
          EndsWith(cfg, entry, done, s);
          return CmdError;
        }
        if header.valueLen >= MAX_MSG_LEN - HDR_LEN {
          len := 0;
          EndsWith(cfg, entry, done, s);
          return CmdError;
        }
        var msgLen := HDR_LEN + header.valueLen;
        if len < msgLen {
          EndsWith(cfg, entry, done, s);
          return CmdFragmented;
        }
        var value := buf[HDR_LEN..msgLen];
        assert value == s[HDR_LEN..msgLen];
        var inBounds;
        ret, inBounds := RecvTLV(header.tag, value);
        if !ret.IsRecoverable() {
          EndsWith(cfg, entry, done, s);
          return;
        }
        TakesOne(cfg, entry, done, s);
        done := done + [Msg(header.tag, value)];
        var remain := len - msgLen;
        assert s[msgLen..] == buf[msgLen..msgLen + remain];
        if remain != 0 {
          MoveToFront(msgLen, remain);
        }
        len := remain;
        assert buf[..len] == s[msgLen..];
      }
      EndsWith(cfg, entry, done, buf[..len]);
      ret := if len != 0 then CmdFragmented else CmdOk;
    }

    // recv(socket_, buf_ + len_, sizeof(buf_) - len_), when bytes are waiting.
    method Recv(waiting: chunk) returns (bytes: nat)
      requires Valid() && socket >= 0 && len < MAX_MSG_LEN
      modifies buf
      ensures len + bytes <= MAX_MSG_LEN && buf[..len] == old(buf[..len])
      ensures buf[len..len + bytes] == Taken(old(State()), Data(waiting))
    {
      bytes := if |waiting| <= buf.Length - len then |waiting| else buf.Length - len;
      forall i | 0 <= i < bytes {
        buf[len + i] := waiting[i];
      }
      assert buf[len..len + bytes] == waiting[..bytes];
      assert waiting[..|waiting|] == waiting;
    }

    method RecvData(r: Recvd) returns (ret: int)
      requires Valid()
      modifies this`len, this`log, buf
      ensures Valid()
      ensures (State(), ret) == AfterRecv(cfg, old(State()), r)
    {
      hide Parse, Dispatched, Taken;
      if socket < 0 {
        return -1;
      }
      if len >= buf.Length {
        return -1;
      }
      match r {
        case Data(waiting) =>
          var bytes := Recv(waiting);
          assert buf[..len + bytes] == buf[..len] + buf[len..len + bytes];
          len := len + bytes;
          var res := RecvString();
          if res == CmdError {
            return -1;
          }
        case PeerClosed =>
          return -2;
        case RecvFailed =>
          return -1;
      }
      ret := 0;
    }

    /** A send appends to the wire the first `written` bytes of the frame, and nothing else. */
    method SendTLV(tag: u32, len: i32, value: Value, e: SendEnv) returns (sent: Sending)
      requires value.Bytes? ==> len <= |value.bytes|
      modifies io
      ensures var f := FrameOf(cfg.magic, tag, len, value);
        && sent == SendRunOf(|f| - HDR_LEN, OnSocket(socket, e))
        && (socket < 0 ==> sent == Sending(Returns(-1), 0))
        && sent.written <= |f|
        && (sent.code == Returns(0) <==> sent.written == |f|)
        && (sent.code.Returns? ==> sent.code.code in {0, -1})
        && io.wire == old(io.wire) + f[..sent.written]
    {
      hide Run, Header, MsElapse;
      var valueLen := if value.Null? then 0 else len;
      ghost var header := Header(cfg.magic, tag, valueLen % 0x1_0000_0000);
      ghost var body := if valueLen > 0 then value.bytes[..valueLen] else [];
      SendIsAllOrFailure(|body|, OnSocket(socket, e));
      if socket < 0 {
        ClosedSendFails(socket, |body|, e);
      }
      ghost var f := FrameOf(cfg.magic, tag, len, value);
      assert f == header + body;
      hide FrameOf;
      var hdr := new byte[HDR_LEN];
      PrintHeader(cfg.magic, tag, valueLen % 0x1_0000_0000, hdr);
      var buf := hdr[..];
      assert buf == header;
      var out1 := io.FullSend(socket, buf, SEND_TIMEOUT_MS, e.started1, e.env1);
      FrameParts(old(io.wire), header, body, out1.sent, 0);
      assert io.wire == old(io.wire) + f[..out1.sent];
      if out1.Running? {
        return Sending(NotYet, out1.sent);
      }
      if out1.code != HDR_LEN {
        return Sending(Returns(-1), out1.sent);
      }
      ReturnsSizeIffAllSent(0, HDR_LEN, SEND_TIMEOUT_MS, MsElapse(e.started1, 0), OnFd(socket, e.env1));
      if valueLen <= 0 {
        return Sending(Returns(0), out1.sent);
      }
      assert out1.sent == HDR_LEN == |header| && io.wire == old(io.wire) + header[..|header|];
      var out2 := io.FullSend(socket, value.bytes[..valueLen], SEND_TIMEOUT_MS, e.started2, e.env2);
      FrameParts(old(io.wire), header, body, HDR_LEN, out2.sent);
      assert io.wire == old(io.wire) + f[..HDR_LEN + out2.sent];
      sent := Sending(if out2.Running? then NotYet
                      else Returns(if out2.code != valueLen then -1 else 0), HDR_LEN + out2.sent);
    }

    method SendString(tag: u32, s: seq<byte>, e: SendEnv) returns (sent: Sending)
      modifies io
      ensures sent == SendRun(Msg(tag, s), OnSocket(socket, e)) && sent.written <= FrameLen(Msg(tag, s))
      ensures io.wire == old(io.wire) + Encode(cfg.magic, Msg(tag, s))[..sent.written]
      ensures sent.code == Returns(0) <==> sent.written == FrameLen(Msg(tag, s))
      ensures sent.code.Returns? ==> sent.code.code in {0, -1}
      ensures socket < 0 ==> sent == Sending(Returns(-1), 0)
    {
      var low := |s| % 0x1_0000_0000;
      var valueLen: i32 := if low < 0x8000_0000 then low else low - 0x1_0000_0000;
      FrameOfString(cfg.magic, tag, s, valueLen);
      hide SendRunOf, FrameOf, Encode, BodyLen;
      sent := SendTLV(tag, valueLen, Bytes(s), e);
    }
  }

  lemma DispatchedNothing(ops: set<u32>)
    ensures Dispatched(ops, []) == []
  {
  }

  // The loop of RecvString stops where the parser stops.
  lemma EndsWith(cfg: Config, entry: seq<byte>, done: seq<Msg>, s: seq<byte>)
    requires Parse(cfg, entry) == Parse(cfg, s).After(done)
    requires !HeadOf(cfg, s).Whole?
    ensures var p := Parse(cfg, entry);
      && p.frames == done
      && match HeadOf(cfg, s)
         case Bad(why) => p.verdict == Rejected(why) && p.rest == if why == BadBody then s else []
         case _ => p.verdict == Waiting && p.rest == s
  {
    assert done + [] == done;
  }

  lemma TakesOne(cfg: Config, entry: seq<byte>, done: seq<Msg>, s: seq<byte>)
    requires Parse(cfg, entry) == Parse(cfg, s).After(done)
    requires HeadOf(cfg, s).Whole?
    ensures var m := HeadOf(cfg, s).msg;
      && Parse(cfg, entry) == Parse(cfg, s[HDR_LEN + |m.value|..]).After(done + [m])
      && Dispatched(cfg.ops, done + [m])
         == Dispatched(cfg.ops, done) + if m.tag in cfg.ops then [m] else []
  {
    var m := HeadOf(cfg, s).msg;
    AfterAfter(Parse(cfg, s[HDR_LEN + |m.value|..]), done, [m]);
    DispatchedAppend(cfg.ops, done, [m]);
    assert Dispatched(cfg.ops, [m][1..]) == [];
  }
}
