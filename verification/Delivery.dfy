/** Any number of threads sending on one channel, and the receiver at the other end of its
    connection. Each attempt to send, each lock operation and each receive is one atomic step, so
    every interleaving of SendTLV (src/gep_channel.cc) over FullSend (src/socket_interface.cc) is a
    run of this system. The network is a reliable byte stream. */
module Delivery {
  import opened Bytes
  import opened Protocol
  import opened Framing
  import opened FullSend
  import opened Channel

  type Tid = nat

  datatype Phase = InHeader | InValue

  /** Where a thread stands: outside, blocked on socket_lock_ in SendTLV, in one of its two calls of
      FullSend, or holding the lock for something that does not send (recv, GetSocket). */
  datatype Pc =
    | Idle
    | Queued(msg: Msg)
    | InSend(msg: Msg, phase: Phase, sent: nat, startMs: u64)
    | Busy

  // A finished send: what it returned, and how much of its frame it had put on the wire.
  datatype Finished = Finished(msg: Msg, ret: int, written: nat)

  datatype Owner = Free | Held(tid: Tid)

  datatype System = System(
    pcs: map<Tid, Pc>,
    lock: Owner,
    acquired: seq<Msg>,      // messages in the order their senders took the lock
    history: seq<Finished>,  // sends that have returned
    wire: seq<byte>,
    reader: Reader)          // the other end: its channel, and how much of the wire it has read

  datatype Step =
    | Call(t: Tid, msg: Msg)
    | Acquire(t: Tid, startMs: u64)
    | TrySend(t: Tid, a: Attempt, nextStartMs: u64)
    | TakeOther(t: Tid)
    | DropOther(t: Tid)
    | Read(size: pos)

  function PcOf(s: System, t: Tid): Pc {
    if t in s.pcs then s.pcs[t] else Idle
  }

  // What the current FullSend was given to send.
  function Part(magic: u32, pc: Pc): seq<byte>
    requires pc.InSend?
  {
    if pc.phase.InHeader? then Header(magic, pc.msg.tag, |pc.msg.value| % 0x1_0000_0000)
    else pc.msg.value[..BodyLen(pc.msg)]
  }

  // How much of the frame is on the wire.
  function Progress(pc: Pc): nat
    requires pc.InSend?
  {
    if pc.phase.InHeader? then pc.sent else HDR_LEN + pc.sent
  }

  predicate Enabled(cfg: Config, s: System, step: Step) {
    match step
    case Call(t, _) => PcOf(s, t).Idle?
    case Acquire(t, _) => PcOf(s, t).Queued? && s.lock.Free?
    case TrySend(t, _, _) =>
      PcOf(s, t).InSend? && PcOf(s, t).sent < |Part(cfg.magic, PcOf(s, t))|
    case TakeOther(t) => PcOf(s, t).Idle? && s.lock.Free?
    case DropOther(t) => PcOf(s, t).Busy?
    case Read(_) => !s.reader.failed && s.reader.read < |s.wire|
  }

  function Finish(s: System, t: Tid, ret: int, written: nat): System
    requires PcOf(s, t).InSend?
  {
    s.(pcs := s.pcs[t := Idle], lock := Free,
       history := s.history + [Finished(PcOf(s, t).msg, ret, written)])
  }

  // What SendTLV does when its call of FullSend has returned a code.
  function AfterReturn(cfg: Config, s: System, t: Tid, code: int, nextStartMs: u64): System
    requires PcOf(s, t).InSend?
  {
    var pc := PcOf(s, t);
    if code != |Part(cfg.magic, pc)| then Finish(s, t, -1, Progress(pc))
    else if pc.phase.InValue? || BodyLen(pc.msg) == 0 then Finish(s, t, 0, Progress(pc))
    else s.(pcs := s.pcs[t := InSend(pc.msg, InValue, 0, nextStartMs)])
  }

  // One turn of FullSend's loop, and the rest of SendTLV when FullSend returns.
  function AfterAttempt(cfg: Config, s: System, t: Tid, a: Attempt, nextStartMs: u64): System
    requires Enabled(cfg, s, TrySend(t, a, nextStartMs))
  {
    var pc := PcOf(s, t);
    var part := Part(cfg.magic, pc);
    var turn := OneTurn(pc.sent, |part|, SEND_TIMEOUT_MS, pc.startMs, a);
    var s' := s.(pcs := s.pcs[t := pc.(sent := turn.sent)], wire := s.wire + part[pc.sent..turn.sent]);
    match turn
    case Continue(_) => s'
    case Return(code, _) => AfterReturn(cfg, s', t, code, nextStartMs)
  }

  function Next(cfg: Config, s: System, step: Step): System
    requires Enabled(cfg, s, step)
  {
    match step
    case Call(t, msg) => s.(pcs := s.pcs[t := Queued(msg)])
    case Acquire(t, startMs) =>
      var msg := PcOf(s, t).msg;
      s.(pcs := s.pcs[t := InSend(msg, InHeader, 0, startMs)], lock := Held(t),
         acquired := s.acquired + [msg])
    case TrySend(t, a, nextStartMs) => AfterAttempt(cfg, s, t, a, nextStartMs)
    case TakeOther(t) => s.(pcs := s.pcs[t := Busy], lock := Held(t))
    case DropOther(t) => s.(pcs := s.pcs[t := Idle], lock := Free)
    case Read(size) => s.(reader := ReadStream(cfg, s.reader, s.wire, [size]))
  }

  function Start(fd: nat): System {
    System(map[], Free, [], [], [], Reader(Chan(fd, [], []), 0, false))
  }

  // A run: steps that are not enabled do nothing.
  function Runs(cfg: Config, s: System, steps: seq<Step>): System
    decreases |steps|
  {
    if steps == [] then s
    else Runs(cfg, if Enabled(cfg, s, steps[0]) then Next(cfg, s, steps[0]) else s, steps[1..])
  }

  // ---------- what every run keeps ----------

  // The messages whose send returned 0.
  function Completed(history: seq<Finished>): seq<Msg> {
    if history == [] then []
    else
      var last := history[|history| - 1];
      Completed(history[..|history| - 1]) + if last.ret == 0 then [last.msg] else []
  }

  function Messages(history: seq<Finished>): seq<Msg> {
    seq(|history|, i requires 0 <= i < |history| => history[i].msg)
  }

  // The send has given up after part of its frame had left.
  predicate Tore(f: Finished) {
    f.ret != 0 && f.written > 0
  }

  // The first send that tore its frame, or the number of all sends.
  function FirstTorn(history: seq<Finished>): (i: nat)
    ensures i <= |history|
    ensures i < |history| ==> Tore(history[i])
    ensures forall j | 0 <= j < i :: !Tore(history[j])
  {
    if history == [] || Tore(history[0]) then 0 else 1 + FirstTorn(history[1..])
  }

  predicate Torn(s: System) {
    FirstTorn(s.history) < |s.history|
  }

  // The send in progress, if there is one.
  function Current(s: System): seq<Msg> {
    if s.lock.Held? && PcOf(s, s.lock.tid).InSend? then [PcOf(s, s.lock.tid).msg] else []
  }

  function CurrentBytes(cfg: Config, s: System): seq<byte> {
    if s.lock.Held? && PcOf(s, s.lock.tid).InSend? then
      var pc := PcOf(s, s.lock.tid);
      if Progress(pc) <= FrameLen(pc.msg) then Encode(cfg.magic, pc.msg)[..Progress(pc)] else []
    else []
  }

  /** Mutual exclusion: whoever is inside the critical section is the owner of the lock. */
  ghost predicate Exclusive(s: System) {
    forall t: Tid :: PcOf(s, t).InSend? || PcOf(s, t).Busy? <==> s.lock == Held(t)
  }

  ghost predicate SendersSane(s: System) {
    forall t: Tid | PcOf(s, t).InSend? ::
      var pc := PcOf(s, t);
      if pc.phase.InHeader? then pc.sent < HDR_LEN else pc.sent < BodyLen(pc.msg)
  }

  /** A send returns 0 exactly when its whole frame is written, -1 exactly when a strict prefix is. */
  ghost predicate ReturnsTellAll(history: seq<Finished>) {
    forall f | f in history ::
      f.ret == (if f.written == FrameLen(f.msg) then 0 else -1) && f.written <= FrameLen(f.msg)
  }

  // What a finished send has left on the wire.
  function Piece(magic: u32, f: Finished): seq<byte> {
    if f.written <= FrameLen(f.msg) then Encode(magic, f.msg)[..f.written] else []
  }

  function Pieces(magic: u32, history: seq<Finished>): seq<byte> {
    if history == [] then []
    else Pieces(magic, history[..|history| - 1]) + Piece(magic, history[|history| - 1])
  }

  /** Frame atomicity: the wire is what each send has written of its frame, in lock order, followed
      by the start of the lock holder's frame. */
  ghost predicate PiecesOnWire(cfg: Config, s: System) {
    s.wire == Pieces(cfg.magic, s.history) + CurrentBytes(cfg, s)
  }

  ghost predicate Inv(cfg: Config, s: System) {
    && Exclusive(s)
    && SendersSane(s)
    && ReturnsTellAll(s.history)
    && s.acquired == Messages(s.history) + Current(s)
    && PiecesOnWire(cfg, s)
    && Follows(cfg, s.reader, [], s.wire)
  }

  lemma PartIsSlice(magic: u32, pc: Pc, k: nat)
    requires pc.InSend? && pc.sent <= k <= |Part(magic, pc)|
    ensures Progress(pc.(sent := k)) <= FrameLen(pc.msg)
    ensures Encode(magic, pc.msg)[..Progress(pc)] + Part(magic, pc)[pc.sent..k]
         == Encode(magic, pc.msg)[..Progress(pc.(sent := k))]
  {
  }

  lemma FinishedLast(magic: u32, h: seq<Finished>, f: Finished)
    ensures Completed(h + [f]) == Completed(h) + (if f.ret == 0 then [f.msg] else [])
    ensures Messages(h + [f]) == Messages(h) + [f.msg]
    ensures Pieces(magic, h + [f]) == Pieces(magic, h) + Piece(magic, f)
  {
    assert (h + [f])[..|h|] == h;
  }

  // The frame as far as it is on the wire after a turn of FullSend, and what a return means.
  lemma TurnWrites(cfg: Config, s: System, t: Tid, a: Attempt)
    requires PcOf(s, t).InSend? && PcOf(s, t).sent < |Part(cfg.magic, PcOf(s, t))|
    ensures var pc, part := PcOf(s, t), Part(cfg.magic, PcOf(s, t));
      var turn := OneTurn(pc.sent, |part|, SEND_TIMEOUT_MS, pc.startMs, a);
      var pc' := pc.(sent := turn.sent);
      && pc.sent <= turn.sent <= |part|
      && (turn.Continue? ==> turn.sent < |part|)
      && (turn.Return? ==> (turn.code == |part| <==> turn.sent == |part|))
      && Progress(pc) <= Progress(pc') <= FrameLen(pc.msg)
      && (turn.sent < |part| ==> Progress(pc') < FrameLen(pc.msg))
      && Encode(cfg.magic, pc.msg)[..Progress(pc)] + part[pc.sent..turn.sent]
         == Encode(cfg.magic, pc.msg)[..Progress(pc')]
      && (turn.sent == |part| && (pc.phase.InValue? || BodyLen(pc.msg) == 0) ==>
            Encode(cfg.magic, pc.msg)[..Progress(pc')] == Encode(cfg.magic, pc.msg)
            && Progress(pc') == FrameLen(pc.msg))
  {
    var pc, part := PcOf(s, t), Part(cfg.magic, PcOf(s, t));
    var turn := OneTurn(pc.sent, |part|, SEND_TIMEOUT_MS, pc.startMs, a);
    PartIsSlice(cfg.magic, pc, pc.sent);
    PartIsSlice(cfg.magic, pc, turn.sent);
  }

  lemma AttemptKeepsWire(cfg: Config, s: System, t: Tid, a: Attempt, nextStartMs: u64)
    requires Inv(cfg, s) && Enabled(cfg, s, TrySend(t, a, nextStartMs))
    ensures PiecesOnWire(cfg, AfterAttempt(cfg, s, t, a, nextStartMs))
  {
    hide Encode, Header, OneTurn, Pieces, Completed, Follows, SendersSane, ReturnsTellAll;
    hide Messages;
    var pc, part := PcOf(s, t), Part(cfg.magic, PcOf(s, t));
    assert s.lock == Held(t);
    var turn := OneTurn(pc.sent, |part|, SEND_TIMEOUT_MS, pc.startMs, a);
    TurnWrites(cfg, s, t, a);
    var s' := AfterAttempt(cfg, s, t, a, nextStartMs);
    var e, f := Pieces(cfg.magic, s.history), Encode(cfg.magic, pc.msg);
    var p, p' := Progress(pc), Progress(pc.(sent := turn.sent));
    assert s'.wire == e + f[..p'] by { Regroup(e, f[..p], part[pc.sent..turn.sent]); }
    if s'.history != s.history {
      FinishedLast(cfg.magic, s.history, s'.history[|s.history|]);
      assert CurrentBytes(cfg, s') == [];
      assert s'.wire + [] == s'.wire;
    } else {
      assert Progress(PcOf(s', t)) == p';
    }
  }

  // What an attempt does to its thread: it stays in its send, or finishes it and frees the lock.
  lemma AttemptShape(cfg: Config, s: System, t: Tid, a: Attempt, nextStartMs: u64)
    requires SendersSane(s) && Enabled(cfg, s, TrySend(t, a, nextStartMs))
    ensures var s', pc := AfterAttempt(cfg, s, t, a, nextStartMs), PcOf(s, t);
      && (forall u: Tid | u != t :: PcOf(s', u) == PcOf(s, u))
      && s'.acquired == s.acquired && s'.reader == s.reader && s.wire <= s'.wire
      && if PcOf(s', t).InSend? then
           && s'.lock == s.lock && s'.history == s.history
           && var pc' := PcOf(s', t);
           && pc'.msg == pc.msg
           && if pc'.phase.InHeader? then pc'.sent < HDR_LEN else pc'.sent < BodyLen(pc'.msg)
         else
           && PcOf(s', t).Idle? && s'.lock.Free? && |s'.history| == |s.history| + 1
           && var f := s'.history[|s.history|];
           && s'.history == s.history + [f] && f.msg == pc.msg
           && f.ret == (if f.written == FrameLen(f.msg) then 0 else -1) && f.written <= FrameLen(f.msg)
  {
    hide Encode, Header, OneTurn;
    TurnWrites(cfg, s, t, a);
  }

  lemma AttemptKeepsInv(cfg: Config, s: System, t: Tid, a: Attempt, nextStartMs: u64)
    requires Inv(cfg, s) && Enabled(cfg, s, TrySend(t, a, nextStartMs))
    ensures Inv(cfg, AfterAttempt(cfg, s, t, a, nextStartMs))
  {
    hide PiecesOnWire, Follows, AfterAttempt, Completed, Part, Exclusive, SendersSane, ReturnsTellAll;
    hide Messages, Pieces, PcOf;
    assert s.lock == Held(t) by { HolderIs(s, t); }
    AttemptShape(cfg, s, t, a, nextStartMs);
    AttemptKeepsWire(cfg, s, t, a, nextStartMs);
    var s' := AfterAttempt(cfg, s, t, a, nextStartMs);
    FollowsGrowing(cfg, s.reader, [], s.wire, s'.wire);
    if s'.history != s.history {
      FinishedLast(cfg.magic, s.history, s'.history[|s.history|]);
    }
    assert Exclusive(s') && SendersSane(s') by { OthersUnmoved(s, s', t); }
    assert ReturnsTellAll(s'.history) by { TellsAll(s, s'); }
    assert s'.history != s.history ==> Current(s') == [];
  }

  lemma HolderIs(s: System, t: Tid)
    requires Exclusive(s) && PcOf(s, t).InSend?
    ensures s.lock == Held(t)
  {
  }

  lemma OthersUnmoved(s: System, s': System, t: Tid)
    requires Exclusive(s) && SendersSane(s) && s.lock == Held(t)
    requires forall u: Tid | u != t :: PcOf(s', u) == PcOf(s, u)
    requires if PcOf(s', t).InSend? then
               && s'.lock == s.lock
               && var pc' := PcOf(s', t);
               if pc'.phase.InHeader? then pc'.sent < HDR_LEN else pc'.sent < BodyLen(pc'.msg)
             else PcOf(s', t).Idle? && s'.lock.Free?
    ensures Exclusive(s') && SendersSane(s')
  {
    hide PcOf;
  }

  lemma TellsAll(s: System, s': System)
    requires ReturnsTellAll(s.history)
    requires s'.history == s.history
          || (&& |s'.history| == |s.history| + 1
              && var f := s'.history[|s.history|];
              && s'.history == s.history + [f]
              && f.ret == (if f.written == FrameLen(f.msg) then 0 else -1) && f.written <= FrameLen(f.msg))
    ensures ReturnsTellAll(s'.history)
  {
  }

  lemma NextKeepsInv(cfg: Config, s: System, step: Step)
    requires Inv(cfg, s) && Enabled(cfg, s, step)
    ensures Inv(cfg, Next(cfg, s, step))
  {
    hide Parse, Encode, Pieces, Completed, ReadStream;
    var s' := Next(cfg, s, step);
    match step
    case TrySend(t, a, nextStartMs) =>
      AttemptKeepsInv(cfg, s, t, a, nextStartMs);
    case Read(size) =>
      hide Exclusive, SendersSane;
      ReadStreamSync(cfg, s.reader, [], s.wire, [size]);
      assert Exclusive(s') && SendersSane(s') by { SameSenders(s, s'); }
    case Acquire(t, startMs) =>
      hide Follows;
      FollowsGrowing(cfg, s.reader, [], s.wire, s'.wire);
      assert Exclusive(s');
      assert Current(s) == [] && Current(s') == [PcOf(s, t).msg];
      assert CurrentBytes(cfg, s') == CurrentBytes(cfg, s) == [];
    case _ =>
      hide Follows;
      FollowsGrowing(cfg, s.reader, [], s.wire, s'.wire);
      assert Exclusive(s');
      assert Current(s') == Current(s);
      assert CurrentBytes(cfg, s') == CurrentBytes(cfg, s);
  }

  lemma SameSenders(s: System, s': System)
    requires Exclusive(s) && SendersSane(s) && s'.pcs == s.pcs && s'.lock == s.lock
    ensures Exclusive(s') && SendersSane(s')
  {
    assert forall t :: PcOf(s', t) == PcOf(s, t);
  }

  /** Every state of every run: mutual exclusion, frame atomicity on the wire, truthful return values,
      and a reader in step with the wire. */
  lemma {:induction false} RunsKeepInv(cfg: Config, s: System, steps: seq<Step>)
    requires Inv(cfg, s)
    ensures Inv(cfg, Runs(cfg, s, steps))
    decreases |steps|
  {
    if steps != [] {
      if Enabled(cfg, s, steps[0]) {
        NextKeepsInv(cfg, s, steps[0]);
        RunsKeepInv(cfg, Next(cfg, s, steps[0]), steps[1..]);
      } else {
        RunsKeepInv(cfg, s, steps[1..]);
      }
    }
  }

  lemma StartIsInv(cfg: Config, fd: nat)
    ensures Inv(cfg, Start(fd))
  {
    var s := Start(fd);
    FollowsFromStart(cfg, s.reader.chan, s.wire);
    assert Messages([]) == [];
  }

  lemma RunsNone(cfg: Config, s: System)
    ensures Runs(cfg, s, []) == s
  {
  }

  lemma RunsOne(cfg: Config, s: System, step: Step, rest: seq<Step>)
    requires Enabled(cfg, s, step)
    ensures Runs(cfg, s, [step] + rest) == Runs(cfg, Next(cfg, s, step), rest)
  {
    assert ([step] + rest)[1..] == rest;
  }

  lemma {:induction false} RunsAppend(cfg: Config, s: System, a: seq<Step>, b: seq<Step>)
    ensures Runs(cfg, s, a + b) == Runs(cfg, Runs(cfg, s, a), b)
    decreases |a|
  {
    if a == [] {
      assert a + b == b;
    } else {
      assert (a + b)[0] == a[0] && (a + b)[1..] == a[1..] + b;
      RunsAppend(cfg, if Enabled(cfg, s, a[0]) then Next(cfg, s, a[0]) else s, a[1..], b);
    }
  }

  // ---------- one thread's steps and FullSend ----------

  function Tries(t: Tid, env: seq<Attempt>, next: u64): seq<Step> {
    if env == [] then [] else [TrySend(t, env[0], next)] + Tries(t, env[1..], next)
  }

  // The same system with the thread's current FullSend advanced to k bytes.
  function Advanced(cfg: Config, s: System, t: Tid, k: nat): System
    requires PcOf(s, t).InSend? && PcOf(s, t).sent <= k <= |Part(cfg.magic, PcOf(s, t))|
  {
    var pc := PcOf(s, t);
    s.(pcs := s.pcs[t := pc.(sent := k)], wire := s.wire + Part(cfg.magic, pc)[pc.sent..k])
  }

  lemma AdvancedTwice(cfg: Config, s: System, t: Tid, j: nat, k: nat)
    requires PcOf(s, t).InSend? && PcOf(s, t).sent <= j <= k <= |Part(cfg.magic, PcOf(s, t))|
    ensures PcOf(Advanced(cfg, s, t, j), t) == PcOf(s, t).(sent := j)
    ensures Part(cfg.magic, PcOf(Advanced(cfg, s, t, j), t)) == Part(cfg.magic, PcOf(s, t))
    ensures Advanced(cfg, Advanced(cfg, s, t, j), t, k) == Advanced(cfg, s, t, k)
  {
    hide Header;
    var pc, part := PcOf(s, t), Part(cfg.magic, PcOf(s, t));
    assert part[pc.sent..k] == part[pc.sent..j] + part[j..k];
    Regroup(s.wire, part[pc.sent..j], part[j..k]);
    assert s.pcs[t := pc.(sent := j)][t := pc.(sent := k)] == s.pcs[t := pc.(sent := k)];
  }

  lemma AdvancedNot(cfg: Config, s: System, t: Tid)
    requires PcOf(s, t).InSend? && PcOf(s, t).sent <= |Part(cfg.magic, PcOf(s, t))|
    ensures Advanced(cfg, s, t, PcOf(s, t).sent) == s
  {
    assert s.pcs[t := PcOf(s, t)] == s.pcs;
  }

  /** The attempts of one thread, as steps of the system, are the turns of FullSend: as long as it has
      not returned, the thread and the wire are where FullSend says. */
  lemma {:induction false} TriesAreFullSend(cfg: Config, s: System, t: Tid, env: seq<Attempt>,
                                               next: u64)
    requires PcOf(s, t).InSend? && PcOf(s, t).sent < |Part(cfg.magic, PcOf(s, t))|
    requires var pc := PcOf(s, t);
      FullSend.Run(pc.sent, |Part(cfg.magic, pc)|, SEND_TIMEOUT_MS, pc.startMs, env).Running?
    ensures var pc, part := PcOf(s, t), Part(cfg.magic, PcOf(s, t));
      var out := FullSend.Run(pc.sent, |part|, SEND_TIMEOUT_MS, pc.startMs, env);
      && pc.sent <= out.sent <= |part|
      && Runs(cfg, s, Tries(t, env, next)) == Advanced(cfg, s, t, out.sent)
    decreases |env|
  {
    hide Part;
    var pc, part := PcOf(s, t), Part(cfg.magic, PcOf(s, t));
    if env == [] {
      AdvancedNot(cfg, s, t);
    } else {
      var turn := OneTurn(pc.sent, |part|, SEND_TIMEOUT_MS, pc.startMs, env[0]);
      var s' := Advanced(cfg, s, t, turn.sent);
      assert s' == Next(cfg, s, TrySend(t, env[0], next));
      RunsOne(cfg, s, TrySend(t, env[0], next), Tries(t, env[1..], next));
      AdvancedTwice(cfg, s, t, turn.sent, turn.sent);
      hide OneTurn, Advanced;
      TriesAreFullSend(cfg, s', t, env[1..], next);
      AdvancedTwice(cfg, s, t, turn.sent,
        FullSend.Run(turn.sent, |part|, SEND_TIMEOUT_MS, pc.startMs, env[1..]).sent);
    }
  }

  // The last turn of a FullSend that returns, after those before it.
  lemma {:induction false} LastTurnReturns(sent: nat, size: nat, startMs: u64, env: seq<Attempt>, x: Attempt)
    requires sent < size && FullSend.Run(sent, size, SEND_TIMEOUT_MS, startMs, env).Running?
    requires FullSend.Run(sent, size, SEND_TIMEOUT_MS, startMs, env + [x]).Done?
    ensures var n := FullSend.Run(sent, size, SEND_TIMEOUT_MS, startMs, env).sent;
      var out := FullSend.Run(sent, size, SEND_TIMEOUT_MS, startMs, env + [x]);
      n < size && OneTurn(n, size, SEND_TIMEOUT_MS, startMs, x) == Return(out.code, out.sent)
    decreases |env|
  {
    if env == [] {
      assert ([] + [x])[1..] == [];
    } else {
      assert (env + [x])[0] == env[0] && (env + [x])[1..] == env[1..] + [x];
      LastTurnReturns(OneTurn(sent, size, SEND_TIMEOUT_MS, startMs, env[0]).sent, size, startMs,
        env[1..], x);
    }
  }

  lemma {:induction false} TriesAppend(t: Tid, env: seq<Attempt>, x: Attempt, next: u64)
    ensures Tries(t, env + [x], next) == Tries(t, env, next) + [TrySend(t, x, next)]
  {
    if env == [] {
      assert Tries(t, [x], next) == [TrySend(t, x, next)] + Tries(t, [x][1..], next)
          == [TrySend(t, x, next)];
      assert env + [x] == [x];
    } else {
      assert (env + [x])[0] == env[0] && (env + [x])[1..] == env[1..] + [x];
      TriesAppend(t, env[1..], x, next);
    }
  }

  /** And when FullSend returns, so does the call in the thread, with what it has sent and its code. */
  lemma TriesReturnAsFullSend(cfg: Config, s: System, t: Tid, env: seq<Attempt>, x: Attempt, next: u64)
    requires PcOf(s, t).InSend? && PcOf(s, t).sent < |Part(cfg.magic, PcOf(s, t))|
    requires var pc := PcOf(s, t);
      var size := |Part(cfg.magic, pc)|;
      && FullSend.Run(pc.sent, size, SEND_TIMEOUT_MS, pc.startMs, env).Running?
      && FullSend.Run(pc.sent, size, SEND_TIMEOUT_MS, pc.startMs, env + [x]).Done?
    ensures var pc, part := PcOf(s, t), Part(cfg.magic, PcOf(s, t));
      var out := FullSend.Run(pc.sent, |part|, SEND_TIMEOUT_MS, pc.startMs, env + [x]);
      && pc.sent <= out.sent <= |part|
      && Runs(cfg, s, Tries(t, env + [x], next))
         == AfterReturn(cfg, Advanced(cfg, s, t, out.sent), t, out.code, next)
  {
    hide Part, Runs, FullSend.Run;
    var pc, part := PcOf(s, t), Part(cfg.magic, PcOf(s, t));
    var n := FullSend.Run(pc.sent, |part|, SEND_TIMEOUT_MS, pc.startMs, env).sent;
    var out := FullSend.Run(pc.sent, |part|, SEND_TIMEOUT_MS, pc.startMs, env + [x]);
    TriesAreFullSend(cfg, s, t, env, next);
    LastTurnReturns(pc.sent, |part|, pc.startMs, env, x);
    TriesAppend(t, env, x, next);
    RunsAppend(cfg, s, Tries(t, env, next), [TrySend(t, x, next)]);
    var s1 := Advanced(cfg, s, t, n);
    AdvancedTwice(cfg, s, t, n, n);
    AdvancedTwice(cfg, s, t, n, out.sent);
    RunsOne(cfg, s1, TrySend(t, x, next), []);
    assert [TrySend(t, x, next)] + [] == [TrySend(t, x, next)];
    RunsNone(cfg, Next(cfg, s1, TrySend(t, x, next)));
  }

  // The turns of one call: it ends with the last, and not before.
  ghost predicate Ends(size: nat, startMs: u64, env: seq<Attempt>) {
    && env != []
    && FullSend.Run(0, size, SEND_TIMEOUT_MS, startMs, env[..|env| - 1]).Running?
    && FullSend.Run(0, size, SEND_TIMEOUT_MS, startMs, env).Done?
  }

  // The first call of FullSend has sent the header, and a second one is to follow.
  predicate GoesOn(m: Msg, e: SendEnv) {
    && FullSend.Run(0, HDR_LEN, SEND_TIMEOUT_MS, MsElapse(e.started1, 0), e.env1) == Done(HDR_LEN, HDR_LEN)
    && BodyLen(m) > 0
  }

  // The attempts of a whole SendTLV.
  function SendTries(t: Tid, m: Msg, e: SendEnv): seq<Step> {
    Tries(t, e.env1, MsElapse(e.started2, 0)) + if GoesOn(m, e) then Tries(t, e.env2, 0) else []
  }

  lemma CallReturns(cfg: Config, s: System, t: Tid, env: seq<Attempt>, next: u64)
    requires PcOf(s, t).InSend? && PcOf(s, t).sent == 0 < |Part(cfg.magic, PcOf(s, t))|
    requires Ends(|Part(cfg.magic, PcOf(s, t))|, PcOf(s, t).startMs, env)
    ensures var size := |Part(cfg.magic, PcOf(s, t))|;
      var out := FullSend.Run(0, size, SEND_TIMEOUT_MS, PcOf(s, t).startMs, env);
      && out.sent <= size && (out.code == size <==> out.sent == size)
      && Runs(cfg, s, Tries(t, env, next))
         == AfterReturn(cfg, Advanced(cfg, s, t, out.sent), t, out.code, next)
  {
    hide Part, Runs, FullSend.Run, Advanced, AfterReturn;
    var pc, front := PcOf(s, t), env[..|env| - 1];
    assert env == front + [env[|env| - 1]];
    TriesReturnAsFullSend(cfg, s, t, front, env[|env| - 1], next);
    ReturnsSizeIffAllSent(0, |Part(cfg.magic, pc)|, SEND_TIMEOUT_MS, pc.startMs, env);
  }

  /** A thread that has taken the lock does what SendTLV does: it finishes with the result and the bytes
      written of SendRun, and leaves the lock free. */
  lemma ThreadSendsAsSendTLV(cfg: Config, s: System, t: Tid, m: Msg, e: SendEnv)
    requires PcOf(s, t) == InSend(m, InHeader, 0, MsElapse(e.started1, 0))
    requires Ends(HDR_LEN, MsElapse(e.started1, 0), e.env1)
    requires GoesOn(m, e) ==> Ends(BodyLen(m), MsElapse(e.started2, 0), e.env2)
    ensures var s', out := Runs(cfg, s, SendTries(t, m, e)), SendRun(m, e);
      && out.code.Returns?
      && s'.history == s.history + [Finished(m, out.code.code, out.written)]
      && PcOf(s', t).Idle? && s'.lock.Free?
  {
    hide Runs, FullSend.Run, Tries, Header, Ends;
    var next := MsElapse(e.started2, 0);
    var out1 := FullSend.Run(0, HDR_LEN, SEND_TIMEOUT_MS, MsElapse(e.started1, 0), e.env1);
    assert out1.Done? by { EndsDone(HDR_LEN, MsElapse(e.started1, 0), e.env1); }
    CallReturns(cfg, s, t, e.env1, next);
    var s1 := Runs(cfg, s, Tries(t, e.env1, next));
    if GoesOn(m, e) {
      assert PcOf(s1, t) == InSend(m, InValue, 0, next) && s1.history == s.history;
      EndsDone(BodyLen(m), next, e.env2);
      CallReturns(cfg, s1, t, e.env2, 0);
      RunsAppend(cfg, s, Tries(t, e.env1, next), Tries(t, e.env2, 0));
    } else {
      assert Tries(t, e.env1, next) + [] == Tries(t, e.env1, next);
    }
  }

  lemma EndsDone(size: nat, startMs: u64, env: seq<Attempt>)
    requires Ends(size, startMs, env)
    ensures FullSend.Run(0, size, SEND_TIMEOUT_MS, startMs, env).Done?
  {
  }

  // ---------- end to end ----------

  // How much of the wire there is up to the first byte written after a torn frame.
  function SafeEnd(cfg: Config, s: System): nat {
    if Torn(s) then |Pieces(cfg.magic, s.history[..FirstTorn(s.history) + 1])| else |s.wire|
  }

  // The frames on that part of the wire, the last of them possibly cut short.
  function OnWire(s: System): seq<Msg> {
    var i := FirstTorn(s.history);
    Completed(s.history[..i]) + if i < |s.history| then [s.history[i].msg] else Current(s)
  }

  lemma EncodeAllNone(magic: u32)
    ensures EncodeAll(magic, []) == []
  {
  }

  /** Compared with the frames of the completed sends, the wire has every byte that a failed send
      has written too many: it is those frames exactly if there is none. */
  lemma {:induction false} PiecesAreFrames(magic: u32, history: seq<Finished>)
    requires ReturnsTellAll(history)
    ensures |Pieces(magic, history)| >= |EncodeAll(magic, Completed(history))|
    ensures (exists f | f in history :: Tore(f)) ==>
              |Pieces(magic, history)| > |EncodeAll(magic, Completed(history))|
    ensures (forall f | f in history :: !Tore(f)) ==>
              Pieces(magic, history) == EncodeAll(magic, Completed(history))
  {
    hide Encode, EncodeAll;
    if history == [] {
      assert EncodeAll(magic, []) == [] by { EncodeAllNone(magic); }
    } else {
      hide Pieces, Completed;
      var front, last := history[..|history| - 1], history[|history| - 1];
      assert history == front + [last];
      PiecesAreFrames(magic, front);
      FinishedLast(magic, front, last);
      var c := Completed(front);
      if last.ret == 0 {
        assert Piece(magic, last) == Encode(magic, last.msg);
        EncodeAllAppend(magic, c, [last.msg]);
        EncodeAllOne(magic, last.msg);
      } else {
        assert c + [] == c;
        assert |Piece(magic, last)| == last.written;
      }
    }
  }

  // Later sends leave what is on the wire; if they have written nothing, none of them is complete.
  lemma {:induction false} PiecesGrow(magic: u32, history: seq<Finished>, k: nat)
    requires ReturnsTellAll(history) && k <= |history|
    ensures Pieces(magic, history[..k]) <= Pieces(magic, history)
    ensures |Pieces(magic, history[..k])| == |Pieces(magic, history)| ==>
              Completed(history[..k]) == Completed(history)
    decreases |history|
  {
    hide Encode, Pieces, Completed;
    if k == |history| {
      assert history[..k] == history;
    } else {
      var front, last := history[..|history| - 1], history[|history| - 1];
      assert history == front + [last] && front[..k] == history[..k] && last in history;
      PiecesGrow(magic, front, k);
      FinishedLast(magic, front, last);
      assert |Piece(magic, last)| == last.written;
      assert Completed(front) + [] == Completed(front);
    }
  }

  // Up to the first torn frame the wire is whole frames; with it, all of them and part of its own.
  lemma PiecesUpToTorn(magic: u32, history: seq<Finished>, k: nat)
    requires ReturnsTellAll(history) && k <= FirstTorn(history)
    ensures Pieces(magic, history[..k]) == EncodeAll(magic, Completed(history[..k]))
    ensures k < |history| ==>
      Pieces(magic, history[..k + 1])
      == EncodeAll(magic, Completed(history[..k])) + Piece(magic, history[k])
  {
    hide Encode, EncodeAll, Pieces, Completed, FirstTorn;
    PiecesAreFrames(magic, history[..k]);
    if k < |history| {
      assert history[..k + 1] == history[..k] + [history[k]];
      FinishedLast(magic, history[..k], history[k]);
    }
  }

  /** The wire up to the first byte behind a torn frame is the beginning of a stream of whole frames. */
  lemma WireIsCut(cfg: Config, s: System)
    requires Inv(cfg, s)
    ensures SafeEnd(cfg, s) <= |s.wire|
    ensures s.wire[..SafeEnd(cfg, s)] <= EncodeAll(cfg.magic, OnWire(s))
    ensures var c := Completed(s.history[..FirstTorn(s.history)]);
      && |EncodeAll(cfg.magic, c)| <= SafeEnd(cfg, s)
      && (Torn(s) ==> SafeEnd(cfg, s) < |EncodeAll(cfg.magic, OnWire(s))|)
      && (!Torn(s) && Current(s) == [] ==> SafeEnd(cfg, s) == |EncodeAll(cfg.magic, c)|)
  {
    hide Parse, HeadOf, Encode, EncodeAll, Completed, Pieces, Follows, FirstTorn;
    var h, i := s.history, FirstTorn(s.history);
    var c := Completed(h[..i]);
    PiecesUpToTorn(cfg.magic, h, i);
    if i < |h| {
      assert h[i] in h;
      PiecesGrow(cfg.magic, h, i + 1);
      EncodeAllAppend(cfg.magic, c, [h[i].msg]);
      EncodeAllOne(cfg.magic, h[i].msg);
      assert s.wire[..SafeEnd(cfg, s)] == EncodeAll(cfg.magic, c) + Piece(cfg.magic, h[i]);
    } else {
      assert h[..i] == h && s.wire[..|s.wire|] == s.wire;
      if Current(s) != [] {
        EncodeAllAppend(cfg.magic, c, Current(s));
        EncodeAllOne(cfg.magic, Current(s)[0]);
      } else {
        assert c + [] == c;
      }
    }
  }

  lemma {:induction false} CompletedAmongMessages(history: seq<Finished>)
    ensures forall m | m in Completed(history) :: m in Messages(history)
    ensures (forall f | f in history :: f.ret == 0) ==> Completed(history) == Messages(history)
  {
    if history != [] {
      var front := history[..|history| - 1];
      CompletedAmongMessages(front);
      assert history == front + [history[|history| - 1]];
      assert Messages(history) == Messages(front) + [history[|history| - 1].msg];
    }
  }

  /** End-to-end ordered delivery. For any number of threads, any interleaving of their steps, any
      splitting of the reads and any failures: as long as the receiver has not read a byte that was
      written behind a torn frame, and the messages are acceptable to it, it has reported no error and
      has dispatched exactly those messages, in the order their senders took the lock, whose frames lie
      wholly within what it has read. So nothing goes wrong after a torn frame while nothing more is
      written. Once the receiver has read everything and nobody is sending, it has dispatched every
      message whose send returned 0 and no other. */
  lemma OrderedDelivery(cfg: Config, fd: nat, steps: seq<Step>)
    ensures var s := Runs(cfg, Start(fd), steps);
      s.reader.read <= SafeEnd(cfg, s) && AllAcceptable(cfg, s.acquired) ==>
        && !s.reader.failed
        && s.reader.chan.log
           == Dispatched(cfg.ops, OnWire(s)[..WholeFrames(cfg.magic, OnWire(s), s.reader.read)])
        && s.reader.chan.log <= Dispatched(cfg.ops, OnWire(s))
        && (s.reader.read == |s.wire| && Current(s) == [] ==>
              s.reader.chan.log == Dispatched(cfg.ops, Completed(s.history)))
  {
    StartIsInv(cfg, fd);
    RunsKeepInv(cfg, Start(fd), steps);
    var s := Runs(cfg, Start(fd), steps);
    if s.reader.read <= SafeEnd(cfg, s) && AllAcceptable(cfg, s.acquired) {
      DeliveredIsCut(cfg, s);
    }
  }

  lemma OnWireAcceptable(cfg: Config, s: System)
    requires Inv(cfg, s) && AllAcceptable(cfg, s.acquired)
    ensures AllAcceptable(cfg, OnWire(s))
  {
    hide Completed, Acceptable, Follows, PiecesOnWire, FirstTorn, Current;
    var h, i := s.history, FirstTorn(s.history);
    CompletedAmongMessages(h[..i]);
    forall m | m in OnWire(s)
      ensures m in s.acquired
    {
      if m in Completed(h[..i]) {
        var k :| 0 <= k < i && Messages(h[..i])[k] == m;
        assert s.acquired[k] == m;
      } else if i < |h| {
        assert s.acquired[i] == m;
      }
    }
  }

  lemma DeliveredIsCut(cfg: Config, s: System)
    requires Inv(cfg, s) && s.reader.read <= SafeEnd(cfg, s) && AllAcceptable(cfg, s.acquired)
    ensures !s.reader.failed
    ensures s.reader.chan.log
         == Dispatched(cfg.ops, OnWire(s)[..WholeFrames(cfg.magic, OnWire(s), s.reader.read)])
    ensures s.reader.chan.log <= Dispatched(cfg.ops, OnWire(s))
    ensures s.reader.read == |s.wire| && Current(s) == [] ==>
              s.reader.chan.log == Dispatched(cfg.ops, Completed(s.history))
  {
    hide Parse, HeadOf, Encode, EncodeAll, WholeFrames, Completed, Dispatched, Messages, Pieces;
    hide FirstTorn, OnWire, SafeEnd, PiecesOnWire;
    var ms, read := OnWire(s), s.reader.read;
    WireIsCut(cfg, s);
    OnWireAcceptable(cfg, s);
    var safe := s.wire[..SafeEnd(cfg, s)];
    assert s.wire[..read] == safe[..read] == EncodeAll(cfg.magic, ms)[..read];
    ParseTruncated(cfg, ms, read);
    var j := WholeFrames(cfg.magic, ms, read);
    DispatchedPrefix(cfg.ops, ms, j);
    if read == |s.wire| && Current(s) == [] {
      DrainedIsCompleted(cfg, s);
    }
  }

  lemma DrainedIsCompleted(cfg: Config, s: System)
    requires Inv(cfg, s) && SafeEnd(cfg, s) == |s.wire| && Current(s) == []
    ensures OnWire(s)[..WholeFrames(cfg.magic, OnWire(s), |s.wire|)] == Completed(s.history)
  {
    hide EncodeAll, WholeFrames, Completed, Pieces, FirstTorn, Follows;
    var i, ms := FirstTorn(s.history), OnWire(s);
    var c := Completed(s.history[..i]);
    WireIsCut(cfg, s);
    assert ms[..|c|] == c && (Torn(s) ==> ms[..|c| + 1] == ms);
    WholeFramesIs(cfg.magic, ms, |s.wire|, |c|);
    if Torn(s) {
      assert s.wire == Pieces(cfg.magic, s.history) + [] == Pieces(cfg.magic, s.history);
      PiecesGrow(cfg.magic, s.history, i + 1);
      assert s.history[..i + 1] == s.history[..i] + [s.history[i]];
      FinishedLast(cfg.magic, s.history[..i], s.history[i]);
      assert c + [] == c;
    } else {
      assert s.history[..i] == s.history;
    }
  }

  /** Without any failed send, what is delivered is a prefix of the messages in the order in which
      their senders acquired the lock. */
  lemma DeliveredInLockOrder(cfg: Config, fd: nat, steps: seq<Step>)
    ensures var s := Runs(cfg, Start(fd), steps);
      AllAcceptable(cfg, s.acquired) && (forall f | f in s.history :: f.ret == 0) ==>
        && s.reader.chan.log <= Dispatched(cfg.ops, s.acquired)
        && (s.reader.read == |s.wire| && Current(s) == [] ==>
              s.reader.chan.log == Dispatched(cfg.ops, s.acquired))
  {
    StartIsInv(cfg, fd);
    RunsKeepInv(cfg, Start(fd), steps);
    var s := Runs(cfg, Start(fd), steps);
    if AllAcceptable(cfg, s.acquired) && forall f | f in s.history :: f.ret == 0 {
      hide Runs, Parse, Completed, Dispatched, WholeFrames, FirstTorn, Current, Follows;
      FollowsBehind(cfg, s.reader, [], s.wire);
      assert FirstTorn(s.history) == |s.history| && s.history[..|s.history|] == s.history;
      CompletedAmongMessages(s.history);
      DeliveredIsCut(cfg, s);
      assert Current(s) == [] ==> Messages(s.history) + [] == Messages(s.history);
    }
  }
}
