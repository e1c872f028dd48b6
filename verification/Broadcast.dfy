/** What the clients get of the broadcasts, in every interleaving of the channel array: one total order.
    From the record of the sends over the bytes on each wire to the callbacks at its far end. */
module Broadcast {
  import opened Bytes
  import opened Protocol
  import opened Framing
  import opened Channel
  import opened Registry
  import opened Concurrent


  // The messages whose broadcast was sent on a channel, in the order of the sends.
  function Broadcasts(out: seq<Sent>): seq<Msg> {
    if out == [] then []
    else
      var last := out[|out| - 1];
      Broadcasts(out[..|out| - 1]) + if last.toAll then [last.msg] else []
  }

  // How much of the log a channel has been sent: all but the broadcast in progress, until its turn.
  function SentUpTo(s: System, i: nat): int {
    if s.phase.Broadcasting? && i >= s.phase.next then |s.all| - 1 else |s.all|
  }

  function JoinedAt(s: System, id: nat): nat {
    if id in s.joined then s.joined[id] else 0
  }

  /** The broadcasts sent on a channel are exactly those of the log from when it was added to there. */
  ghost predicate IsSlice(s: System, e: Entry, upTo: int) {
    && e.id in s.joined
    && JoinedAt(s, e.id) <= upTo <= |s.all|
    && Broadcasts(e.out) == s.all[JoinedAt(s, e.id)..upTo]
  }

  /** Until a send on it fails, the wire of a channel holds the frames sent on it. */
  ghost predicate WireSane(cfg: Config, s: System, e: Entry) {
    e.id in s.wires && OnWire(cfg, e.out, s.wires[e.id])
  }

  ghost predicate ChannelsSane(cfg: Config, s: System) {
    forall i | 0 <= i < |s.reg.vec| ::
      IsSlice(s, s.reg.vec[i], SentUpTo(s, i)) && WireSane(cfg, s, s.reg.vec[i])
  }

  /** A channel that has left the vector: its slice ends where the log was then, its wire stays. */
  ghost predicate HasLeft(cfg: Config, s: System, e: Entry) {
    && e.id in s.left && IsSlice(s, e, s.left[e.id]) && WireSane(cfg, s, e)
    && e.id < s.reg.nextId && e.id !in Ids(s.reg.vec)
  }

  ghost predicate LeftSane(cfg: Config, s: System) {
    && (forall i | 0 <= i < |s.orphan| :: HasLeft(cfg, s, s.orphan[i]))
    && (forall i | 0 <= i < |s.reg.gone| :: HasLeft(cfg, s, s.reg.gone[i]))
  }

  // Every client follows the wire to it.
  ghost predicate FarSane(peer: Config, s: System) {
    && s.far.Keys == s.wires.Keys
    && forall id | id in s.far && id in s.wires :: Follows(peer, s.far[id], [], s.wires[id])
  }

  ghost predicate ClientsSane(cfg: Config, peer: Config, s: System) {
    ChannelsSane(cfg, s) && LeftSane(cfg, s) && FarSane(peer, s)
  }

  ghost predicate Inv(cfg: Config, peer: Config, s: System) {
    && Concurrent.Inv(cfg, s)
    && (s.phase.Broadcasting? ==> s.all != [] && s.all[|s.all| - 1] == s.phase.msg)
    && ClientsSane(cfg, peer, s)
  }

  lemma BroadcastsLast(out: seq<Sent>, x: Sent)
    ensures Broadcasts(out + [x]) == Broadcasts(out) + if x.toAll then [x.msg] else []
  {
    assert (out + [x])[..|out|] == out;
  }

  // A slice stays one when the log grows.
  lemma SliceKept(s: System, s': System, e: Entry, e': Entry, upTo: int)
    requires IsSlice(s, e, upTo) && s.all <= s'.all && e'.id == e.id && e'.out == e.out
    requires e.id in s'.joined && s'.joined[e.id] == s.joined[e.id]
    ensures IsSlice(s', e', upTo)
  {
    hide Broadcasts;
    var j := JoinedAt(s, e.id);
    assert s'.all[..|s.all|] == s.all;
    assert s'.all[j..upTo] == s.all[j..upTo];
  }

  lemma LeftKept(cfg: Config, s: System, s': System, e: Entry, e': Entry)
    requires HasLeft(cfg, s, e) && s.all <= s'.all && e'.id == e.id && e'.out == e.out
    requires e.id in s'.joined && s'.joined[e.id] == s.joined[e.id]
    requires e.id in s'.left && s'.left[e.id] == s.left[e.id]
    requires e.id in s'.wires && s'.wires[e.id] == s.wires[e.id]
    requires s.reg.nextId <= s'.reg.nextId && e.id !in Ids(s'.reg.vec)
    ensures HasLeft(cfg, s', e')
  {
    hide IsSlice, OnWire, Ids;
    SliceKept(s, s', e, e', s.left[e.id]);
  }

  // Nothing changes for the channels that have left.
  lemma AllLeftKept(cfg: Config, s: System, s': System)
    requires LeftSane(cfg, s) && s'.orphan == s.orphan && s'.reg.gone == s.reg.gone
    requires s.all <= s'.all && s.reg.nextId <= s'.reg.nextId && s'.left == s.left
    requires forall id | id < s.reg.nextId && id !in Ids(s.reg.vec) ::
      && id !in Ids(s'.reg.vec)
      && (id in s.joined ==> id in s'.joined && s'.joined[id] == s.joined[id])
      && (id in s.wires ==> id in s'.wires && s'.wires[id] == s.wires[id])
    ensures LeftSane(cfg, s')
  {
    hide Ids, OnWire, Broadcasts;
    forall i | 0 <= i < |s'.orphan|
      ensures HasLeft(cfg, s', s'.orphan[i])
    {
      LeftKept(cfg, s, s', s.orphan[i], s'.orphan[i]);
    }
    forall i | 0 <= i < |s'.reg.gone|
      ensures HasLeft(cfg, s', s'.reg.gone[i])
    {
      LeftKept(cfg, s, s', s.reg.gone[i], s'.reg.gone[i]);
    }
  }

  // Steps that send nothing and add or remove no channel.
  lemma QuietKeeps(cfg: Config, s: System, s': System)
    requires ChannelsSane(cfg, s)
    requires s'.joined == s.joined && s'.all == s.all && s'.wires == s.wires && s'.phase == s.phase
    requires |s'.reg.vec| == |s.reg.vec| && forall i | 0 <= i < |s.reg.vec| ::
               s'.reg.vec[i].id == s.reg.vec[i].id && s'.reg.vec[i].out == s.reg.vec[i].out
    ensures ChannelsSane(cfg, s') && Ids(s'.reg.vec) == Ids(s.reg.vec)
  {
    hide OnWire, Broadcasts;
    forall i | 0 <= i < |s'.reg.vec|
      ensures IsSlice(s', s'.reg.vec[i], SentUpTo(s', i)) && WireSane(cfg, s', s'.reg.vec[i])
    {
      assert IsSlice(s, s.reg.vec[i], SentUpTo(s, i)) && WireSane(cfg, s, s.reg.vec[i]);
    }
  }

  lemma QuietStepKeeps(cfg: Config, peer: Config, s: System, s': System)
    requires ClientsSane(cfg, peer, s) && FarSane(peer, s')
    requires s'.joined == s.joined && s'.all == s.all && s'.wires == s.wires && s'.phase == s.phase
    requires s'.left == s.left && s'.orphan == s.orphan && s'.reg.gone == s.reg.gone
    requires s'.reg.nextId == s.reg.nextId && s'.reg.vec == s.reg.vec
    ensures ClientsSane(cfg, peer, s')
  {
    hide ChannelsSane, LeftSane, FarSane, Ids;
    QuietKeeps(cfg, s, s');
    AllLeftKept(cfg, s, s');
  }

  lemma BeginKeeps(cfg: Config, peer: Config, s: System, msg: Msg)
    requires ClientsSane(cfg, peer, s) && s.phase.Unlocked?
    ensures ClientsSane(cfg, peer, s.(all := s.all + [msg], phase := Broadcasting(msg, 0)))
  {
    hide OnWire, Broadcasts, LeftSane, FarSane;
    var s' := s.(all := s.all + [msg], phase := Broadcasting(msg, 0));
    forall i | 0 <= i < |s'.reg.vec|
      ensures IsSlice(s', s'.reg.vec[i], SentUpTo(s', i)) && WireSane(cfg, s', s'.reg.vec[i])
    {
      assert IsSlice(s, s.reg.vec[i], SentUpTo(s, i)) && WireSane(cfg, s, s.reg.vec[i]);
    }
    AllLeftKept(cfg, s, s');
    SameFar(peer, s, s');
  }

  lemma EndKeeps(cfg: Config, peer: Config, s: System)
    requires ClientsSane(cfg, peer, s) && CanStep(s, End)
    ensures ClientsSane(cfg, peer, s.(phase := Unlocked))
  {
    hide OnWire, Broadcasts, LeftSane, FarSane;
    var s' := s.(phase := Unlocked);
    forall i | 0 <= i < |s'.reg.vec|
      ensures IsSlice(s', s'.reg.vec[i], SentUpTo(s', i)) && WireSane(cfg, s', s'.reg.vec[i])
    {
      assert IsSlice(s, s.reg.vec[i], SentUpTo(s, i)) && WireSane(cfg, s, s.reg.vec[i]);
    }
    AllLeftKept(cfg, s, s');
    SameFar(peer, s, s');
  }

  // One send on the channel at n, of a broadcast or to that channel alone.
  lemma OneSendKeeps(cfg: Config, s: System, s': System, n: nat, msg: Msg, e: SendEnv, toAll: bool)
    requires ChannelsSane(cfg, s) && IdsSane(s.reg) && n < |s.reg.vec|
    requires s'.joined == s.joined && s'.all == s.all
    requires s'.wires == Append(s.wires, s.reg.vec[n].id, Written(cfg.magic, msg, e))
    requires s'.reg.vec == s.reg.vec[n := Attempted(s.reg.vec[n], msg, Succeeds(msg, e), toAll)]
    requires if toAll then
               && s.phase == Broadcasting(msg, n) && s'.phase == Broadcasting(msg, n + 1)
               && s.all != [] && s.all[|s.all| - 1] == msg
             else s.phase.Unlocked? && s'.phase.Unlocked?
    ensures ChannelsSane(cfg, s')
  {
    hide OnWire, Broadcasts, Written, SendRun, IdsSane;
    OnlyOne(s.reg, n);
    var out := s.reg.vec[n].out;
    BroadcastsLast(out, Sent(msg, Succeeds(msg, e), toAll));
    assert IsSlice(s, s.reg.vec[n], SentUpTo(s, n)) && WireSane(cfg, s, s.reg.vec[n]);
    SendExtendsWire(cfg, out, s.wires[s.reg.vec[n].id], msg, e, toAll);
    forall i | 0 <= i < |s'.reg.vec|
      ensures IsSlice(s', s'.reg.vec[i], SentUpTo(s', i)) && WireSane(cfg, s', s'.reg.vec[i])
    {
      assert IsSlice(s, s.reg.vec[i], SentUpTo(s, i)) && WireSane(cfg, s, s.reg.vec[i]);
      if i == n {
        var j := JoinedAt(s, s.reg.vec[n].id);
        if toAll {
          assert s.all[j..|s.all|] == s.all[j..|s.all| - 1] + [msg];
        } else {
          assert Broadcasts(out) + [] == Broadcasts(out);
        }
      }
    }
  }

  lemma AcceptKeeps(cfg: Config, s: System, s': System)
    requires ChannelsSane(cfg, s) && IdsSane(s.reg)
    requires s.phase.Unlocked? && s'.phase == s.phase && s'.all == s.all
    requires |s'.reg.vec| == |s.reg.vec| + 1 && s'.reg.vec[..|s.reg.vec|] == s.reg.vec
    requires s'.reg.vec[|s.reg.vec|].id == s.reg.nextId && s'.reg.vec[|s.reg.vec|].out == []
    requires s'.joined == s.joined[s.reg.nextId := |s.all|]
    requires s'.wires == s.wires[s.reg.nextId := []]
    ensures ChannelsSane(cfg, s') && Ids(s'.reg.vec) == Ids(s.reg.vec) + [s.reg.nextId]
  {
    hide OnWire, IdsSane;
    NothingSent(cfg);
    forall i | 0 <= i < |s'.reg.vec|
      ensures IsSlice(s', s'.reg.vec[i], SentUpTo(s', i)) && WireSane(cfg, s', s'.reg.vec[i])
    {
      if i < |s.reg.vec| {
        assert s'.reg.vec[i] == s.reg.vec[i];
        EntryBelowNext(s.reg, i);
        assert IsSlice(s, s.reg.vec[i], SentUpTo(s, i)) && WireSane(cfg, s, s.reg.vec[i]);
      }
    }
  }

  lemma RemoveKeeps(cfg: Config, s: System, s': System, k: nat)
    requires ChannelsSane(cfg, s) && k < |s.reg.vec|
    requires s.phase.Unlocked? && s'.phase == s.phase && s'.all == s.all
    requires s'.joined == s.joined && s'.wires == s.wires
    requires s'.reg.vec == s.reg.vec[..k] + s.reg.vec[k + 1..]
    ensures ChannelsSane(cfg, s')
  {
    hide OnWire, Broadcasts;
    forall i | 0 <= i < |s'.reg.vec|
      ensures IsSlice(s', s'.reg.vec[i], SentUpTo(s', i)) && WireSane(cfg, s', s'.reg.vec[i])
    {
      var o := if i < k then i else i + 1;
      assert s'.reg.vec[i] == s.reg.vec[o];
      assert IsSlice(s, s.reg.vec[o], SentUpTo(s, o)) && WireSane(cfg, s, s.reg.vec[o]);
    }
  }

  // A channel that leaves while no broadcast is running has been sent all of the log.
  lemma LeavesSane(cfg: Config, s: System, s': System, k: nat)
    requires ChannelsSane(cfg, s) && IdsSane(s.reg) && k < |s.reg.vec| && s.phase.Unlocked?
    requires s'.all == s.all && s'.joined == s.joined && s'.wires == s.wires
    requires s'.reg.nextId == s.reg.nextId
    requires s.reg.vec[k].id in s'.left && s'.left[s.reg.vec[k].id] == |s.all|
    requires s.reg.vec[k].id !in Ids(s'.reg.vec)
    ensures HasLeft(cfg, s', s.reg.vec[k])
  {
    hide OnWire, Broadcasts, IdsSane, Ids;
    EntryBelowNext(s.reg, k);
    assert IsSlice(s, s.reg.vec[k], SentUpTo(s, k)) && WireSane(cfg, s, s.reg.vec[k]);
  }

  // Wires only grow, and a new client starts at the beginning of its own.
  lemma FarGrows(peer: Config, s: System, s': System)
    requires FarSane(peer, s) && s'.far == s.far && s'.wires.Keys == s.wires.Keys
    requires forall id | id in s.wires :: s.wires[id] <= s'.wires[id]
    ensures FarSane(peer, s')
  {
    hide Follows;
    forall id | id in s'.far && id in s'.wires
      ensures Follows(peer, s'.far[id], [], s'.wires[id])
    {
      FollowsGrowing(peer, s.far[id], [], s.wires[id], s'.wires[id]);
    }
  }

  lemma AppendGrows(wires: map<nat, seq<byte>>, id: nat, bytes: seq<byte>)
    ensures var w := Append(wires, id, bytes);
      && w.Keys == wires.Keys
      && forall k | k in wires :: wires[k] <= w[k] && (k != id ==> w[k] == wires[k])
  {
  }

  lemma FarJoins(peer: Config, s: System, s': System, id: nat)
    requires FarSane(peer, s) && s'.far == s.far[id := FAR_END] && s'.wires == s.wires[id := []]
    ensures FarSane(peer, s')
  {
    hide Follows;
    FollowsFromStart(peer, FAR_END.chan, []);
  }

  lemma FarReads(peer: Config, s: System, s': System, id: nat, size: nat)
    requires FarSane(peer, s) && id in s.far && id in s.wires && size > 0
    requires s' == s.(far := s.far[id := ReadStream(peer, s.far[id], s.wires[id], [size])])
    ensures FarSane(peer, s')
  {
    hide Follows, ReadStream;
    ReadStreamSync(peer, s.far[id], [], s.wires[id], [size]);
  }

  lemma SameFar(peer: Config, s: System, s': System)
    requires FarSane(peer, s) && s'.far == s.far && s'.wires == s.wires
    ensures FarSane(peer, s')
  {
  }

  lemma IdAt(vec: seq<Entry>, i: nat)
    requires i < |vec|
    ensures vec[i].id in Ids(vec)
  {
    assert Ids(vec)[i] == vec[i].id;
  }

  // A send on a channel of the vector.
  lemma SendStepKeeps(cfg: Config, peer: Config, s: System, s': System, n: nat, msg: Msg, e: SendEnv,
                      toAll: bool)
    requires ClientsSane(cfg, peer, s) && IdsSane(s.reg) && n < |s.reg.vec|
    requires s' == s.(reg := s'.reg, wires := s'.wires, phase := s'.phase)
    requires s'.reg == s.reg.(vec := s'.reg.vec)
    requires s'.wires == Append(s.wires, s.reg.vec[n].id, Written(cfg.magic, msg, e))
    requires s'.reg.vec == s.reg.vec[n := Attempted(s.reg.vec[n], msg, Succeeds(msg, e), toAll)]
    requires if toAll then
               && s.phase == Broadcasting(msg, n) && s'.phase == Broadcasting(msg, n + 1)
               && s.all != [] && s.all[|s.all| - 1] == msg
             else s.phase.Unlocked? && s'.phase.Unlocked?
    ensures ClientsSane(cfg, peer, s')
  {
    hide ChannelsSane, LeftSane, FarSane, Written, SendRun, IdsSane, Append;
    OneSendKeeps(cfg, s, s', n, msg, e, toAll);
    AppendGrows(s.wires, s.reg.vec[n].id, Written(cfg.magic, msg, e));
    FarGrows(peer, s, s');
    assert Ids(s'.reg.vec) == Ids(s.reg.vec);
    IdAt(s.reg.vec, n);
    AllLeftKept(cfg, s, s');
  }

  lemma SendNextKeeps(cfg: Config, peer: Config, s: System, e: SendEnv)
    requires Inv(cfg, peer, s) && CanStep(s, SendNext(e))
    ensures ClientsSane(cfg, peer, Concurrent.Next(cfg, peer, s, SendNext(e)))
  {
    hide Concurrent.Inv, ClientsSane, Written, SendRun, IdsSane, Append;
    var s', n := Concurrent.Next(cfg, peer, s, SendNext(e)), s.phase.next;
    assert IdsSane(s.reg) by { PartsOfInv(cfg, s); }
    SocketsOpen(cfg, s, n);
    SendStepKeeps(cfg, peer, s, s', n, s.phase.msg, e, true);
  }

  lemma SendToKeeps(cfg: Config, peer: Config, s: System, msg: Msg, id: int, e: SendEnv)
    requires Inv(cfg, peer, s) && CanStep(s, SendTo(msg, id, e))
    ensures ClientsSane(cfg, peer, Concurrent.Next(cfg, peer, s, SendTo(msg, id, e)))
  {
    hide Concurrent.Inv, ClientsSane, Written, SendRun, IdsSane, Append, FirstOpen;
    var s', k := Concurrent.Next(cfg, peer, s, SendTo(msg, id, e)), FirstOpen(s.reg.vec, id);
    assert IdsSane(s.reg) by { PartsOfInv(cfg, s); }
    if k < |s.reg.vec| {
      SendStepKeeps(cfg, peer, s, s', k, msg, e, false);
    }
  }

  lemma AcceptStepKeeps(cfg: Config, peer: Config, s: System, conn: Accept)
    requires Inv(cfg, peer, s) && CanStep(s, Step.Accept(conn))
    ensures ClientsSane(cfg, peer, Concurrent.Next(cfg, peer, s, Step.Accept(conn)))
  {
    hide Concurrent.Inv, ChannelsSane, LeftSane, FarSane, IdsSane, Enabled, Ids;
    var s' := Concurrent.Next(cfg, peer, s, Step.Accept(conn));
    assert IdsSane(s.reg) by { PartsOfInv(cfg, s); }
    if s'.reg.nextId != s.reg.nextId {
      AcceptKeeps(cfg, s, s');
      FarJoins(peer, s, s', s.reg.nextId);
    } else {
      QuietKeeps(cfg, s, s');
      SameFar(peer, s, s');
    }
    AllLeftKept(cfg, s, s');
  }

  lemma EraseStepKeeps(cfg: Config, peer: Config, s: System)
    requires Inv(cfg, peer, s) && s.phase.Unlocked? && s.service.Failed?
    ensures ClientsSane(cfg, peer, Erased(s))
  {
    hide Concurrent.Inv, ChannelsSane, LeftSane, FarSane, IndexOf, IdsSane, ServiceSane, Ids;
    var s', i := Erased(s), IndexOf(s.reg.vec, s.service.id);
    assert IdsSane(s.reg) && ServiceSane(s) by { PartsOfInv(cfg, s); }
    SameFar(peer, s, s');
    if i < |s.reg.vec| {
      RemoveKeeps(cfg, s, s', i);
      EraseLeaves(cfg, s, s', i);
    } else {
      QuietKeeps(cfg, s, s');
      ReleaseLeaves(cfg, s, s');
    }
  }

  lemma EraseLeaves(cfg: Config, s: System, s': System, i: nat)
    requires ChannelsSane(cfg, s) && LeftSane(cfg, s) && IdsSane(s.reg) && s.phase.Unlocked?
    requires i < |s.reg.vec| && s'.reg == AfterDeath(s.reg, i, s.reg.vec[i])
    requires s' == s.(reg := s'.reg, service := s'.service, left := s.left[s.reg.vec[i].id := |s.all|])
    ensures LeftSane(cfg, s')
  {
    hide ChannelsSane, HasLeft, Ids;
    var e := s.reg.vec[i];
    RestIds(s.reg, i);
    assert s'.reg.vec == s.reg.vec[..i] + s.reg.vec[i + 1..];
    LeavesSane(cfg, s, s', i);
    forall x | HasLeft(cfg, s, x)
      ensures HasLeft(cfg, s', x)
    {
      IdAt(s.reg.vec, i);
      LeftFacts(cfg, s, x);
      LeftKept(cfg, s, s', x, x);
    }
  }

  lemma LeftFacts(cfg: Config, s: System, e: Entry)
    requires HasLeft(cfg, s, e)
    ensures e.id in s.left && e.id in s.joined && e.id in s.wires
    ensures e.id !in Ids(s.reg.vec) && e.id < s.reg.nextId
  {
  }

  // Without the channel at i, the vector has its identifiers but that one.
  lemma RestIds(r: Registry, i: nat)
    requires IdsSane(r) && i < |r.vec|
    ensures var ids := Ids(r.vec[..i] + r.vec[i + 1..]);
      r.vec[i].id !in ids && forall id | id in ids :: id in Ids(r.vec)
  {
    var rest := r.vec[..i] + r.vec[i + 1..];
    OnlyOne(r, i);
    forall k | 0 <= k < |rest|
      ensures Ids(rest)[k] != r.vec[i].id && Ids(rest)[k] in Ids(r.vec)
    {
      IdAt(r.vec, if k < i then k else k + 1);
    }
  }

  // The orphan, if there is one, joins the channels that are gone.
  lemma ReleaseLeaves(cfg: Config, s: System, s': System)
    requires LeftSane(cfg, s) && ServiceSane(s) && s' == Released(s).(left := s.left)
    ensures LeftSane(cfg, s')
  {
    hide HasLeft, Ids, ServiceSane;
    forall x | HasLeft(cfg, s, x)
      ensures HasLeft(cfg, s', x)
    {
      LeftFacts(cfg, s, x);
      LeftKept(cfg, s, s', x, x);
    }
  }

  lemma HandleStepKeeps(cfg: Config, peer: Config, s: System, recv: Recvd)
    requires Inv(cfg, peer, s) && s.service.Selected?
    ensures ClientsSane(cfg, peer, AfterHandle(cfg, s, recv))
  {
    hide Concurrent.Inv, ChannelsSane, FarSane, AfterHandle, LeftSane, Ids;
    var s' := AfterHandle(cfg, s, recv);
    QuietKeeps(cfg, s, s');
    SameFar(peer, s, s');
    HandleLeaves(cfg, s, recv);
  }

  lemma HandleLeaves(cfg: Config, s: System, recv: Recvd)
    requires LeftSane(cfg, s) && s.service.Selected?
    requires Ids(AfterHandle(cfg, s, recv).reg.vec) == Ids(s.reg.vec)
    ensures LeftSane(cfg, AfterHandle(cfg, s, recv))
  {
    hide HasLeft, Ids, IndexOf, AfterRecv, Taken;
    var s' := AfterHandle(cfg, s, recv);
    forall x | HasLeft(cfg, s, x)
      ensures HasLeft(cfg, s', x) && HasLeft(cfg, s', HandledEntry(cfg, x, recv))
    {
      LeftFacts(cfg, s, x);
      LeftKept(cfg, s, s', x, x);
      LeftKept(cfg, s, s', x, HandledEntry(cfg, x, recv));
    }
  }

  lemma StopStepKeeps(cfg: Config, peer: Config, s: System)
    requires Inv(cfg, peer, s) && s.phase.Unlocked?
    ensures ClientsSane(cfg, peer, Stopped(s))
  {
    hide Concurrent.Inv, ChannelsSane, LeftSane, FarSane, IdsSane, ServiceSane, AfterStopAll;
    var s' := Stopped(s);
    assert IdsSane(s.reg) && ServiceSane(s) by { PartsOfInv(cfg, s); }
    SameFar(peer, s, s');
    NoChannels(cfg, s');
    StopLeaves(cfg, s);
  }

  lemma StopLeaves(cfg: Config, s: System)
    requires ChannelsSane(cfg, s) && LeftSane(cfg, s) && IdsSane(s.reg) && ServiceSane(s)
    requires s.phase.Unlocked?
    ensures LeftSane(cfg, Stopped(s))
  {
    hide ChannelsSane, HasLeft, IdsSane, ServiceSane, AfterStopAll;
    var s' := Stopped(s);
    assert Ids(s'.reg.vec) == [];
    hide Ids;
    StopMoves(s);
    forall k | 0 <= k < |s.reg.vec|
      ensures HasLeft(cfg, s', s.reg.vec[k])
    {
      IdAt(s.reg.vec, k);
      LeavesSane(cfg, s, s', k);
    }
    forall x | HasLeft(cfg, s, x)
      ensures HasLeft(cfg, s', x)
    {
      LeftFacts(cfg, s, x);
      LeftKept(cfg, s, s', x, x);
    }
  }

  // Where the channels go when the array is stopped.
  lemma StopMoves(s: System)
    requires IdsSane(s.reg) && ServiceSane(s)
    ensures var s' := AfterStopAll(s);
      && s'.reg.nextId == s.reg.nextId
      && (forall i | 0 <= i < |s'.orphan| :: s'.orphan[i] in s.reg.vec || s'.orphan[i] in s.orphan)
      && (forall i | 0 <= i < |s'.reg.gone| ::
            s'.reg.gone[i] in s.reg.vec || s'.reg.gone[i] in s.reg.gone)
  {
    hide IndexOf, Dels, Closes, IdsSane;
  }

  lemma NoChannels(cfg: Config, s: System)
    requires s.reg.vec == []
    ensures ChannelsSane(cfg, s)
  {
  }

  lemma SocketsOpen(cfg: Config, s: System, i: nat)
    requires Concurrent.Inv(cfg, s) && i < |s.reg.vec|
    ensures s.reg.vec[i].chan.socket >= 0
  {
    assert View(s).vec[i].chan.socket >= 0;
  }

  lemma StepKeepsInv(cfg: Config, peer: Config, s: System, step: Step)
    requires Inv(cfg, peer, s) && CanStep(s, step)
    ensures Inv(cfg, peer, Concurrent.Next(cfg, peer, s, step))
  {
    hide Concurrent.Inv, ClientsSane, Written, SendRun, ReadStream, Append, Enabled;
    hide AfterHandle, Erased, Stopped;
    var s' := Concurrent.Next(cfg, peer, s, step);
    Concurrent.StepKeepsInv(cfg, peer, s, step);
    PhaseKept(cfg, peer, s, step);
    match step
    case Begin(msg) => BeginKeeps(cfg, peer, s, msg);
    case End => EndKeeps(cfg, peer, s);
    case SendNext(e) => SendNextKeeps(cfg, peer, s, e);
    case SendTo(msg, id, e) => SendToKeeps(cfg, peer, s, msg, id, e);
    case Accept(conn) => AcceptStepKeeps(cfg, peer, s, conn);
    case Erase => EraseStepKeeps(cfg, peer, s);
    case Handle(recv) => HandleStepKeeps(cfg, peer, s, recv);
    case StopAll => StopStepKeeps(cfg, peer, s);
    case FarRead(id, size) =>
      assert FarSane(peer, s) by { FarOf(cfg, peer, s); }
      hide FarSane;
      FarReads(peer, s, s', id, size);
      QuietStepKeeps(cfg, peer, s, s');
    case _ => QuietSteps(cfg, peer, s, step);
  }

  lemma FarOf(cfg: Config, peer: Config, s: System)
    requires ClientsSane(cfg, peer, s)
    ensures FarSane(peer, s)
  {
  }

  lemma QuietSteps(cfg: Config, peer: Config, s: System, step: Step)
    requires ClientsSane(cfg, peer, s) && CanStep(s, step) && (step.OpenServer? || step.Select?)
    ensures ClientsSane(cfg, peer, Concurrent.Next(cfg, peer, s, step))
  {
    var s' := Concurrent.Next(cfg, peer, s, step);
    QuietShape(cfg, peer, s, step);
    hide Concurrent.Next, CanStep, ChannelsSane, LeftSane, FarSane;
    SameFar(peer, s, s');
    QuietStepKeeps(cfg, peer, s, s');
  }

  lemma QuietShape(cfg: Config, peer: Config, s: System, step: Step)
    requires CanStep(s, step) && (step.OpenServer? || step.Select?)
    ensures var s' := Concurrent.Next(cfg, peer, s, step);
      && SameOutside(s, s') && s'.orphan == s.orphan
      && s'.reg.gone == s.reg.gone && s'.reg.nextId == s.reg.nextId && s'.reg.vec == s.reg.vec
  {
    hide Enabled, FirstReady;
  }

  // A broadcast goes on with its own message, which is the last in the log.
  lemma PhaseKept(cfg: Config, peer: Config, s: System, step: Step)
    requires CanStep(s, step)
    requires s.phase.Broadcasting? ==> s.all != [] && s.all[|s.all| - 1] == s.phase.msg
    ensures var s' := Concurrent.Next(cfg, peer, s, step);
      s'.phase.Broadcasting? ==> s'.all != [] && s'.all[|s'.all| - 1] == s'.phase.msg
  {
    hide Written, SendRun, ReadStream, Append, Enabled, AfterHandle, AfterErase, AfterStopAll;
  }

  lemma {:induction false} RunsKeepInv(cfg: Config, peer: Config, s: System, steps: seq<Step>)
    requires Inv(cfg, peer, s)
    ensures Inv(cfg, peer, Runs(cfg, peer, s, steps))
    decreases |steps|
  {
    hide Inv, Concurrent.Next;
    if steps != [] {
      if CanStep(s, steps[0]) {
        StepKeepsInv(cfg, peer, s, steps[0]);
        RunsKeepInv(cfg, peer, Concurrent.Next(cfg, peer, s, steps[0]), steps[1..]);
      } else {
        RunsKeepInv(cfg, peer, s, steps[1..]);
      }
    }
  }

  lemma EveryRunIsInv(cfg: Config, peer: Config, max: int, steps: seq<Step>)
    ensures Inv(cfg, peer, Runs(cfg, peer, New(max), steps))
  {
    hide Concurrent.Inv, Runs;
    StartKeepsInv(cfg, max);
    RunsKeepInv(cfg, peer, New(max), steps);
  }

  // Every channel there has ever been: in the vector, still in service, or gone.
  function Everybody(s: System): seq<Entry> {
    s.reg.vec + s.orphan + s.reg.gone
  }

  // How much of the log has come to a channel: for one that has left, all there was then.
  ghost predicate ComesUpTo(s: System, e: Entry, upTo: int) {
    if e in s.reg.vec then exists i | 0 <= i < |s.reg.vec| :: e == s.reg.vec[i] && upTo == SentUpTo(s, i)
    else e.id in s.left && upTo == s.left[e.id]
  }

  lemma EverybodySane(cfg: Config, peer: Config, s: System, e: Entry) returns (upTo: int)
    requires Inv(cfg, peer, s) && e in Everybody(s)
    ensures ComesUpTo(s, e, upTo) && IsSlice(s, e, upTo) && WireSane(cfg, s, e)
    ensures e.id in s.far && Follows(peer, s.far[e.id], [], s.wires[e.id])
  {
    hide Concurrent.Inv, Broadcasts, OnWire, Follows, Ids, SentUpTo;
    var k :| 0 <= k < |Everybody(s)| && Everybody(s)[k] == e;
    if k < |s.reg.vec| {
      assert e == s.reg.vec[k];
      upTo := SentUpTo(s, k);
    } else {
      assert HasLeft(cfg, s, e) by {
        if k - |s.reg.vec| < |s.orphan| {
          assert e == s.orphan[k - |s.reg.vec|];
        } else {
          assert e == s.reg.gone[k - |s.reg.vec| - |s.orphan|];
        }
      }
      assert e !in s.reg.vec by {
        if k' :| 0 <= k' < |s.reg.vec| && s.reg.vec[k'] == e {
          IdAt(s.reg.vec, k');
        }
      }
      upTo := s.left[e.id];
    }
  }

  /** Total order of broadcasts. In every interleaving, the broadcasts sent on each channel there has
      ever been are a contiguous slice of one log, from the moment the channel was added: up to now (but
      for the broadcast in progress while it has not come to that channel), or up to the moment it left
      the vector. While no send on the channel fails, its wire is exactly the frames of what was sent. */
  lemma BroadcastsAreTotallyOrdered(cfg: Config, peer: Config, max: int, steps: seq<Step>)
    ensures var s := Runs(cfg, peer, New(max), steps);
      forall e | e in Everybody(s) ::
        && (exists upTo :: ComesUpTo(s, e, upTo) && IsSlice(s, e, upTo))
        && e.id in s.wires
        && (AllOk(e.out) ==> s.wires[e.id] == EncodeAll(cfg.magic, Msgs(e.out)))
  {
    hide Runs, IsSlice, Inv, ComesUpTo, EncodeAll, Msgs, AllOk;
    EveryRunIsInv(cfg, peer, max, steps);
    var s := Runs(cfg, peer, New(max), steps);
    hide Everybody;
    forall e | e in Everybody(s)
      ensures exists upTo :: ComesUpTo(s, e, upTo) && IsSlice(s, e, upTo)
      ensures WireSane(cfg, s, e)
    {
      var upTo := EverybodySane(cfg, peer, s, e);
    }
  }

  // ---------- what the clients dispatch ----------

  // How many of the sends to it the client of the channel has read whole.
  function GotWhole(cfg: Config, s: System, e: Entry): (n: nat)
    ensures n <= |e.out|
  {
    WholeFrames(cfg.magic, Msgs(e.out), if e.id in s.far then s.far[e.id].read else 0)
  }

  // No send to the client has failed, and it accepts what it was sent.
  ghost predicate Healthy(peer: Config, e: Entry) {
    AllOk(e.out) && AllAcceptable(peer, Msgs(e.out))
  }

  // The broadcasts that have reached the callbacks of the client.
  function Got(cfg: Config, s: System, e: Entry): seq<Msg> {
    Broadcasts(e.out[..GotWhole(cfg, s, e)])
  }

  lemma {:induction false} BroadcastsPrefix(out: seq<Sent>, n: nat)
    requires n <= |out|
    ensures Broadcasts(out[..n]) <= Broadcasts(out)
    decreases |out|
  {
    if n < |out| {
      var front := out[..|out| - 1];
      assert front[..n] == out[..n];
      BroadcastsPrefix(front, n);
    } else {
      assert out[..n] == out;
    }
  }

  lemma {:induction false} BroadcastsOnly(out: seq<Sent>)
    requires forall x <- out :: x.toAll
    ensures Broadcasts(out) == Msgs(out)
    decreases |out|
  {
    if out != [] {
      var front, last := out[..|out| - 1], out[|out| - 1];
      BroadcastsOnly(front);
      assert last in out;
      assert Msgs(out) == Msgs(front) + [last.msg];
    }
  }

  /** What has reached the callbacks of one client: the messages sent to it that it has read whole, once
      each, in the order of the sends, and no error. The broadcasts among them are the log from the
      moment it joined, up to some point; if nothing was sent to it alone, they are all. */
  ghost predicate DispatchesSlice(cfg: Config, peer: Config, s: System, e: Entry) {
    var n, j := GotWhole(cfg, s, e), JoinedAt(s, e.id);
    && e.id in s.far && e.id in s.wires
    && !s.far[e.id].failed
    && s.far[e.id].chan.log == Dispatched(peer.ops, Msgs(e.out)[..n])
    && (s.far[e.id].read == |s.wires[e.id]| ==> n == |e.out|)
    && j + |Got(cfg, s, e)| <= |s.all|
    && Got(cfg, s, e) == s.all[j..j + |Got(cfg, s, e)|]
    && ((forall x <- e.out :: x.toAll) ==>
          s.far[e.id].chan.log == Dispatched(peer.ops, s.all[j..j + |Got(cfg, s, e)|]))
  }

  lemma ClientDispatches(cfg: Config, peer: Config, s: System, e: Entry)
    requires Inv(cfg, peer, s) && peer.magic == cfg.magic && e in Everybody(s) && Healthy(peer, e)
    ensures DispatchesSlice(cfg, peer, s, e)
  {
    hide Inv, Everybody, Parse, WholeFrames, Broadcasts, EncodeAll, Dispatched, JoinedAt, ComesUpTo;
    var n := GotWhole(cfg, s, e);
    var upTo := EverybodySane(cfg, peer, s, e);
    var wire, far := s.wires[e.id], s.far[e.id];
    ClientReceivesWhatWasSent(peer, e.out, wire, far.read);
    if far.read == |wire| {
      assert Msgs(e.out)[..n] == Msgs(e.out);
    }
    BroadcastsPrefix(e.out, n);
    var got, j := Got(cfg, s, e), JoinedAt(s, e.id);
    assert |got| <= upTo - j && got == s.all[j..upTo][..|got|];
    assert s.all[j..upTo][..|got|] == s.all[j..j + |got|];
    if forall x <- e.out :: x.toAll {
      BroadcastsOnly(e.out[..n]);
      assert got == Msgs(e.out[..n]) == Msgs(e.out)[..n];
    }
  }

  /** In every interleaving of sends, accepts, receives, stops and the clients' reads, and however the
      reads are split: every client there has ever been, whether or not its channel is still there, to
      which no send has failed, has dispatched a slice of the one log of broadcasts, from the moment it
      joined. */
  lemma ClientsDispatchSlices(cfg: Config, peer: Config, max: int, steps: seq<Step>)
    requires peer.magic == cfg.magic
    ensures var s := Runs(cfg, peer, New(max), steps);
      forall e | e in Everybody(s) && Healthy(peer, e) :: DispatchesSlice(cfg, peer, s, e)
  {
    hide Runs, Healthy, DispatchesSlice, Inv, Everybody;
    EveryRunIsInv(cfg, peer, max, steps);
    var s := Runs(cfg, peer, New(max), steps);
    forall e | e in Everybody(s) && Healthy(peer, e)
      ensures DispatchesSlice(cfg, peer, s, e)
    {
      ClientDispatches(cfg, peer, s, e);
    }
  }

  // Since the later one joined, one of two sequences of broadcasts is the beginning of the other.
  ghost predicate Agree(a: seq<Msg>, joinedA: nat, b: seq<Msg>, joinedB: nat) {
    var d := joinedB - joinedA;
    0 <= d && (d <= |a| ==> a[d..] <= b || b <= a[d..])
  }

  lemma SlicesAgree(all: seq<Msg>, a: seq<Msg>, j: nat, b: seq<Msg>, k: nat)
    requires j <= k && j + |a| <= |all| && k + |b| <= |all|
    requires a == all[j..j + |a|] && b == all[k..k + |b|]
    ensures Agree(a, j, b, k)
  {
    var d := k - j;
    if d <= |a| {
      assert forall x | 0 <= x < |a| - d :: a[d..][x] == all[k + x];
      assert forall x | 0 <= x < |b| :: b[x] == all[k + x];
    }
  }

  lemma TwoAgree(cfg: Config, peer: Config, s: System, e1: Entry, e2: Entry)
    requires DispatchesSlice(cfg, peer, s, e1) && DispatchesSlice(cfg, peer, s, e2)
    requires JoinedAt(s, e1.id) <= JoinedAt(s, e2.id)
    ensures Agree(Got(cfg, s, e1), JoinedAt(s, e1.id), Got(cfg, s, e2), JoinedAt(s, e2.id))
  {
    hide Agree, Got, JoinedAt, GotWhole, Dispatched, Msgs;
    SlicesAgree(s.all, Got(cfg, s, e1), JoinedAt(s, e1.id), Got(cfg, s, e2), JoinedAt(s, e2.id));
  }

  /** Any two such clients have dispatched the same broadcasts in the same order since the later one
      joined, as far as both have come. */
  lemma ClientsAgree(cfg: Config, peer: Config, max: int, steps: seq<Step>)
    requires peer.magic == cfg.magic
    ensures var s := Runs(cfg, peer, New(max), steps);
      forall e1, e2 | e1 in Everybody(s) && e2 in Everybody(s) && Healthy(peer, e1) && Healthy(peer, e2)
        && JoinedAt(s, e1.id) <= JoinedAt(s, e2.id) ::
        Agree(Got(cfg, s, e1), JoinedAt(s, e1.id), Got(cfg, s, e2), JoinedAt(s, e2.id))
  {
    hide Runs, Healthy, Agree, Got, JoinedAt, DispatchesSlice, Everybody, Inv;
    ClientsDispatchSlices(cfg, peer, max, steps);
    var s := Runs(cfg, peer, New(max), steps);
    forall e1, e2 | e1 in Everybody(s) && e2 in Everybody(s) && Healthy(peer, e1) && Healthy(peer, e2)
      && JoinedAt(s, e1.id) <= JoinedAt(s, e2.id)
      ensures Agree(Got(cfg, s, e1), JoinedAt(s, e1.id), Got(cfg, s, e2), JoinedAt(s, e2.id))
    {
      TwoAgree(cfg, peer, s, e1, e2);
    }
  }
}
