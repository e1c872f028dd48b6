/** What a result of 0 from a send is worth, and what a caller can conclude from the results it sees:
    the promise of include/gep_channel_array.h that the sender learns when a message does not arrive. */
module Promise {
  import opened Bytes
  import opened Protocol
  import opened Framing
  import opened FullSend
  import opened Channel
  import opened Delivery

  // ---------- torn frames ----------

  /** In every reachable state in which nobody is sending, the receiver finds on the wire exactly the
      messages whose send returned 0 and ends between frames, if and only if no failed send has written
      part of its frame. */
  lemma BetweenFramesIffNotTorn(cfg: Config, fd: nat, steps: seq<Step>)
    ensures var s := Runs(cfg, Start(fd), steps);
      Current(s) == [] && AllAcceptable(cfg, s.acquired) ==>
        (Parse(cfg, s.wire) == Parsed(Completed(s.history), [], Waiting) <==> !Torn(s))
  {
    hide Parse, HeadOf, Encode, EncodeAll, Completed, Messages, Pieces, Follows, Runs, FirstTorn;
    StartIsInv(cfg, fd);
    RunsKeepInv(cfg, Start(fd), steps);
    var s := Runs(cfg, Start(fd), steps);
    if Current(s) == [] && AllAcceptable(cfg, s.acquired) {
      var c := Completed(s.history);
      PiecesAreFrames(cfg.magic, s.history);
      assert s.wire == Pieces(cfg.magic, s.history) + [] == Pieces(cfg.magic, s.history);
      if Torn(s) {
        assert s.history[FirstTorn(s.history)] in s.history;
        ParseConserves(cfg, s.wire);
        assert |s.wire| > |EncodeAll(cfg.magic, c)|;
      } else {
        CompletedAmongMessages(s.history);
        EmptyIsIncomplete(cfg);
        ParseThenIncomplete(cfg, c, []);
        assert s.wire == EncodeAll(cfg.magic, c) + [];
      }
    }
  }

  // ---------- what a result of 0 is worth ----------

  // The receiver takes the message of the k-th send where that send has written it.
  ghost predicate Delivered(cfg: Config, s: System, k: nat)
    requires k < |s.history|
  {
    TakenAt(cfg, s.wire, |Pieces(cfg.magic, s.history[..k])|, s.history[k].msg)
  }

  /** The promise of the result: every send that returned 0 is delivered. */
  ghost predicate ZeroMeansDelivered(cfg: Config, s: System) {
    forall k | 0 <= k < |s.history| && s.history[k].ret == 0 :: Delivered(cfg, s, k)
  }

  ghost predicate HistoryAcceptable(cfg: Config, history: seq<Finished>) {
    forall f | f in history :: Acceptable(cfg, f.msg)
  }

  // A completed send is delivered exactly if the receiver is between frames where it starts.
  lemma DeliveredIffBetween(cfg: Config, s: System, k: nat)
    requires Inv(cfg, s) && k < |s.history| && s.history[k].ret == 0
    requires Acceptable(cfg, s.history[k].msg)
    ensures Delivered(cfg, s, k) <==> BetweenFrames(cfg, Pieces(cfg.magic, s.history[..k]))
  {
    hide Encode, Pieces, Completed, Follows, BetweenFrames, TakenAt, CurrentBytes, Acceptable;
    var h, f := s.history, s.history[k];
    assert f in h;
    PiecesGrow(cfg.magic, h, k + 1);
    assert h[..k + 1] == h[..k] + [f];
    FinishedLast(cfg.magic, h[..k], f);
    var before, frame := Pieces(cfg.magic, h[..k]), Encode(cfg.magic, f.msg);
    assert Piece(cfg.magic, f) == frame;
    assert before + frame <= s.wire;
    assert s.wire == before + frame + s.wire[|before + frame|..];
    TakenIffBetweenFrames(cfg, before, f.msg, s.wire[|before + frame|..]);
  }

  // Up to the first torn frame the receiver is between frames wherever a send starts.
  lemma BetweenBeforeTorn(cfg: Config, history: seq<Finished>, k: nat)
    requires ReturnsTellAll(history) && HistoryAcceptable(cfg, history) && k <= FirstTorn(history)
    ensures BetweenFrames(cfg, Pieces(cfg.magic, history[..k]))
    ensures AllAcceptable(cfg, Completed(history[..k]))
  {
    hide Parse, EncodeAll, Pieces, Completed, FirstTorn, HeadOf, Acceptable;
    var c := Completed(history[..k]);
    PiecesUpToTorn(cfg.magic, history, k);
    CompletedAmongMessages(history[..k]);
    forall m | m in c
      ensures Acceptable(cfg, m)
    {
      var i :| 0 <= i < k && Messages(history[..k])[i] == m;
      assert history[i] in history;
    }
    EmptyIsIncomplete(cfg);
    ParseThenIncomplete(cfg, c, []);
    assert EncodeAll(cfg.magic, c) + [] == EncodeAll(cfg.magic, c);
  }

  // Sends that write nothing leave the wire alone.
  lemma {:induction false} SilentSends(magic: u32, history: seq<Finished>, i: nat, k: nat)
    requires i <= k <= |history| && forall j | i <= j < k :: history[j].written == 0
    ensures Pieces(magic, history[..k]) == Pieces(magic, history[..i])
    decreases k
  {
    hide Pieces, Encode;
    if i < k {
      SilentSends(magic, history, i, k - 1);
      assert history[..k] == history[..k - 1] + [history[k - 1]];
      FinishedLast(magic, history[..k - 1], history[k - 1]);
    }
  }

  /** As long as nothing is written behind a torn frame, ordered delivery is about the whole wire. */
  lemma SafeToTheEnd(cfg: Config, s: System)
    requires Inv(cfg, s)
    requires forall j | FirstTorn(s.history) < j < |s.history| :: s.history[j].written == 0
    requires Torn(s) ==> CurrentBytes(cfg, s) == []
    ensures SafeEnd(cfg, s) == |s.wire|
  {
    hide Pieces, FirstTorn, CurrentBytes, Follows;
    if Torn(s) {
      SilentSends(cfg.magic, s.history, FirstTorn(s.history) + 1, |s.history|);
      assert s.history[..|s.history|] == s.history;
    }
  }

  // Right behind the first torn frame the receiver is not between frames.
  lemma NotBetweenAfterTorn(cfg: Config, history: seq<Finished>, k: nat)
    requires ReturnsTellAll(history) && HistoryAcceptable(cfg, history)
    requires FirstTorn(history) < k <= |history|
    requires forall j | FirstTorn(history) < j < k :: history[j].written == 0
    ensures !BetweenFrames(cfg, Pieces(cfg.magic, history[..k]))
  {
    hide Parse, EncodeAll, Encode, Pieces, Completed, FirstTorn, HeadOf;
    var i := FirstTorn(history);
    var f, c := history[i], Completed(history[..i]);
    assert f in history;
    BetweenBeforeTorn(cfg, history, i);
    PiecesUpToTorn(cfg.magic, history, i);
    SilentSends(cfg.magic, history, i + 1, k);
    HeadOfCut(cfg, f.msg, f.written);
    ParseThenIncomplete(cfg, c, Piece(cfg.magic, f));
  }

  ghost predicate NoneCompletesBehindTorn(h: seq<Finished>) {
    forall k | FirstTorn(h) < k < |h| :: h[k].ret != 0
  }

  ghost predicate TearsAtMostOnce(h: seq<Finished>) {
    forall k | FirstTorn(h) < k < |h| :: !Tore(h[k])
  }

  // The k-th send is behind the first torn frame, and nothing has been written in between.
  ghost predicate RightBehindTorn(h: seq<Finished>, k: nat) {
    FirstTorn(h) < k < |h| && forall j | FirstTorn(h) < j < k :: h[j].written == 0
  }

  /** When a result of 0 is worth something, in every reachable state. Every completed send is delivered
      if none has completed after a torn frame. The next send to write behind the first torn frame is not
      delivered although it completes. So with at most one torn frame, every completed send is delivered
      if and only if none has completed after it. */
  lemma ZeroMeansDeliveredUnlessBehindTorn(cfg: Config, fd: nat, steps: seq<Step>)
    ensures var s := Runs(cfg, Start(fd), steps);
      var h := s.history;
      HistoryAcceptable(cfg, h) ==>
        && (NoneCompletesBehindTorn(h) ==> ZeroMeansDelivered(cfg, s))
        && (forall k | 0 <= k < |h| && RightBehindTorn(h, k) && h[k].ret == 0 :: !Delivered(cfg, s, k))
        && (TearsAtMostOnce(h) ==> (ZeroMeansDelivered(cfg, s) <==> NoneCompletesBehindTorn(h)))
  {
    StartIsInv(cfg, fd);
    RunsKeepInv(cfg, Start(fd), steps);
    hide Inv, Runs, Delivered, ZeroMeansDelivered, HistoryAcceptable;
    hide NoneCompletesBehindTorn, TearsAtMostOnce, RightBehindTorn;
    var s := Runs(cfg, Start(fd), steps);
    if HistoryAcceptable(cfg, s.history) {
      WorthOfZero(cfg, s);
    }
  }

  lemma WorthOfZero(cfg: Config, s: System)
    requires Inv(cfg, s) && HistoryAcceptable(cfg, s.history)
    ensures var h := s.history;
      && (NoneCompletesBehindTorn(h) ==> ZeroMeansDelivered(cfg, s))
      && (forall k | 0 <= k < |h| && RightBehindTorn(h, k) && h[k].ret == 0 :: !Delivered(cfg, s, k))
      && (TearsAtMostOnce(h) ==> (ZeroMeansDelivered(cfg, s) <==> NoneCompletesBehindTorn(h)))
  {
    hide Parse, EncodeAll, Encode, Pieces, Completed, FirstTorn, Delivered, BetweenFrames, Acceptable;
    hide PiecesOnWire, Follows;
    var h, i := s.history, FirstTorn(s.history);
    forall k | 0 <= k < i && h[k].ret == 0
      ensures Delivered(cfg, s, k)
    {
      assert h[k] in h;
      BetweenBeforeTorn(cfg, h, k);
      DeliveredIffBetween(cfg, s, k);
    }
    forall k | 0 <= k < |h| && RightBehindTorn(h, k) && h[k].ret == 0
      ensures !Delivered(cfg, s, k)
    {
      assert h[k] in h;
      NotBetweenAfterTorn(cfg, h, k);
      DeliveredIffBetween(cfg, s, k);
    }
    if TearsAtMostOnce(h) && !NoneCompletesBehindTorn(h) {
      var k := FirstZero(h, i + 1);
      assert forall j | i < j < k :: h[j].ret != 0 && !Tore(h[j]);
      assert RightBehindTorn(h, k) && !Delivered(cfg, s, k);
    }
  }

  // The first completed send from i on.
  function FirstZero(h: seq<Finished>, i: nat): (k: nat)
    requires exists k :: i <= k < |h| && h[k].ret == 0
    ensures i <= k < |h| && h[k].ret == 0
    ensures forall j | i <= j < k :: h[j].ret != 0
    decreases |h| - i
  {
    if h[i].ret == 0 then i else FirstZero(h, i + 1)
  }

  // ---------- what a caller can conclude ----------

  // All a caller learns of a send: `written` is not part of it.
  datatype Report = Report(msg: Msg, ret: int)

  function Reports(history: seq<Finished>): seq<Report> {
    seq(|history|, i requires 0 <= i < |history| => Report(history[i].msg, history[i].ret))
  }

  ghost predicate NoZeroAfterFailure(v: seq<Report>) {
    forall i, j | 0 <= i < j < |v| && v[i].ret != 0 :: v[j].ret != 0
  }

  // The attempts of a send that ends like this.
  function Attempts(f: Finished): seq<Step> {
    var header := if f.written < HDR_LEN then f.written else HDR_LEN;
    var body := f.written - header;
    (if header > 0 then [TrySend(0, Accepted(header, 0), 0)] else [])
    + ((if body > 0 then [TrySend(0, Accepted(body, 0), 0)] else [])
       + (if f.ret != 0 then [TrySend(0, Error, 0)] else []))
  }

  function OneSend(f: Finished): seq<Step> {
    [Call(0, f.msg)] + ([Acquire(0, 0)] + Attempts(f))
  }

  // Sends by one thread, one after the other.
  function Transcript(h: seq<Finished>): seq<Step> {
    if h == [] then [] else Transcript(h[..|h| - 1]) + OneSend(h[|h| - 1])
  }

  predicate TellsAll(f: Finished) {
    f.ret == (if f.written == FrameLen(f.msg) then 0 else -1) && f.written <= FrameLen(f.msg)
  }

  // The value is sent as far as that, and then the send ends.
  lemma BodyRuns(cfg: Config, s: System, f: Finished)
    requires TellsAll(f) && f.written >= HDR_LEN && BodyLen(f.msg) > 0
    requires PcOf(s, 0) == InSend(f.msg, InValue, 0, 0)
    ensures var n := f.written - HDR_LEN;
      var s' := Runs(cfg, s, (if n > 0 then [TrySend(0, Accepted(n, 0), 0)] else [])
                             + (if f.ret != 0 then [TrySend(0, Error, 0)] else []));
      && PcOf(s', 0).Idle? && s'.lock.Free? && s'.reader == s.reader
      && s'.history == s.history + [f]
  {
    hide Runs, Header;
    var n, fail := f.written - HDR_LEN, TrySend(0, Error, 0);
    var rest := if f.ret != 0 then [fail] else [];
    if n == 0 {
      assert [] + rest == [fail] + [];
      RunsOne(cfg, s, fail, []);
      RunsNone(cfg, Next(cfg, s, fail));
    } else {
      var try := TrySend(0, Accepted(n, 0), 0);
      RunsOne(cfg, s, try, rest);
      var s1 := Next(cfg, s, try);
      if f.ret != 0 {
        assert [fail] == [fail] + [];
        RunsOne(cfg, s1, fail, []);
        RunsNone(cfg, Next(cfg, s1, fail));
      } else {
        RunsNone(cfg, s1);
      }
    }
  }

  lemma AttemptsRun(cfg: Config, s: System, f: Finished)
    requires TellsAll(f) && PcOf(s, 0) == InSend(f.msg, InHeader, 0, 0)
    ensures var s' := Runs(cfg, s, Attempts(f));
      && PcOf(s', 0).Idle? && s'.lock.Free? && s'.reader == s.reader
      && s'.history == s.history + [f]
  {
    hide Runs, Header;
    var fail := TrySend(0, Error, 0);
    if f.written == 0 {
      assert Attempts(f) == [fail] + [];
      RunsOne(cfg, s, fail, []);
      RunsNone(cfg, Next(cfg, s, fail));
    } else if f.written < HDR_LEN {
      var try := TrySend(0, Accepted(f.written, 0), 0);
      assert Attempts(f) == [try] + [fail] && [fail] == [fail] + [];
      RunsOne(cfg, s, try, [fail]);
      var s1 := Next(cfg, s, try);
      RunsOne(cfg, s1, fail, []);
      RunsNone(cfg, Next(cfg, s1, fail));
    } else {
      var try := TrySend(0, Accepted(HDR_LEN, 0), 0);
      var s1 := Next(cfg, s, try);
      RunsOne(cfg, s, try, Attempts(f)[1..]);
      assert Attempts(f) == [try] + Attempts(f)[1..];
      if BodyLen(f.msg) > 0 {
        BodyRuns(cfg, s1, f);
      } else {
        assert Attempts(f)[1..] == [];
        RunsNone(cfg, s1);
      }
    }
  }

  lemma OneSendRuns(cfg: Config, s: System, f: Finished)
    requires TellsAll(f) && PcOf(s, 0).Idle? && s.lock.Free?
    ensures var s' := Runs(cfg, s, OneSend(f));
      && PcOf(s', 0).Idle? && s'.lock.Free? && s'.reader == s.reader
      && s'.history == s.history + [f]
  {
    hide Runs, Attempts;
    var s1 := Next(cfg, s, Call(0, f.msg));
    var s2 := Next(cfg, s1, Acquire(0, 0));
    RunsOne(cfg, s, Call(0, f.msg), [Acquire(0, 0)] + Attempts(f));
    RunsOne(cfg, s1, Acquire(0, 0), Attempts(f));
    AttemptsRun(cfg, s2, f);
  }

  /** The invariant on results is exact: every history in which each send tells the truth can happen. */
  lemma {:induction false} EveryHistoryIsReachable(cfg: Config, fd: nat, h: seq<Finished>)
    requires forall f | f in h :: TellsAll(f)
    ensures var s := Runs(cfg, Start(fd), Transcript(h));
      PcOf(s, 0).Idle? && s.lock.Free? && s.reader == Start(fd).reader && s.history == h
    decreases |h|
  {
    hide Runs, OneSend, TellsAll;
    if h == [] {
      RunsNone(cfg, Start(fd));
    } else {
      var front, last := h[..|h| - 1], h[|h| - 1];
      EveryHistoryIsReachable(cfg, fd, front);
      RunsAppend(cfg, Start(fd), Transcript(front), OneSend(last));
      OneSendRuns(cfg, Runs(cfg, Start(fd), Transcript(front)), last);
      assert h == front + [last];
    }
  }

  /** What the callers of one channel can conclude from what their sends returned, which does not tell
      how much a failed send has written: the results of 0 are worth something, in every run in which
      the sends return that, if and only if none of them came after a failure. */
  lemma ZeroIsGuaranteedIffNoFailureBefore(cfg: Config, fd: nat, v: seq<Report>)
    requires forall r | r in v :: r.ret in {0, -1} && Acceptable(cfg, r.msg)
    ensures (forall steps | Reports(Runs(cfg, Start(fd), steps).history) == v ::
               ZeroMeansDelivered(cfg, Runs(cfg, Start(fd), steps)))
       <==> NoZeroAfterFailure(v)
  {
    hide Runs, ZeroMeansDelivered, FirstTorn, Acceptable, Delivered;
    if NoZeroAfterFailure(v) {
      forall steps | Reports(Runs(cfg, Start(fd), steps).history) == v
        ensures ZeroMeansDelivered(cfg, Runs(cfg, Start(fd), steps))
      {
        var h := Runs(cfg, Start(fd), steps).history;
        ReportsAcceptable(cfg, h, v);
        assert forall k | 0 <= k < |h| :: v[k].ret == h[k].ret;
        ZeroMeansDeliveredUnlessBehindTorn(cfg, fd, steps);
      }
    } else {
      var i, j :| 0 <= i < j < |v| && v[i].ret != 0 && v[j].ret == 0;
      var k := ZeroBehindFailure(v, i, j);
      NotGuaranteed(cfg, fd, v, k);
    }
  }

  lemma ReportsAcceptable(cfg: Config, h: seq<Finished>, v: seq<Report>)
    requires Reports(h) == v && forall r | r in v :: Acceptable(cfg, r.msg)
    ensures HistoryAcceptable(cfg, h)
  {
    hide Acceptable;
    forall f | f in h
      ensures Acceptable(cfg, f.msg)
    {
      var k :| 0 <= k < |h| && h[k] == f;
      assert v[k] in v;
    }
  }

  // Somewhere a result of 0 comes right behind a failure.
  lemma {:induction false} ZeroBehindFailure(v: seq<Report>, i: nat, j: nat) returns (k: nat)
    requires i < j < |v| && v[i].ret != 0 && v[j].ret == 0
    ensures 0 < k < |v| && v[k - 1].ret != 0 && v[k].ret == 0
    decreases j
  {
    if v[j - 1].ret != 0 {
      k := j;
    } else {
      k := ZeroBehindFailure(v, i, j - 1);
    }
  }

  // The history with these reports in which only send number `torn` tears its frame, after a byte.
  function TornAt(v: seq<Report>, torn: int): (h: seq<Finished>)
    ensures |h| == |v|
    ensures forall k | 0 <= k < |v| ::
              h[k] == Finished(v[k].msg, v[k].ret,
                if v[k].ret == 0 then FrameLen(v[k].msg) else if k == torn then 1 else 0)
  {
    seq(|v|, k requires 0 <= k < |v| => Finished(v[k].msg, v[k].ret,
      if v[k].ret == 0 then FrameLen(v[k].msg) else if k == torn then 1 else 0))
  }

  lemma NotGuaranteed(cfg: Config, fd: nat, v: seq<Report>, k: nat)
    requires forall r | r in v :: r.ret in {0, -1} && Acceptable(cfg, r.msg)
    requires 0 < k < |v| && v[k - 1].ret != 0 && v[k].ret == 0
    ensures var s := Runs(cfg, Start(fd), Transcript(TornAt(v, k - 1)));
      Reports(s.history) == v && !ZeroMeansDelivered(cfg, s)
  {
    hide Runs, FirstTorn, Acceptable, Delivered, TornAt, Transcript;
    var h := TornAt(v, k - 1);
    forall f | f in h
      ensures TellsAll(f)
    {
      var i :| 0 <= i < |h| && h[i] == f;
      assert v[i] in v;
    }
    EveryHistoryIsReachable(cfg, fd, h);
    var s := Runs(cfg, Start(fd), Transcript(h));
    assert Reports(h) == v;
    ReportsAcceptable(cfg, h, v);
    assert Tore(h[k - 1]);
    assert FirstTorn(h) == k - 1;
    ZeroMeansDeliveredUnlessBehindTorn(cfg, fd, Transcript(h));
    assert !Delivered(cfg, s, k);
  }

  /** Two torn frames can by chance make a whole one: the first lacks its last byte, and the second stops
      after a byte. The receiver takes a message that nobody sent, is between frames again, and a send
      that starts there is delivered behind torn frames. */
  lemma TornTwiceCanBeWhole(cfg: Config, fd: nat, m1: Msg, m2: Msg, m3: Msg)
    requires m1.value != [] && Acceptable(cfg, m1) && Acceptable(cfg, m2) && Acceptable(cfg, m3)
    requires Acceptable(cfg, Mended(cfg, m1, m2))
    ensures var h := [Finished(m1, -1, FrameLen(m1) - 1), Finished(m2, -1, 1), Finished(m3, 0, FrameLen(m3))];
      var s := Runs(cfg, Start(fd), Transcript(h));
      s.history == h && Torn(s) && Delivered(cfg, s, 2)
  {
    hide Runs, Acceptable, Transcript, Delivered, FirstTorn, Pieces, BetweenFrames, Inv, Encode;
    var h := [Finished(m1, -1, FrameLen(m1) - 1), Finished(m2, -1, 1), Finished(m3, 0, FrameLen(m3))];
    EveryHistoryIsReachable(cfg, fd, h);
    StartIsInv(cfg, fd);
    RunsKeepInv(cfg, Start(fd), Transcript(h));
    var s := Runs(cfg, Start(fd), Transcript(h));
    assert Tore(h[0]);
    DeliveredIffBetween(cfg, s, 2);
    TwoPiecesMeet(cfg, m1, m2);
    assert h[..2] == [h[0]] + [h[1]];
  }

  lemma TwoPiecesMeet(cfg: Config, m1: Msg, m2: Msg)
    requires m1.value != [] && Acceptable(cfg, m1) && Acceptable(cfg, Mended(cfg, m1, m2))
    ensures BetweenFrames(cfg,
              Pieces(cfg.magic, [Finished(m1, -1, FrameLen(m1) - 1)] + [Finished(m2, -1, 1)]))
  {
    hide Parse, Encode, HeadOf, Pieces;
    var f1, f2, whole := Finished(m1, -1, FrameLen(m1) - 1), Finished(m2, -1, 1), Mended(cfg, m1, m2);
    MendedIsEncoded(cfg, m1, m2);
    TwoPieces(cfg.magic, f1, f2);
    EncodeAllOne(cfg.magic, whole);
    EmptyIsIncomplete(cfg);
    ParseThenIncomplete(cfg, [whole], []);
    assert Encode(cfg.magic, whole) + [] == Encode(cfg.magic, whole);
  }

  // The first message with its last byte replaced by the first byte of a frame of the second.
  function Mended(cfg: Config, m1: Msg, m2: Msg): Msg
    requires m1.value != []
  {
    Msg(m1.tag, m1.value[..|m1.value| - 1] + Encode(cfg.magic, m2)[..1])
  }

  lemma MendedIsEncoded(cfg: Config, m1: Msg, m2: Msg)
    requires m1.value != [] && Fits(|m1.value|)
    ensures Encode(cfg.magic, m1)[..FrameLen(m1) - 1] + Encode(cfg.magic, m2)[..1]
         == Encode(cfg.magic, Mended(cfg, m1, m2))
  {
    var m := Mended(cfg, m1, m2);
    assert |m.value| == |m1.value|;
    assert m.value[..BodyLen(m)] == m.value && m1.value[..BodyLen(m1)] == m1.value;
    assert Encode(cfg.magic, m1)[..FrameLen(m1) - 1]
        == Header(cfg.magic, m1.tag, |m1.value|) + m1.value[..|m1.value| - 1];
  }

  /** After a send that failed halfway, the socket stays in use and the receiver can dispatch a
      message that nobody sent: the frame of the next send is swallowed as the missing value. */
  lemma TornFrameSwallowsNext(cfg: Config, fd: nat, m1: Msg, m2: Msg)
    requires |m1.value| == HDR_LEN && m2.value == [] && Acceptable(cfg, m1) && Acceptable(cfg, m2)
    requires m1.tag in cfg.ops && cfg.parses(m1.tag, Encode(cfg.magic, m2))
    requires Encode(cfg.magic, m2) != m1.value
    ensures var h := [Finished(m1, -1, HDR_LEN), Finished(m2, 0, HDR_LEN)];
      var s := Runs(cfg, Start(fd), Transcript(h) + [Read(2 * HDR_LEN)]);
      && s.acquired == [m1, m2]
      && s.history == h
      && s.reader.chan.log == [Msg(m1.tag, Encode(cfg.magic, m2))]
      && Msg(m1.tag, Encode(cfg.magic, m2)) !in s.acquired
  {
    hide Runs, Parse, Header, Transcript;
    var h, read := [Finished(m1, -1, HDR_LEN), Finished(m2, 0, HDR_LEN)], Read(2 * HDR_LEN);
    EveryHistoryIsReachable(cfg, fd, h);
    StartIsInv(cfg, fd);
    RunsKeepInv(cfg, Start(fd), Transcript(h));
    var s := Runs(cfg, Start(fd), Transcript(h));
    var swallowed := Msg(m1.tag, Encode(cfg.magic, m2));
    assert s.acquired == Messages(h) + [] == [m1, m2];
    assert s.wire == Encode(cfg.magic, swallowed) by { SwallowedWire(cfg, s, m1, m2); }
    RunsAppend(cfg, Start(fd), Transcript(h), [read]);
    assert [read] + [] == [read];
    RunsOne(cfg, s, read, []);
    RunsNone(cfg, Next(cfg, s, read));
    ReadsSwallowed(cfg, s, swallowed);
  }

  lemma SwallowedWire(cfg: Config, s: System, m1: Msg, m2: Msg)
    requires PiecesOnWire(cfg, s) && s.lock.Free?
    requires |m1.value| == HDR_LEN && m2.value == []
    requires s.history == [Finished(m1, -1, HDR_LEN), Finished(m2, 0, HDR_LEN)]
    ensures s.wire == Encode(cfg.magic, Msg(m1.tag, Encode(cfg.magic, m2)))
  {
    hide Encode, Header, Pieces, Completed, Messages;
    var f1, f2, e := s.history[0], s.history[1], Encode(cfg.magic, m2);
    assert s.history == [f1] + [f2];
    assert s.wire == Pieces(cfg.magic, s.history) + [] == Pieces(cfg.magic, s.history);
    TwoPieces(cfg.magic, f1, f2);
    TwelveBytes(cfg.magic, m1);
    TwelveBytes(cfg.magic, Msg(m1.tag, e));
    assert e[..HDR_LEN] == e;
  }

  // What two sends leave on the wire.
  lemma TwoPieces(magic: u32, f1: Finished, f2: Finished)
    ensures Pieces(magic, [f1] + [f2]) == Piece(magic, f1) + Piece(magic, f2)
  {
    hide Encode, Completed, Messages;
    FinishedLast(magic, [], f1);
    FinishedLast(magic, [f1], f2);
    assert [] + [f1] == [f1];
    assert Pieces(magic, []) == [];
  }

  lemma TwelveBytes(magic: u32, m: Msg)
    requires |m.value| == HDR_LEN
    ensures Encode(magic, m) == Header(magic, m.tag, HDR_LEN) + m.value
    ensures Encode(magic, m)[..HDR_LEN] == Header(magic, m.tag, HDR_LEN)
  {
    hide Header;
    assert m.value[..HDR_LEN] == m.value;
  }

  lemma ReadsSwallowed(cfg: Config, s: System, m: Msg)
    requires Acceptable(cfg, m) && m.tag in cfg.ops && |m.value| == HDR_LEN
    requires s.wire == Encode(cfg.magic, m)
    requires s.reader.chan.socket >= 0 && s.reader == Reader(Chan(s.reader.chan.socket, [], []), 0, false)
    ensures Next(cfg, s, Read(2 * HDR_LEN)).reader.chan.log == [m]
  {
    hide Encode, Parse;
    var c := s.reader.chan;
    assert s.wire[0..2 * HDR_LEN] == s.wire && [] + s.wire == s.wire;
    assert Taken(c, Data(s.wire)) == s.wire;
    assert EncodeAll(cfg.magic, [m]) == s.wire by { EncodeAllOne(cfg.magic, m); }
    assert s.wire + [] == s.wire;
    ParseThenIncomplete(cfg, [m], []);
    assert Dispatched(cfg.ops, [m]) == [m] + Dispatched(cfg.ops, [m][1..]) == [m];
    var (c', ret) := AfterRecv(cfg, c, Data(s.wire));
    assert c'.log == [] + [m] == [m];
    assert ReadStream(cfg, Reader(c', |s.wire|, ret < 0), s.wire, [2 * HDR_LEN][1..]).chan == c';
  }
}
