/** The wire format as a pure parser of a whole byte stream, and what it promises.
    It is the specification that the receive buffer of src/gep_channel.cc is proved against. */
module Framing {
  import opened Bytes
  import opened Protocol

  datatype Msg = Msg(tag: u32, value: seq<byte>)

  datatype Reason = BadMagic | TooLong | BadBody

  // What the front of a stream is: not yet a frame, never a frame, or one whole frame.
  datatype Head = Incomplete | Bad(why: Reason) | Whole(msg: Msg)

  datatype Verdict = Waiting | Rejected(why: Reason)

  // Frames taken off the stream in order, what stays in the buffer, and how the scan ended.
  datatype Parsed = Parsed(frames: seq<Msg>, rest: seq<byte>, verdict: Verdict) {
    function After(before: seq<Msg>): Parsed {
      Parsed(before + frames, rest, verdict)
    }
  }

  // The guard on the value length is strict, so the largest frame has MAX_MSG_LEN - 1 bytes.
  predicate Fits(valueLen: nat) {
    valueLen < MAX_MSG_LEN - HDR_LEN
  }

  function HeadOf(cfg: Config, s: seq<byte>): Head {
    if |s| < HDR_LEN then Incomplete else
    var h := Scan(cfg.magic, s);
    if !h.valid then Bad(BadMagic)
    else if !Fits(h.valueLen) then Bad(TooLong)
    else if |s| < HDR_LEN + h.valueLen then Incomplete
    else
      var value := s[HDR_LEN..HDR_LEN + h.valueLen];
      if h.tag in cfg.ops && !cfg.parses(h.tag, value) then Bad(BadBody)
      else Whole(Msg(h.tag, value))
  }

  function Parse(cfg: Config, s: seq<byte>): Parsed
    decreases |s|
  {
    match HeadOf(cfg, s)
    case Incomplete => Parsed([], s, Waiting)
    case Bad(why) => Parsed([], if why == BadBody then s else [], Rejected(why))
    case Whole(m) => Parse(cfg, s[HDR_LEN + |m.value|..]).After([m])
  }

  // A frame with a tag that has no callback is dropped; all others reach their callback.
  function Dispatched(ops: set<u32>, frames: seq<Msg>): seq<Msg> {
    if frames == [] then []
    else (if frames[0].tag in ops then [frames[0]] else []) + Dispatched(ops, frames[1..])
  }

  // The receiver takes m: its size passes the guard, and its body parses if it has a callback.
  predicate Acceptable(cfg: Config, m: Msg) {
    Fits(|m.value|) && (m.tag in cfg.ops ==> cfg.parses(m.tag, m.value))
  }

  ghost predicate AllAcceptable(cfg: Config, ms: seq<Msg>) {
    forall m | m in ms :: Acceptable(cfg, m)
  }

  // `int value_len = s.length()` keeps the low 32 bits of the length, read as signed.
  function ValueLen(m: Msg): int {
    var low := |m.value| % 0x1_0000_0000;
    if low < 0x8000_0000 then low else low - 0x1_0000_0000
  }

  // How many bytes of the value SendTLV sends after the header.
  function BodyLen(m: Msg): (n: nat)
    ensures n <= |m.value|
    ensures |m.value| < 0x8000_0000 ==> n == |m.value|
  {
    if ValueLen(m) <= 0 then 0 else ValueLen(m)
  }

  function FrameLen(m: Msg): nat {
    HDR_LEN + BodyLen(m)
  }

  // The bytes a completed SendTLV puts on the wire, whatever the size of the message.
  function Encode(magic: u32, m: Msg): (s: seq<byte>)
    ensures |s| == FrameLen(m)
  {
    Header(magic, m.tag, |m.value| % 0x1_0000_0000) + m.value[..BodyLen(m)]
  }

  function EncodeAll(magic: u32, ms: seq<Msg>): seq<byte> {
    if ms == [] then [] else Encode(magic, ms[0]) + EncodeAll(magic, ms[1..])
  }

  // ---------- one frame ----------

  lemma HeadOfEncoded(cfg: Config, m: Msg, post: seq<byte>)
    requires Fits(|m.value|)
    ensures HeadOf(cfg, Encode(cfg.magic, m) + post)
         == if Acceptable(cfg, m) then Whole(m) else Bad(BadBody)
  {
    var s := Encode(cfg.magic, m) + post;
    assert s == Header(cfg.magic, m.tag, |m.value|) + (m.value + post);
    ScanPrinted(cfg.magic, m.tag, |m.value|, m.value + post);
    assert s[HDR_LEN..FrameLen(m)] == m.value;
  }

  // No strict prefix of a frame is mistaken for anything.
  lemma HeadOfCut(cfg: Config, m: Msg, n: nat)
    requires Fits(|m.value|) && n < FrameLen(m)
    ensures HeadOf(cfg, Encode(cfg.magic, m)[..n]) == Incomplete
  {
    if n >= HDR_LEN {
      var s := Encode(cfg.magic, m)[..n];
      assert s == Header(cfg.magic, m.tag, |m.value|) + m.value[..n - HDR_LEN];
      ScanPrinted(cfg.magic, m.tag, |m.value|, m.value[..n - HDR_LEN]);
    }
  }

  // The converse of HeadOfEncoded: a frame taken off the stream is the encoding of its message.
  lemma WholeIsEncoded(cfg: Config, s: seq<byte>)
    requires HeadOf(cfg, s).Whole?
    ensures var m := HeadOf(cfg, s).msg;
      Acceptable(cfg, m) && Encode(cfg.magic, m) <= s
  {
    PrintScanned(cfg.magic, s);
    var m := HeadOf(cfg, s).msg;
    assert s[..FrameLen(m)] == s[..HDR_LEN] + s[HDR_LEN..FrameLen(m)];
  }

  lemma ScanOfPrefix(magic: u32, s: seq<byte>, whole: seq<byte>)
    requires |s| >= HDR_LEN && s <= whole
    ensures Scan(magic, whole) == Scan(magic, s)
  {
    assert whole[0..4] == s[0..4] && whole[4..8] == s[4..8] && whole[8..12] == s[8..12];
  }

  // Once the head of a stream is decided, bytes that arrive later do not change it.
  lemma HeadIsStable(cfg: Config, s: seq<byte>, t: seq<byte>)
    requires HeadOf(cfg, s) != Incomplete
    ensures HeadOf(cfg, s + t) == HeadOf(cfg, s)
  {
    ScanOfPrefix(cfg.magic, s, s + t);
    var n := HDR_LEN + Scan(cfg.magic, s).valueLen;
    if n <= |s| {
      assert (s + t)[HDR_LEN..n] == s[HDR_LEN..n];
    }
  }

  // ---------- whole streams ----------

  /** Parsing a stream in two parts gives what parsing it at once gives. */
  lemma {:induction false} ParseAppend(cfg: Config, s: seq<byte>, t: seq<byte>)
    ensures var p, q := Parse(cfg, s), Parse(cfg, s + t);
      && (p.verdict.Waiting? ==> q == Parse(cfg, p.rest + t).After(p.frames))
      && (p.verdict.Rejected? ==> q.frames == p.frames && q.verdict == p.verdict)
    decreases |s|
  {
    var head := HeadOf(cfg, s);
    match head
    case Incomplete =>
      AfterNothing(Parse(cfg, s + t));
    case Bad(_) =>
      HeadIsStable(cfg, s, t);
    case Whole(m) =>
      HeadIsStable(cfg, s, t);
      var n := HDR_LEN + |m.value|;
      assert (s + t)[n..] == s[n..] + t;
      ParseAppend(cfg, s[n..], t);
      var p := Parse(cfg, s[n..]);
      AfterAfter(Parse(cfg, p.rest + t), [m], p.frames);
  }

  lemma AfterNothing(p: Parsed)
    ensures p.After([]) == p
  {
    assert [] + p.frames == p.frames;
  }

  lemma AfterAfter(p: Parsed, a: seq<Msg>, b: seq<Msg>)
    ensures p.After(b).After(a) == p.After(a + b)
  {
    assert a + (b + p.frames) == a + b + p.frames;
  }

  // Taking one frame off a stream leaves the encoding of the others where it was.
  lemma EncodeAllCons(magic: u32, m: Msg, fs: seq<Msg>, s: seq<byte>)
    requires Encode(magic, m) <= s
    requires EncodeAll(magic, fs) <= s[FrameLen(m)..]
    ensures EncodeAll(magic, [m] + fs) <= s
    ensures s[|EncodeAll(magic, [m] + fs)|..] == s[FrameLen(m)..][|EncodeAll(magic, fs)|..]
  {
    var f, e, t := Encode(magic, m), EncodeAll(magic, fs), s[FrameLen(m)..];
    assert ([m] + fs)[0] == m && ([m] + fs)[1..] == fs;
    assert EncodeAll(magic, [m] + fs) == f + e;
    hide Encode, EncodeAll;
    assert s == f + t && t == e + t[|e|..];
    Regroup(f, e, t[|e|..]);
  }

  /** Conservation: the stream is the encoding of the frames taken, followed by a tail that
      starts no acceptable frame; the verdict says what that tail is and whether it stays behind. */
  lemma {:induction false} ParseConserves(cfg: Config, s: seq<byte>)
    ensures var p := Parse(cfg, s);
      && AllAcceptable(cfg, p.frames)
      && EncodeAll(cfg.magic, p.frames) <= s
      && var tail := s[|EncodeAll(cfg.magic, p.frames)|..];
      && (p.verdict.Waiting? ==> HeadOf(cfg, tail) == Incomplete && p.rest == tail)
      && (p.verdict.Rejected? ==>
            && HeadOf(cfg, tail) == Bad(p.verdict.why)
            && p.rest == if p.verdict.why == BadBody then tail else [])
    decreases |s|
  {
    match HeadOf(cfg, s)
    case Whole(m) =>
      WholeIsEncoded(cfg, s);
      var p := Parse(cfg, s[FrameLen(m)..]);
      ParseConserves(cfg, s[FrameLen(m)..]);
      EncodeAllCons(cfg.magic, m, p.frames, s);
    case _ =>
      assert s[0..] == s;
  }

  lemma ParseWhole(cfg: Config, m: Msg, t: seq<byte>)
    requires Acceptable(cfg, m)
    ensures Parse(cfg, Encode(cfg.magic, m) + t) == Parse(cfg, t).After([m])
  {
    HeadOfEncoded(cfg, m, t);
    assert (Encode(cfg.magic, m) + t)[FrameLen(m)..] == t;
  }

  lemma PrependFrame(cfg: Config, m: Msg, ms: seq<Msg>, tail: seq<byte>, p: Parsed)
    requires Acceptable(cfg, m)
    requires Parse(cfg, EncodeAll(cfg.magic, ms) + tail) == p
    ensures Parse(cfg, EncodeAll(cfg.magic, [m] + ms) + tail) == p.After([m])
  {
    hide Parse, HeadOf, Encode;
    var e, f := EncodeAll(cfg.magic, ms), Encode(cfg.magic, m);
    assert EncodeAll(cfg.magic, [m] + ms) == f + e by {
      assert ([m] + ms)[1..] == ms;
    }
    assert (f + e) + tail == f + (e + tail);
    ParseWhole(cfg, m, e + tail);
  }

  /** Unique decoding, the converse of ParseConserves: whenever a stream splits into acceptable
      frames and a tail, the parser finds those frames first and goes on with the tail. */
  lemma {:induction false} ParseUnique(cfg: Config, ms: seq<Msg>, tail: seq<byte>)
    requires AllAcceptable(cfg, ms)
    ensures Parse(cfg, EncodeAll(cfg.magic, ms) + tail) == Parse(cfg, tail).After(ms)
  {
    var p := Parse(cfg, tail);
    if ms == [] {
      assert EncodeAll(cfg.magic, ms) + tail == tail;
      AfterNothing(p);
    } else {
      assert ms[0] in ms && forall m | m in ms[1..] :: m in ms;
      ParseUnique(cfg, ms[1..], tail);
      PrependFrame(cfg, ms[0], ms[1..], tail, p.After(ms[1..]));
      AfterAfter(p, [ms[0]], ms[1..]);
      assert [ms[0]] + ms[1..] == ms;
    }
  }

  lemma {:induction false} EncodeAllAppend(magic: u32, a: seq<Msg>, b: seq<Msg>)
    ensures EncodeAll(magic, a + b) == EncodeAll(magic, a) + EncodeAll(magic, b)
  {
    if a == [] {
      assert a + b == b;
    } else {
      assert (a + b)[1..] == a[1..] + b;
      EncodeAllAppend(magic, a[1..], b);
    }
  }

  lemma {:induction false} DispatchedAppend(ops: set<u32>, a: seq<Msg>, b: seq<Msg>)
    ensures Dispatched(ops, a + b) == Dispatched(ops, a) + Dispatched(ops, b)
  {
    if a == [] {
      assert a + b == b;
    } else {
      assert (a + b)[0] == a[0] && (a + b)[1..] == a[1..] + b;
      DispatchedAppend(ops, a[1..], b);
      var first := if a[0].tag in ops then [a[0]] else [];
      assert Dispatched(ops, a) == first + Dispatched(ops, a[1..]);
      assert Dispatched(ops, a + b) == first + Dispatched(ops, a[1..] + b);
      hide Dispatched;
      Regroup(first, Dispatched(ops, a[1..]), Dispatched(ops, b));
    }
  }

  lemma Regroup<T>(a: seq<T>, b: seq<T>, c: seq<T>)
    ensures (a + b) + c == a + (b + c)
  {
  }

  // How many of the frames lie wholly within the first k bytes of their encoding.
  function WholeFrames(magic: u32, ms: seq<Msg>, k: nat): (j: nat)
    ensures j <= |ms|
    ensures |EncodeAll(magic, ms[..j])| <= k
    ensures j < |ms| ==> k < |EncodeAll(magic, ms[..j + 1])|
  {
    if ms == [] || k < FrameLen(ms[0]) then
      assert ms != [] ==> EncodeAll(magic, ms[..1]) == Encode(magic, ms[0]) + EncodeAll(magic, ms[..1][1..]);
      0
    else
      var j := 1 + WholeFrames(magic, ms[1..], k - FrameLen(ms[0]));
      assert ms[..j][1..] == ms[1..][..j - 1];
      assert j < |ms| ==> ms[..j + 1][1..] == ms[1..][..j];
      j
  }

  lemma ParseThenIncomplete(cfg: Config, ms: seq<Msg>, tail: seq<byte>)
    requires AllAcceptable(cfg, ms) && HeadOf(cfg, tail) == Incomplete
    ensures Parse(cfg, EncodeAll(cfg.magic, ms) + tail) == Parsed(ms, tail, Waiting)
  {
    ParseUnique(cfg, ms, tail);
    assert ms + [] == ms;
  }

  lemma EncodeAllOne(magic: u32, m: Msg)
    ensures EncodeAll(magic, [m]) == Encode(magic, m)
  {
    assert EncodeAll(magic, [m]) == Encode(magic, m) + EncodeAll(magic, []);
  }

  lemma EncodeAllSplit(magic: u32, ms: seq<Msg>, j: nat)
    requires j < |ms|
    ensures var e := EncodeAll(magic, ms[..j]);
      EncodeAll(magic, ms[..j + 1]) == e + Encode(magic, ms[j]) <= EncodeAll(magic, ms)
  {
    EncodeAllOne(magic, ms[j]);
    assert ms[..j + 1] == ms[..j] + [ms[j]];
    EncodeAllAppend(magic, ms[..j], [ms[j]]);
    assert ms == ms[..j + 1] + ms[j + 1..];
    EncodeAllAppend(magic, ms[..j + 1], ms[j + 1..]);
  }

  // What is left of a cut stream after its first j frames, when the cut lies inside frame j.
  lemma CutInsideFrame(magic: u32, ms: seq<Msg>, j: nat, k: nat)
    requires j < |ms|
    requires |EncodeAll(magic, ms[..j])| <= k < |EncodeAll(magic, ms[..j + 1])|
    ensures k <= |EncodeAll(magic, ms)|
    ensures var e := EncodeAll(magic, ms[..j]);
      && k - |e| < FrameLen(ms[j])
      && EncodeAll(magic, ms)[..k] == e + Encode(magic, ms[j])[..k - |e|]
  {
    EncodeAllSplit(magic, ms, j);
    var e, f := EncodeAll(magic, ms[..j]), Encode(magic, ms[j]);
    assert EncodeAll(magic, ms)[..k] == (e + f)[..k] == e + f[..k - |e|];
  }

  lemma CutTail(cfg: Config, ms: seq<Msg>, k: nat) returns (tail: seq<byte>)
    requires AllAcceptable(cfg, ms) && k <= |EncodeAll(cfg.magic, ms)|
    ensures EncodeAll(cfg.magic, ms)[..k]
         == EncodeAll(cfg.magic, ms[..WholeFrames(cfg.magic, ms, k)]) + tail
    ensures HeadOf(cfg, tail) == Incomplete
  {
    var j := WholeFrames(cfg.magic, ms, k);
    if j < |ms| {
      assert ms[j] in ms;
      CutInsideFrame(cfg.magic, ms, j, k);
      var n := k - |EncodeAll(cfg.magic, ms[..j])|;
      HeadOfCut(cfg, ms[j], n);
      tail := Encode(cfg.magic, ms[j])[..n];
    } else {
      assert ms[..j] == ms;
      tail := [];
    }
  }

  /** Zero-or-one delivery under truncation: however a stream of valid frames is cut, exactly the
      frames wholly before the cut are taken, once and in order, and no error is reported. */
  lemma ParseTruncated(cfg: Config, ms: seq<Msg>, k: nat)
    requires AllAcceptable(cfg, ms) && k <= |EncodeAll(cfg.magic, ms)|
    ensures var p, j := Parse(cfg, EncodeAll(cfg.magic, ms)[..k]), WholeFrames(cfg.magic, ms, k);
      && p.frames == ms[..j]
      && p.verdict == Waiting
      && EncodeAll(cfg.magic, ms[..j]) + p.rest == EncodeAll(cfg.magic, ms)[..k]
  {
    var tail := CutTail(cfg, ms, k);
    var j := WholeFrames(cfg.magic, ms, k);
    assert forall m | m in ms[..j] :: m in ms;
    ParseThenIncomplete(cfg, ms[..j], tail);
  }

  /** What waits in the buffer never fills it, and always leaves room for the rest of its frame. */
  lemma {:induction false} RestLeavesRoom(cfg: Config, s: seq<byte>)
    requires Parse(cfg, s).verdict.Waiting?
    ensures var rest := Parse(cfg, s).rest;
      && |rest| <= MAX_MSG_LEN - 2
      && (|rest| >= HDR_LEN ==>
            var need := HDR_LEN + Scan(cfg.magic, rest).valueLen;
            |rest| < need <= MAX_MSG_LEN - 1)
  {
    hide Parse, Encode, EncodeAll;
    ParseConserves(cfg, s);
  }

  // The receiver of a stream, having read all of it, is between two frames.
  predicate BetweenFrames(cfg: Config, s: seq<byte>) {
    var p := Parse(cfg, s);
    p.verdict == Waiting && p.rest == []
  }

  // The parser takes the message from the bytes that start at the offset.
  ghost predicate TakenAt(cfg: Config, s: seq<byte>, offset: nat, m: Msg) {
    var fs := Parse(cfg, s).frames;
    exists j | 0 <= j < |fs| :: |EncodeAll(cfg.magic, fs[..j])| == offset && fs[j] == m
  }

  lemma ParseBetween(cfg: Config, s: seq<byte>)
    requires BetweenFrames(cfg, s)
    ensures s == EncodeAll(cfg.magic, Parse(cfg, s).frames)
  {
    hide Parse, Encode, EncodeAll;
    ParseConserves(cfg, s);
    var e := EncodeAll(cfg.magic, Parse(cfg, s).frames);
    assert s == e + s[|e|..];
  }

  /** A frame on the wire is taken where it was written, whatever comes after it, if and only if the
      receiver of what was written before it is between frames there. */
  lemma TakenIffBetweenFrames(cfg: Config, before: seq<byte>, m: Msg, after: seq<byte>)
    requires Acceptable(cfg, m)
    ensures TakenAt(cfg, before + Encode(cfg.magic, m) + after, |before|, m)
       <==> BetweenFrames(cfg, before)
  {
    hide BetweenFrames, TakenAt;
    if BetweenFrames(cfg, before) {
      BetweenIsTaken(cfg, before, m, after);
    }
    if TakenAt(cfg, before + Encode(cfg.magic, m) + after, |before|, m) {
      assert before + (Encode(cfg.magic, m) + after) == before + Encode(cfg.magic, m) + after;
      TakenIsBetween(cfg, before, Encode(cfg.magic, m) + after, m);
    }
  }

  lemma BetweenIsTaken(cfg: Config, before: seq<byte>, m: Msg, after: seq<byte>)
    requires Acceptable(cfg, m) && BetweenFrames(cfg, before)
    ensures TakenAt(cfg, before + Encode(cfg.magic, m) + after, |before|, m)
  {
    hide Parse, Encode, EncodeAll, HeadOf, Acceptable;
    var f, ms := Encode(cfg.magic, m), Parse(cfg, before).frames;
    var fs := Parse(cfg, before + f + after).frames;
    ParseBetween(cfg, before);
    ParseAppend(cfg, before, f + after);
    ParseWhole(cfg, m, after);
    assert before + (f + after) == before + f + after && [] + (f + after) == f + after;
    assert fs == ms + ([m] + Parse(cfg, after).frames);
    assert fs[..|ms|] == ms && fs[|ms|] == m;
  }

  lemma TakenIsBetween(cfg: Config, before: seq<byte>, after: seq<byte>, m: Msg)
    requires TakenAt(cfg, before + after, |before|, m)
    ensures BetweenFrames(cfg, before)
  {
    hide Parse, EncodeAll, HeadOf, Acceptable;
    var s := before + after;
    var fs := Parse(cfg, s).frames;
    var j :| 0 <= j < |fs| && |EncodeAll(cfg.magic, fs[..j])| == |before| && fs[j] == m;
    ParseConserves(cfg, s);
    EncodeAllAppend(cfg.magic, fs[..j], fs[j..]);
    assert fs == fs[..j] + fs[j..];
    var e := EncodeAll(cfg.magic, fs[..j]);
    assert e == s[..|e|] == before;
    EmptyIsIncomplete(cfg);
    ParseThenIncomplete(cfg, fs[..j], []);
    assert e + [] == before;
  }

  lemma EmptyIsIncomplete(cfg: Config)
    ensures HeadOf(cfg, []) == Incomplete
  {
  }

  // WholeFrames is the only number of frames with its two bounds.
  lemma WholeFramesIs(magic: u32, ms: seq<Msg>, k: nat, j: nat)
    requires j <= |ms| && |EncodeAll(magic, ms[..j])| <= k
    requires j < |ms| ==> k < |EncodeAll(magic, ms[..j + 1])|
    ensures WholeFrames(magic, ms, k) == j
  {
    hide EncodeAll, WholeFrames;
    var w := WholeFrames(magic, ms, k);
    if w < j {
      assert ms[..j] == ms[..w + 1] + ms[w + 1..j];
      EncodeAllAppend(magic, ms[..w + 1], ms[w + 1..j]);
    } else if j < w {
      assert ms[..w] == ms[..j + 1] + ms[j + 1..w];
      EncodeAllAppend(magic, ms[..j + 1], ms[j + 1..w]);
    }
  }

  // What reaches the callbacks from fewer frames is a prefix of what reaches them from more.
  lemma DispatchedPrefix(ops: set<u32>, ms: seq<Msg>, j: nat)
    requires j <= |ms|
    ensures Dispatched(ops, ms[..j]) <= Dispatched(ops, ms)
  {
    hide Dispatched;
    assert ms == ms[..j] + ms[j..];
    DispatchedAppend(ops, ms[..j], ms[j..]);
  }

  // ---------- the limits in numbers ----------

  // The bytes of a frame, as the wire format has them.
  function Frame(magic: u32, tag: u32, value: seq<byte>): seq<byte>
    requires |value| < 0x1_0000_0000
  {
    Header(magic, tag, |value|) + value
  }

  /** A frame of up to 2^20 - 1 bytes in all is taken, whatever its tag, if that has no callback or
      the body parses. */
  lemma FrameIsTaken(cfg: Config, tag: u32, value: seq<byte>, post: seq<byte>)
    requires 12 + |value| <= 1_048_575
    requires tag !in cfg.ops || cfg.parses(tag, value)
    ensures Parse(cfg, Frame(cfg.magic, tag, value) + post) == Parse(cfg, post).After([Msg(tag, value)])
    ensures Parse(cfg, Frame(cfg.magic, tag, value)) == Parsed([Msg(tag, value)], [], Waiting)
  {
    var m, f := Msg(tag, value), Frame(cfg.magic, tag, value);
    assert value[..|value|] == value;
    assert Encode(cfg.magic, m) == f;
    ParseWhole(cfg, m, post);
    ParseWhole(cfg, m, []);
    assert f + [] == f && [m] + [] == [m];
  }

  /** A longer one is refused by its header alone; so the largest frame has 2^20 - 1 bytes. */
  lemma LongerIsRefused(cfg: Config, tag: u32, n: u32, post: seq<byte>)
    requires 12 + n >= 1_048_576
    ensures Parse(cfg, Header(cfg.magic, tag, n) + post) == Parsed([], [], Rejected(TooLong))
  {
    ScanPrinted(cfg.magic, tag, n, post);
  }

  /** Any other magic number is refused by the header alone. */
  lemma OtherMagicIsRefused(cfg: Config, magic: u32, tag: u32, n: u32, post: seq<byte>)
    requires magic != cfg.magic
    ensures Parse(cfg, Header(magic, tag, n) + post) == Parsed([], [], Rejected(BadMagic))
  {
    var s := Header(magic, tag, n) + post;
    ScanPrinted(magic, tag, n, post);
    assert Scan(magic, s).valid && !Scan(cfg.magic, s).valid;
  }

  /** A body that does not parse is refused, and stays in the buffer. */
  lemma UnparseableIsRefused(cfg: Config, tag: u32, value: seq<byte>, post: seq<byte>)
    requires 12 + |value| <= 1_048_575
    requires tag in cfg.ops && !cfg.parses(tag, value)
    ensures var s := Frame(cfg.magic, tag, value) + post;
      Parse(cfg, s) == Parsed([], s, Rejected(BadBody))
  {
    assert value[..|value|] == value;
    assert Encode(cfg.magic, Msg(tag, value)) == Frame(cfg.magic, tag, value);
    HeadOfEncoded(cfg, Msg(tag, value), post);
  }

  /** A frame reaches a callback exactly if its tag has one; if all have, all do. */
  lemma {:induction false} DispatchedExactly(ops: set<u32>, frames: seq<Msg>)
    ensures forall m :: m in Dispatched(ops, frames) <==> m in frames && m.tag in ops
    ensures (forall m | m in frames :: m.tag in ops) ==> Dispatched(ops, frames) == frames
    ensures (forall m | m in frames :: m.tag !in ops) ==> Dispatched(ops, frames) == []
  {
    if frames != [] {
      assert frames == [frames[0]] + frames[1..];
      DispatchedExactly(ops, frames[1..]);
    }
  }

  // ---------- messages of any size ----------

  /** SendTLV does not look at the size of what it sends. This is what the receiver makes of a
      completed send, for a value of any length: refused when the length field is too large, and
      cut short when the length does not fit the 32 bits of the field. */
  function Received(cfg: Config, m: Msg): Head {
    var low := |m.value| % 0x1_0000_0000;
    if !Fits(low) then Bad(TooLong)
    else if Acceptable(cfg, Msg(m.tag, m.value[..low])) then Whole(Msg(m.tag, m.value[..low]))
    else Bad(BadBody)
  }

  lemma HeadOfSent(cfg: Config, m: Msg, post: seq<byte>)
    ensures HeadOf(cfg, Encode(cfg.magic, m) + post) == Received(cfg, m)
  {
    var low := |m.value| % 0x1_0000_0000;
    var rest := m.value[..BodyLen(m)] + post;
    assert Encode(cfg.magic, m) + post == Header(cfg.magic, m.tag, low) + rest;
    ScanPrinted(cfg.magic, m.tag, low, rest);
    if Fits(low) {
      assert (Header(cfg.magic, m.tag, low) + rest)[HDR_LEN..HDR_LEN + low] == m.value[..low];
    }
  }

  /** A completed send is received as the message it sent if and only if that is acceptable. */
  lemma ReceivedIffAcceptable(cfg: Config, m: Msg)
    ensures Received(cfg, m) == Whole(m) <==> Acceptable(cfg, m)
  {
    if Fits(|m.value|) {
      assert m.value[..|m.value|] == m.value;
    }
  }
}
