/** SocketInterface::FullSend of src/socket_interface.cc and the clock of src/time_manager.cc. */
module FullSend {
  import opened Bytes

  type u64 = x: int | 0 <= x < 0x1_0000_0000_0000_0000
  type i64 = x: int | -0x8000_0000_0000_0000 <= x < 0x8000_0000_0000_0000
  type pos = n: nat | n > 0 witness 1

  const NSECS_PER_MSEC: int := 1_000_000

  function ToU64(x: int): u64 {
    x % 0x1_0000_0000_0000_0000
  }

  function ToI64(x: u64): i64 {
    if x < 0x8000_0000_0000_0000 then x else x - 0x1_0000_0000_0000_0000
  }

  // TimeManager::ms_elapse: unsigned, so both the product and the difference wrap around.
  function MsElapse(now: u64, startMs: u64): u64 {
    ToU64(now - startMs * NSECS_PER_MSEC) / NSECS_PER_MSEC
  }

  /** What the system does in one turn of the loop: the socket has room for some bytes, the peer has
      shut down, send fails, or send would block and select sleeps from `now` until `wake`. */
  datatype Attempt =
    | Accepted(room: pos, now: u64)
    | Shutdown
    | Error
    | Blocked(now: u64, num: int, wake: u64)

  datatype Turn = Continue(sent: nat) | Return(code: int, sent: nat)

  // `timeout_ms < ms_elapse()` compares as unsigned 64-bit values.
  predicate Late(timeoutMs: i64, elapsed: u64) {
    ToU64(timeoutMs) < elapsed
  }

  // `int64_t sleeptime_ms = timeout_ms - ms_elapse()`
  function SleepTime(timeoutMs: i64, elapsed: u64): i64 {
    ToI64(ToU64(timeoutMs - elapsed))
  }

  function OneTurn(sent: nat, size: nat, timeoutMs: i64, startMs: u64, a: Attempt): Turn
    requires sent < size
  {
    match a
    case Accepted(room, now) =>
      var total := if room < size - sent then sent + room else size;
      if total >= size then Return(total, total)
      else if Late(timeoutMs, MsElapse(now, startMs)) then Return(0, total)
      else Continue(total)
    case Shutdown => Return(-2, sent)
    case Error => Return(-1, sent)
    case Blocked(now, num, _) =>
      if SleepTime(timeoutMs, MsElapse(now, startMs)) < 0 || num == 0 then Return(0, sent)
      else Continue(sent)
  }

  // Where FullSend stands after the given turns: still in its loop, or returned.
  datatype Outcome = Running(sent: nat) | Done(code: int, sent: nat)

  function Run(sent: nat, size: nat, timeoutMs: i64, startMs: u64, env: seq<Attempt>): Outcome
    decreases |env|
  {
    if sent >= size then Done(sent, sent)
    else if env == [] then Running(sent)
    else
      match OneTurn(sent, size, timeoutMs, startMs, env[0])
      case Continue(sent') => Run(sent', size, timeoutMs, startMs, env[1..])
      case Return(code, sent') => Done(code, sent')
  }

  // On what is no descriptor, send fails at once, whatever the system would do.
  function OnFd(fd: int, env: seq<Attempt>): seq<Attempt> {
    if fd < 0 then [Error] else env
  }

  class SocketInterface {
    var wire: seq<byte>  // every byte the kernel has accepted on the current connection

    constructor ()
      ensures wire == []
    {
      wire := [];
    }

    // A new socket has been connected.
    method Connected()
      modifies this
      ensures wire == []
    {
      wire := [];
    }

    method Send(buf: seq<byte>, room: pos) returns (count: nat)
      requires buf != []
      modifies this
      ensures count == (if room < |buf| then room else |buf|)
      ensures wire == old(wire) + buf[..count]
    {
      count := if room < |buf| then room else |buf|;
      wire := wire + buf[..count];
    }

    /** The bytes accepted are exactly the first `out.sent` of the buffer: no gap, no repeat. */
    method FullSend(fd: int, buf: seq<byte>, timeoutMs: i64, started: u64, turns: seq<Attempt>)
      returns (out: Outcome)
      modifies this
      ensures out == Run(0, |buf|, timeoutMs, MsElapse(started, 0), OnFd(fd, turns))
      ensures out.sent <= |buf|
      ensures wire == old(wire) + buf[..out.sent]
    {
      var env := OnFd(fd, turns);
      var startedMs := MsElapse(started, 0);
      var totalSent: nat := 0;
      var turn: nat := 0;
      while totalSent < |buf| && turn < |env|
        invariant totalSent <= |buf| && turn <= |env|
        invariant Run(0, |buf|, timeoutMs, startedMs, env)
               == Run(totalSent, |buf|, timeoutMs, startedMs, env[turn..])
        invariant wire == old(wire) + buf[..totalSent]
        decreases |env| - turn
      {
        var a := env[turn];
        turn := turn + 1;
        match a {
          case Accepted(room, now) =>
            var count := Send(buf[totalSent..], room);
            totalSent := totalSent + count;
            if totalSent >= |buf| {
              break;
            }
            if Late(timeoutMs, MsElapse(now, startedMs)) {
              return Done(0, totalSent);
            }
          case Shutdown =>
            return Done(-2, totalSent);
          case Error =>
            return Done(-1, totalSent);
          case Blocked(now, num, _) =>
            var sleeptimeMs := SleepTime(timeoutMs, MsElapse(now, startedMs));
            if sleeptimeMs < 0 || num == 0 {
              return Done(0, totalSent);
            }
        }
      }
      out := if totalSent < |buf| then Running(totalSent) else Done(totalSent, totalSent);
    }
  }

  /** FullSend returns its size if and only if every byte was accepted; otherwise it returns
      0, -1 or -2 and strictly fewer bytes were accepted. */
  lemma {:induction false} ReturnsSizeIffAllSent(sent: nat, size: nat, timeoutMs: i64, startMs: u64,
                                                 env: seq<Attempt>)
    requires sent <= size && size > 0
    ensures var out := Run(sent, size, timeoutMs, startMs, env);
      && sent <= out.sent <= size
      && (out.Running? ==> out.sent < size)
      && (out.Done? ==> (out.code == size <==> out.sent == size))
      && (out.Done? && out.code != size ==> out.code in {0, -1, -2})
    decreases |env|
  {
    if sent < size && env != [] {
      var t := OneTurn(sent, size, timeoutMs, startMs, env[0]);
      if t.Continue? {
        ReturnsSizeIffAllSent(t.sent, size, timeoutMs, startMs, env[1..]);
      }
    }
  }

  // ---------- going on, succeeding and giving up ----------

  // How many bytes the socket has room for in all of the turns.
  function Rooms(env: seq<Attempt>): nat {
    if env == [] then 0 else (if env[0].Accepted? then env[0].room else 0) + Rooms(env[1..])
  }

  /** Nothing goes wrong: no shutdown, no error, select always finds the socket writable, and no clock
      reading is more than the timeout after the start, counted in ticks of a millisecond. */
  ghost predicate Smooth(start: u64, timeoutMs: i64, env: seq<Attempt>) {
    forall a | a in env ::
      match a
      case Accepted(_, now) => OnTime(start, timeoutMs, now)
      case Blocked(now, num, _) => num != 0 && OnTime(start, timeoutMs, now)
      case _ => false
  }

  predicate OnTime(start: u64, timeoutMs: i64, now: u64) {
    start <= now && now / NSECS_PER_MSEC - start / NSECS_PER_MSEC <= timeoutMs
  }

  /** If nothing goes wrong and there is room enough, all bytes are sent, however often the socket was
      full in between. */
  lemma {:induction false} SendsAll(sent: nat, size: nat, timeoutMs: i64, start: u64, env: seq<Attempt>)
    requires sent <= size <= sent + Rooms(env) && Smooth(start, timeoutMs, env)
    ensures Run(sent, size, timeoutMs, MsElapse(start, 0), env) == Done(size, size)
    decreases |env|
  {
    if sent < size {
      var a := env[0];
      assert a in env && forall b | b in env[1..] :: b in env;
      MsElapseExact(start, a.now);
      DeadlineTests(timeoutMs, a.now, MsElapse(start, 0));
      if a.Blocked? {
        SendsAll(sent, size, timeoutMs, start, env[1..]);
      } else if sent + a.room < size {
        SendsAll(sent + a.room, size, timeoutMs, start, env[1..]);
      }
    }
  }

  // The deadline test after a partial send, and the one after EAGAIN.
  predicate LateAfterSend(timeoutMs: i64, startMs: u64, now: u64) {
    0 <= timeoutMs < MsElapse(now, startMs)
  }

  predicate LateAfterFull(timeoutMs: i64, startMs: u64, now: u64) {
    MsElapse(now, startMs) - 0x8000_0000_0000_0000 <= timeoutMs < MsElapse(now, startMs)
  }

  /** What one more turn does to a FullSend that has not returned. It returns -2 exactly on a shutdown,
      -1 exactly on an error, 0 exactly on a deadline that has passed or a select that timed out, and
      its size exactly when there is room for the rest; and otherwise it goes on. */
  lemma {:induction false} OneMoreTurn(sent: nat, size: nat, timeoutMs: i64, startMs: u64,
                                       env: seq<Attempt>, x: Attempt)
    requires sent < size && Run(sent, size, timeoutMs, startMs, env).Running?
    ensures var n := Run(sent, size, timeoutMs, startMs, env).sent;
      var out := Run(sent, size, timeoutMs, startMs, env + [x]);
      && n < size
      && (out == Done(-2, n) <==> x.Shutdown?)
      && (out == Done(-1, n) <==> x.Error?)
      && (out == Done(size, size) <==> x.Accepted? && n + x.room >= size)
      && (out.Done? && out.code == 0 <==>
            || (x.Accepted? && n + x.room < size && LateAfterSend(timeoutMs, startMs, x.now))
            || (x.Blocked? && (x.num == 0 || LateAfterFull(timeoutMs, startMs, x.now))))
      && (out.Running? <==>
            || (x.Accepted? && n + x.room < size && !LateAfterSend(timeoutMs, startMs, x.now))
            || (x.Blocked? && x.num != 0 && !LateAfterFull(timeoutMs, startMs, x.now)))
      && out.sent == if !x.Accepted? then n else if n + x.room < size then n + x.room else size
    decreases |env|
  {
    if env == [] {
      assert env + [x] == [x] && [x][1..] == [];
      if x.Accepted? || x.Blocked? {
        DeadlineTests(timeoutMs, x.now, startMs);
      }
    } else {
      assert (env + [x])[0] == env[0] && (env + [x])[1..] == env[1..] + [x];
      OneMoreTurn(OneTurn(sent, size, timeoutMs, startMs, env[0]).sent, size, timeoutMs, startMs,
        env[1..], x);
    }
  }

  // ---------- the deadline ----------

  /** On a clock that does not run backwards the unsigned arithmetic is exact: the result is the
      difference of the two readings in whole milliseconds. */
  lemma MsElapseExact(start: u64, now: u64)
    requires start <= now
    ensures MsElapse(start, 0) == start / NSECS_PER_MSEC
    ensures MsElapse(now, MsElapse(start, 0)) == now / NSECS_PER_MSEC - start / NSECS_PER_MSEC
  {
    var ms := start / NSECS_PER_MSEC;
    assert 0 <= now - ms * NSECS_PER_MSEC < 0x1_0000_0000_0000_0000;
  }

  /** The two deadline tests read a negative timeout differently: after a partial send it counts as
      a huge unsigned limit and never expires, after EAGAIN it has always expired, except so close
      to the smallest integer that the subtraction wraps around. */
  lemma DeadlineTests(timeoutMs: i64, now: u64, startMs: u64)
    ensures var elapsed := MsElapse(now, startMs);
      && (Late(timeoutMs, elapsed) <==> 0 <= timeoutMs < elapsed)
      && (SleepTime(timeoutMs, elapsed) < 0 <==>
          elapsed - 0x8000_0000_0000_0000 <= timeoutMs < elapsed)
  {
    var elapsed := MsElapse(now, startMs);
    WrapOnce(timeoutMs);
    WrapOnce(timeoutMs - elapsed);
  }

  lemma WrapOnce(x: int)
    requires -0x1_0000_0000_0000_0000 <= x < 0x1_0000_0000_0000_0000
    ensures ToU64(x) == if x < 0 then x + 0x1_0000_0000_0000_0000 else x
  {
  }

  // Clock readings never go back from `clock` on, and select, when it reports a timeout, has slept
  // for the whole time it was given.
  ghost predicate Plausible(clock: int, timeoutMs: i64, startMs: u64, env: seq<Attempt>)
    decreases |env|
  {
    env == [] ||
    match env[0]
    case Accepted(_, now) => clock <= now && Plausible(now, timeoutMs, startMs, env[1..])
    case Blocked(now, num, wake) =>
      && clock <= now <= wake
      && (num == 0 ==>
            wake - now >= SleepTime(timeoutMs, MsElapse(now, startMs)) * NSECS_PER_MSEC)
      && Plausible(wake, timeoutMs, startMs, env[1..])
    case _ => Plausible(clock, timeoutMs, startMs, env[1..])
  }

  // A wakeup that finds the socket still full has cost at least a millisecond.
  ghost predicate WakeupsCost(env: seq<Attempt>) {
    forall a | a in env && a.Blocked? :: a.wake >= a.now + NSECS_PER_MSEC
  }

  // The clock when FullSend returns: its last reading, or the end of its last sleep.
  function ReturnTime(sent: nat, size: nat, timeoutMs: i64, startMs: u64, env: seq<Attempt>): int
    decreases |env|
  {
    if sent >= size || env == [] then 0
    else
      match OneTurn(sent, size, timeoutMs, startMs, env[0])
      case Continue(sent') => ReturnTime(sent', size, timeoutMs, startMs, env[1..])
      case Return(_, _) =>
        match env[0]
        case Accepted(_, now) => now
        case Blocked(now, _, wake) =>
          if SleepTime(timeoutMs, MsElapse(now, startMs)) < 0 then now else wake
        case _ => 0
  }

  lemma {:induction false} TimeoutFrom(sent: nat, size: nat, timeoutMs: i64, start: u64,
                                             clock: u64, env: seq<Attempt>)
    requires sent < size && start <= clock
    requires Plausible(clock, timeoutMs, MsElapse(start, 0), env)
    requires var out := Run(sent, size, timeoutMs, MsElapse(start, 0), env); out.Done? && out.code == 0
    ensures ReturnTime(sent, size, timeoutMs, MsElapse(start, 0), env) - start
          > (timeoutMs - 1) * NSECS_PER_MSEC
    decreases |env|
  {
    var startMs, a := MsElapse(start, 0), env[0];
    if a.Accepted? || a.Blocked? {
      MsElapseExact(start, a.now);
      DeadlineTests(timeoutMs, a.now, startMs);
    }
    var t := OneTurn(sent, size, timeoutMs, startMs, a);
    if t.Continue? {
      TimeoutFrom(t.sent, size, timeoutMs, start,
        if a.Accepted? then a.now else a.wake, env[1..]);
    }
  }

  /** A timeout is never early: when FullSend returns 0, more than timeout - 1 milliseconds have
      passed since it started. */
  lemma TimeoutIsNotEarly(size: pos, timeoutMs: i64, start: u64, env: seq<Attempt>)
    requires Plausible(start, timeoutMs, MsElapse(start, 0), env)
    ensures var startMs := MsElapse(start, 0);
      var out := Run(0, size, timeoutMs, startMs, env);
      out.Done? && out.code == 0 ==>
        ReturnTime(0, size, timeoutMs, startMs, env) - start > (timeoutMs - 1) * NSECS_PER_MSEC
  {
    var out := Run(0, size, timeoutMs, MsElapse(start, 0), env);
    if out.Done? && out.code == 0 {
      TimeoutFrom(0, size, timeoutMs, start, start, env);
    }
  }

  // The largest number of milliseconds the clock can count.
  const MAX_ELAPSED: int := 0xffff_ffff_ffff_ffff / NSECS_PER_MSEC

  /** How many milliseconds FullSend waits at most. A negative timeout is over at once, unless it is
      so close to the smallest integer that `timeout_ms - ms_elapse()` can wrap around to a huge
      positive number: then only the range of the clock is a limit. */
  function Patience(timeoutMs: i64): nat {
    if timeoutMs >= 0 then timeoutMs
    else if timeoutMs >= MAX_ELAPSED - 0x8000_0000_0000_0000 then 0
    else MAX_ELAPSED
  }

  /** FullSend ends: if every fruitless wakeup costs a millisecond, at most
      size + patience + 2 turns of the loop are taken. */
  lemma {:induction false} EndsInTime(sent: nat, size: nat, timeoutMs: i64, start: u64,
                                      clock: u64, env: seq<Attempt>)
    requires sent <= size && start <= clock
    requires Plausible(clock, timeoutMs, MsElapse(start, 0), env) && WakeupsCost(env)
    requires var left := Patience(timeoutMs) + 1 - (clock / NSECS_PER_MSEC - start / NSECS_PER_MSEC);
      |env| >= size - sent + (if left < 0 then 0 else left) + 1
    ensures Run(sent, size, timeoutMs, MsElapse(start, 0), env).Done?
    decreases |env|
  {
    if sent < size {
      var startMs, a := MsElapse(start, 0), env[0];
      if a.Accepted? || a.Blocked? {
        MsElapseExact(start, a.now);
        DeadlineTests(timeoutMs, a.now, startMs);
      }
      var t := OneTurn(sent, size, timeoutMs, startMs, a);
      if t.Continue? {
        assert a in env;
        assert forall b | b in env[1..] :: b in env;
        EndsInTime(t.sent, size, timeoutMs, start, if a.Accepted? then a.now else a.wake, env[1..]);
      }
    }
  }

  /** The same bound from the start of the call, for every timeout. */
  lemma FullSendEnds(size: nat, timeoutMs: i64, start: u64, env: seq<Attempt>)
    requires |env| >= size + Patience(timeoutMs) + 2
    requires Plausible(start, timeoutMs, MsElapse(start, 0), env) && WakeupsCost(env)
    ensures Run(0, size, timeoutMs, MsElapse(start, 0), env).Done?
  {
    EndsInTime(0, size, timeoutMs, start, start, env);
  }
}
