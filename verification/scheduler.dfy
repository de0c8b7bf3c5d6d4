/** The per-tick state of the clock's main loop, lifted out of the loop into a
    record with a pure step function. Each tick the loop shows tail and eye
    frame `i`, erases the eye frame shown last tick (`prevI`), advances the
    seconds and minutes counters on a tick where it detects that a second has
    passed, and moves the ping-pong cursor one place. That detection is the
    boolean `secondDetected`; drawing is left out. The detection restarts its
    reference time at the tick that fired, so the counters count detected
    seconds, which can fall behind the seconds of the wall clock. */
module Scheduler {
  import opened Arith

  /** Number of precomputed tail and eye frames. */
  const NUM_TAILS: nat := 10
  /** Seconds per minute and minutes per hour on the dial. */
  const SECONDS_PER_MINUTE: nat := 60
  const MINUTES_PER_HOUR: nat := 60
  const SECONDS_PER_HOUR: nat := SECONDS_PER_MINUTE * MINUTES_PER_HOUR

  /** The ping-pong cursor over the frames: index and direction. */
  datatype Cursor = Cursor(i: nat, up: bool)

  /** The detected-seconds counter and the minute shown on the dial. */
  datatype Clock = Clock(passedSeconds: nat, minutes: nat)

  /** Everything the loop carries from one tick to the next. */
  datatype TickState = TickState(cursor: Cursor, prevI: nat, clock: Clock)

  /** The state before the first tick: cursor at frame 0 going up, and the
      seconds counter primed at 60 so that the first tick rolls the minute. */
  function Initial(): (s: TickState)
    ensures forall len: nat :: len > 0 ==> Inv(s, len)
    ensures forall secondDetected: bool :: ClockTick(s.clock, secondDetected) == Clock(0, 1)
  {
    TickState(Cursor(0, true), 0, Clock(SECONDS_PER_MINUTE, 0))
  }

  // ---------------------------------------------------------------------------
  // Ping-pong cursor

  /** Moves the cursor one place over `len` frames. At the last frame going up,
      or at frame 0 going down, only the direction flips, so a boundary frame
      is shown on two ticks in a row. */
  function Advance(c: Cursor, len: nat): (c': Cursor)
    requires len > 0
    ensures c.i < len ==> c'.i < len
    ensures c.i < len ==> c.i - 1 <= c'.i <= c.i + 1
    ensures c.i < len ==> (c'.up != c.up <==> c'.i == c.i)
    ensures c'.up != c.up <==> (if c.up then c.i + 1 == len else c.i == 0)
  {
    if c.up then
      if c.i + 1 == len then Cursor(c.i, false)
      else Cursor((c.i + 1) % len, true)
    else
      if c.i == 0 then Cursor(c.i, true)
      else Cursor(c.i - 1, false)
  }

  /** The cursor after `k` ticks from `c`. */
  function Ticks(c: Cursor, k: nat, len: nat): Cursor
    requires len > 0
  {
    if k == 0 then c else Advance(Ticks(c, k - 1, len), len)
  }

  /** Reference definition of the ping-pong walk started at frame 0 going up:
      within each period of `2 * len` ticks the index climbs `0 .. len-1`,
      then descends `len-1 .. 0`. */
  function CursorAt(k: nat, len: nat): (c: Cursor)
    requires len > 0
    ensures c.i < len
  {
    var m := k % (2 * len);
    if m < len then Cursor(m, true) else Cursor(2 * len - 1 - m, false)
  }

  /** Where a valid cursor sits within the period of the walk. */
  function Phase(c: Cursor, len: nat): (k: nat)
    requires c.i < len
    ensures k < 2 * len
  {
    if c.up then c.i else 2 * len - 1 - c.i
  }

  /** One step of the cursor is one step along the reference walk. */
  lemma AdvanceCursorAt(k: nat, len: nat)
    requires len > 0
    ensures Advance(CursorAt(k, len), len) == CursorAt(k + 1, len)
  {
    ModSucc(k, 2 * len);
    var m := k % (2 * len);
    if m < len - 1 {
      DivModUnique(m + 1, len, 0, m + 1);
    }
  }

  /** The cursor started at frame 0 going up follows the reference walk. */
  lemma {:induction false} TicksFromStart(k: nat, len: nat)
    requires len > 0
    ensures Ticks(Cursor(0, true), k, len) == CursorAt(k, len)
  {
    if k == 0 {
      DivModUnique(0, 2 * len, 0, 0);
    } else {
      TicksFromStart(k - 1, len);
      AdvanceCursorAt(k - 1, len);
    }
  }

  /** The walk visits each of the `2 * len` (index, direction) states once per
      period: distinct positions within a period give distinct cursors. */
  lemma CursorAtInjective(k: nat, j: nat, len: nat)
    requires len > 0 && k < 2 * len && j < 2 * len
    requires CursorAt(k, len) == CursorAt(j, len)
    ensures k == j
  {
    DivModUnique(k, 2 * len, 0, k);
    DivModUnique(j, 2 * len, 0, j);
  }

  /** Every valid cursor is on the reference walk, at its phase. */
  lemma CursorAtPhase(c: Cursor, len: nat)
    requires c.i < len
    ensures CursorAt(Phase(c, len), len) == c
  {
    DivModUnique(Phase(c, len), 2 * len, 0, Phase(c, len));
  }

  /** `k` ticks along the walk from position `p` reach position `p + k`. */
  lemma {:induction false} TicksAlongWalk(p: nat, k: nat, len: nat)
    requires len > 0
    ensures Ticks(CursorAt(p, len), k, len) == CursorAt(p + k, len)
  {
    if k > 0 {
      TicksAlongWalk(p, k - 1, len);
      AdvanceCursorAt(p + k - 1, len);
    }
  }

  /** From every valid cursor, exactly `2 * len` ticks come back to it, and no
      smaller positive number of ticks does. */
  lemma CursorPeriod(c: Cursor, k: nat, len: nat)
    requires c.i < len
    ensures Ticks(c, 2 * len, len) == c
    ensures 0 < k < 2 * len ==> Ticks(c, k, len) != c
  {
    var p := Phase(c, len);
    CursorAtPhase(c, len);
    TicksAlongWalk(p, 2 * len, len);
    ModShift(p, 2 * len);
    if 0 < k < 2 * len {
      TicksAlongWalk(p, k, len);
      ModWithinTwoPeriods(p + k, 2 * len);
    }
  }

  lemma ModShift(p: nat, d: nat)
    requires d > 0
    ensures (p + d) % d == p % d
  {
    DivModUnique(p + d, d, p / d + 1, p % d);
  }

  lemma ModWithinTwoPeriods(x: nat, d: nat)
    requires d > 0 && x < 2 * d
    ensures x % d == if x < d then x else x - d
  {
    if x < d {
      DivModUnique(x, d, 0, x);
    } else {
      DivModUnique(x, d, 1, x - d);
    }
  }

  /** Each boundary frame is shown on two consecutive ticks: frame `len-1` at
      ticks `len-1` and `len`, frame 0 at ticks `2*len - 1` and `2*len`. */
  lemma BoundaryFramesRepeat(len: nat)
    requires len > 0
    ensures CursorAt(len - 1, len).i == CursorAt(len, len).i == len - 1
    ensures CursorAt(2 * len - 1, len).i == CursorAt(2 * len, len).i == 0
  {
    DivModUnique(len - 1, 2 * len, 0, len - 1);
    DivModUnique(len, 2 * len, 0, len);
    DivModUnique(2 * len - 1, 2 * len, 0, 2 * len - 1);
    DivModUnique(2 * len, 2 * len, 1, 0);
  }

  // ---------------------------------------------------------------------------
  // Seconds and minutes

  /** One tick of the counters: count the detected second, then, once sixty
      have been counted, reset the counter and move the minute on, wrapping
      from 59 to 0. */
  function ClockTick(c: Clock, secondDetected: bool): (c': Clock)
    ensures c'.passedSeconds < SECONDS_PER_MINUTE
    ensures c.minutes < MINUTES_PER_HOUR ==> c'.minutes < MINUTES_PER_HOUR
    ensures c'.minutes != c.minutes <==> c.passedSeconds + (if secondDetected then 1 else 0) >= SECONDS_PER_MINUTE
    ensures c.passedSeconds + (if secondDetected then 1 else 0) >= SECONDS_PER_MINUTE && c.minutes < MINUTES_PER_HOUR ==>
              c' == Clock(0, (c.minutes + 1) % MINUTES_PER_HOUR)
    ensures c.passedSeconds + (if secondDetected then 1 else 0) < SECONDS_PER_MINUTE ==>
              c' == Clock(c.passedSeconds + (if secondDetected then 1 else 0), c.minutes)
  {
    var passed := if secondDetected then c.passedSeconds + 1 else c.passedSeconds;
    if passed >= SECONDS_PER_MINUTE then
      var minutes := c.minutes + 1;
      Clock(0, if minutes == MINUTES_PER_HOUR then 0 else minutes)
    else
      Clock(passed, c.minutes)
  }

  /** The counters read as one number of seconds within the hour:
      `minutes * 60 + passedSeconds`. */
  function Counted(c: Clock): nat
  {
    c.minutes * SECONDS_PER_MINUTE + c.passedSeconds
  }

  /** A counter state the loop can be in after its first tick. */
  predicate ClockValid(c: Clock)
  {
    c.passedSeconds < SECONDS_PER_MINUTE && c.minutes < MINUTES_PER_HOUR
  }

  /** From a valid state a tick adds the detected second to the seconds
      counted since the top of the hour, modulo one hour. */
  lemma ClockTickCounts(c: Clock, secondDetected: bool)
    requires ClockValid(c)
    ensures ClockValid(ClockTick(c, secondDetected))
    ensures Counted(ClockTick(c, secondDetected)) == (Counted(c) + if secondDetected then 1 else 0) % SECONDS_PER_HOUR
  {
    var e := Counted(c) + if secondDetected then 1 else 0;
    if e == SECONDS_PER_HOUR {
      DivModUnique(e, SECONDS_PER_HOUR, 1, 0);
    } else {
      DivModUnique(e, SECONDS_PER_HOUR, 0, e);
    }
  }

  /** The first tick after start-up rolls the primed counter over: the minute
      moves from 0 to 1 and the counter restarts at 0, whether or not a second
      was detected. */
  lemma FirstTick(secondDetected: bool)
    ensures ClockTick(Initial().clock, secondDetected) == Clock(0, 1)
  {
  }

  // ---------------------------------------------------------------------------
  // Whole ticks

  /** One iteration of the main loop: remember the frame about to be shown as
      the one to erase next tick, update the counters, advance the cursor. */
  function Step(s: TickState, secondDetected: bool, len: nat): (s': TickState)
    requires len > 0
    ensures s'.prevI == s.cursor.i
    ensures s'.clock.passedSeconds < SECONDS_PER_MINUTE
    ensures s.cursor.i < len ==> s'.cursor.i < len
  {
    TickState(Advance(s.cursor, len), s.cursor.i, ClockTick(s.clock, secondDetected))
  }

  /** The state after one tick per entry of `ticks`, the entry saying whether
      the loop detected a second on that tick: at least one second of
      monotonic time since the last tick on which it detected one. */
  function Run(s: TickState, ticks: seq<bool>, len: nat): (r: TickState)
    requires len > 0
    ensures r.cursor == Ticks(s.cursor, |ticks|, len)
    ensures |ticks| > 0 ==> r.prevI == Ticks(s.cursor, |ticks| - 1, len).i
    ensures |ticks| > 0 ==> r.clock.passedSeconds < SECONDS_PER_MINUTE
  {
    if |ticks| == 0 then s
    else Step(Run(s, ticks[..|ticks| - 1], len), ticks[|ticks| - 1], len)
  }

  /** What holds at the top of every loop iteration: both frame indices the
      loop reads are in range, and the counters are in their ranges (the
      seconds counter may still hold the primed 60). */
  predicate Inv(s: TickState, len: nat)
  {
    && s.cursor.i < len
    && s.prevI < len
    && s.clock.passedSeconds <= SECONDS_PER_MINUTE
    && s.clock.minutes < MINUTES_PER_HOUR
  }

  lemma StepPreservesInv(s: TickState, secondDetected: bool, len: nat)
    requires len > 0 && Inv(s, len)
    ensures Inv(Step(s, secondDetected, len), len)
    ensures ClockValid(Step(s, secondDetected, len).clock)
  {
  }

  /** Whatever the timing of the seconds, every state the loop reaches keeps
      `tails_frames[i]`, `eyes_frames[i]` and `eyes_frames[prev_i]` in range,
      and the cursor is where the reference walk says. */
  lemma {:induction false} RunInv(ticks: seq<bool>, len: nat)
    requires len > 0
    ensures Inv(Run(Initial(), ticks, len), len)
    ensures Run(Initial(), ticks, len).cursor == CursorAt(|ticks|, len)
  {
    if |ticks| == 0 {
      DivModUnique(0, 2 * len, 0, 0);
    } else {
      var prefix := ticks[..|ticks| - 1];
      RunInv(prefix, len);
      StepPreservesInv(Run(Initial(), prefix, len), ticks[|ticks| - 1], len);
      AdvanceCursorAt(|prefix|, len);
    }
  }

  /** The number of ticks on which a second was detected. */
  function Count(ticks: seq<bool>): nat
  {
    if |ticks| == 0 then 0
    else Count(ticks[..|ticks| - 1]) + if ticks[|ticks| - 1] then 1 else 0
  }

  /** From a valid counter state, the counters grow by the number of ticks on
      which a second was detected, modulo one hour. */
  lemma {:induction false} RunCounts(s: TickState, ticks: seq<bool>, len: nat)
    requires len > 0 && ClockValid(s.clock)
    ensures ClockValid(Run(s, ticks, len).clock)
    ensures Counted(Run(s, ticks, len).clock) == (Counted(s.clock) + Count(ticks)) % SECONDS_PER_HOUR
  {
    if |ticks| == 0 {
      DivModUnique(Counted(s.clock), SECONDS_PER_HOUR, 0, Counted(s.clock));
    } else {
      var prefix, last := ticks[..|ticks| - 1], ticks[|ticks| - 1];
      RunCounts(s, prefix, len);
      var before := Run(s, prefix, len).clock;
      ClockTickCounts(before, last);
      if last {
        ModAddOne(Counted(s.clock) + Count(prefix), SECONDS_PER_HOUR);
      }
    }
  }

  /** Running two stretches of ticks one after the other is running them together. */
  lemma {:induction false} RunAppend(s: TickState, a: seq<bool>, b: seq<bool>, len: nat)
    requires len > 0
    ensures Run(s, a + b, len) == Run(Run(s, a, len), b, len)
  {
    if |b| > 0 {
      var ab := a + b;
      assert ab[..|ab| - 1] == a + b[..|b| - 1];
      assert ab[|ab| - 1] == b[|b| - 1];
      RunAppend(s, a, b[..|b| - 1], len);
    } else {
      assert a + b == a;
    }
  }

  /** From start-up, after at least one tick, the counters are valid and hold
      one minute more than the number of later ticks on which a second was
      detected, modulo one hour. */
  lemma ClockFromStart(ticks: seq<bool>, len: nat)
    requires len > 0 && |ticks| > 0
    ensures ClockValid(Run(Initial(), ticks, len).clock)
    ensures Counted(Run(Initial(), ticks, len).clock) == (SECONDS_PER_MINUTE + Count(ticks[1..])) % SECONDS_PER_HOUR
  {
    var first := Run(Initial(), ticks[..1], len);
    assert first == Step(Initial(), ticks[0], len) by {
      var one := ticks[..1];
      assert one[..0] == [] && one[0] == ticks[0];
      assert Run(Initial(), one[..0], len) == Initial();
    }
    FirstTick(ticks[0]);
    assert ticks == ticks[..1] + ticks[1..];
    RunAppend(Initial(), ticks[..1], ticks[1..], len);
    RunCounts(first, ticks[1..], len);
  }

  /** The minute shown after any run from start-up: one past the number of
      whole minutes of detected seconds after the first tick, wrapping at 60. */
  lemma MinutesFromStart(ticks: seq<bool>, len: nat)
    requires len > 0 && |ticks| > 0
    ensures Run(Initial(), ticks, len).clock.minutes == (1 + Count(ticks[1..]) / SECONDS_PER_MINUTE) % MINUTES_PER_HOUR
  {
    var c := Run(Initial(), ticks, len).clock;
    ClockFromStart(ticks, len);
    var n := Count(ticks[1..]);
    var q, p := n / SECONDS_PER_MINUTE, n % SECONDS_PER_MINUTE;
    DivModUnique(SECONDS_PER_MINUTE + n, SECONDS_PER_MINUTE, 1 + q, p);
    var e := (SECONDS_PER_MINUTE + n) % SECONDS_PER_HOUR;
    DivModUnique(SECONDS_PER_MINUTE + n, SECONDS_PER_HOUR, (1 + q) / MINUTES_PER_HOUR,
                 (1 + q) % MINUTES_PER_HOUR * SECONDS_PER_MINUTE + p);
    DivModUnique(e, SECONDS_PER_MINUTE, c.minutes, c.passedSeconds);
    DivModUnique(e, SECONDS_PER_MINUTE, (1 + q) % MINUTES_PER_HOUR, p);
  }

  /** The loop as the clock runs it, over the `NUM_TAILS` frames built at
      start-up: every index it reads is below 10, and the animation repeats
      every 20 ticks and no sooner. */
  lemma TailAnimation(ticks: seq<bool>, k: nat)
    ensures Run(Initial(), ticks, NUM_TAILS).cursor.i < NUM_TAILS
    ensures Run(Initial(), ticks, NUM_TAILS).prevI < NUM_TAILS
    ensures Ticks(Initial().cursor, 2 * NUM_TAILS, NUM_TAILS) == Initial().cursor
    ensures 0 < k < 2 * NUM_TAILS ==> Ticks(Initial().cursor, k, NUM_TAILS) != Initial().cursor
  {
    RunInv(ticks, NUM_TAILS);
    CursorPeriod(Initial().cursor, k, NUM_TAILS);
  }
}
