/** The index and timer bookkeeping of the webcam capture loop.

    Each pass of the loop reads one key code and the wall clock. ESC ends
    the loop; `a` selects the previous model and `s` the next one, both
    wrapping around the `count` models; then, if automatic rotation is on
    (`numSec > 0`) and the whole seconds since the last timed switch
    exceed `numSec`, the next model is selected and the timer restarts.
    Restoring a checkpoint and reading a style image are recorded only as
    "index i was reloaded".

    Clock readings are integers counting microseconds, the resolution of
    Python's `datetime`. The elapsed time is read as `timedelta.seconds`,
    which is the seconds part of a duration normalised to
    (days, seconds, microseconds): the whole seconds modulo one day. */
module CaptureLoop {

  const Esc: int := 27
  const PrevKey: int := 'a' as int
  const NextKey: int := 's' as int

  const MicrosPerSecond: int := 1000000
  const SecondsPerDay: int := 86400

  /** One pass of the loop as the model sees it: the code `waitKey`
      returned, the clock when the timer is checked, and the clock read
      again when a timed switch restarts the timer. */
  datatype Tick = Tick(key: int, now: int, resetNow: int)

  /** The active model index and the time of the last timed switch. */
  datatype LoopState = LoopState(idx: int, t1: int)

  /** What one pass does: leave the loop, or go on in a new state after
      reloading the listed indices, in order. */
  datatype StepResult = Exit | Continue(next: LoopState, reloads: seq<int>)

  /** What a sequence of passes does: the final state, every reload in
      order, and whether ESC ended the loop. */
  datatype Outcome = Outcome(state: LoopState, reloads: seq<int>, exited: bool)

  /** The index before `idx`, wrapping from 0 to `n - 1`. */
  function Prev(idx: int, n: int): (r: int)
    requires 0 <= idx < n
    ensures 0 <= r < n
  {
    if idx == 0 then n - 1 else idx - 1
  }

  /** The index after `idx`, wrapping from `n - 1` to 0. */
  function Next(idx: int, n: int): (r: int)
    requires 0 <= idx < n
    ensures 0 <= r < n
  {
    if idx == n - 1 then 0 else idx + 1
  }

  lemma ModBelow(x: int, n: int)
    requires 0 <= x < n
    ensures x % n == x
  {
  }

  lemma ModAbove(x: int, n: int)
    requires 0 < n <= x < 2 * n
    ensures x % n == x - n
  {
  }

  /** The loop computes the previous index as `(idx + n - 1) % n`: always
      in range, and for an index in range the wrap-around `Prev`. */
  lemma PrevFormula(idx: int, n: int)
    requires n > 0
    ensures 0 <= (idx + n - 1) % n < n
    ensures 0 <= idx < n ==> (idx + n - 1) % n == Prev(idx, n)
  {
    if 0 <= idx < n {
      if idx == 0 {
        ModBelow(n - 1, n);
      } else {
        ModAbove(idx + n - 1, n);
      }
    }
  }

  /** The loop computes the next index as `(idx + 1) % n`: always in
      range, and for an index in range the wrap-around `Next`. */
  lemma NextFormula(idx: int, n: int)
    requires n > 0
    ensures 0 <= (idx + 1) % n < n
    ensures 0 <= idx < n ==> (idx + 1) % n == Next(idx, n)
  {
    if 0 <= idx < n {
      if idx == n - 1 {
        assert (idx + 1) % n == 0;
      } else {
        ModBelow(idx + 1, n);
      }
    }
  }

  /** Going forward and then back restores the index. */
  lemma PrevUndoesNext(idx: int, n: int)
    requires 0 <= idx < n
    ensures Prev(Next(idx, n), n) == idx
  {
  }

  /** Going back and then forward restores the index. */
  lemma NextUndoesPrev(idx: int, n: int)
    requires 0 <= idx < n
    ensures Next(Prev(idx, n), n) == idx
  {
  }

  /** `k` steps forward. */
  function Advance(idx: int, n: int, k: nat): int
    requires 0 <= idx < n
    decreases k
  {
    if k == 0 then idx else Advance(Next(idx, n), n, k - 1)
  }

  /** `k` steps back. */
  function Retreat(idx: int, n: int, k: nat): int
    requires 0 <= idx < n
    decreases k
  {
    if k == 0 then idx else Retreat(Prev(idx, n), n, k - 1)
  }

  /** Up to `n` steps forward add `k` and wrap once. */
  lemma {:induction false} AdvanceWraps(idx: int, n: int, k: nat)
    requires 0 <= idx < n && k <= n
    ensures Advance(idx, n, k) == if idx + k < n then idx + k else idx + k - n
    decreases k
  {
    if k > 0 {
      if idx == n - 1 {
        AdvanceWraps(0, n, k - 1);
      } else {
        AdvanceWraps(idx + 1, n, k - 1);
      }
    }
  }

  /** Up to `n` steps back subtract `k` and wrap once. */
  lemma {:induction false} RetreatWraps(idx: int, n: int, k: nat)
    requires 0 <= idx < n && k <= n
    ensures Retreat(idx, n, k) == if idx - k >= 0 then idx - k else idx - k + n
    decreases k
  {
    if k > 0 {
      if idx == 0 {
        RetreatWraps(n - 1, n, k - 1);
      } else {
        RetreatWraps(idx - 1, n, k - 1);
      }
    }
  }

  /** `timedelta.seconds` of `t2 - t1`. */
  function ElapsedSeconds(t1: int, t2: int): (r: int)
    ensures 0 <= r < SecondsPerDay
  {
    ((t2 - t1) / MicrosPerSecond) % SecondsPerDay
  }

  /** Less than a day after `t1`, the elapsed seconds are the whole
      seconds that have passed, the fraction dropped. */
  lemma ElapsedSecondsWithinADay(t1: int, t2: int)
    requires 0 <= t2 - t1 < SecondsPerDay * MicrosPerSecond
    ensures ElapsedSeconds(t1, t2) * MicrosPerSecond <= t2 - t1
    ensures t2 - t1 < (ElapsedSeconds(t1, t2) + 1) * MicrosPerSecond
  {
    var q := (t2 - t1) / MicrosPerSecond;
    assert 0 <= q < SecondsPerDay;
    assert ElapsedSeconds(t1, t2) == q;
  }

  /** A clock that went back by at most a second reads as 86399 seconds. */
  lemma ElapsedSecondsClockBack(t1: int, t2: int)
    requires -MicrosPerSecond <= t2 - t1 < 0
    ensures ElapsedSeconds(t1, t2) == SecondsPerDay - 1
  {
    assert (t2 - t1) / MicrosPerSecond == -1;
  }

  /** The timer check of the loop. It can fire only when rotation is on
      and the interval is below 86399 seconds, since `timedelta.seconds`
      never exceeds 86399. */
  predicate TimerDue(numSec: int, t1: int, t2: int): (due: bool)
    ensures due ==> 0 < numSec < SecondsPerDay - 1
  {
    numSec > 0 && ElapsedSeconds(t1, t2) > numSec
  }

  /** Within a day the timer fires exactly when rotation is on and at
      least `numSec + 1` whole seconds have passed: the comparison is
      strict and on truncated seconds. */
  lemma TimerDueWithinADay(numSec: int, t1: int, t2: int)
    requires 0 <= t2 - t1 < SecondsPerDay * MicrosPerSecond
    ensures TimerDue(numSec, t1, t2) <==>
              numSec > 0 && t2 - t1 >= (numSec + 1) * MicrosPerSecond
  {
    ElapsedSecondsWithinADay(t1, t2);
  }

  /** Because the elapsed time is read modulo a day, an interval of
      86399 seconds or more never fires. */
  lemma TimerNeverDueForDayLongInterval(numSec: int, t1: int, t2: int)
    requires numSec >= SecondsPerDay - 1
    ensures !TimerDue(numSec, t1, t2)
  {
  }

  /** The index after the key of one pass: `a` goes back, `s` forward,
      anything else keeps it. */
  function KeySwitch(idx: int, n: int, key: int): (r: int)
    requires 0 <= idx < n
    ensures 0 <= r < n
  {
    if key == PrevKey then Prev(idx, n)
    else if key == NextKey then Next(idx, n)
    else idx
  }

  /** One pass of the loop over `count` models. */
  function Transition(count: int, numSec: int, s: LoopState, t: Tick): (r: StepResult)
    requires 0 <= s.idx < count
    ensures r.Exit? <==> t.key == Esc
    ensures r.Continue? ==> 0 <= r.next.idx < count && |r.reloads| <= 2
    ensures r.Continue? && r.reloads != [] ==> r.reloads[|r.reloads| - 1] == r.next.idx
    ensures r.Continue? && |r.reloads| == 2 ==> 0 <= r.reloads[0] < count
  {
    if t.key == Esc then Exit
    else
      var k := KeySwitch(s.idx, count, t.key);
      var keyReloads := if t.key == PrevKey || t.key == NextKey then [k] else [];
      if TimerDue(numSec, s.t1, t.now) then
        var j := Next(k, count);
        Continue(LoopState(j, t.resetNow), keyReloads + [j])
      else
        Continue(LoopState(k, s.t1), keyReloads)
  }

  /** The key part of a pass, when the timer does not fire: ESC leaves at
      once, `a` and `s` move the index by one and reload it without
      touching the timer, any other key changes nothing. */
  lemma KeyStep(count: int, numSec: int, s: LoopState, t: Tick)
    requires 0 <= s.idx < count
    requires !TimerDue(numSec, s.t1, t.now)
    ensures t.key == Esc ==> Transition(count, numSec, s, t) == Exit
    ensures t.key == PrevKey ==>
              var i := if s.idx == 0 then count - 1 else s.idx - 1;
              Transition(count, numSec, s, t) == Continue(LoopState(i, s.t1), [i])
    ensures t.key == NextKey ==>
              var i := if s.idx == count - 1 then 0 else s.idx + 1;
              Transition(count, numSec, s, t) == Continue(LoopState(i, s.t1), [i])
    ensures t.key !in {Esc, PrevKey, NextKey} ==>
              Transition(count, numSec, s, t) == Continue(s, [])
  {
  }

  /** ESC ends the loop before the timer is looked at, even when it is due. */
  lemma EscSkipsTimer(count: int, numSec: int, s: LoopState, t: Tick)
    requires 0 <= s.idx < count && t.key == Esc
    ensures Transition(count, numSec, s, t) == Exit
  {
  }

  /** Only a timed switch restarts the timer, and it restarts it at the
      second clock reading; it advances once more past whatever the key
      selected, so one pass can switch twice. */
  lemma TimerStep(count: int, numSec: int, s: LoopState, t: Tick)
    requires 0 <= s.idx < count && t.key != Esc
    ensures var r := Transition(count, numSec, s, t);
              if TimerDue(numSec, s.t1, t.now) then
                r.next.t1 == t.resetNow &&
                r.next.idx == Next(KeySwitch(s.idx, count, t.key), count) &&
                r.reloads[|r.reloads| - 1] == r.next.idx
              else
                r.next.t1 == s.t1 && r.next.idx == KeySwitch(s.idx, count, t.key)
  {
  }

  /** `s` on a pass where the timer also fires: two reloads, two steps on. */
  lemma NextKeyAndTimer(count: int, numSec: int, s: LoopState, t: Tick)
    requires 0 <= s.idx < count && t.key == NextKey && TimerDue(numSec, s.t1, t.now)
    ensures var i := Next(s.idx, count);
              Transition(count, numSec, s, t) ==
              Continue(LoopState(Next(i, count), t.resetNow), [i, Next(i, count)])
  {
  }

  /** Runs the passes in order until ESC or the end of the input. */
  function Iterate(count: int, numSec: int, s: LoopState, ticks: seq<Tick>): (o: Outcome)
    requires 0 <= s.idx < count
    ensures 0 <= o.state.idx < count
    decreases |ticks|
  {
    if ticks == [] then Outcome(s, [], false)
    else match Transition(count, numSec, s, ticks[0])
      case Exit => Outcome(s, [], true)
      case Continue(s', r) =>
        var o := Iterate(count, numSec, s', ticks[1..]);
        Outcome(o.state, r + o.reloads, o.exited)
  }

  /** Every key of `ticks` is `key`. */
  predicate AllKeys(ticks: seq<Tick>, key: int)
  {
    forall i :: 0 <= i < |ticks| ==> ticks[i].key == key
  }

  /** The timer, measured from `t1`, fires on no pass of `ticks`. While it
      does not fire `t1` stays put, so this is the condition for a stretch
      of passes to be driven by the keys alone. */
  predicate TimerQuiet(numSec: int, t1: int, ticks: seq<Tick>)
  {
    forall i :: 0 <= i < |ticks| ==> !TimerDue(numSec, t1, ticks[i].now)
  }

  /** With rotation off the timer is quiet on every pass. */
  lemma RotationOffIsQuiet(numSec: int, t1: int, ticks: seq<Tick>)
    requires numSec <= 0
    ensures TimerQuiet(numSec, t1, ticks)
  {
  }

  /** With rotation on, passes that come less than `numSec + 1` seconds
      after `t1` keep the timer quiet. */
  lemma QuietWithinInterval(numSec: int, t1: int, ticks: seq<Tick>)
    requires 0 < numSec < SecondsPerDay
    requires forall i :: 0 <= i < |ticks| ==>
               0 <= ticks[i].now - t1 < (numSec + 1) * MicrosPerSecond
    ensures TimerQuiet(numSec, t1, ticks)
  {
    forall i | 0 <= i < |ticks|
      ensures !TimerDue(numSec, t1, ticks[i].now)
    {
      TimerDueWithinADay(numSec, t1, ticks[i].now);
    }
  }

  /** A quiet stretch stays quiet without its first pass. */
  lemma QuietTail(numSec: int, t1: int, ticks: seq<Tick>)
    requires ticks != [] && TimerQuiet(numSec, t1, ticks)
    ensures !TimerDue(numSec, t1, ticks[0].now) && TimerQuiet(numSec, t1, ticks[1..])
  {
    forall i | 0 <= i < |ticks[1..]|
      ensures !TimerDue(numSec, t1, ticks[1..][i].now)
    {
      assert ticks[1..][i] == ticks[i + 1];
    }
  }

  /** While the timer stays quiet, `k` presses of `s` move the index `k`
      steps forward, reloading every index on the way and keeping the
      timer. */
  lemma {:induction false} NextPresses(count: int, numSec: int, s: LoopState, ticks: seq<Tick>)
    requires 0 <= s.idx < count && TimerQuiet(numSec, s.t1, ticks)
    requires AllKeys(ticks, NextKey)
    ensures var o := Iterate(count, numSec, s, ticks);
              o.state == LoopState(Advance(s.idx, count, |ticks|), s.t1) && !o.exited &&
              |o.reloads| == |ticks| &&
              forall j :: 0 <= j < |ticks| ==> o.reloads[j] == Advance(s.idx, count, j + 1)
    decreases |ticks|
  {
    if ticks != [] {
      var s' := LoopState(Next(s.idx, count), s.t1);
      QuietTail(numSec, s.t1, ticks);
      assert Transition(count, numSec, s, ticks[0]) == Continue(s', [s'.idx]);
      NextPresses(count, numSec, s', ticks[1..]);
    }
  }

  /** While the timer stays quiet, `k` presses of `a` move the index `k`
      steps back, reloading every index on the way and keeping the timer. */
  lemma {:induction false} PrevPresses(count: int, numSec: int, s: LoopState, ticks: seq<Tick>)
    requires 0 <= s.idx < count && TimerQuiet(numSec, s.t1, ticks)
    requires AllKeys(ticks, PrevKey)
    ensures var o := Iterate(count, numSec, s, ticks);
              o.state == LoopState(Retreat(s.idx, count, |ticks|), s.t1) && !o.exited &&
              |o.reloads| == |ticks| &&
              forall j :: 0 <= j < |ticks| ==> o.reloads[j] == Retreat(s.idx, count, j + 1)
    decreases |ticks|
  {
    if ticks != [] {
      var s' := LoopState(Prev(s.idx, count), s.t1);
      QuietTail(numSec, s.t1, ticks);
      assert Transition(count, numSec, s, ticks[0]) == Continue(s', [s'.idx]);
      PrevPresses(count, numSec, s', ticks[1..]);
    }
  }

  /** While the timer stays quiet, pressing `s` once per model brings the
      loop back to the state it started in. */
  lemma NextPressesCycle(count: int, numSec: int, s: LoopState, ticks: seq<Tick>)
    requires 0 <= s.idx < count && TimerQuiet(numSec, s.t1, ticks)
    requires AllKeys(ticks, NextKey) && |ticks| == count
    ensures Iterate(count, numSec, s, ticks).state == s
  {
    NextPresses(count, numSec, s, ticks);
    AdvanceWraps(s.idx, count, count);
  }

  /** While the timer stays quiet, pressing `a` once per model brings the
      loop back too. */
  lemma PrevPressesCycle(count: int, numSec: int, s: LoopState, ticks: seq<Tick>)
    requires 0 <= s.idx < count && TimerQuiet(numSec, s.t1, ticks)
    requires AllKeys(ticks, PrevKey) && |ticks| == count
    ensures Iterate(count, numSec, s, ticks).state == s
  {
    PrevPresses(count, numSec, s, ticks);
    RetreatWraps(s.idx, count, count);
  }

  /** On two passes where the timer stays quiet, `s` and then `a` return
      to the state the loop was in, after reloading the next model and
      then this one again. */
  lemma NextThenPrev(count: int, numSec: int, s: LoopState, ticks: seq<Tick>)
    requires 0 <= s.idx < count && TimerQuiet(numSec, s.t1, ticks)
    requires |ticks| == 2 && ticks[0].key == NextKey && ticks[1].key == PrevKey
    ensures Iterate(count, numSec, s, ticks) == Outcome(s, [Next(s.idx, count), s.idx], false)
  {
    var s' := LoopState(Next(s.idx, count), s.t1);
    PrevUndoesNext(s.idx, count);
    assert !TimerDue(numSec, s.t1, ticks[0].now) && !TimerDue(numSec, s.t1, ticks[1].now);
    assert Transition(count, numSec, s, ticks[0]) == Continue(s', [s'.idx]);
    assert Transition(count, numSec, s', ticks[1]) == Continue(s, [s.idx]);
    var rest := ticks[1..];
    assert rest[0] == ticks[1] && rest[1..] == [];
    assert Iterate(count, numSec, s', rest) == Outcome(s, [s.idx], false);
  }

  /** While the timer stays quiet, keys other than ESC, `a` and `s` change
      nothing and reload nothing, however many passes there are. */
  lemma {:induction false} OtherKeysKeepState(count: int, numSec: int, s: LoopState, ticks: seq<Tick>)
    requires 0 <= s.idx < count && TimerQuiet(numSec, s.t1, ticks)
    requires forall i :: 0 <= i < |ticks| ==> ticks[i].key !in {Esc, PrevKey, NextKey}
    ensures Iterate(count, numSec, s, ticks) == Outcome(s, [], false)
    decreases |ticks|
  {
    if ticks != [] {
      QuietTail(numSec, s.t1, ticks);
      assert Transition(count, numSec, s, ticks[0]) == Continue(s, []);
      OtherKeysKeepState(count, numSec, s, ticks[1..]);
    }
  }

  /** With rotation off, the timer is never restarted. */
  lemma {:induction false} TimerOffKeepsT1(count: int, numSec: int, s: LoopState, ticks: seq<Tick>)
    requires 0 <= s.idx < count && numSec <= 0
    ensures Iterate(count, numSec, s, ticks).state.t1 == s.t1
    decreases |ticks|
  {
    if ticks != [] {
      match Transition(count, numSec, s, ticks[0])
      case Exit =>
      case Continue(s', r) =>
        TimerOffKeepsT1(count, numSec, s', ticks[1..]);
    }
  }

  /** The index stays in range and every reload names a model. */
  lemma {:induction false} IterateInRange(count: int, numSec: int, s: LoopState, ticks: seq<Tick>)
    requires 0 <= s.idx < count
    ensures var o := Iterate(count, numSec, s, ticks);
              0 <= o.state.idx < count &&
              forall i :: 0 <= i < |o.reloads| ==> 0 <= o.reloads[i] < count
    decreases |ticks|
  {
    if ticks != [] {
      match Transition(count, numSec, s, ticks[0])
      case Exit =>
      case Continue(s', r) =>
        IterateInRange(count, numSec, s', ticks[1..]);
    }
  }

  /** Running `a` and then `b` is running `a`, then `b` from where `a`
      left off, unless ESC ended `a`. */
  lemma {:induction false} IterateAppend(count: int, numSec: int, s: LoopState, a: seq<Tick>, b: seq<Tick>)
    requires 0 <= s.idx < count
    ensures var oa := Iterate(count, numSec, s, a);
              var ob := Iterate(count, numSec, oa.state, b);
              Iterate(count, numSec, s, a + b) ==
              if oa.exited then oa else Outcome(ob.state, oa.reloads + ob.reloads, ob.exited)
    decreases |a|
  {
    if a == [] {
      assert a + b == b;
    } else {
      assert (a + b)[0] == a[0] && (a + b)[1..] == a[1..] + b;
      match Transition(count, numSec, s, a[0])
      case Exit =>
      case Continue(s', r) =>
        IterateAppend(count, numSec, s', a[1..], b);
        var oa' := Iterate(count, numSec, s', a[1..]);
        var ob := Iterate(count, numSec, oa'.state, b);
        assert Iterate(count, numSec, s, a) == Outcome(oa'.state, r + oa'.reloads, oa'.exited);
        assert r + (oa'.reloads + ob.reloads) == (r + oa'.reloads) + ob.reloads;
    }
  }

  /** One more pass that does not end the loop extends a run. */
  lemma {:induction false} RunOneMore(count: int, numSec: int, s0: LoopState, ticks: seq<Tick>, i: nat,
                   s: LoopState, before: seq<int>, s': LoopState, r: seq<int>)
    requires 0 <= s0.idx < count && i < |ticks|
    requires Iterate(count, numSec, s0, ticks[..i]) == Outcome(s, before, false)
    requires Transition(count, numSec, s, ticks[i]) == Continue(s', r)
    ensures Iterate(count, numSec, s0, ticks[..i + 1]) == Outcome(s', before + r, false)
  {
    IterateAppend(count, numSec, s0, ticks[..i], [ticks[i]]);
    assert ticks[..i + 1] == ticks[..i] + [ticks[i]];
    assert [ticks[i]][1..] == [];
  }

  /** A pass that reads ESC ends a run, whatever input follows. */
  lemma {:induction false} RunStops(count: int, numSec: int, s0: LoopState, ticks: seq<Tick>, i: nat,
                 s: LoopState, before: seq<int>)
    requires 0 <= s0.idx < count && i < |ticks|
    requires Iterate(count, numSec, s0, ticks[..i]) == Outcome(s, before, false)
    requires Transition(count, numSec, s, ticks[i]) == Exit
    ensures Iterate(count, numSec, s0, ticks) == Outcome(s, before, true)
  {
    IterateAppend(count, numSec, s0, ticks[..i], ticks[i..]);
    assert ticks[..i] + ticks[i..] == ticks;
    assert ticks[i..][0] == ticks[i];
  }

  /** Between timed switches nothing happens: with rotation on and no
      key pressed, passes that come less than `numSec + 1` seconds after
      the last timed switch leave the state as it is. */
  lemma {:induction false} QuietWindow(count: int, numSec: int, s: LoopState, ticks: seq<Tick>)
    requires 0 <= s.idx < count && 0 < numSec < SecondsPerDay
    requires forall i :: 0 <= i < |ticks| ==>
               ticks[i].key !in {Esc, PrevKey, NextKey} &&
               0 <= ticks[i].now - s.t1 < (numSec + 1) * MicrosPerSecond
    ensures Iterate(count, numSec, s, ticks) == Outcome(s, [], false)
    decreases |ticks|
  {
    if ticks != [] {
      TimerDueWithinADay(numSec, s.t1, ticks[0].now);
      assert Transition(count, numSec, s, ticks[0]) == Continue(s, []);
      QuietWindow(count, numSec, s, ticks[1..]);
    }
  }

  /** One pass per second, at `first` seconds and on up to but not
      including `last`, with no key pressed (`waitKey` returns -1) and
      both clock readings of a pass equal. */
  function SecondTicks(first: nat, last: nat): (ticks: seq<Tick>)
    requires first <= last
    ensures |ticks| == last - first
    ensures forall i :: 0 <= i < |ticks| ==>
              ticks[i] == Tick(-1, (first + i) * MicrosPerSecond, (first + i) * MicrosPerSecond)
    decreases last - first
  {
    if first == last then []
    else [Tick(-1, first * MicrosPerSecond, first * MicrosPerSecond)] + SecondTicks(first + 1, last)
  }

  /** Consecutive stretches of passes join up. */
  lemma {:induction false} SecondTicksSplit(first: nat, mid: nat, last: nat)
    requires first <= mid <= last
    ensures SecondTicks(first, last) == SecondTicks(first, mid) + SecondTicks(mid, last)
    decreases mid - first
  {
    if first < mid {
      SecondTicksSplit(first + 1, mid, last);
    }
  }

  /** With no key pressed, the pass at which the timer fires moves to the
      next model and restarts the timer at that pass's clock. */
  lemma {:induction false} TimedSwitchAt(count: int, numSec: int, s: LoopState, sec: nat)
    requires 0 <= s.idx < count && 0 < numSec < SecondsPerDay
    requires s.t1 + (numSec + 1) * MicrosPerSecond <= sec * MicrosPerSecond < s.t1 + SecondsPerDay * MicrosPerSecond
    ensures var j := Next(s.idx, count);
              Iterate(count, numSec, s, SecondTicks(sec, sec + 1)) ==
              Outcome(LoopState(j, sec * MicrosPerSecond), [j], false)
  {
    var t := Tick(-1, sec * MicrosPerSecond, sec * MicrosPerSecond);
    assert SecondTicks(sec, sec + 1) == [t];
    TimerDueWithinADay(numSec, s.t1, t.now);
    assert Transition(count, numSec, s, t) ==
           Continue(LoopState(Next(s.idx, count), t.resetNow), [Next(s.idx, count)]);
    assert [t][1..] == [];
  }

  /** A quiet stretch followed by the timed switch: with no key pressed
      and one pass per second from `first` on, the pass at exactly
      `numSec + 1` seconds after the last timed switch moves to the next
      model, and no pass before it does anything. */
  lemma {:induction false} QuietThenSwitch(count: int, numSec: int, s: LoopState, first: nat, sec: nat)
    requires 0 <= s.idx < count && 0 < numSec < SecondsPerDay - 1
    requires s.t1 <= first * MicrosPerSecond && first <= sec
    requires sec * MicrosPerSecond == s.t1 + (numSec + 1) * MicrosPerSecond
    ensures var j := Next(s.idx, count);
            Iterate(count, numSec, s, SecondTicks(first, sec + 1)) ==
            Outcome(LoopState(j, sec * MicrosPerSecond), [j], false)
  {
    var quiet, fire := SecondTicks(first, sec), SecondTicks(sec, sec + 1);
    QuietWindow(count, numSec, s, quiet);
    TimedSwitchAt(count, numSec, s, sec);
    SecondTicksSplit(first, sec, sec + 1);
    IterateAppend(count, numSec, s, quiet, fire);
  }

  /** With rotation every `numSec` seconds, one pass per second from
      1 s and no key, the first timed switch comes at `numSec + 1`
      seconds, since the comparison is strict; up to `2 * numSec + 1`
      seconds nothing else happens. */
  lemma {:induction false} FirstTimedSwitch(count: int, numSec: int)
    requires 0 < count && 0 < numSec < SecondsPerDay - 1
    ensures var j := Next(0, count);
            Iterate(count, numSec, LoopState(0, 0), SecondTicks(1, 2 * numSec + 2)) ==
            Outcome(LoopState(j, (numSec + 1) * MicrosPerSecond), [j], false)
  {
    var n := numSec;
    var s1 := LoopState(Next(0, count), (n + 1) * MicrosPerSecond);
    var quiet := SecondTicks(n + 2, 2 * n + 2);
    QuietThenSwitch(count, n, LoopState(0, 0), 1, n + 1);
    QuietWindow(count, n, s1, quiet);
    SecondTicksSplit(1, n + 2, 2 * n + 2);
    IterateAppend(count, n, LoopState(0, 0), SecondTicks(1, n + 2), quiet);
  }

  /** One second later the second timed switch comes, at `2 * numSec + 2`
      seconds. */
  lemma {:induction false} SecondTimedSwitch(count: int, numSec: int)
    requires 0 < count && 0 < numSec < SecondsPerDay - 1
    ensures var j := Next(0, count);
            var k := Next(j, count);
            Iterate(count, numSec, LoopState(0, 0), SecondTicks(1, 2 * numSec + 3)) ==
            Outcome(LoopState(k, (2 * numSec + 2) * MicrosPerSecond), [j, k], false)
  {
    var n := numSec;
    var s1 := LoopState(Next(0, count), (n + 1) * MicrosPerSecond);
    QuietThenSwitch(count, n, LoopState(0, 0), 1, n + 1);
    QuietThenSwitch(count, n, s1, n + 2, 2 * n + 2);
    SecondTicksSplit(1, n + 2, 2 * n + 3);
    IterateAppend(count, n, LoopState(0, 0), SecondTicks(1, n + 2), SecondTicks(n + 2, 2 * n + 3));
  }

  /** Two models and a five-second interval: at 11 s the index has
      advanced only once, to model 1, at 6 s. */
  lemma TwoModelsElevenSeconds()
    ensures Iterate(2, 5, LoopState(0, 0), SecondTicks(1, 12)) ==
            Outcome(LoopState(1, 6 * MicrosPerSecond), [1], false)
  {
    FirstTimedSwitch(2, 5);
  }

  /** The same run one second longer: the second switch, at 12 s, wraps
      back to model 0. */
  lemma TwoModelsTwelveSeconds()
    ensures Iterate(2, 5, LoopState(0, 0), SecondTicks(1, 13)) ==
            Outcome(LoopState(0, 12 * MicrosPerSecond), [1, 0], false)
  {
    SecondTimedSwitch(2, 5);
  }

  /** The loop's mutable state: the active model, the time of the last
      timed switch, and the model whose checkpoint and style image were
      loaded last. */
  class Session {
    const count: nat
    const numSec: int
    var idx: int
    var t1: int
    var loaded: int

    /** The index is in range and the model loaded is the active one. */
    ghost predicate Valid()
      reads this
    {
      0 <= idx < count && loaded == idx
    }

    function State(): LoopState
      reads this
    {
      LoopState(idx, t1)
    }

    /** Set-up before the loop: the timer starts at `start` and model 0 is
      loaded. `count` is the number of registry entries; an empty
      registry makes the source fault on its first lookup, so it is
      excluded. */
    constructor (count: nat, numSec: int, start: int)
      requires count > 0
      ensures Valid()
      ensures this.count == count && this.numSec == numSec
      ensures idx == 0 && t1 == start && loaded == 0
    {
      this.count := count;
      this.numSec := numSec;
      t1 := start;
      idx := 0;
      loaded := 0;
    }

    /** The key handling of a pass, for any key but ESC: `a` and `s`
      switch models and reload, anything else does nothing. Returns the
      indices reloaded. */
    method HandleKey(key: int) returns (reloaded: seq<int>)
      requires Valid() && key != Esc
      modifies this
      ensures Valid() && t1 == old(t1)
      ensures idx == KeySwitch(old(idx), count, key)
      ensures reloaded == if key == PrevKey || key == NextKey then [idx] else []
    {
      reloaded := [];
      if key == PrevKey {
        PrevFormula(idx, count);
        idx := (idx + count - 1) % count;
        loaded := idx;
        reloaded := [idx];
      } else if key == NextKey {
        NextFormula(idx, count);
        idx := (idx + 1) % count;
        loaded := idx;
        reloaded := [idx];
      }
    }

    /** The timer check that closes a pass: a timed switch restarts the
      timer at `resetNow`, moves to the next model and reloads it. */
    method CheckTimer(now: int, resetNow: int) returns (reloaded: seq<int>)
      requires Valid()
      modifies this
      ensures Valid()
      ensures TimerDue(numSec, old(t1), now) ==>
                idx == Next(old(idx), count) && t1 == resetNow && reloaded == [idx]
      ensures !TimerDue(numSec, old(t1), now) ==>
                idx == old(idx) && t1 == old(t1) && reloaded == []
    {
      reloaded := [];
      var dt := now - t1;
      if numSec > 0 && (dt / MicrosPerSecond) % SecondsPerDay > numSec {
        t1 := resetNow;
        NextFormula(idx, count);
        idx := (idx + 1) % count;
        loaded := idx;
        reloaded := [idx];
      }
    }

    /** One pass of the loop: returns whether ESC was read, and the indices
      reloaded, in order. */
    method Step(t: Tick) returns (exit: bool, reloaded: seq<int>)
      requires Valid()
      modifies this
      ensures Valid()
      ensures exit <==> t.key == Esc
      ensures Transition(count, numSec, old(State()), t) ==
              if exit then Exit else Continue(State(), reloaded)
      ensures exit ==> State() == old(State()) && reloaded == []
    {
      if t.key == Esc {
        return true, [];
      }
      var byKey := HandleKey(t.key);
      var byTimer := CheckTimer(t.now, t.resetNow);
      exit, reloaded := false, byKey + byTimer;
    }

    /** The loop itself, over the passes in `ticks`: stops at ESC or when
      the input runs out. Returns whether ESC stopped it, and every index
      reloaded, in order. */
    method Run(ticks: seq<Tick>) returns (exited: bool, reloaded: seq<int>)
      requires Valid()
      modifies this
      ensures Valid()
      ensures Iterate(count, numSec, old(State()), ticks) == Outcome(State(), reloaded, exited)
    {
      ghost var s0 := State();
      exited, reloaded := false, [];
      var i := 0;
      assert ticks[..i] == [];
      while i < |ticks|
        invariant Valid()
        invariant 0 <= i <= |ticks|
        invariant Iterate(count, numSec, s0, ticks[..i]) == Outcome(State(), reloaded, false)
      {
        ghost var sb := State();
        var exit, pass := Step(ticks[i]);
        if exit {
          RunStops(count, numSec, s0, ticks, i, sb, reloaded);
          exited := true;
          return;
        }
        RunOneMore(count, numSec, s0, ticks, i, sb, reloaded, State(), pass);
        reloaded := reloaded + pass;
        i := i + 1;
      }
      assert ticks[..i] == ticks;
    }
  }
}
