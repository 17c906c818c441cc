/** Frame pacing: the `VSync` schedule, the trailing active-cadence counter
    kept by the renderer, and the frames-per-second rule of initialisation.
    Clock readings and the answers of the non-blocking input peek are
    inputs; the real clock and the sleeps between readings are not modelled. */
module Pacing {

  /** `uint64_t` arithmetic wraps modulo 2^64. */
  const TwoTo64: int := 0x1_0000_0000_0000_0000

  /** A microsecond timestamp or interval held in a `uint64_t`. */
  type Micros = t: int | 0 <= t < TwoTo64

  /** The value `wgetch` returns when no input is pending. */
  const ERR: int := -1

  function Add64(a: Micros, b: Micros): (r: Micros)
    ensures r == a + b || r == a + b - TwoTo64
    ensures a + b < TwoTo64 ==> r == a + b
  {
    (a + b) % TwoTo64
  }

  /** Wrapping subtraction; adding `b` back gives `a` again. */
  function Sub64(a: Micros, b: Micros): (r: Micros)
    ensures Add64(r, b) == a
    ensures b <= a ==> r == a - b
  {
    (a - b) % TwoTo64
  }

  /** `wait` stops sleeping once the clock is within this many microseconds
      of the scheduled tick. */
  const WakeSlack: Micros := 100

  /** The loop condition of `wait`: `tNow_us < tNextCur_us - 100`, with the
      subtraction wrapping as `uint64_t` does. */
  predicate StillWaiting(now: Micros, deadline: Micros)
  {
    now < Sub64(deadline, WakeSlack)
  }

  /** `tNow_us + 0.5*tStepActive_us < tNextCur_us`, doubled on both sides so
      that it is decided exactly in integers: input is only peeked at while
      at least half an active step remains. */
  predicate MayPeek(now: Micros, stepActive: Micros, deadline: Micros)
  {
    2 * now + stepActive < 2 * deadline
  }

  /** How a call of `wait` ends: at the scheduled tick, or early because a
      peeked character was pushed back with `ungetch`. */
  datatype WaitResult = Completed | PushedBack(ch: int)

  /** The next answer of the input peek: an exhausted sequence reads `ERR`. */
  function NextInput(pending: seq<int>): int
  {
    if |pending| == 0 then ERR else pending[0]
  }

  function DropInput(pending: seq<int>): seq<int>
  {
    if |pending| == 0 then [] else pending[1..]
  }

  /** The loop of `wait` over successive clock readings `clock` (the first
      one taken on entry, each later one after a sleep) and successive peek
      answers `pending` (one consumed per peek). The last reading must reach
      the wake threshold: that is what the clock advancing guarantees. */
  function WaitLoop(stepActive: Micros, deadline: Micros, clock: seq<Micros>, pending: seq<int>): WaitResult
    requires clock != [] && !StillWaiting(clock[|clock| - 1], deadline)
    decreases |clock|
  {
    var now := clock[0];
    if !StillWaiting(now, deadline) then Completed
    else if MayPeek(now, stepActive, deadline) && NextInput(pending) != ERR then PushedBack(NextInput(pending))
    else WaitLoop(stepActive, deadline, clock[1..], if MayPeek(now, stepActive, deadline) then DropInput(pending) else pending)
  }

  /** An early return only ever pushes back a real character that the peek
      read from the pending input. */
  lemma {:induction false} PushedBackIsPendingInput(stepActive: Micros, deadline: Micros, clock: seq<Micros>, pending: seq<int>)
    requires clock != [] && !StillWaiting(clock[|clock| - 1], deadline)
    ensures var r := WaitLoop(stepActive, deadline, clock, pending);
            r.PushedBack? ==> r.ch != ERR && r.ch in pending
    decreases |clock|
  {
    var now := clock[0];
    if StillWaiting(now, deadline) && !(MayPeek(now, stepActive, deadline) && NextInput(pending) != ERR) {
      var rest := if MayPeek(now, stepActive, deadline) then DropInput(pending) else pending;
      PushedBackIsPendingInput(stepActive, deadline, clock[1..], rest);
      var r := WaitLoop(stepActive, deadline, clock[1..], rest);
      if r.PushedBack? {
        assert r.ch in rest;
        if rest != pending {
          assert pending == [pending[0]] + rest;
        }
      }
    }
  }

  /** With no input pending, `wait` always runs to the scheduled tick. */
  lemma {:induction false} NoInputRunsToTick(stepActive: Micros, deadline: Micros, clock: seq<Micros>, pending: seq<int>)
    requires clock != [] && !StillWaiting(clock[|clock| - 1], deadline)
    requires forall i | 0 <= i < |pending| :: pending[i] == ERR
    ensures WaitLoop(stepActive, deadline, clock, pending) == Completed
    decreases |clock|
  {
    var now := clock[0];
    if StillWaiting(now, deadline) {
      var rest := if MayPeek(now, stepActive, deadline) then DropInput(pending) else pending;
      NoInputRunsToTick(stepActive, deadline, clock[1..], rest);
    }
  }

  /** `VSync`: the two step lengths and the two timestamps it updates. */
  class VSync {
    var tStepActive: Micros
    var tStepIdle: Micros
    var tLast: Micros
    var tNext: Micros

    /** Both timestamps start at the clock reading taken on construction. */
    constructor (stepActive: Micros, stepIdle: Micros, now: Micros)
      ensures tStepActive == stepActive && tStepIdle == stepIdle
      ensures tLast == now && tNext == now
    {
      tStepActive, tStepIdle := stepActive, stepIdle;
      tLast, tNext := now, now;
    }

    function Step(active: bool): Micros
      reads this
    {
      if active then tStepActive else tStepIdle
    }

    /** The readings given to `Wait` end at or past its wake threshold. */
    predicate ClockCovers(active: bool, clock: seq<Micros>)
      reads this
    {
      clock != [] && !StillWaiting(clock[|clock| - 1], Add64(tNext, Step(active)))
    }

    /** `wait(active)`: sleeps towards the tick one step after `tNext`,
        returns early when a peek finds input (pushing it back), and on the
        normal path advances `tNext` by exactly one step, however late the
        call was. */
    method Wait(active: bool, clock: seq<Micros>, pending: seq<int>) returns (r: WaitResult)
      requires ClockCovers(active, clock)
      modifies this`tNext
      ensures r == WaitLoop(tStepActive, Add64(old(tNext), Step(active)), clock, pending)
      ensures tNext == if r.Completed? then Add64(old(tNext), Step(active)) else old(tNext)
      ensures !StillWaiting(clock[0], Add64(old(tNext), Step(active))) ==> r == Completed
    {
      var tStep := if active then tStepActive else tStepIdle;
      var tNextCur := Add64(tNext, tStep);
      var i, j := 0, 0;
      var tNow := clock[0];
      while StillWaiting(tNow, tNextCur)
        invariant 0 <= i < |clock| && tNow == clock[i] && 0 <= j <= |pending|
        invariant WaitLoop(tStepActive, tNextCur, clock[i..], pending[j..])
               == WaitLoop(tStepActive, tNextCur, clock, pending)
        decreases |clock| - i
      {
        if MayPeek(tNow, tStepActive, tNextCur) {
          var ch := NextInput(pending[j..]);
          if j < |pending| {
            j := j + 1;
          }
          if ch != ERR {
            // ungetch(ch); the source's store into the local tNextCur_us
            // before returning has no effect
            return PushedBack(ch);
          }
        }
        // sleep_for(...), then tNow_us = t_us()
        i := i + 1;
        tNow := clock[i];
      }
      tNext := tNextCur;
      r := Completed;
    }

    /** `delta_s`: the time since the previous call, in microseconds (the
        conversion to seconds as a `float` is not modelled). */
    method DeltaMicros(now: Micros) returns (d: Micros)
      modifies this`tLast
      ensures Add64(old(tLast), d) == now
      ensures tLast == now
    {
      d := Sub64(now, tLast);
      tLast := now;
    }
  }

  /** The idle frame rate chosen by initialisation: a negative idle rate
      means "same as active", and idle is never faster than active. */
  function NormalizeIdleFps(fpsActive: real, fpsIdle: real): (r: real)
    ensures r <= fpsActive
    ensures fpsIdle < 0.0 ==> r == fpsActive
    ensures 0.0 <= fpsIdle <= fpsActive ==> r == fpsIdle
    ensures fpsIdle > fpsActive ==> r == fpsActive
  {
    var idle := if fpsIdle < 0.0 then fpsActive else fpsIdle;
    if idle < fpsActive then idle else fpsActive
  }

  /** Normalising twice changes nothing. */
  lemma NormalizeIdempotent(fpsActive: real, fpsIdle: real)
    ensures NormalizeIdleFps(fpsActive, NormalizeIdleFps(fpsActive, fpsIdle))
         == NormalizeIdleFps(fpsActive, fpsIdle)
  {
  }

  /** The step of a frame rate, `1000000.0/fps` truncated to `uint64_t`. */
  function StepMicros(fps: real): (r: Micros)
    requires fps > 0.0 && 1000000.0 / fps < TwoTo64 as real
    ensures r as real <= 1000000.0 / fps < r as real + 1.0
  {
    (1000000.0 / fps).Floor
  }

  /** After normalisation the idle step is never shorter than the active
      step, so the idle cadence never runs faster than the active one. */
  lemma IdleStepNotShorter(fpsActive: real, fpsIdle: real)
    requires fpsActive > 0.0 && 1000000.0 / fpsActive < TwoTo64 as real
    requires NormalizeIdleFps(fpsActive, fpsIdle) > 0.0
    requires 1000000.0 / NormalizeIdleFps(fpsActive, fpsIdle) < TwoTo64 as real
    ensures StepMicros(NormalizeIdleFps(fpsActive, fpsIdle)) >= StepMicros(fpsActive)
  {
    var idle := NormalizeIdleFps(fpsActive, fpsIdle);
    DivideAntitone(1000000.0, idle, fpsActive);
  }

  lemma DivideAntitone(n: real, a: real, b: real)
    requires n > 0.0 && 0.0 < a <= b
    ensures n / b <= n / a
  {
    assert n / b * b == n == n / a * a;
  }

  /** The pacing set-up of initialisation: normalise the idle rate and build
      the schedule from the two rates. */
  method ConfigurePacing(fpsActive: real, fpsIdle: real, now: Micros) returns (v: VSync)
    requires fpsActive > 0.0 && 1000000.0 / fpsActive < TwoTo64 as real
    requires NormalizeIdleFps(fpsActive, fpsIdle) > 0.0
    requires 1000000.0 / NormalizeIdleFps(fpsActive, fpsIdle) < TwoTo64 as real
    ensures fresh(v) && v.tLast == now && v.tNext == now
    ensures v.tStepActive == StepMicros(fpsActive)
    ensures v.tStepIdle == StepMicros(NormalizeIdleFps(fpsActive, fpsIdle))
    ensures v.tStepIdle >= v.tStepActive
  {
    var idle := NormalizeIdleFps(fpsActive, fpsIdle);
    IdleStepNotShorter(fpsActive, fpsIdle);
    v := new VSync(StepMicros(fpsActive), StepMicros(idle), now);
  }

  /** The renderer keeps the active cadence for this many frames, counting
      the one that asked for it. */
  const ActiveFrames: int := 10

  /** `if (active) nActiveFrames = 10; ... wait(nActiveFrames-- > 0)`:
      the flag handed to `wait`, and the counter afterwards. */
  function CadenceFlag(counter: int, active: bool): bool
  {
    (if active then ActiveFrames else counter) > 0
  }

  function CadenceNext(counter: int, active: bool): int
  {
    (if active then ActiveFrames else counter) - 1
  }

  /** The flags handed to `wait` by a sequence of renders, starting from
      the given counter. */
  function Flags(counter: int, actives: seq<bool>): (r: seq<bool>)
    ensures |r| == |actives|
    decreases |actives|
  {
    if |actives| == 0 then []
    else [CadenceFlag(counter, actives[0])] + Flags(CadenceNext(counter, actives[0]), actives[1..])
  }

  /** Some render with an index in [lo, hi] asked for the active cadence. */
  ghost predicate ActiveWithin(actives: seq<bool>, lo: int, hi: int)
  {
    exists j :: lo <= j <= hi && 0 <= j < |actives| && actives[j]
  }

  /** The cadence from any starting counter: render k runs active iff one
      of the last ten renders asked for it, or none ever did and the
      starting counter has not run out. */
  lemma {:induction false} FlagsWindow(counter: int, actives: seq<bool>, k: nat)
    requires k < |actives|
    ensures Flags(counter, actives)[k] <==>
              ActiveWithin(actives, k - (ActiveFrames - 1), k)
              || (!ActiveWithin(actives, 0, k) && counter > k)
    decreases k
  {
    if k == 0 {
      if actives[0] {
        assert ActiveWithin(actives, 0, 0);
      }
    } else {
      var tail := actives[1..];
      var next := CadenceNext(counter, actives[0]);
      FlagsWindow(next, tail, k - 1);
      assert Flags(counter, actives)[k] == Flags(next, tail)[k - 1];
      ShiftWithin(actives, k - ActiveFrames, k - 1);
      ShiftWithin(actives, -1, k - 1);
      if actives[0] && k < ActiveFrames {
        assert ActiveWithin(actives, k - (ActiveFrames - 1), k);
      }
    }
  }

  /** Dropping the first render shifts every window by one. */
  lemma ShiftWithin(actives: seq<bool>, lo: int, hi: int)
    requires actives != []
    ensures ActiveWithin(actives[1..], lo, hi) <==> ActiveWithin(actives, if lo + 1 < 1 then 1 else lo + 1, hi + 1)
  {
    var tail := actives[1..];
    if ActiveWithin(tail, lo, hi) {
      var j :| lo <= j <= hi && 0 <= j < |tail| && tail[j];
      assert actives[j + 1] == tail[j];
    }
    if ActiveWithin(actives, if lo + 1 < 1 then 1 else lo + 1, hi + 1) {
      var j :| (if lo + 1 < 1 then 1 else lo + 1) <= j <= hi + 1 && 0 <= j < |actives| && actives[j];
      assert tail[j - 1] == actives[j];
    }
  }

  /** From the renderer's initial counter of 10: render k passes
      `active = true` to `wait` iff it is one of the first ten renders or
      one of the last ten renders (itself included) asked for it. */
  lemma ActiveTrail(actives: seq<bool>, k: nat)
    requires k < |actives|
    ensures Flags(ActiveFrames, actives)[k] <==>
              k < ActiveFrames || ActiveWithin(actives, k - (ActiveFrames - 1), k)
  {
    FlagsWindow(ActiveFrames, actives, k);
    if k < ActiveFrames && ActiveWithin(actives, 0, k) {
      var j :| 0 <= j <= k && 0 <= j < |actives| && actives[j];
      assert k - (ActiveFrames - 1) <= j;
    }
  }
}
