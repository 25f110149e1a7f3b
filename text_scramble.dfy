/** One TextScramble component instance (src/components/TextScramble.tsx):
    the re-entrancy guard, the per-run arrays that the tick loop updates in
    place, the displayed value, and the three trigger policies.

    Scheduling is explicit. A pending animation frame exists exactly while
    `animating` holds, so a frame callback is a call of Tick, which requires
    it. A pending `setTimeout(scramble, delay * 1000)` is a flag or a counter,
    and its firing is a call of LoadTimerFires or ScrollTimerFires. Random
    draws come in as `picks`, one index into CHARS per position. */
module TextScrambleEffect {
  import opened ScrambleSpec

  datatype Trigger = Load | Scroll | Hover

  class TextScramble {
    const text: string
    const mode: Trigger
    const speed: real

    /** The value rendered inside the component's element. */
    var displayed: string
    /** `animatingRef`: a run is in progress (a frame callback is pending). */
    var animating: bool
    /** `hasTriggeredRef`: the load policy has scheduled its run. */
    var hasTriggered: bool

    // State of the latest run; each run allocates fresh arrays.
    var resolved: array<bool>
    var current: array<string>
    var frame: nat

    // Outstanding timers of the trigger policies.
    /** The load policy's timer is pending (cleared by the effect cleanup). */
    var loadTimer: bool
    /** This instance's ScrollTrigger is live and has not fired `onEnter`. */
    var scrollArmed: bool
    /** Timers started by `onEnter` that have not fired yet. */
    var scrollTimers: nat

    /** Some run has been started on this instance. */
    ghost var started: bool
    /** How many runs have been started (calls of scramble that were not absorbed). */
    ghost var runs: nat
    /** How many times the trigger effect body has run. */
    ghost var effectRuns: nat

    /** The per-run invariant: both arrays have one entry per character of
        the text, `resolved` is the closed form ResolvedAt of the frame
        counter, each entry of `current` is what the latest tick wrote (""
        before the first tick), and the run is in progress exactly while it
        has not finished. Once finished, the displayed value is the text. */
    ghost predicate RunInv()
      reads this, resolved, current
      requires speed > 0.0
    {
      resolved.Length == |text| && current.Length == |text| &&
      RunStateOk(text, speed, frame, resolved[..], current[..], animating, displayed)
    }

    /** The trigger invariant: each policy only uses its own timers, the load
        policy starts at most one run, and the scroll policy starts at most
        one run per time its effect ran. */
    ghost predicate TriggerInv()
      reads this
    {
      (mode != Load ==> !loadTimer && !hasTriggered) &&
      (mode != Scroll ==> !scrollArmed && scrollTimers == 0) &&
      (mode == Load ==>
         runs + (if loadTimer then 1 else 0) <= (if hasTriggered then 1 else 0) <= effectRuns) &&
      (mode == Scroll ==> runs + scrollTimers + (if scrollArmed then 1 else 0) <= effectRuns)
    }

    ghost predicate Valid()
      reads this, resolved, current
    {
      speed > 0.0 &&
      (animating ==> started) &&
      (started ==> RunInv())
    }

    /** Mounting the component: the initial value is "" for the load policy
        and the text itself otherwise; nothing runs yet. */
    constructor (text: string, mode: Trigger, speed: real)
      requires speed > 0.0
      ensures Valid() && TriggerInv()
      ensures this.text == text && this.mode == mode && this.speed == speed
      ensures displayed == (if mode == Load then "" else text)
      ensures !animating && !hasTriggered && !started && runs == 0 && effectRuns == 0
      ensures !loadTimer && !scrollArmed && scrollTimers == 0
    {
      this.text := text;
      this.mode := mode;
      this.speed := speed;
      displayed := if mode == Load then "" else text;
      animating := false;
      hasTriggered := false;
      resolved := new bool[0];
      current := new string[0];
      frame := 0;
      loadTimer := false;
      scrollArmed := false;
      scrollTimers := 0;
      started := false;
      runs := 0;
      effectRuns := 0;
    }

    /** `scramble()`: absorbed while a run is in progress; otherwise sets the
        guard, starts a run with fresh arrays (`resolved` all false, `current`
        all "", frame 0), shows the initial scramble and requests a frame. */
    method Scramble(picks: seq<nat>)
      requires Valid()
      requires |picks| == |text| && ValidPicks(picks)
      modifies this`animating, this`resolved, this`current, this`frame, this`displayed
      modifies this`started, this`runs
      ensures Valid()
      ensures old(animating) ==>
        animating && displayed == old(displayed) && runs == old(runs) &&
        resolved == old(resolved) && current == old(current) && frame == old(frame)
      ensures !old(animating) ==>
        animating && runs == old(runs) + 1 && fresh(resolved) && fresh(current) &&
        resolved.Length == |text| && current.Length == |text| &&
        (forall i :: 0 <= i < |text| ==> !resolved[i] && current[i] == "") &&
        frame == 0 && displayed == InitialScramble(text, picks)
    {
      if animating {
        return;
      }
      var res, cur := FreshRunArrays();
      RunStartOk(text, speed, res[..], cur[..], InitialScramble(text, picks));
      animating, resolved, current, frame := true, res, cur, 0;
      displayed := InitialScramble(text, picks);
      started, runs := true, runs + 1;
    }

    /** The arrays a new run starts from: nothing resolved, nothing shown. */
    method FreshRunArrays() returns (res: array<bool>, cur: array<string>)
      ensures fresh(res) && fresh(cur) && res.Length == |text| && cur.Length == |text|
      ensures forall i :: 0 <= i < |text| ==> !res[i] && cur[i] == ""
    {
      res := new bool[|text|](_ => false);
      cur := new string[|text|](_ => "");
    }

    /** One frame callback, `update()`: increments the frame counter, then
        updates every position in place, left to right; emits the joined
        value; ends the run (clearing the guard and forcing the displayed
        value to the text) when every position is resolved, and otherwise
        requests the next frame. */
    method Tick(picks: seq<nat>) returns (emitted: string, requested: bool)
      requires Valid() && animating
      requires |picks| == |text| && ValidPicks(picks)
      modifies this`frame, this`animating, this`displayed, resolved, current
      ensures Valid()
      ensures frame == old(frame) + 1
      ensures resolved[..] == StepResolved(text, speed, frame, old(resolved[..]))
      ensures current[..] == StepCurrent(text, old(resolved[..]), picks)
      // What the tick emits (its shape is the lemma EmittedShape).
      ensures emitted == Concat(current[..])
      // Another frame is requested exactly when something is unresolved;
      // otherwise the guard is cleared and the text is shown exactly.
      ensures requested == animating && (requested <==> !AllTrue(resolved[..]))
      ensures displayed == if requested then emitted else text
    {
      Advance(picks);
      emitted := Concat(current[..]);
      requested := Finish(emitted);
    }

    /** The first half of `update()`: the frame counter is incremented and
        every position is updated, which keeps the closed forms of the run. */
    method Advance(picks: seq<nat>)
      requires speed > 0.0 && resolved.Length == |text| && current.Length == |text|
      requires ResolvedMatches(text, speed, frame, resolved[..])
      requires |picks| == |text| && ValidPicks(picks)
      modifies this`frame, resolved, current
      ensures frame == old(frame) + 1
      ensures resolved[..] == StepResolved(text, speed, frame, old(resolved[..]))
      ensures current[..] == StepCurrent(text, old(resolved[..]), picks)
      ensures ResolvedMatches(text, speed, frame, resolved[..])
      ensures CurrentMatches(text, speed, frame, current[..])
    {
      TickStep(text, speed, frame, resolved[..], picks);
      frame := frame + 1;
      UpdatePositions(picks);
    }

    /** The second half of `update()`: the emitted value is shown; when every
        position is resolved the guard is cleared and the text is shown
        instead, and otherwise a frame is requested. */
    method Finish(emitted: string) returns (requested: bool)
      requires speed > 0.0 && started && animating && resolved.Length == |text| && current.Length == |text|
      requires frame >= 1
      requires ResolvedMatches(text, speed, frame, resolved[..])
      requires CurrentMatches(text, speed, frame, current[..])
      modifies this`animating, this`displayed
      ensures Valid()
      ensures requested == animating && (requested <==> !AllTrue(resolved[..]))
      ensures displayed == if requested then emitted else text
    {
      AllResolvedIffFinished(text, speed, frame, resolved[..]);
      requested := !AllTrue(resolved[..]);
      if requested {
        displayed := emitted;
      } else {
        animating, displayed := false, text;
      }
    }

    /** The `for` loop of `update()`: one left-to-right pass over the
        positions at the current frame counter, in place. */
    method UpdatePositions(picks: seq<nat>)
      requires speed > 0.0 && resolved.Length == |text| && current.Length == |text|
      requires |picks| == |text| && ValidPicks(picks)
      modifies resolved, current
      ensures resolved[..] == StepResolved(text, speed, frame, old(resolved[..]))
      ensures current[..] == StepCurrent(text, old(resolved[..]), picks)
    {
      ghost var was := resolved[..];
      var n := |text|;
      var i := 0;
      while i < n
        invariant 0 <= i <= n
        invariant forall k :: 0 <= k < i ==>
          resolved[k] == ResolvesOnTick(text[k], was[k], frame, k, speed)
        invariant forall k :: i <= k < n ==> resolved[k] == was[k]
        invariant forall k :: 0 <= k < i ==> current[k] == Shown(text[k], was[k], picks[k])
      {
        if resolved[i] {
          current[i] := [text[i]];
        } else if text[i] == SPACE {
          current[i] := [SPACE];
          resolved[i] := true;
        } else {
          current[i] := [CHARS[picks[i]]];
          if Crossed(frame, i, speed) {
            resolved[i] := true;
          }
        }
        i := i + 1;
      }
    }

    /** The frame loop driven to its end: with a positive speed the run
        finishes, within RunBound ticks of its start, with the guard cleared
        and the text shown exactly. `oracle(f)` holds the draws of tick f. */
    method RunToEnd(oracle: nat -> seq<nat>)
      requires Valid() && animating
      requires forall f: nat :: |oracle(f)| == |text| && ValidPicks(oracle(f))
      modifies this`frame, this`animating, this`displayed, resolved, current
      ensures Valid()
      ensures !animating && displayed == text
      ensures old(frame) < frame <= RunBound(text, speed)
    {
      var requested := true;
      var f0 := frame;
      while requested
        invariant Valid()
        invariant requested == animating
        invariant requested ==> frame < RunBound(text, speed)
        invariant frame <= RunBound(text, speed)
        invariant f0 == old(frame) && (requested || f0 < frame)
        decreases RunBound(text, speed) - frame
      {
        var picks := oracle(frame + 1);
        var emitted;
        emitted, requested := Tick(picks);
        if requested && frame >= RunBound(text, speed) {
          RunTerminates(text, speed, frame);
        }
      }
    }

    /** The trigger effect body. Load: on its first run only, marks the
        instance triggered and schedules the delayed run. Scroll: creates a
        ScrollTrigger with `once: true` (the element is assumed mounted).
        Hover: nothing. */
    method Effect()
      requires Valid() && TriggerInv()
      modifies this`effectRuns, this`hasTriggered, this`loadTimer, this`scrollArmed
      ensures Valid() && TriggerInv()
      ensures effectRuns == old(effectRuns) + 1
      ensures mode == Load && !old(hasTriggered) ==> hasTriggered && loadTimer
      ensures mode == Load && old(hasTriggered) ==> hasTriggered && loadTimer == old(loadTimer)
      ensures mode == Scroll ==> scrollArmed
      ensures mode == Hover ==> !hasTriggered && !loadTimer && !scrollArmed
    {
      effectRuns := effectRuns + 1;
      if mode == Load && !hasTriggered {
        hasTriggered := true;
        loadTimer := true;
        return;
      }
      if mode == Scroll {
        scrollArmed := true;
      }
    }

    /** The effect cleanup: clears the load timer, or kills the scroll
        trigger. Timers already started by `onEnter` are not cleared, and
        neither is a pending frame. */
    method EffectCleanup()
      requires Valid() && TriggerInv()
      modifies this`loadTimer, this`scrollArmed
      ensures Valid() && TriggerInv()
      ensures !loadTimer && !scrollArmed
    {
      if mode == Load {
        loadTimer := false;
      } else if mode == Scroll {
        scrollArmed := false;
      }
    }

    /** The load policy's delayed call of scramble: the timer is used up and
        scramble runs, with the same outcome as a direct call. */
    method LoadTimerFires(picks: seq<nat>)
      requires Valid() && TriggerInv() && loadTimer
      requires |picks| == |text| && ValidPicks(picks)
      modifies this`loadTimer, this`animating, this`resolved, this`current, this`frame
      modifies this`displayed, this`started, this`runs
      ensures Valid() && TriggerInv()
      ensures !loadTimer && hasTriggered
      // The load policy starts at most one run over the instance's lifetime.
      ensures runs <= 1
      ensures old(animating) ==>
        animating && displayed == old(displayed) && runs == old(runs) &&
        resolved == old(resolved) && current == old(current) && frame == old(frame)
      ensures !old(animating) ==>
        animating && runs == old(runs) + 1 && fresh(resolved) && fresh(current) &&
        resolved.Length == |text| && current.Length == |text| &&
        (forall i :: 0 <= i < |text| ==> !resolved[i] && current[i] == "") &&
        frame == 0 && displayed == InitialScramble(text, picks)
    {
      loadTimer := false;
      Scramble(picks);
    }

    /** ScrollTrigger's `onEnter`: only the first entry of a live trigger
        schedules a delayed call of scramble; the trigger then dies. */
    method ScrollEnter()
      requires Valid() && TriggerInv()
      modifies this`scrollArmed, this`scrollTimers
      ensures Valid() && TriggerInv()
      ensures !scrollArmed
      ensures scrollTimers == old(scrollTimers) + (if old(scrollArmed) then 1 else 0)
    {
      if scrollArmed {
        scrollArmed := false;
        scrollTimers := scrollTimers + 1;
      }
    }

    /** A delayed call of scramble scheduled by `onEnter`: one pending timer
        is used up and scramble runs, with the same outcome as a direct call.
        The trigger itself is not touched. */
    method ScrollTimerFires(picks: seq<nat>)
      requires Valid() && TriggerInv() && scrollTimers > 0
      requires |picks| == |text| && ValidPicks(picks)
      modifies this`scrollTimers, this`animating, this`resolved, this`current, this`frame
      modifies this`displayed, this`started, this`runs
      ensures Valid() && TriggerInv()
      ensures scrollTimers == old(scrollTimers) - 1
      // At most one run per time the scroll effect ran.
      ensures runs <= effectRuns
      ensures old(animating) ==>
        animating && displayed == old(displayed) && runs == old(runs) &&
        resolved == old(resolved) && current == old(current) && frame == old(frame)
      ensures !old(animating) ==>
        animating && runs == old(runs) + 1 && fresh(resolved) && fresh(current) &&
        resolved.Length == |text| && current.Length == |text| &&
        (forall i :: 0 <= i < |text| ==> !resolved[i] && current[i] == "") &&
        frame == 0 && displayed == InitialScramble(text, picks)
    {
      scrollTimers := scrollTimers - 1;
      Scramble(picks);
    }

    /** `handleMouseEnter`: the hover policy calls scramble on every entry;
        the guard absorbs entries during a run, and a finished run starts
        over. Other policies ignore the mouse. No timer of any policy is
        touched. */
    method MouseEnter(picks: seq<nat>)
      requires Valid() && TriggerInv()
      requires |picks| == |text| && ValidPicks(picks)
      modifies this`animating, this`resolved, this`current, this`frame, this`displayed
      modifies this`started, this`runs
      ensures Valid() && TriggerInv()
      ensures mode != Hover || old(animating) ==>
        animating == old(animating) && displayed == old(displayed) && runs == old(runs) &&
        resolved == old(resolved) && current == old(current) && frame == old(frame)
      ensures mode == Hover && !old(animating) ==>
        animating && runs == old(runs) + 1 && fresh(resolved) && fresh(current) &&
        resolved.Length == |text| && current.Length == |text| &&
        (forall i :: 0 <= i < |text| ==> !resolved[i] && current[i] == "") &&
        frame == 0 && displayed == InitialScramble(text, picks)
    {
      if mode == Hover {
        Scramble(picks);
      }
    }
  }

  /** A load-mode instance from mount to its first frame: the component
      mounts with "" shown, the effect schedules the timer, the timer calls
      scramble, and the first frame callback emits one character per
      character of the text. */
  method LoadMountFirstTick(text: string, speed: real, picks0: seq<nat>, picks1: seq<nat>)
    returns (t: TextScramble, emitted: string, requested: bool)
    requires speed > 0.0
    requires |picks0| == |text| && ValidPicks(picks0)
    requires |picks1| == |text| && ValidPicks(picks1)
    ensures fresh(t) && t.Valid() && t.TriggerInv()
    ensures t.mode == Load && t.runs == 1 && t.frame == 1 && !t.loadTimer
    ensures |emitted| == |text|
    ensures t.displayed == if requested then emitted else text
  {
    t := new TextScramble(text, Load, speed);
    t.Effect();
    t.LoadTimerFires(picks0);
    ghost var was := t.resolved[..];
    emitted, requested := t.Tick(picks1);
    ConcatSingles(StepCurrent(text, was, picks1));
  }
}
