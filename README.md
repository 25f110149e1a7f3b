# Text scramble effect and spiral timeline geometry

This project is a Dafny model of the two pieces of logic in a React portfolio
site: the text "decode" effect of `src/components/TextScramble.tsx` and the
geometry of the vertical timeline in `src/components/SpiralTimeline.tsx`.

**The scramble effect.** Each component instance shows its `text`.
- When a run starts, every character except a space is replaced by a symbol
  drawn from the 52-character alphabet `CHARS`.
- Then, frame by frame, positions resolve to their real character, left to
  right. Position `i` resolves once the frame counter exceeds
  `(i + 1) * (1 / speed) * 0.06`.
- A re-entrancy guard (`animatingRef`) makes a call of `scramble()` during a
  run do nothing.
- Three trigger policies decide when `scramble()` is called:
  - `load`: once, after a delay;
  - `scroll`: on the first entry into the viewport, after a delay;
  - `hover`: on every mouse entry.

The model has two modules:
- `ScrambleSpec` (`scramble_spec.dfy`) holds the pure part: the alphabet, the
  threshold, what a tick writes into one position, and the closed form
  `ResolvedAt` of which positions are resolved after `f` ticks. It also holds
  the properties of the cascade: order, termination and spaces.
- `TextScrambleEffect` (`text_scramble.dfy`) models one component instance as
  a class.
  - It holds the guard, the displayed value, the per-run `resolved` and
    `current` arrays (updated in place, as in the source) and the frame
    counter.
  - It also holds the pending timers of the trigger policies.
  - `Valid()` ties the arrays to the closed form in every state after the first
    run starts.
  - Tick is proved against the step functions `StepResolved` and
    `StepCurrent`.

**The timeline.** `SpiralTimeline.tsx` computes a zig-zag geometry for its
milestones. Milestone `i` is placed at y = 100 + 200 i, at x = 80 (left) when
`i` is even and at x = 320 (right) otherwise.

The SVG path string it builds starts with `M 200 50` and has one Bézier
segment per milestone:
- the first segment is `C 200 80, x y-40, x y`;
- every later segment is `S x y-40, x y`.

In this version of the component these values are computed but never reach
the screen. The rendered markup (lines 184-276) does not use `spiralPath`
(line 97), `totalHeight` (line 98) or `getMilestonePosition` (line 101). No
`<svg>` or `<path>` element is rendered, and `svgRef`, `pathRef`, `dotRef` and
`glowRef` (lines 63-66) are never attached. So the GSAP effect returns early
at line 110, and the `onUpdate` clamp of lines 133-136 never runs. The model
states what these computations would yield if they were used.

Module `SpiralTimeline` (`spiral_timeline.dfy`) covers:
- the position function;
- the path-building loop (a method proved equal to the path function);
- decimal rendering of the coordinates;
- the total height value;
- the active-milestone clamp of the scroll callback (unreachable as the
  component stands; see above).

The component has five milestones. The definitions take the count as a
parameter, and the lemmas `FiveMilestones` and `FiveMilestonePath`
instantiate it.

Scheduling is explicit:
- A pending animation frame exists exactly while `animating` holds. A frame
  callback is a call of `Tick`.
- A pending `setTimeout(scramble, delay * 1000)` is the flag `loadTimer` or
  the counter `scrollTimers`. Its firing is a call of `LoadTimerFires` or
  `ScrollTimerFires`.
- A viewport entry is `ScrollEnter`, and a mouse entry is `MouseEnter`.
- React running the trigger effect and its cleanup are `Effect` and
  `EffectCleanup`.
- Each `Math.random()` draw arrives as an index below 52 in `picks`.

## Model

| member | source | states |
|---|---|---|
| ScrambleSpec.CharsFacts | src/components/TextScramble.tsx:7 | The alphabet has 52 entries and contains no space, so a drawn symbol never looks like a word break. |
| ScrambleSpec.InitialScramble | src/components/TextScramble.tsx:65-66 | The value shown when a run starts has one character per character of the text. A character is a space exactly where the text has one. Every other position holds the symbol drawn for it. |
| ScrambleSpec.ThresholdIncreasing | src/components/TextScramble.tsx:50 | The resolution threshold `(i + 1) * (1 / speed) * 0.06` grows strictly with the index for every positive speed. |
| ScrambleSpec.ResolvedAtStep | src/components/TextScramble.tsx:41-53 | After tick f + 1, a position is resolved exactly when one of these holds: it was resolved after tick f, it is a space, or frame f + 1 is past its threshold. This links one pass of the loop to the closed form. |
| ScrambleSpec.ResolutionStays | src/components/TextScramble.tsx:43-52 | A resolved position stays resolved for every later tick of the run. |
| ScrambleSpec.SpaceResolvesOnFirstTick | src/components/TextScramble.tsx:45-47 | A space is unresolved at the start and resolved after the first tick, whatever its index. |
| ScrambleSpec.FirstTick | src/components/TextScramble.tsx:50-52 | The first frame that crosses position i's threshold: it is at least 1, it crosses, and no earlier frame does. |
| ScrambleSpec.ThresholdPositive | src/components/TextScramble.tsx:50 | The threshold is positive for a positive speed, so no position other than a space resolves before tick 1. |
| ScrambleSpec.ResolvedExactlyFrom | src/components/TextScramble.tsx:48-52 | A non-space position is resolved after tick f exactly when f has reached its first tick. |
| ScrambleSpec.CascadeOrder | src/components/TextScramble.tsx:42-52 | For non-space positions i < j, i's first tick is no later than j's, and whenever j is resolved, i is too. |
| ScrambleSpec.DefaultSpeedCascade | src/components/TextScramble.tsx:50 | At the default speed 0.04 (line 22) the threshold is 1.5 (i + 1). The first character resolves on tick 2 and the second on tick 4. |
| ScrambleSpec.RunBound | src/components/TextScramble.tsx:50-57 | The bound is a tick count, at least 1, that exceeds every position's threshold. It is the first integer above the last position's threshold, `|text| * 0.06 / speed`. |
| ScrambleSpec.RunTerminates | src/components/TextScramble.tsx:57-59 | With a positive speed, every position is resolved by tick RunBound, so the run has finished. |
| ScrambleSpec.RunNotFinishedEarly | src/components/TextScramble.tsx:50-57 | While the frame counter has not passed the last character's threshold, the run has not finished (when that character is not a space). |
| ScrambleSpec.AllSpacesFinishOnFirstTick | src/components/TextScramble.tsx:45-57 | A text made only of spaces (including the empty text) still takes exactly one tick. |
| ScrambleSpec.StepResolved | src/components/TextScramble.tsx:42-53 | One pass of the loop over `resolved` keeps the length and never clears an entry. |
| ScrambleSpec.StepCurrent | src/components/TextScramble.tsx:42-53 | One pass writes exactly one character into each entry of `current`. A position resolved before the pass gets its real character. |
| ScrambleSpec.ConcatSingles | src/components/TextScramble.tsx:55 | Joining one-character entries gives one character per entry, in order. |
| ScrambleSpec.RunStartOk | src/components/TextScramble.tsx:33-67 | Fresh all-false and all-"" arrays at frame 0 satisfy the run invariant with a frame pending. The run has not finished, even for an empty text. |
| ScrambleSpec.TickStep | src/components/TextScramble.tsx:41-57 | One tick takes arrays matching the closed form at tick f to arrays matching it at tick f + 1. After the tick, every entry of `resolved` is true exactly when the run has finished. |
| ScrambleSpec.AllResolvedIffFinished | src/components/TextScramble.tsx:57 | From tick 1 on, the `resolved.every(Boolean)` test holds exactly when the run has finished. |
| ScrambleSpec.EmittedShape | src/components/TextScramble.tsx:42-55 | The string a tick emits has one character per character of the text, as follows: the real character where the position was already resolved; a space exactly where the text has one; otherwise the symbol drawn for that position. |
| TextScrambleEffect.TextScramble.constructor | src/components/TextScramble.tsx:27-29 | The initial value is "" for the load policy and the text otherwise. Nothing runs, no timer is pending, and the effect has not run yet, so the run counts of the trigger policies start from zero. |
| TextScrambleEffect.TextScramble.Scramble | src/components/TextScramble.tsx:31-67 | During a run nothing changes. Otherwise the guard is set and fresh arrays start the run: all false, all "", one entry per character. The frame is 0, the initial scramble is shown, and the run count goes up by one. |
| TextScrambleEffect.TextScramble.FreshRunArrays | src/components/TextScramble.tsx:35-37 | Both arrays are new, have one entry per character, and are all false and all "". |
| TextScrambleEffect.TextScramble.Tick | src/components/TextScramble.tsx:40-63 | The frame counter goes up by one. The arrays become the step functions of their old contents. The emitted value is the join of `current`. Another frame is requested exactly while some entry of `resolved` is false. Otherwise the guard is cleared and the displayed value is exactly the text. The run invariant is kept. |
| TextScrambleEffect.TextScramble.Advance | src/components/TextScramble.tsx:41-54 | The counter goes up by one and the arrays take their next-tick contents, which match the closed form at the new frame. |
| TextScrambleEffect.TextScramble.Finish | src/components/TextScramble.tsx:55-62 | When every entry is resolved, the guard is cleared and the text is shown. Otherwise the emitted value is shown and the run continues. The run invariant holds afterwards. |
| TextScrambleEffect.TextScramble.UpdatePositions | src/components/TextScramble.tsx:42-54 | The in-place left-to-right loop leaves `resolved` and `current` equal to the step functions of their contents before the loop. |
| TextScrambleEffect.TextScramble.RunToEnd | src/components/TextScramble.tsx:57-62 | Driving the frame loop from any state of a run ends it within RunBound ticks, with the guard cleared and the text displayed exactly. |
| TextScrambleEffect.TextScramble.Effect | src/components/TextScramble.tsx:70-88 | Load: only the first run of the effect marks the instance triggered and starts the timer; later runs schedule nothing. Scroll: a live trigger is created. Hover: nothing. The trigger invariant is kept. |
| TextScrambleEffect.TextScramble.EffectCleanup | src/components/TextScramble.tsx:74-86 | The load timer is cleared and the scroll trigger is killed. Timers already started by `onEnter` stay pending. |
| TextScrambleEffect.TextScramble.LoadTimerFires | src/components/TextScramble.tsx:73 | The timer is used up and scramble runs. During a run nothing else changes. Otherwise fresh all-false and all-"" arrays start the run at frame 0 and the initial scramble is shown. No other timer or trigger is touched, and the load policy never starts more than one run over the instance's lifetime. |
| TextScrambleEffect.TextScramble.ScrollEnter | src/components/TextScramble.tsx:78-85 | Only the first entry of a live trigger schedules a run, and the trigger then dies. Later entries schedule nothing. |
| TextScrambleEffect.TextScramble.ScrollTimerFires | src/components/TextScramble.tsx:83 | One pending timer is used up and scramble runs. During a run nothing else changes. Otherwise fresh all-false and all-"" arrays start the run at frame 0 and the initial scramble is shown. The trigger stays as it was, and the scroll policy starts at most one run per run of its effect. |
| TextScrambleEffect.TextScramble.MouseEnter | src/components/TextScramble.tsx:90-94 | Hover calls scramble on every entry. An entry during a run is absorbed and changes nothing. An entry when no run is in progress starts a new run with fresh arrays at frame 0 and shows the initial scramble. Other policies ignore the mouse. No timer or trigger of any policy is touched. |
| TextScrambleEffect.LoadMountFirstTick | src/components/TextScramble.tsx:27-73 | A load-mode instance that mounts, runs its effect, has its timer fire and gets its first frame has started exactly one run, is at frame 1 with no timer pending, and has emitted one character per character of the text. |
| SpiralTimeline.MilestonePosition | src/components/SpiralTimeline.tsx:101-106 | A milestone is on the left exactly when its x is left of the centre line. x is 200 ± 120, and y is at least 100. |
| SpiralTimeline.MilestoneCoordinates | src/components/SpiralTimeline.tsx:101-105 | y is 100 + 200 i. The milestone is on the left, at x = 80, exactly when i is even, and at x = 320 otherwise. |
| SpiralTimeline.AdjacentMilestones | src/components/SpiralTimeline.tsx:101-105 | Consecutive milestones are 200 apart vertically, on opposite sides, and mirrored about x = 200. |
| SpiralTimeline.MilestonesDescend | src/components/SpiralTimeline.tsx:102 | Milestone j is 200 (j - i) below milestone i. |
| SpiralTimeline.NatToString | src/components/SpiralTimeline.tsx:86-90 | The rendering of a number is non-empty and all decimal digits. It has no leading zero. |
| SpiralTimeline.NatToStringRoundTrip | src/components/SpiralTimeline.tsx:86-90 | Reading the digits back gives the number. |
| SpiralTimeline.PathPoints | src/components/SpiralTimeline.tsx:78-92 | One point per milestone after the move, and the first point is the move. |
| SpiralTimeline.PathPointsStep | src/components/SpiralTimeline.tsx:80-91 | One more milestone appends its segment. |
| SpiralTimeline.PathPointsAt | src/components/SpiralTimeline.tsx:80-105 | Point k + 1 is the segment of milestone k, built from getMilestonePosition(k). |
| SpiralTimeline.InlinePosition | src/components/SpiralTimeline.tsx:81-105 | The coordinates the loop computes inline, with their side, are exactly `getMilestonePosition(i)`, and they are large enough for the `y - 40` control point to be a non-negative coordinate. |
| SpiralTimeline.PushSegment | src/components/SpiralTimeline.tsx:80-91 | Pushing the `C` segment for milestone 0, or the `S` segment for a later one, built from the inline coordinates, turns the points of the first i milestones into those of the first i + 1. |
| SpiralTimeline.GenerateSpiralPath | src/components/SpiralTimeline.tsx:72-95 | The loop's result is the move followed by the segment of every milestone in order, joined by single spaces. |
| SpiralTimeline.JoinSnoc | src/components/SpiralTimeline.tsx:94 | Joining one more part appends the separator and the part. |
| SpiralTimeline.SpiralPathStep | src/components/SpiralTimeline.tsx:80-94 | The path for n + 1 milestones is the path for n, a space, and milestone n's segment. |
| SpiralTimeline.JoinStartsWithFirst | src/components/SpiralTimeline.tsx:94 | A joined string starts with its first part. |
| SpiralTimeline.SpiralPathStartsWithMove | src/components/SpiralTimeline.tsx:78-94 | The path starts with `M 200 50`. |
| SpiralTimeline.CommandsAppend | src/components/SpiralTimeline.tsx:94 | The command letters of a concatenation are those of the parts, in order. |
| SpiralTimeline.NoLettersNoCommands | src/components/SpiralTimeline.tsx:86-90 | A string without letters holds no command. |
| SpiralTimeline.CommandThenArguments | src/components/SpiralTimeline.tsx:78-90 | A command letter followed by letter-free arguments holds just that command. |
| SpiralTimeline.SegmentCommand | src/components/SpiralTimeline.tsx:85-91 | Milestone 0's segment holds the single command C. Every later one holds the single command S. |
| SpiralTimeline.MoveCommand | src/components/SpiralTimeline.tsx:78 | The move holds the single command M. |
| SpiralTimeline.SpiralPathStepCommands | src/components/SpiralTimeline.tsx:80-94 | Each milestone adds exactly its own command letter to the path. |
| SpiralTimeline.SpiralPathCommands | src/components/SpiralTimeline.tsx:72-95 | The command letters of the path are M, then C, then one S per further milestone. |
| SpiralTimeline.TotalHeight | src/components/SpiralTimeline.tsx:98 | For at least one milestone, the height is the last milestone's y plus 150. |
| SpiralTimeline.MilestonesFit | src/components/SpiralTimeline.tsx:98-102 | Every milestone lies at least 150 above `totalHeight`, and the last one exactly 150. |
| SpiralTimeline.ActiveIndexInRange | src/components/SpiralTimeline.tsx:133-136 | For a progress in [0, 1] and at least one milestone, the active index names a milestone. |
| SpiralTimeline.ActiveIndexMonotone | src/components/SpiralTimeline.tsx:133-136 | More progress never selects an earlier milestone. |
| SpiralTimeline.ActiveIndexExactly | src/components/SpiralTimeline.tsx:133-136 | Milestone i is active exactly when progress · n is in [i, i + 1). The last milestone is also active at progress 1. |
| SpiralTimeline.ClampOnlyAtEnd | src/components/SpiralTimeline.tsx:133-136 | Below progress 1 the clamp changes nothing; the index is the floor. |
| SpiralTimeline.FiveMilestones | src/components/SpiralTimeline.tsx:98-106 | With the five milestones of lines 17-59, `totalHeight` is 1050 and the last milestone sits at (80, 900) on the left. |
| SpiralTimeline.FiveMilestonePath | src/components/SpiralTimeline.tsx:72-95 | With the five milestones of lines 17-59, the component's path is `M`, `C` and four `S` commands. |

In these places the code behaves differently from what a reader might
expect; the model follows the code:
- Spaces are resolved during the first tick, not when the run starts. The
  initial display already shows them as spaces (lines 45-47 and 66).
- A position that crosses its threshold is marked resolved on the same tick
  that still writes a symbol into it. It shows its real character from the
  next tick on (lines 43-52). When the run ends, only the displayed value is
  forced to the text (line 59). Entries of `current` written on the last
  tick may still hold symbols, and `CurrentMatches` says so.
- An empty text still takes one tick before the run ends (lines 57 and 67).
- A load-mode instance whose effect is cleaned up before its timer fires
  never starts a run. The effect runs again but sees `hasTriggeredRef` set
  and schedules nothing (lines 71-74), so the displayed value stays "".
  `Effect` and `EffectCleanup` state this.
- `generateSpiralPath` computes an inner `totalHeight` (line 76) and the
  previous point (lines 88-89) but never uses them. They are not modelled.

## Left out

- Animation frames, timers, GSAP ScrollTrigger and React state updates are external. They are modelled as explicit calls (see above), and their timing is not modelled.
- `text` stands for its UTF-16 code units, the positions `text.split("")` and `chars.length` count (lines 35-37 and 42). Dafny's `string` holds Unicode scalar values, so a character outside the Basic Multilingual Plane, which the source splits into two surrogate halves scrambled and resolved separately (shifting every later threshold), is not modelled.
- `Math.random` is an oracle: the draws come in as indices into the alphabet.
- Floating point: `speed`, `0.06` and the scroll progress are exact reals. IEEE rounding of the threshold is not modelled. `speed > 0` is a precondition, because the code never validates it. The excluded speeds behave differently in the source. With `speed == 0` the threshold at line 50 is `Infinity`, so a run over any text with a non-space character never ends and keeps requesting frames. With a negative speed the threshold is negative, so every position resolves on tick 1 and the run ends there. Every caller in the repository passes a positive speed (0.01, 0.04 or 0.05).
- The first `setDisplayed(current.join(""))` of a tick is overwritten at once when the run ends (lines 55 and 59). Only the final value is modelled.
- TextScrambleEffect.TextScramble.EffectCleanup: the scroll cleanup kills every ScrollTrigger on the page, not just this instance's (line 86). The model kills only this instance's trigger, because other instances are not modelled.
- In-flight animation frames and `onEnter` timers are never cancelled on teardown. No teardown is modelled beyond `EffectCleanup`.
- A change of `text` or `speed` during a run is not modelled. `text`, `mode` and `speed` are fixed per instance. A run therefore always sees the instance's own text.
- The scroll policy assumes the element is mounted (`containerRef.current` non-null, line 77).
- `delay`, `className` and the rendered element (lines 96-105) have no effect on the logic.
- SpiralTimeline: the GSAP effect (lines 108-181) returns at line 110 because no path or dot element is ever attached, so nothing is drawn or animated; its `getTotalLength` and dot tweens are left out, and its clamp is modelled as the value it would pass to `setActiveIndex`. The hover state, the in-view test and all JSX are layout-driven and are left out.
- SpiralTimeline.NatToString: covers the non-negative integers the template literals receive (every coordinate is at least 60), not JavaScript's full number formatting.
