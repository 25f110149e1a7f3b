/** The pure part of the text "decode" effect of src/components/TextScramble.tsx:
    the symbol alphabet, the per-position resolution threshold, what one tick
    writes into one position, and the closed form of which positions are
    resolved after a given number of ticks. The class in text_scramble.dfy is
    proved against these definitions. */
module ScrambleSpec {

  /** The decorative alphabet: punctuation (the dash after '}' is U+2014),
      eight underscores and the upper-case letters. '_' occurs nine times,
      so a symbol is drawn as an index into this string, not from a set. */
  const PUNCTUATION: string := "!<>-_\\/[]{}\U{2014}=+*^?#"
  const UNDERSCORES: string := "________"
  const LETTERS: string := "ABCDEFGHIJKLMNOPQRSTUVWXYZ"
  const CHARS: string := PUNCTUATION + UNDERSCORES + LETTERS
  const SYMBOL_COUNT: nat := 52

  /** A character of the alphabet. */
  predicate IsSymbol(c: char) {
    c in CHARS
  }

  /** The word separator the effect never scrambles. */
  const SPACE: char := ' '

  /** One random draw per position: an index into CHARS (the floor of
      random() * |CHARS|, so always below |CHARS|). */
  predicate ValidPicks(picks: seq<nat>) {
    forall k :: 0 <= k < |picks| ==> picks[k] < SYMBOL_COUNT
  }

  /** The alphabet has 52 symbols and none of them is a space, so a
      scrambled position can never be mistaken for a word break. */
  lemma CharsFacts()
    ensures |CHARS| == SYMBOL_COUNT
    ensures SPACE !in CHARS && !IsSymbol(SPACE)
  {
    assert SPACE !in PUNCTUATION && SPACE !in UNDERSCORES && SPACE !in LETTERS;
  }

  /** The threshold (i + 1) * (1 / speed) * 0.06 that the frame counter must
      strictly exceed before position i may resolve. */
  function Threshold(i: nat, speed: real): real
    requires speed > 0.0
  {
    (i + 1) as real * (1.0 / speed) * 0.06
  }

  /** The test `frame > (i + 1) * (1 / speed) * 0.06`. */
  predicate Crossed(frame: nat, i: nat, speed: real)
    requires speed > 0.0
  {
    frame as real > Threshold(i, speed)
  }

  /** What one tick writes into a position: the real character if the
      position was resolved before the tick, a space for a space, and the
      drawn symbol otherwise. */
  function Shown(c: char, wasResolved: bool, pick: nat): string
    requires pick < SYMBOL_COUNT
  {
    CharsFacts();
    if wasResolved then [c]
    else if c == SPACE then [SPACE]
    else [CHARS[pick]]
  }

  /** Whether a position is resolved at the end of a tick, given whether it
      was resolved at the start: resolution is never undone, a space
      resolves on sight, anything else once its threshold is crossed. */
  predicate ResolvesOnTick(c: char, wasResolved: bool, frame: nat, i: nat, speed: real)
    requires speed > 0.0
  {
    wasResolved || c == SPACE || Crossed(frame, i, speed)
  }

  /** Closed form of `resolved[i]` after `frame` ticks of a run: nothing is
      resolved before the first tick; from then on a space is resolved, and
      any other character exactly once the frame counter exceeds its
      threshold. */
  predicate ResolvedAt(text: string, speed: real, frame: nat, i: nat)
    requires speed > 0.0 && i < |text|
  {
    frame >= 1 && (text[i] == SPACE || Crossed(frame, i, speed))
  }

  /** The run ends at the end of a tick (never before the first one) that
      leaves every position resolved. */
  predicate RunFinished(text: string, speed: real, frame: nat)
    requires speed > 0.0
  {
    frame >= 1 && forall i :: 0 <= i < |text| ==> ResolvedAt(text, speed, frame, i)
  }

  /** The `resolved` array of a run after `frame` ticks. */
  predicate ResolvedMatches(text: string, speed: real, frame: nat, res: seq<bool>)
    requires speed > 0.0
  {
    |res| == |text| &&
    forall i :: 0 <= i < |text| ==> res[i] == ResolvedAt(text, speed, frame, i)
  }

  /** The `current` array of a run after `frame` ticks: all "" before the
      first tick; afterwards one character per position, a space exactly
      where the text has one, the real character where the position was
      resolved before the latest tick, and otherwise a symbol of CHARS. */
  predicate CurrentMatches(text: string, speed: real, frame: nat, cur: seq<string>)
    requires speed > 0.0
  {
    |cur| == |text| &&
    (frame == 0 ==> forall i :: 0 <= i < |text| ==> cur[i] == "") &&
    (frame >= 1 ==> forall i :: 0 <= i < |text| ==>
       |cur[i]| == 1 &&
       (cur[i][0] == SPACE <==> text[i] == SPACE) &&
       (ResolvedAt(text, speed, frame - 1, i) ==> cur[i] == [text[i]]) &&
       (!ResolvedAt(text, speed, frame - 1, i) && text[i] != SPACE ==> IsSymbol(cur[i][0])))
  }

  /** `resolved.every(Boolean)`. */
  predicate AllTrue(s: seq<bool>) {
    forall k :: 0 <= k < |s| ==> s[k]
  }

  /** `current.join("")`: the concatenation of the per-position strings. */
  function Concat(parts: seq<string>): string {
    if parts == [] then "" else Concat(parts[..|parts| - 1]) + parts[|parts| - 1]
  }

  /** When every part holds exactly one character, the joined string has one
      character per part, in order. */
  lemma {:induction false} ConcatSingles(parts: seq<string>)
    requires forall k :: 0 <= k < |parts| ==> |parts[k]| == 1
    ensures |Concat(parts)| == |parts|
    ensures forall k :: 0 <= k < |parts| ==> Concat(parts)[k] == parts[k][0]
  {
    if parts != [] {
      ConcatSingles(parts[..|parts| - 1]);
    }
  }

  /** The value shown before the first tick (line 66 of TextScramble.tsx):
      spaces are kept and every other character is replaced by the drawn
      symbol. */
  function InitialScramble(text: string, picks: seq<nat>): (r: string)
    requires |picks| == |text| && ValidPicks(picks)
    ensures |r| == |text|
    ensures forall k :: 0 <= k < |text| ==> (r[k] == SPACE <==> text[k] == SPACE)
    ensures forall k :: 0 <= k < |text| && text[k] != SPACE ==> r[k] == CHARS[picks[k]]
  {
    CharsFacts();
    if text == [] then ""
    else
      var rest := InitialScramble(text[1..], picks[1..]);
      (if text[0] == SPACE then [SPACE] else [CHARS[picks[0]]]) + rest
  }

  // ---------------------------------------------------------------------
  // Properties of the cascade.

  /** The threshold grows strictly with the index. */
  lemma ThresholdIncreasing(i: nat, j: nat, speed: real)
    requires speed > 0.0 && i < j
    ensures Threshold(i, speed) < Threshold(j, speed)
  {
    var c := (1.0 / speed) * 0.06;
    assert c > 0.0;
    assert (i + 1) as real < (j + 1) as real;
    assert (i + 1) as real * c < (j + 1) as real * c;
    assert Threshold(i, speed) == (i + 1) as real * c;
    assert Threshold(j, speed) == (j + 1) as real * c;
  }

  /** A tick moves the closed form forward: resolved after tick f + 1 exactly
      when resolved after tick f, or a space, or past the threshold at
      frame f + 1. This is what lets the in-place loop keep `resolved` equal
      to ResolvedAt. */
  lemma ResolvedAtStep(text: string, speed: real, f: nat, i: nat)
    requires speed > 0.0 && i < |text|
    ensures ResolvedAt(text, speed, f + 1, i)
        == ResolvesOnTick(text[i], ResolvedAt(text, speed, f, i), f + 1, i, speed)
  {
  }

  /** Resolution is monotone in time: once resolved, resolved for the rest
      of the run. */
  lemma ResolutionStays(text: string, speed: real, f: nat, g: nat, i: nat)
    requires speed > 0.0 && i < |text| && f <= g
    requires ResolvedAt(text, speed, f, i)
    ensures ResolvedAt(text, speed, g, i)
  {
  }

  /** Every space is resolved by the first tick, whatever its index. */
  lemma SpaceResolvesOnFirstTick(text: string, speed: real, i: nat)
    requires speed > 0.0 && i < |text| && text[i] == SPACE
    ensures !ResolvedAt(text, speed, 0, i) && ResolvedAt(text, speed, 1, i)
  {
  }

  /** The tick on which non-space position i resolves. */
  function FirstTick(i: nat, speed: real): (f: nat)
    requires speed > 0.0
    ensures f >= 1 && Crossed(f, i, speed)
    ensures forall g: nat :: g < f ==> !Crossed(g, i, speed)
  {
    var t := Threshold(i, speed);
    assert t > 0.0 by { ThresholdPositive(i, speed); }
    t.Floor + 1
  }

  lemma ThresholdPositive(i: nat, speed: real)
    requires speed > 0.0
    ensures Threshold(i, speed) > 0.0
  {
    var c := 1.0 / speed;
    assert c > 0.0;
    assert (i + 1) as real * c > 0.0;
    assert (i + 1) as real * c * 0.06 > 0.0;
  }

  /** A non-space position is resolved after tick f exactly when f has
      reached its first tick. */
  lemma ResolvedExactlyFrom(text: string, speed: real, f: nat, i: nat)
    requires speed > 0.0 && i < |text| && text[i] != SPACE
    ensures ResolvedAt(text, speed, f, i) <==> f >= FirstTick(i, speed)
  {
    var t := FirstTick(i, speed);
    if f >= t {
      assert f as real >= t as real;
    }
  }

  /** Left to right: of two non-space positions, the left one resolves no
      later than the right one. */
  lemma CascadeOrder(text: string, speed: real, f: nat, i: nat, j: nat)
    requires speed > 0.0 && i < j < |text|
    requires text[i] != SPACE && text[j] != SPACE
    ensures FirstTick(i, speed) <= FirstTick(j, speed)
    ensures ResolvedAt(text, speed, f, j) ==> ResolvedAt(text, speed, f, i)
  {
    ThresholdIncreasing(i, j, speed);
    ResolvedExactlyFrom(text, speed, f, i);
    ResolvedExactlyFrom(text, speed, f, j);
  }

  /** The component's default speed. */
  const DEFAULT_SPEED: real := 0.04

  /** At the default speed the threshold is 1.5 frames per position: the
      first character resolves on tick 2 and the second on tick 4. */
  lemma DefaultSpeedCascade(i: nat)
    ensures Threshold(i, DEFAULT_SPEED) == (i + 1) as real * 1.5
    ensures FirstTick(0, DEFAULT_SPEED) == 2 && FirstTick(1, DEFAULT_SPEED) == 4
  {
    assert 1.0 / DEFAULT_SPEED == 25.0;
    assert Threshold(0, DEFAULT_SPEED) == 1.5;
    assert Threshold(1, DEFAULT_SPEED) == 3.0;
  }

  /** A tick count by which every run of `text` has finished: the first
      integer above the last position's threshold (and at least one tick,
      which an empty text also takes). */
  function RunBound(text: string, speed: real): (b: nat)
    requires speed > 0.0
    ensures b >= 1
    ensures forall i :: 0 <= i < |text| ==> b as real > Threshold(i, speed)
  {
    var t := if |text| == 0 then 0.0 else Threshold(|text| - 1, speed);
    assert t >= 0.0 by { if |text| > 0 { ThresholdPositive(|text| - 1, speed); } }
    forall i | 0 <= i < |text| ensures Threshold(i, speed) <= t {
      if i + 1 < |text| { ThresholdIncreasing(i, |text| - 1, speed); }
    }
    t.Floor + 1
  }

  /** Termination: with a positive speed, every run has finished by tick
      RunBound, and stays finished after it. */
  lemma RunTerminates(text: string, speed: real, f: nat)
    requires speed > 0.0 && f >= RunBound(text, speed)
    ensures RunFinished(text, speed, f)
  {
    forall i | 0 <= i < |text| ensures ResolvedAt(text, speed, f, i) {
      assert f as real >= RunBound(text, speed) as real;
    }
  }

  /** The run does not end early: while the last character is not a space
      and the frame counter has not exceeded its threshold, some position
      is still unresolved. */
  lemma RunNotFinishedEarly(text: string, speed: real, f: nat)
    requires speed > 0.0 && |text| > 0 && text[|text| - 1] != SPACE
    requires f as real <= Threshold(|text| - 1, speed)
    ensures !RunFinished(text, speed, f)
  {
    assert !ResolvedAt(text, speed, f, |text| - 1);
  }

  /** Only spaces: every position resolves on the first tick, so the run
      ends there. */
  lemma AllSpacesFinishOnFirstTick(text: string, speed: real)
    requires speed > 0.0
    requires forall k :: 0 <= k < |text| ==> text[k] == SPACE
    ensures !RunFinished(text, speed, 0) && RunFinished(text, speed, 1)
  {
  }

  /** The `resolved` array after one tick at frame counter `frame`, given
      the array before it. */
  function StepResolved(text: string, speed: real, frame: nat, was: seq<bool>): (r: seq<bool>)
    requires speed > 0.0 && |was| == |text|
    ensures |r| == |text|
    // Resolution is never undone.
    ensures forall i :: 0 <= i < |text| && was[i] ==> r[i]
  {
    seq(|text|, i requires 0 <= i < |text| => ResolvesOnTick(text[i], was[i], frame, i, speed))
  }

  /** The `current` array after one tick, given `resolved` before it. */
  function StepCurrent(text: string, was: seq<bool>, picks: seq<nat>): (r: seq<string>)
    requires |was| == |text| && |picks| == |text| && ValidPicks(picks)
    ensures |r| == |text|
    // One character per position; a position resolved before the tick
    // shows its real character.
    ensures forall i :: 0 <= i < |text| ==> |r[i]| == 1
    ensures forall i :: 0 <= i < |text| && was[i] ==> r[i] == [text[i]]
  {
    seq(|text|, i requires 0 <= i < |text| => Shown(text[i], was[i], picks[i]))
  }

  /** The state a run keeps between ticks. */
  predicate RunStateOk(text: string, speed: real, frame: nat, res: seq<bool>, cur: seq<string>,
                       animating: bool, displayed: string)
    requires speed > 0.0
  {
    ResolvedMatches(text, speed, frame, res) &&
    CurrentMatches(text, speed, frame, cur) &&
    (animating <==> !RunFinished(text, speed, frame)) &&
    (!animating ==> displayed == text)
  }

  /** A run starts with nothing resolved and every entry of `current`
      empty; it is in progress (a tick is pending), even for an empty text,
      which still takes one tick to finish. */
  lemma RunStartOk(text: string, speed: real, res: seq<bool>, cur: seq<string>, displayed: string)
    requires speed > 0.0 && |res| == |text| && |cur| == |text|
    requires forall i :: 0 <= i < |text| ==> !res[i] && cur[i] == ""
    ensures RunStateOk(text, speed, 0, res, cur, true, displayed)
    ensures !RunFinished(text, speed, 0) && (AllTrue(res) <==> |text| == 0)
  {
    if |text| > 0 {
      assert !res[0];
    }
  }

  /** One tick takes the arrays of tick f to those of tick f + 1, and the
      run has finished exactly when every entry of the new `resolved` is
      true. */
  lemma TickStep(text: string, speed: real, f: nat, was: seq<bool>, picks: seq<nat>)
    requires speed > 0.0 && ResolvedMatches(text, speed, f, was)
    requires |picks| == |text| && ValidPicks(picks)
    ensures ResolvedMatches(text, speed, f + 1, StepResolved(text, speed, f + 1, was))
    ensures CurrentMatches(text, speed, f + 1, StepCurrent(text, was, picks))
    ensures AllTrue(StepResolved(text, speed, f + 1, was)) <==> RunFinished(text, speed, f + 1)
  {
    CharsFacts();
    var res := StepResolved(text, speed, f + 1, was);
    forall k | 0 <= k < |text| ensures res[k] == ResolvedAt(text, speed, f + 1, k) {
      ResolvedAtStep(text, speed, f, k);
    }
  }

  /** After the first tick, every entry of `resolved` is true exactly
      when the run has finished. */
  lemma AllResolvedIffFinished(text: string, speed: real, f: nat, res: seq<bool>)
    requires speed > 0.0 && f >= 1 && ResolvedMatches(text, speed, f, res)
    ensures AllTrue(res) <==> RunFinished(text, speed, f)
  {
  }

  /** What a tick emits: one character per position, the real character
      where the position was already resolved, a space exactly where the
      text has one, and the drawn symbol everywhere else. */
  lemma EmittedShape(text: string, was: seq<bool>, picks: seq<nat>)
    requires |was| == |text| && |picks| == |text| && ValidPicks(picks)
    ensures |Concat(StepCurrent(text, was, picks))| == |text|
    ensures forall i :: 0 <= i < |text| ==>
      var e := Concat(StepCurrent(text, was, picks));
      (was[i] ==> e[i] == text[i]) &&
      (e[i] == SPACE <==> text[i] == SPACE) &&
      (!was[i] && text[i] != SPACE ==> e[i] == CHARS[picks[i]])
  {
    ConcatSingles(StepCurrent(text, was, picks));
  }
}
