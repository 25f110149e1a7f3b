/** The geometry computed by src/components/SpiralTimeline.tsx: where each
    milestone is placed on the vertical zig-zag, the SVG path string built
    through the milestones, the total height value, and the milestone the
    scroll callback would select. In this version of the component none of
    these values reaches the rendered markup and the scroll callback is
    never registered; the model states what they would yield. The component
    has five milestones; every definition here takes the count `n` as a
    parameter. */
module SpiralTimeline {

  /** `milestones.length` in the component. */
  const MILESTONE_COUNT: nat := 5
  /** Horizontal centre line of the drawing. */
  const CENTER_X: int := 200
  /** Horizontal distance of a milestone from the centre line. */
  const AMPLITUDE: int := 120
  /** Vertical distance between consecutive milestones. */
  const VERTICAL_SPACING: int := 200
  /** The move command every path starts with. */
  const MOVE: string := "M 200 50"
  /** The command and first control point of the first milestone's curve. */
  const CURVE_HEAD: string := "C 200 80, "
  /** The command of every later milestone's smooth curve. */
  const SMOOTH_HEAD: string := "S "

  /** `getMilestonePosition(index)`. */
  datatype Position = Position(x: int, y: int, isLeft: bool)

  // ---------------------------------------------------------------------
  // Milestone positions

  /** Milestone `index` sits 100 + 200 * index down the drawing, on the left
      of the centre line (x = 80) when its index is even and on the right
      (x = 320) when it is odd. */
  function MilestonePosition(index: nat): (p: Position)
    ensures p.isLeft <==> p.x < CENTER_X
    ensures p.x == CENTER_X - AMPLITUDE || p.x == CENTER_X + AMPLITUDE
    ensures p.y >= 100
  {
    var y := 100 + index * 200;
    var isLeft := index % 2 == 0;
    var x := if isLeft then 200 - 120 else 200 + 120;
    Position(x, y, isLeft)
  }

  /** Consecutive milestones are one vertical spacing apart and sit on
      opposite sides, mirrored about the centre line. */
  lemma AdjacentMilestones(i: nat)
    ensures MilestonePosition(i + 1).y == MilestonePosition(i).y + VERTICAL_SPACING
    ensures MilestonePosition(i + 1).isLeft == !MilestonePosition(i).isLeft
    ensures MilestonePosition(i).x + MilestonePosition(i + 1).x == 2 * CENTER_X
  {
  }

  /** Milestone i is 100 + 200 * i down the drawing; it is on the left,
      at x = 80, exactly when i is even, and at x = 320 otherwise. */
  lemma MilestoneCoordinates(i: nat)
    ensures MilestonePosition(i).y == 100 + VERTICAL_SPACING * i
    ensures MilestonePosition(i).isLeft <==> i % 2 == 0
    ensures MilestonePosition(i).x == (if i % 2 == 0 then 80 else 320)
  {
  }

  /** Milestones go strictly down the drawing in index order, 200 per step. */
  lemma {:induction false} MilestonesDescend(i: nat, j: nat)
    requires i <= j
    ensures MilestonePosition(j).y - MilestonePosition(i).y == VERTICAL_SPACING * (j - i)
    decreases j - i
  {
    if i < j {
      MilestonesDescend(i, j - 1);
      AdjacentMilestones(j - 1);
    }
  }

  // ---------------------------------------------------------------------
  // Decimal rendering of the coordinates in the template literals

  predicate IsDigit(c: char) {
    '0' <= c <= '9'
  }

  function DigitChar(d: nat): (c: char)
    requires d < 10
    ensures IsDigit(c) && c as int - '0' as int == d
  {
    ('0' as int + d) as char
  }

  /** `${n}` for a non-negative integer: its decimal digits, most
      significant first, without leading zeros. */
  function NatToString(n: nat): (s: string)
    ensures |s| >= 1
    ensures forall k :: 0 <= k < |s| ==> IsDigit(s[k])
    ensures s[0] == '0' ==> n == 0
  {
    if n < 10 then [DigitChar(n)] else NatToString(n / 10) + [DigitChar(n % 10)]
  }

  function DigitValue(c: char): nat
    requires IsDigit(c)
  {
    c as int - '0' as int
  }

  /** The value of a string of decimal digits. */
  function DigitsValue(s: string): nat
    requires forall k :: 0 <= k < |s| ==> IsDigit(s[k])
  {
    if s == [] then 0 else DigitsValue(s[..|s| - 1]) * 10 + DigitValue(s[|s| - 1])
  }

  /** Reading the rendered digits back gives the number: the rendering
      loses nothing. */
  lemma {:induction false} NatToStringRoundTrip(n: nat)
    ensures DigitsValue(NatToString(n)) == n
  {
    if n >= 10 {
      NatToStringRoundTrip(n / 10);
      var s := NatToString(n);
      assert s[..|s| - 1] == NatToString(n / 10);
    }
  }

  /** `${x} ${y}`: a point of the path; it holds no command letter. */
  function Point(x: nat, y: nat): (r: string)
    ensures NoLetters(r)
  {
    NatToString(x) + " " + NatToString(y)
  }

  // ---------------------------------------------------------------------
  // The path string

  /** `parts.join(sep)`. */
  function Join(parts: seq<string>, sep: string): string {
    if |parts| == 0 then ""
    else if |parts| == 1 then parts[0]
    else Join(parts[..|parts| - 1], sep) + sep + parts[|parts| - 1]
  }

  /** The segment the loop pushes for milestone i, stated with the position
      `getMilestonePosition(i)`: the first one is a cubic curve from the
      start point with control points (200, 80) and (x, y - 40), every later
      one a smooth curve with control point (x, y - 40); each ends at the
      milestone. */
  function Segment(i: nat): string {
    var p := MilestonePosition(i);
    if i == 0 then CURVE_HEAD + CurveEnd(p.x, p.y) else SMOOTH_HEAD + CurveEnd(p.x, p.y)
  }

  /** `${x} ${y - 40}, ${x} ${y}`: the control point above a milestone and
      the milestone itself. */
  function CurveEnd(x: nat, y: nat): (r: string)
    requires y >= 40
    ensures NoLetters(r)
  {
    Point(x, y - 40) + ", " + Point(x, y)
  }

  /** The `points` of the path for the first n milestones: the move, then
      the segment of each milestone in order. */
  function PathPoints(n: nat): (r: seq<string>)
    ensures |r| == n + 1 && r[0] == MOVE
  {
    if n == 0 then [MOVE] else PathPoints(n - 1) + [Segment(n - 1)]
  }

  /** One more milestone appends its segment. */
  lemma PathPointsStep(n: nat)
    ensures PathPoints(n + 1) == PathPoints(n) + [Segment(n)]
  {
  }

  /** Point k + 1 is the segment of milestone k: one segment per milestone,
      in index order. */
  lemma {:induction false} PathPointsAt(n: nat, k: nat)
    requires k < n
    ensures PathPoints(n)[k + 1] == Segment(k)
  {
    PathPointsStep(n - 1);
    if k < n - 1 {
      PathPointsAt(n - 1, k);
    }
  }

  /** The whole path for n milestones: the move to (200, 50) followed by one
      segment per milestone, separated by single spaces. */
  function SpiralPath(n: nat): string {
    Join(PathPoints(n), " ")
  }

  /** The loop's inline coordinates are those of getMilestonePosition, so
      the segment it pushes is the milestone's segment. */
  lemma InlinePosition(i: nat, x: int, y: int)
    requires y == 100 + i * VERTICAL_SPACING
    requires x == if i % 2 == 0 then CENTER_X - AMPLITUDE else CENTER_X + AMPLITUDE
    ensures x >= 0 && y >= 40
    ensures MilestonePosition(i) == Position(x, y, i % 2 == 0)
  {
  }

  /** Pushing the segment built from the inline coordinates extends the
      points of the first i milestones to those of the first i + 1. */
  lemma PushSegment(points: seq<string>, i: nat, x: int, y: int, segment: string)
    requires points == PathPoints(i)
    requires y == 100 + i * VERTICAL_SPACING
    requires x == if i % 2 == 0 then CENTER_X - AMPLITUDE else CENTER_X + AMPLITUDE
    requires segment == if i == 0 then CURVE_HEAD + CurveEnd(x, y) else SMOOTH_HEAD + CurveEnd(x, y)
    ensures points + [segment] == PathPoints(i + 1)
  {
    InlinePosition(i, x, y);
    PathPointsStep(i);
  }

  /** `generateSpiralPath()`: the loop computes each milestone's coordinates
      inline (not through getMilestonePosition), pushes one segment per
      milestone after the move, and joins the points with spaces. The
      result is the path through the milestone positions. */
  method GenerateSpiralPath(n: nat) returns (path: string)
    ensures path == SpiralPath(n)
  {
    var points: seq<string> := [MOVE];
    var i := 0;
    while i < n
      invariant 0 <= i <= n
      invariant points == PathPoints(i)
    {
      var y := 100 + i * VERTICAL_SPACING;
      var isLeft := i % 2 == 0;
      var x := if isLeft then CENTER_X - AMPLITUDE else CENTER_X + AMPLITUDE;
      InlinePosition(i, x, y);
      if i == 0 {
        PushSegment(points, i, x, y, CURVE_HEAD + CurveEnd(x, y));
        points := points + [CURVE_HEAD + CurveEnd(x, y)];
      } else {
        PushSegment(points, i, x, y, SMOOTH_HEAD + CurveEnd(x, y));
        points := points + [SMOOTH_HEAD + CurveEnd(x, y)];
      }
      i := i + 1;
    }
    path := Join(points, " ");
  }

  /** Joining one more part appends the separator and the part. */
  lemma JoinSnoc(parts: seq<string>, p: string, sep: string)
    requires |parts| >= 1
    ensures Join(parts + [p], sep) == Join(parts, sep) + sep + p
  {
    assert (parts + [p])[..|parts|] == parts;
  }

  /** The path for n + 1 milestones extends the one for n by a space and the
      new milestone's segment. */
  lemma SpiralPathStep(n: nat)
    ensures SpiralPath(n + 1) == SpiralPath(n) + " " + Segment(n)
  {
    JoinSnoc(PathPoints(n), Segment(n), " ");
  }

  /** A joined string starts with its first part. */
  lemma {:induction false} JoinStartsWithFirst(parts: seq<string>, sep: string)
    requires |parts| >= 1
    ensures |Join(parts, sep)| >= |parts[0]| && Join(parts, sep)[..|parts[0]|] == parts[0]
  {
    if |parts| > 1 {
      var init := parts[..|parts| - 1];
      JoinStartsWithFirst(init, sep);
      assert init[0] == parts[0];
    }
  }

  /** The path starts with the move command. */
  lemma SpiralPathStartsWithMove(n: nat)
    ensures |SpiralPath(n)| >= |MOVE| && SpiralPath(n)[..|MOVE|] == MOVE
  {
    JoinStartsWithFirst(PathPoints(n), " ");
  }

  // ---------------------------------------------------------------------
  // The command letters of the path

  predicate IsLetter(c: char) {
    'A' <= c <= 'Z'
  }

  predicate NoLetters(s: string) {
    forall k :: 0 <= k < |s| ==> !IsLetter(s[k])
  }

  /** The upper-case letters of a path string, in order: its SVG commands. */
  function Commands(s: string): string {
    if s == [] then []
    else Commands(s[..|s| - 1]) + (if IsLetter(s[|s| - 1]) then [s[|s| - 1]] else [])
  }

  lemma {:induction false} CommandsAppend(a: string, b: string)
    ensures Commands(a + b) == Commands(a) + Commands(b)
    decreases |b|
  {
    if b == [] {
      assert a + b == a;
    } else {
      var b' := b[..|b| - 1];
      assert (a + b)[..|a + b| - 1] == a + b';
      assert (a + b)[|a + b| - 1] == b[|b| - 1];
      CommandsAppend(a, b');
    }
  }

  lemma {:induction false} NoLettersNoCommands(s: string)
    requires NoLetters(s)
    ensures Commands(s) == []
  {
    if s != [] {
      NoLettersNoCommands(s[..|s| - 1]);
    }
  }

  /** A command letter followed by its letter-free arguments. */
  lemma CommandThenArguments(c: char, s: string)
    requires IsLetter(c) && NoLetters(s)
    ensures Commands([c] + s) == [c]
  {
    CommandsAppend([c], s);
    NoLettersNoCommands(s);
    assert [c][..0] == [];
  }

  /** The commands of the path: one move, then a cubic curve to the first
      milestone and a smooth curve to every later one. */
  function ExpectedCommands(n: nat): (r: string)
    ensures |r| == n + 1
  {
    if n == 0 then "M" else ExpectedCommands(n - 1) + (if n == 1 then "C" else "S")
  }

  lemma SegmentCommand(i: nat)
    ensures Commands(Segment(i)) == (if i == 0 then "C" else "S")
  {
    var p := MilestonePosition(i);
    var head: string := if i == 0 then CURVE_HEAD else SMOOTH_HEAD;
    CommandThenArguments(head[0], head[1..]);
    assert [head[0]] + head[1..] == head;
    CommandsAppend(head, CurveEnd(p.x, p.y));
    NoLettersNoCommands(CurveEnd(p.x, p.y));
  }

  lemma MoveCommand()
    ensures Commands(MOVE) == "M"
  {
    CommandThenArguments('M', MOVE[1..]);
    assert ['M'] + MOVE[1..] == MOVE;
  }

  /** Appending a milestone's segment appends its command letter. */
  lemma SpiralPathStepCommands(n: nat)
    ensures Commands(SpiralPath(n + 1)) == Commands(SpiralPath(n)) + (if n == 0 then "C" else "S")
  {
    SpiralPathStep(n);
    CommandsAppend(SpiralPath(n), " ");
    CommandsAppend(SpiralPath(n) + " ", Segment(n));
    NoLettersNoCommands(" ");
    SegmentCommand(n);
  }

  /** Reading the command letters back out of the path gives exactly the
      move, one cubic curve and then one smooth curve per further milestone. */
  lemma {:induction false} SpiralPathCommands(n: nat)
    ensures Commands(SpiralPath(n)) == ExpectedCommands(n)
  {
    if n == 0 {
      assert SpiralPath(0) == MOVE;
      MoveCommand();
    } else {
      SpiralPathCommands(n - 1);
      SpiralPathStepCommands(n - 1);
    }
  }

  // ---------------------------------------------------------------------
  // The total height value

  /** `totalHeight`: the height of the SVG for n milestones. */
  function TotalHeight(n: nat): (h: int)
    ensures n >= 1 ==> h == MilestonePosition(n - 1).y + 150
  {
    (n - 1) * 200 + 250
  }

  /** Every milestone lies at least 150 above the total height, and
      the last one exactly 150 above it. */
  lemma MilestonesFit(n: nat, i: nat)
    requires i < n
    ensures MilestonePosition(i).y + 150 <= TotalHeight(n)
    ensures i == n - 1 ==> MilestonePosition(i).y + 150 == TotalHeight(n)
  {
    MilestonesDescend(i, n - 1);
  }

  // ---------------------------------------------------------------------
  // Active milestone

  /** `Math.min(Math.floor(progress * milestones.length), milestones.length - 1)`. */
  function ActiveIndex(progress: real, n: nat): int {
    var k := (progress * n as real).Floor;
    if k < n - 1 then k else n - 1
  }

  /** For a progress in [0, 1] the selected milestone exists. */
  lemma ActiveIndexInRange(progress: real, n: nat)
    requires 0.0 <= progress <= 1.0 && n >= 1
    ensures 0 <= ActiveIndex(progress, n) < n
  {
    assert progress * n as real >= 0.0;
  }

  /** Scrolling further never selects an earlier milestone. */
  lemma ActiveIndexMonotone(p: real, q: real, n: nat)
    requires p <= q
    ensures ActiveIndex(p, n) <= ActiveIndex(q, n)
  {
    var a, b := p * n as real, q * n as real;
    assert a <= b by {
      assert b - a == (q - p) * n as real;
    }
    assert a.Floor as real <= a <= b < b.Floor as real + 1.0;
  }

  /** Milestone i is selected exactly on its share of the progress,
      [i / n, (i + 1) / n), the last one also at the very end (progress 1,
      which the clamp maps from n to n - 1). */
  lemma ActiveIndexExactly(progress: real, n: nat, i: nat)
    requires 0.0 <= progress <= 1.0 && i < n
    ensures ActiveIndex(progress, n) == i <==>
      i as real <= progress * n as real &&
      (progress * n as real < (i + 1) as real || i == n - 1)
  {
    var t := progress * n as real;
    assert t <= n as real;
  }

  /** The clamp only matters at the very end of the scroll. */
  lemma ClampOnlyAtEnd(progress: real, n: nat)
    requires 0.0 <= progress < 1.0 && n >= 1
    ensures ActiveIndex(progress, n) == (progress * n as real).Floor
  {
    assert progress * n as real < n as real;
  }

  // ---------------------------------------------------------------------
  // The component's five milestones

  /** With the component's five milestones the total height is 1050 and
      the last milestone sits at (80, 900). */
  lemma FiveMilestones()
    ensures TotalHeight(MILESTONE_COUNT) == 1050
    ensures MilestonePosition(MILESTONE_COUNT - 1) == Position(80, 900, true)
  {
  }

  /** The component's path is a move, a cubic curve and four smooth curves. */
  lemma FiveMilestonePath()
    ensures Commands(SpiralPath(MILESTONE_COUNT)) == "MCSSSS"
  {
    SpiralPathCommands(MILESTONE_COUNT);
    FiveExpectedCommands();
  }

  /** M, C and four S, letter by letter. */
  lemma FiveExpectedCommands()
    ensures ExpectedCommands(MILESTONE_COUNT) == "MCSSSS"
  {
    assert ExpectedCommands(1) == "MC";
    assert ExpectedCommands(2) == "MCS";
    assert ExpectedCommands(3) == "MCSS";
    assert ExpectedCommands(4) == "MCSSS";
  }
}
