/** The scratch-to-reveal gesture engine of the `Scratch` component.
    A pan gesture delivers `start`, `update`* and `finalize` events; the engine
    grows a stroke path, accumulates a swept-area estimate of the scratched
    surface, latches a flag once 40% of the card is estimated to be covered and,
    on release, fires the completion callback once.

    The module has two layers: a value model (`Surface`, `Step`, `Run`) that the
    lemmas in module ScratchProperties reason about, and the class
    `ScratchSurface`, whose fields are the component's shared values and whose
    methods are the three gesture handlers, each proved to perform one `Step`. */
module Scratch {

  /** Fraction of the card that must be scratched (40%). */
  const SCRATCH_THRESHOLD: real := 0.4
  /** Width of the reveal brush; a stroke of length d covers d * STROKE_WIDTH. */
  const STROKE_WIDTH: real := 30.0
  /** Moves of this length or less are jitter and ignored. */
  const JITTER: real := 2.0

  datatype Point = Point(x: real, y: real)

  /** One SVG path command: `M x y` begins a subpath, `L x y` draws a line to the point. */
  datatype Cmd = M(x: real, y: real) | L(x: real, y: real)

  /** A gesture event. `Update` carries the Euclidean distance `d` from the
      previous point, which the component computes with a square root. */
  datatype Gesture = Start(p: Point) | Update(p: Point, d: real) | Finalize

  /** The five pieces of per-instance state. */
  datatype Surface = Surface(
    path: seq<Cmd>,
    previousPoint: Point,
    scratchedPixels: real,
    hasReachedThreshold: bool,
    hasTriggeredComplete: bool)

  /** The state a freshly mounted component starts from. */
  function Initial(): Surface {
    Surface([], Point(0.0, 0.0), 0.0, false, false)
  }

  /** `d` is the Euclidean distance from `a` to `b`. */
  predicate IsDistance(a: Point, b: Point, d: real) {
    d >= 0.0 && d * d == (b.x - a.x) * (b.x - a.x) + (b.y - a.y) * (b.y - a.y)
  }

  function Min(a: real, b: real): real {
    if a <= b then a else b
  }

  /** The area of a square card of positive side is positive. */
  lemma SquarePositive(side: real, area: real)
    requires side > 0.0 && area == side * side
    ensures area > 0.0
  {
    calc {
      area;
    ==
      side * side;
    >
      0.0;
    }
  }

  /** For a positive area, the quotient reaches `c` exactly when `x` reaches `c` times the area. */
  lemma QuotientAtLeast(x: real, area: real, c: real)
    requires area > 0.0
    ensures x / area >= c <==> x >= c * area
  {
    var q := x / area;
    assert q * area == x;
    if q >= c {
      assert q * area >= c * area;
    } else {
      assert q * area < c * area;
    }
  }

  /** The estimated scratched fraction of a card of area `totalArea`, clamped
      to 1. It reaches the threshold exactly when the accumulator reaches 40%
      of the card's area. */
  function Percentage(scratched: real, totalArea: real): (r: real)
    requires totalArea > 0.0
    ensures r <= 1.0
    ensures scratched >= 0.0 ==> 0.0 <= r
    ensures r >= SCRATCH_THRESHOLD <==> scratched >= SCRATCH_THRESHOLD * totalArea
  {
    QuotientAtLeast(scratched, totalArea, SCRATCH_THRESHOLD);
    QuotientAtLeast(scratched, totalArea, 0.0);
    Min(scratched / totalArea, 1.0)
  }

  /** The state invariant every handler keeps: the accumulator is never
      negative, completion only follows the threshold, and the latched flag
      says exactly whether the accumulator has reached 40% of the area. */
  ghost predicate Invariant(s: Surface, totalArea: real) {
    && s.scratchedPixels >= 0.0
    && (s.hasTriggeredComplete ==> s.hasReachedThreshold)
    && (s.hasReachedThreshold <==> s.scratchedPixels >= SCRATCH_THRESHOLD * totalArea)
  }

  /** `onStart`: remember the point and begin a new subpath there. The path
      grows by one command; the coverage and both flags carry over. */
  function StartStep(s: Surface, p: Point): (t: Surface)
    ensures s.path < t.path && |t.path| == |s.path| + 1 && t.previousPoint == p
    ensures t.scratchedPixels == s.scratchedPixels
    ensures t.hasReachedThreshold == s.hasReachedThreshold && t.hasTriggeredComplete == s.hasTriggeredComplete
  {
    s.(path := s.path + [M(p.x, p.y)], previousPoint := p)
  }

  /** `onUpdate`: ignore jitter; otherwise draw a line to the point, add the
      swept area and latch the threshold flag. Jitter changes nothing; no
      update shrinks the path or the coverage, clears the threshold flag or
      touches the completion flag. */
  function UpdateStep(s: Surface, p: Point, d: real, totalArea: real): (t: Surface)
    requires totalArea > 0.0
    ensures d <= JITTER ==> t == s
    ensures s.path <= t.path && |t.path| <= |s.path| + 1
    ensures s.scratchedPixels <= t.scratchedPixels
    ensures s.hasReachedThreshold ==> t.hasReachedThreshold
    ensures t.hasTriggeredComplete == s.hasTriggeredComplete
  {
    if d > JITTER then
      var scratched := s.scratchedPixels + d * STROKE_WIDTH;
      var reached := if Percentage(scratched, totalArea) >= SCRATCH_THRESHOLD then true else s.hasReachedThreshold;
      s.(path := s.path + [L(p.x, p.y)], previousPoint := p,
         scratchedPixels := scratched, hasReachedThreshold := reached)
    else
      s
  }

  /** Whether handling `e` in state `s` invokes the completion callback. */
  predicate Fires(s: Surface, e: Gesture) {
    e.Finalize? && s.hasReachedThreshold && !s.hasTriggeredComplete
  }

  /** `onFinalize`: mark completion once the threshold was reached. Only the
      completion flag can change, and afterwards it is set exactly when it
      was set before or the threshold had been reached. */
  function FinalizeStep(s: Surface): (t: Surface)
    ensures t.path == s.path && t.previousPoint == s.previousPoint && t.scratchedPixels == s.scratchedPixels
    ensures t.hasReachedThreshold == s.hasReachedThreshold
    ensures t.hasTriggeredComplete <==> s.hasTriggeredComplete || s.hasReachedThreshold
  {
    if s.hasReachedThreshold && !s.hasTriggeredComplete then s.(hasTriggeredComplete := true) else s
  }

  function Step(s: Surface, e: Gesture, totalArea: real): Surface
    requires totalArea > 0.0
  {
    match e
    case Start(p) => StartStep(s, p)
    case Update(p, d) => UpdateStep(s, p, d, totalArea)
    case Finalize => FinalizeStep(s)
  }

  /** The state after handling the events `es` in order. */
  function Run(s: Surface, es: seq<Gesture>, totalArea: real): Surface
    requires totalArea > 0.0
    decreases |es|
  {
    if es == [] then s else Run(Step(s, es[0], totalArea), es[1..], totalArea)
  }

  /** How many times the completion callback is invoked while handling `es`:
      at most once per event. */
  function Completions(s: Surface, es: seq<Gesture>, totalArea: real): (n: nat)
    requires totalArea > 0.0
    ensures n <= |es|
    decreases |es|
  {
    if es == [] then 0
    else (if Fires(s, es[0]) then 1 else 0) + Completions(Step(s, es[0], totalArea), es[1..], totalArea)
  }

  /** Every `Update` in `es` carries the true distance from the point the
      engine holds when that event arrives. */
  ghost predicate Measured(s: Surface, es: seq<Gesture>, totalArea: real)
    requires totalArea > 0.0
    decreases |es|
  {
    es == [] ||
    ((es[0].Update? ==> IsDistance(s.previousPoint, es[0].p, es[0].d))
     && Measured(Step(s, es[0], totalArea), es[1..], totalArea))
  }

  /** One mounted `Scratch` component. The fields are its shared values;
      `completions` counts the invocations of `onScratchComplete`. */
  class ScratchSurface {
    var path: seq<Cmd>
    var previousPoint: Point
    var scratchedPixels: real
    var hasReachedThreshold: bool
    var hasTriggeredComplete: bool
    /** Side of the square card (80% of the window width) and its area. */
    const side: real
    const totalArea: real
    ghost var completions: nat

    ghost function State(): Surface
      reads this
    {
      Surface(path, previousPoint, scratchedPixels, hasReachedThreshold, hasTriggeredComplete)
    }

    ghost predicate Valid()
      reads this
    {
      && side > 0.0 && totalArea == side * side && totalArea > 0.0
      && Invariant(State(), totalArea)
      && completions == (if hasTriggeredComplete then 1 else 0)
    }

    constructor (side: real)
      requires side > 0.0
      ensures Valid()
      ensures this.side == side && State() == Initial() && completions == 0
    {
      var area := side * side;
      SquarePositive(side, area);
      this.side := side;
      totalArea := area;
      path := [];
      previousPoint := Point(0.0, 0.0);
      scratchedPixels := 0.0;
      hasReachedThreshold := false;
      hasTriggeredComplete := false;
      completions := 0;
    }

    method OnStart(p: Point)
      requires Valid()
      modifies this
      ensures Valid()
      ensures State() == Step(old(State()), Start(p), totalArea)
      ensures path == old(path) + [M(p.x, p.y)] && previousPoint == p
      ensures scratchedPixels == old(scratchedPixels)
      ensures hasReachedThreshold == old(hasReachedThreshold)
      ensures completions == old(completions)
    {
      previousPoint := p;
      path := path + [M(p.x, p.y)];
    }

    /** `d` is what the component computes as `Math.sqrt(dx * dx + dy * dy)`. */
    method OnUpdate(p: Point, d: real)
      requires Valid()
      requires IsDistance(previousPoint, p, d)
      modifies this
      ensures Valid()
      ensures State() == Step(old(State()), Update(p, d), totalArea)
      ensures old(path) <= path && old(scratchedPixels) <= scratchedPixels
      ensures old(hasReachedThreshold) ==> hasReachedThreshold
      ensures hasTriggeredComplete == old(hasTriggeredComplete) && completions == old(completions)
    {
      if d > JITTER {
        path := path + [L(p.x, p.y)];
        previousPoint := p;
        var strokeArea := d * STROKE_WIDTH;
        scratchedPixels := scratchedPixels + strokeArea;
        var percentage := Percentage(scratchedPixels, totalArea);
        if percentage >= SCRATCH_THRESHOLD {
          hasReachedThreshold := true;
        }
      }
    }

    method OnFinalize()
      requires Valid()
      modifies this
      ensures Valid()
      ensures State() == Step(old(State()), Finalize, totalArea)
      ensures completions == old(completions) + (if Fires(old(State()), Finalize) then 1 else 0)
      ensures completions <= 1
      ensures completions > old(completions) ==> scratchedPixels >= SCRATCH_THRESHOLD * totalArea
    {
      if hasReachedThreshold && !hasTriggeredComplete {
        hasTriggeredComplete := true;
        completions := completions + 1;
      }
    }
  }
}
