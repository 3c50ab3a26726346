/** Concrete gesture sequences on a card of side 300 (area 90,000): with a
    brush of 30 and a threshold of 0.4, completion needs 36,000 of coverage,
    that is, 1,200 units of accepted stroke length. */
module ScratchScenarios {
  import opened Scratch
  import opened ScratchProperties

  const AREA: real := 300.0 * 300.0

  function Origin(): Point { Point(0.0, 0.0) }

  /** A fresh surface right after `start(0, 0)`. */
  function Started(): Surface {
    Step(Initial(), Start(Origin()), AREA)
  }

  /** The point reached by the k-th move of a back-and-forth stroke. */
  function ZigzagPoint(k: nat): Point {
    if k % 2 == 1 then Point(10.0, 0.0) else Origin()
  }

  /** `n` moves of 10 units, alternately to (10, 0) and back to (0, 0). */
  function Zigzag(n: nat): seq<Gesture> {
    if n == 0 then [] else Zigzag(n - 1) + [Update(ZigzagPoint(n), 10.0)]
  }

  /** A short stroke leaves the threshold unreached, so release does nothing. */
  lemma ShortStroke()
    ensures var es := [Start(Origin()), Update(Point(10.0, 0.0), 10.0), Finalize];
      && Measured(Initial(), es, AREA)
      && Run(Initial(), es, AREA).scratchedPixels == 300.0
      && !Run(Initial(), es, AREA).hasReachedThreshold
      && Completions(Initial(), es, AREA) == 0
  {
  }

  /** After `n` back-and-forth moves the accumulator holds 300 n, and the
      threshold is reached exactly from the 120th move on; nothing fires. */
  lemma {:induction false} ZigzagEffect(n: nat)
    ensures var t := Run(Started(), Zigzag(n), AREA);
      && Measured(Started(), Zigzag(n), AREA)
      && t.previousPoint == ZigzagPoint(n)
      && t.scratchedPixels == 300.0 * (n as real)
      && t.hasReachedThreshold == (n >= 120)
      && !t.hasTriggeredComplete
      && Completions(Started(), Zigzag(n), AREA) == 0
  {
    if n > 0 {
      ZigzagEffect(n - 1);
      var e := Update(ZigzagPoint(n), 10.0);
      RunAppend(Started(), Zigzag(n - 1), [e], AREA);
      var t := Run(Started(), Zigzag(n - 1), AREA);
      assert IsDistance(t.previousPoint, e.p, 10.0);
      AcceptedUpdate(t, e.p, 10.0, AREA);
      assert 300.0 * ((n - 1) as real) + 10.0 * STROKE_WIDTH == 300.0 * (n as real);
    }
  }

  /** 120 moves of 10 reach the threshold exactly; release then fires once,
      and a second, spurious release does not fire again. */
  lemma ThresholdStroke()
    ensures var es := [Start(Origin())] + Zigzag(120) + [Finalize];
      && Measured(Initial(), es, AREA)
      && Completions(Initial(), es, AREA) == 1
      && Completions(Initial(), es + [Finalize], AREA) == 1
  {
    var es := [Start(Origin())] + Zigzag(120) + [Finalize];
    ZigzagEffect(120);
    RunAppend(Initial(), [Start(Origin())], Zigzag(120), AREA);
    RunAppend(Initial(), [Start(Origin())] + Zigzag(120), [Finalize], AREA);
    NoSecondCompletion(Initial(), es, [Finalize], AREA);
  }

  /** One move short of the threshold, release does not fire. */
  lemma JustBelowThreshold()
    ensures var es := [Start(Origin())] + Zigzag(119) + [Finalize];
      Completions(Initial(), es, AREA) == 0
  {
    ZigzagEffect(119);
    RunAppend(Initial(), [Start(Origin())], Zigzag(119), AREA);
    RunAppend(Initial(), [Start(Origin())] + Zigzag(119), [Finalize], AREA);
  }

  /** A move of 1 is jitter: the accumulator stays 0 and release does nothing. */
  lemma JitterStroke()
    ensures var es := [Start(Origin()), Update(Point(1.0, 0.0), 1.0), Finalize];
      && Measured(Initial(), es, AREA)
      && Run(Initial(), es, AREA).scratchedPixels == 0.0
      && Run(Initial(), es, AREA).path == [M(0.0, 0.0)]
      && Completions(Initial(), es, AREA) == 0
  {
    var es := [Start(Origin()), Update(Point(1.0, 0.0), 1.0), Finalize];
    JitterIgnored(Started(), Point(1.0, 0.0), 1.0, AREA);
    assert es[1..][1..] == [Finalize];
    assert Measured(Started(), es[1..], AREA);
    assert Run(Initial(), es, AREA) == Run(Started(), [Finalize], AREA);
    assert Completions(Initial(), es, AREA) == Completions(Started(), [Finalize], AREA);
  }

  /** Coverage carries across strokes: 3,000 and 30,000 leave the card below
      the threshold; a third stroke of 100 reaches 36,000 and its release fires. */
  lemma StrokesAccumulate()
    ensures var first := [Start(Origin()), Update(Point(100.0, 0.0), 100.0), Finalize];
      var second := [Start(Point(100.0, 0.0)), Update(Point(1100.0, 0.0), 1000.0), Finalize];
      var third := [Start(Point(1100.0, 0.0)), Update(Point(1200.0, 0.0), 100.0), Finalize];
      && Measured(Initial(), first + second + third, AREA)
      && Run(Initial(), first + second, AREA).scratchedPixels == 33000.0
      && Completions(Initial(), first + second, AREA) == 0
      && Run(Initial(), first + second + third, AREA).scratchedPixels == 36000.0
      && Completions(Initial(), first + second + third, AREA) == 1
  {
    var first := [Start(Origin()), Update(Point(100.0, 0.0), 100.0), Finalize];
    var second := [Start(Point(100.0, 0.0)), Update(Point(1100.0, 0.0), 1000.0), Finalize];
    var third := [Start(Point(1100.0, 0.0)), Update(Point(1200.0, 0.0), 100.0), Finalize];
    RunAppend(Initial(), first, second, AREA);
    RunAppend(Initial(), first + second, third, AREA);
  }
}
