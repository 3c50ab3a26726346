/** Properties of the scratch gesture engine: what one handler does, and what
    any sequence of gesture events does, from any state or from mount. */
module ScratchProperties {
  import opened Scratch

  // ---------------------------------------------------------------------------
  // Reference definitions: what a sequence of events contributes, independent
  // of the state it is handled in.

  /** The path commands the events add: a move for each start, a line for
      each update longer than the jitter bound. */
  function Commands(es: seq<Gesture>): seq<Cmd>
    decreases |es|
  {
    if es == [] then []
    else
      var head := match es[0]
        case Start(p) => [M(p.x, p.y)]
        case Update(p, d) => if d > JITTER then [L(p.x, p.y)] else []
        case Finalize => [];
      head + Commands(es[1..])
  }

  /** The total length of the accepted (non-jitter) moves among the events. */
  function SweptLength(es: seq<Gesture>): real
    decreases |es|
  {
    if es == [] then 0.0
    else (if es[0].Update? && es[0].d > JITTER then es[0].d else 0.0) + SweptLength(es[1..])
  }

  // ---------------------------------------------------------------------------
  // One handler.

  /** A move of length at most 2 changes nothing at all. */
  lemma JitterIgnored(s: Surface, p: Point, d: real, totalArea: real)
    requires totalArea > 0.0 && d <= JITTER
    ensures Step(s, Update(p, d), totalArea) == s
  {
  }

  /** An accepted move draws exactly one line to the event point, moves the
      previous point there, adds `d * 30` to the accumulator, and latches the
      threshold flag when the clamped ratio reaches 0.4. */
  lemma AcceptedUpdate(s: Surface, p: Point, d: real, totalArea: real)
    requires totalArea > 0.0 && d > JITTER
    ensures var t := Step(s, Update(p, d), totalArea);
      && t.path == s.path + [L(p.x, p.y)]
      && t.previousPoint == p
      && t.scratchedPixels == s.scratchedPixels + d * STROKE_WIDTH
      && t.hasReachedThreshold == (s.hasReachedThreshold || Percentage(t.scratchedPixels, totalArea) >= SCRATCH_THRESHOLD)
      && t.hasTriggeredComplete == s.hasTriggeredComplete
  {
  }

  /** A start adds one move command and sets the previous point, and leaves
      the accumulator and both flags alone, so coverage carries across strokes. */
  lemma StartKeepsCoverage(s: Surface, p: Point, totalArea: real)
    requires totalArea > 0.0
    ensures var t := Step(s, Start(p), totalArea);
      && t.path == s.path + [M(p.x, p.y)]
      && t.previousPoint == p
      && t.scratchedPixels == s.scratchedPixels
      && t.hasReachedThreshold == s.hasReachedThreshold
      && t.hasTriggeredComplete == s.hasTriggeredComplete
  {
  }

  /** The threshold flag is a latch: it is never cleared, and it is only set
      by an accepted update whose clamped ratio reaches 0.4. */
  lemma ThresholdLatch(s: Surface, e: Gesture, totalArea: real)
    requires totalArea > 0.0
    ensures var t := Step(s, e, totalArea);
      && (s.hasReachedThreshold ==> t.hasReachedThreshold)
      && (!s.hasReachedThreshold && t.hasReachedThreshold ==>
            e.Update? && e.d > JITTER && Percentage(t.scratchedPixels, totalArea) >= SCRATCH_THRESHOLD)
  {
  }

  /** Only a finalize can invoke the callback or set the completion flag. */
  lemma OnlyFinalizeCompletes(s: Surface, e: Gesture, totalArea: real)
    requires totalArea > 0.0 && !e.Finalize?
    ensures !Fires(s, e)
    ensures Step(s, e, totalArea).hasTriggeredComplete == s.hasTriggeredComplete
  {
  }

  /** A finalize fires when the threshold was reached and completion was not
      yet triggered; a second finalize right after it is a no-op. */
  lemma FinalizeOnce(s: Surface, totalArea: real)
    requires totalArea > 0.0
    ensures var t := Step(s, Finalize, totalArea);
      && (Fires(s, Finalize) <==> s.hasReachedThreshold && !s.hasTriggeredComplete)
      && !Fires(t, Finalize)
      && Step(t, Finalize, totalArea) == t
      && t.path == s.path && t.scratchedPixels == s.scratchedPixels
  {
  }

  /** Every handler keeps the state invariant. */
  lemma StepPreservesInvariant(s: Surface, e: Gesture, totalArea: real)
    requires totalArea > 0.0 && Invariant(s, totalArea)
    ensures Invariant(Step(s, e, totalArea), totalArea)
  {
  }

  /** The invariant holds when the component mounts. */
  lemma InitialInvariant(totalArea: real)
    requires totalArea > 0.0
    ensures Invariant(Initial(), totalArea)
  {
  }

  // ---------------------------------------------------------------------------
  // Sequences of events.

  /** Handling `a + b` is handling `a`, then `b`. */
  lemma {:induction false} RunAppend(s: Surface, a: seq<Gesture>, b: seq<Gesture>, totalArea: real)
    requires totalArea > 0.0
    ensures Run(s, a + b, totalArea) == Run(Run(s, a, totalArea), b, totalArea)
    ensures Completions(s, a + b, totalArea) == Completions(s, a, totalArea) + Completions(Run(s, a, totalArea), b, totalArea)
    ensures Measured(s, a + b, totalArea) <==> Measured(s, a, totalArea) && Measured(Run(s, a, totalArea), b, totalArea)
    ensures Commands(a + b) == Commands(a) + Commands(b)
    ensures SweptLength(a + b) == SweptLength(a) + SweptLength(b)
    decreases |a|
  {
    if a == [] {
      assert a + b == b;
    } else {
      assert (a + b)[0] == a[0];
      assert (a + b)[1..] == a[1..] + b;
      RunAppend(Step(s, a[0], totalArea), a[1..], b, totalArea);
    }
  }

  /** The invariant holds after any sequence of events. */
  lemma {:induction false} RunPreservesInvariant(s: Surface, es: seq<Gesture>, totalArea: real)
    requires totalArea > 0.0 && Invariant(s, totalArea)
    ensures Invariant(Run(s, es, totalArea), totalArea)
    decreases |es|
  {
    if es != [] {
      StepPreservesInvariant(s, es[0], totalArea);
      RunPreservesInvariant(Step(s, es[0], totalArea), es[1..], totalArea);
    }
  }

  /** The path is append-only and is extended by exactly the commands of the
      events; the accumulator grows by exactly 30 times the accepted length. */
  lemma {:induction false} RunContents(s: Surface, es: seq<Gesture>, totalArea: real)
    requires totalArea > 0.0
    ensures Run(s, es, totalArea).path == s.path + Commands(es)
    ensures Run(s, es, totalArea).scratchedPixels == s.scratchedPixels + STROKE_WIDTH * SweptLength(es)
    ensures SweptLength(es) >= 0.0
    decreases |es|
  {
    if es != [] {
      var t := Step(s, es[0], totalArea);
      RunContents(t, es[1..], totalArea);
      assert s.path + Commands(es) == t.path + Commands(es[1..]);
    }
  }

  /** Nothing any handler does is ever undone: the path only grows, the
      accumulator never decreases and both flags stay set once set. */
  lemma {:induction false} RunMonotone(s: Surface, es: seq<Gesture>, totalArea: real)
    requires totalArea > 0.0
    ensures var t := Run(s, es, totalArea);
      && s.path <= t.path
      && s.scratchedPixels <= t.scratchedPixels
      && (s.hasReachedThreshold ==> t.hasReachedThreshold)
      && (s.hasTriggeredComplete ==> t.hasTriggeredComplete)
    decreases |es|
  {
    if es != [] {
      var t := Step(s, es[0], totalArea);
      ThresholdLatch(s, es[0], totalArea);
      RunMonotone(t, es[1..], totalArea);
    }
  }

  /** The callback fires exactly once if the events flip the completion flag,
      and not at all otherwise. */
  lemma {:induction false} CompletionsExact(s: Surface, es: seq<Gesture>, totalArea: real)
    requires totalArea > 0.0
    ensures Completions(s, es, totalArea) ==
      if !s.hasTriggeredComplete && Run(s, es, totalArea).hasTriggeredComplete then 1 else 0
    decreases |es|
  {
    if es != [] {
      var t := Step(s, es[0], totalArea);
      CompletionsExact(t, es[1..], totalArea);
      RunMonotone(t, es[1..], totalArea);
    }
  }

  /** From mount, the completion callback fires at most once, however many
      strokes and finalizes follow. */
  lemma AtMostOnce(es: seq<Gesture>, totalArea: real)
    requires totalArea > 0.0
    ensures Completions(Initial(), es, totalArea) <= 1
  {
    CompletionsExact(Initial(), es, totalArea);
  }

  /** Once the callback has fired, no later event fires it again. */
  lemma NoSecondCompletion(s: Surface, a: seq<Gesture>, b: seq<Gesture>, totalArea: real)
    requires totalArea > 0.0 && Completions(s, a, totalArea) > 0
    ensures Completions(s, a + b, totalArea) == Completions(s, a, totalArea)
  {
    RunAppend(s, a, b, totalArea);
    CompletionsExact(s, a, totalArea);
    CompletionsExact(Run(s, a, totalArea), b, totalArea);
  }

  /** The callback only fires once the clamped coverage ratio has reached 0.4. */
  lemma CompletionNeedsThreshold(s: Surface, es: seq<Gesture>, totalArea: real)
    requires totalArea > 0.0 && Invariant(s, totalArea) && Completions(s, es, totalArea) > 0
    ensures Percentage(Run(s, es, totalArea).scratchedPixels, totalArea) >= SCRATCH_THRESHOLD
  {
    CompletionsExact(s, es, totalArea);
    RunPreservesInvariant(s, es, totalArea);
  }

  /** Starts and updates never invoke the callback: it fires only on release. */
  lemma CompletionOnlyOnRelease(s: Surface, es: seq<Gesture>, e: Gesture, totalArea: real)
    requires totalArea > 0.0 && !e.Finalize?
    ensures Completions(s, es + [e], totalArea) == Completions(s, es, totalArea)
  {
    RunAppend(s, es, [e], totalArea);
    OnlyFinalizeCompletes(Run(s, es, totalArea), e, totalArea);
  }

  /** From mount, the threshold flag is set after some events exactly when
      30 times their accepted length reaches 40% of the area. */
  lemma ThresholdIffCoverage(es: seq<Gesture>, totalArea: real)
    requires totalArea > 0.0
    ensures Run(Initial(), es, totalArea).hasReachedThreshold <==>
      STROKE_WIDTH * SweptLength(es) >= SCRATCH_THRESHOLD * totalArea
  {
    InitialInvariant(totalArea);
    RunPreservesInvariant(Initial(), es, totalArea);
    RunContents(Initial(), es, totalArea);
  }
}
