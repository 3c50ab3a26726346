# Scratch-to-reveal engine and liked positions, modelled in Dafny

This project models two parts of the "Shameless" job-discovery app.

**The scratch-to-reveal gesture engine** of the `Scratch` component. A job
position's image is hidden under an overlay, and the user scratches the overlay
off with a pan gesture. The engine keeps five pieces of per-card state:

- the stroke path, as SVG `M`/`L` commands;
- the previous pointer point;
- a coverage accumulator;
- a latched "threshold reached" flag;
- a one-shot "completion triggered" flag.

Three gesture handlers drive that state:

- `onStart` begins a subpath.
- `onUpdate` drops jitter of length at most 2. Otherwise it draws a line, adds
  `distance * 30` to the accumulator, and latches the flag once the clamped
  ratio `scratched / imageSize²` reaches 0.4.
- `onFinalize` invokes `onScratchComplete` once, and only after the threshold
  was reached.

The model has two layers:

- A value model: `Scratch.Surface`, `Scratch.Step`, `Scratch.Run` and
  `Scratch.Completions` over sequences of `Gesture` events. The lemmas in
  `ScratchProperties` and `ScratchScenarios` prove properties about it.
- The class `Scratch.ScratchSurface`. Its fields are the component's shared
  values, and its methods are the three handlers. Each method is proved to keep
  `Valid()` and to perform exactly one `Step`. The callback is the ghost
  counter `completions`.

**The liked-positions hook** (`useLikedPositions`):

- the pure transformation of query rows into `Position` records, which drops
  rows whose joined position is null;
- the local removal of one position after its like was deleted;
- the hook's state updates, which apply those functions behind the signed-in
  session guard.

The query and delete results are parameters.

Files:

- `Scratch.dfy`: constants, datatypes, the step functions and the `ScratchSurface` class.
- `ScratchProperties.dfy`: one-step and whole-trace lemmas.
- `ScratchScenarios.dfy`: concrete event sequences on a card of side 300.
- `LikedPositions.dfy`: the hook's transformations and state.
- `Position.dfy`: the `Position` record.
- `Wrappers.dfy`: `Option`.

## Model

| member | source | states |
|---|---|---|
| `Scratch.Percentage` | components/Scratch.tsx:64-65 | the clamped ratio lies in [0, 1] for a non-negative accumulator, and it reaches 0.4 exactly when the accumulator reaches 40% of the card's area |
| `Scratch.StartStep` | components/Scratch.tsx:47-50 | the path grows by exactly one command and the previous point becomes the event point; the accumulator and both flags carry over (exact command: `ScratchProperties.StartKeepsCoverage`) |
| `Scratch.UpdateStep` | components/Scratch.tsx:51-72 | a move of length at most 2 changes nothing; no move shortens the path, adds more than one command, lowers the accumulator, clears the threshold flag or touches the completion flag (exact effect: `ScratchProperties.AcceptedUpdate`, `ScratchProperties.JitterIgnored`) |
| `Scratch.FinalizeStep` | components/Scratch.tsx:73-79 | only the completion flag can change, and afterwards it is set iff it was set or the threshold had been reached (firing and idempotence: `ScratchProperties.FinalizeOnce`) |
| `Scratch.Step` | components/Scratch.tsx:44-79 | dispatches one gesture event to its handler; its properties are stated by `ScratchProperties.ThresholdLatch`, `ScratchProperties.OnlyFinalizeCompletes` and `ScratchProperties.StepPreservesInvariant` |
| `Scratch.Run` | components/Scratch.tsx:44-79 | the state after a sequence of events; its properties are stated by `ScratchProperties.RunAppend`, `ScratchProperties.RunContents`, `ScratchProperties.RunMonotone` and `ScratchProperties.RunPreservesInvariant` |
| `Scratch.Completions` | components/Scratch.tsx:73-79 | the callback fires at most once per event; the exact count (one iff the completion flag goes from clear to set) is `ScratchProperties.CompletionsExact`, and at most one from mount is `ScratchProperties.AtMostOnce` |
| `Scratch.Invariant` | components/Scratch.tsx:30-35 | accumulator ≥ 0, completion ⇒ threshold, threshold ⇔ accumulator ≥ 40% of the area; it holds at mount (`ScratchProperties.InitialInvariant`), is kept by each handler (`ScratchProperties.StepPreservesInvariant`) and by any event sequence (`ScratchProperties.RunPreservesInvariant`) |
| `Scratch.ScratchSurface.constructor` | components/Scratch.tsx:31-35 | a mounted card starts with an empty path, the point (0, 0), a zero accumulator, both flags clear and no completion; the invariant holds |
| `Scratch.ScratchSurface.OnStart` | components/Scratch.tsx:47-50 | appends one move command at the point and sets the previous point; the accumulator, the threshold flag and the completion count are unchanged; the invariant is kept |
| `Scratch.ScratchSurface.OnUpdate` | components/Scratch.tsx:51-72 | performs the update step: the path only grows, the accumulator never decreases, the threshold flag is never cleared, and the completion flag and count are unchanged; the invariant is kept |
| `Scratch.ScratchSurface.OnFinalize` | components/Scratch.tsx:73-79 | performs the finalize step and increments the completion count exactly when the threshold was reached and completion was not yet triggered; the count never exceeds 1, and an increment implies the accumulator reached 40% of the area |
| `ScratchProperties.JitterIgnored` | components/Scratch.tsx:52-56 | an update of distance at most 2 leaves the whole state (path, previous point, accumulator, both flags) unchanged |
| `ScratchProperties.AcceptedUpdate` | components/Scratch.tsx:56-70 | an update of distance over 2 appends exactly one line command to the event point, moves the previous point there, adds exactly `d * 30`, sets the threshold flag iff it was set or the new ratio reaches 0.4, and leaves the completion flag alone |
| `ScratchProperties.StartKeepsCoverage` | components/Scratch.tsx:47-50 | a start appends exactly one move command and sets the previous point, but changes neither the accumulator nor either flag |
| `ScratchProperties.ThresholdLatch` | components/Scratch.tsx:68-70 | no handler clears the threshold flag, and it becomes set only on an accepted update whose clamped ratio is at least 0.4 |
| `ScratchProperties.OnlyFinalizeCompletes` | components/Scratch.tsx:51-78 | starts and updates never fire the callback and never change the completion flag |
| `ScratchProperties.FinalizeOnce` | components/Scratch.tsx:73-78 | a finalize fires iff the threshold is reached and completion is not yet triggered; a finalize right after it neither fires nor changes anything; the path and accumulator are untouched |
| `ScratchProperties.StepPreservesInvariant` | components/Scratch.tsx:51-78 | every handler keeps: accumulator ≥ 0, completion ⇒ threshold, and threshold ⇔ accumulator ≥ 40% of the area |
| `ScratchProperties.InitialInvariant` | components/Scratch.tsx:31-35 | the invariant holds at mount |
| `ScratchProperties.RunAppend` | components/Scratch.tsx:44-79 | handling `a + b` equals handling `a` then `b`, for the state, the completion count, the distance condition, the path commands and the swept length |
| `ScratchProperties.RunPreservesInvariant` | components/Scratch.tsx:44-79 | the invariant holds after any sequence of gesture events |
| `ScratchProperties.RunContents` | components/Scratch.tsx:47-62 | after any events, the path is the old path followed by exactly one `M` per start and one `L` per accepted update, in order; the accumulator grew by exactly 30 × the total accepted distance, which is non-negative |
| `ScratchProperties.RunMonotone` | components/Scratch.tsx:47-78 | over any events the old path is a prefix of the new one, the accumulator does not decrease, and both flags stay set once set |
| `ScratchProperties.CompletionsExact` | components/Scratch.tsx:73-78 | over any events the callback fires exactly once if the completion flag goes from clear to set, and zero times otherwise |
| `ScratchProperties.AtMostOnce` | components/Scratch.tsx:75-77 | from mount, any sequence of starts, updates and finalizes fires the callback at most once |
| `ScratchProperties.NoSecondCompletion` | components/Scratch.tsx:75-77 | once the callback has fired, no further events fire it again |
| `ScratchProperties.CompletionNeedsThreshold` | components/Scratch.tsx:64-77 | if the callback fired, the clamped coverage ratio has reached 0.4 |
| `ScratchProperties.CompletionOnlyOnRelease` | components/Scratch.tsx:51-78 | appending a start or an update to any event sequence never adds a firing |
| `ScratchProperties.ThresholdIffCoverage` | components/Scratch.tsx:61-70 | from mount, the threshold flag is set iff 30 × the total accepted distance reaches 40% of the area, however the strokes are split |
| `ScratchScenarios.ShortStroke` | components/Scratch.tsx:47-78 | start(0,0), a move of 10, finalize: coverage 300, no threshold, no callback |
| `ScratchScenarios.ZigzagEffect` | components/Scratch.tsx:51-72 | n back-and-forth moves of 10 give coverage 300n, the threshold exactly when n ≥ 120, and no callback |
| `ScratchScenarios.ThresholdStroke` | components/Scratch.tsx:68-77 | 120 moves of 10 then finalize fire the callback once, and a second finalize keeps the total at one |
| `ScratchScenarios.JustBelowThreshold` | components/Scratch.tsx:68-77 | 119 moves of 10 then finalize do not fire the callback |
| `ScratchScenarios.JitterStroke` | components/Scratch.tsx:52-56 | a move of 1 is dropped: coverage 0, path only the move command, no callback |
| `ScratchScenarios.StrokesAccumulate` | components/Scratch.tsx:47-77 | coverage carries across strokes: 3,000 then 33,000 after two strokes (no callback); a third stroke reaches 36,000 and its release fires once |
| `LikedPositions.NonNull` | hooks/useLikedPositions.ts:49 | keeps exactly the non-null positions: as many as the input has non-null entries, and a position is kept iff it occurs non-null in the input |
| `LikedPositions.Project` | hooks/useLikedPositions.ts:48 | takes each row's joined position; it distributes over concatenation (`LikedPositions.ProjectAppend`) |
| `LikedPositions.ProjectAppend` | hooks/useLikedPositions.ts:48 | taking the positions of `a + b` gives those of `a` followed by those of `b` |
| `LikedPositions.ToPosition` | hooks/useLikedPositions.ts:50-61 | builds one record; its field mapping is `LikedPositions.RecordFields` and its injectivity `LikedPositions.RecordInjective` |
| `LikedPositions.RecordFields` | hooks/useLikedPositions.ts:50-61 | the record's id is the row's `id`, its title the row's `name`, its `postedAt` the row's `created_at` and its image URL the row's; company, location, type and description are empty, both lists are empty and there is no salary |
| `LikedPositions.RecordInjective` | hooks/useLikedPositions.ts:50-61 | two rows that give the same record are the same row: no selected column is lost |
| `LikedPositions.ToPositions` | hooks/useLikedPositions.ts:50-61 | builds one record per position; it distributes over concatenation (`LikedPositions.ToPositionsAppend`) |
| `LikedPositions.ToPositionsAppend` | hooks/useLikedPositions.ts:50-61 | the records of `a + b` are those of `a` followed by those of `b` |
| `LikedPositions.LikedFromRows` | hooks/useLikedPositions.ts:47-61 | the liked list is never longer than the rows, and every record has the empty fields and the image URL the transformation gives; order and per-row behaviour are `LikedPositions.LikedFromRowsAppend`, `LikedPositions.LikedFromOneRow` and `LikedPositions.NoNullRows` |
| `LikedPositions.LikedFromRowsAppend` | hooks/useLikedPositions.ts:41-61 | the records of `a + b` are those of `a` followed by those of `b`, so the query's newest-first order is kept |
| `LikedPositions.LikedFromOneRow` | hooks/useLikedPositions.ts:47-61 | a null row yields no record; a non-null row yields exactly the record built from it |
| `LikedPositions.NonNullAppend` | hooks/useLikedPositions.ts:49 | the null filter distributes over concatenation |
| `LikedPositions.NoNullRows` | hooks/useLikedPositions.ts:47-61 | with no null rows, the output has one record per row, in row order |
| `LikedPositions.RemoveById` | hooks/useLikedPositions.ts:85 | no entry with the removed id is left; an entry is kept iff it was present with another id; the length never grows, and it is unchanged iff no entry had the id |
| `LikedPositions.RemoveAppend` | hooks/useLikedPositions.ts:85 | removal distributes over concatenation, so the kept entries keep their relative order |
| `LikedPositions.RemoveIdempotent` | hooks/useLikedPositions.ts:85 | removing the same id twice gives the same list as removing it once |
| `LikedPositions.RemoveAbsent` | hooks/useLikedPositions.ts:85 | removing an id that no entry has leaves the list unchanged |
| `LikedPositions.RemoveCommutes` | hooks/useLikedPositions.ts:85 | removing two ids gives the same list in either order |
| `LikedPositions.SignedIn` | hooks/useLikedPositions.ts:24 | the guard `session?.user`, here and again at line 72; `LikedPositions.LikedPositionsHook.FetchLikedPositions` and `LikedPositions.LikedPositionsHook.RemovePosition` state that without it neither changes anything |
| `LikedPositions.LikedPositionsHook.constructor` | hooks/useLikedPositions.ts:18-19 | the hook starts with an empty liked list and loading set |
| `LikedPositions.LikedPositionsHook.FetchLikedPositions` | hooks/useLikedPositions.ts:23-69 | with no signed-in user, nothing changes; otherwise loading ends, and a successful query replaces the list with the transformed rows, while a failed one leaves the list as it was |
| `LikedPositions.LikedPositionsHook.RemovePosition` | hooks/useLikedPositions.ts:71-89 | with no signed-in user, or when the delete fails, the list is unchanged; otherwise the removed id is filtered out; loading is never touched |

## Left out

- Scratch.ScratchSurface.OnUpdate: takes the distance `d` as an argument and requires `d ≥ 0` and `d² = dx² + dy²`, in place of computing `Math.sqrt` (components/Scratch.tsx:52-54). The value-level `Step` accepts any `d`, and `Scratch.Measured` records the distance condition for a whole trace.
- JavaScript doubles: all arithmetic is on Dafny's exact `real`. There is no rounding, no NaN and no Infinity. Non-finite coordinates are therefore not modelled. The code has no explicit check for them: a NaN distance happens to fail `distance > 2`, and an infinite one is accepted.
- The path string: `path` is a sequence of `M`/`L` commands, not the SVG text (components/Scratch.tsx:49, 57). Number-to-text formatting is not modelled.
- `imageSize`: it is computed from `Dimensions.get('window')` (components/Scratch.tsx:15-16), a platform call. Here the card's side is a positive constructor argument, and the area `side * side` is computed once at construction. The component recomputes the same constant on every update (line 64).
- The gesture recogniser's configuration `minDistance(0)` and `averageTouches(true)` (components/Scratch.tsx:45-46). Event delivery order is the caller's, as any event sequence.
- `runOnJS` and the hand-off to the JavaScript thread (components/Scratch.tsx:77). The callback is modelled as a counter (`completions`, `Completions`). The caller's `onScratchComplete` itself is not part of this model.
- `Image.prefetch` (components/Scratch.tsx:38-42) and the SVG mask rendering (components/Scratch.tsx:81-152). These are I/O and presentation; the model exposes only `path`.
- All Supabase I/O in hooks/useLikedPositions.ts: the liked-interactions query (its filters and its `created_at` ordering at line 41 are done by the database; the model takes the rows in the order returned), the delete, the realtime subscription and its refresh (lines 91-117), and `console.error`. Query and delete outcomes are parameters: `FetchResponse`, `DeleteResponse`.
- LikedPositions.LikedPositionsHook.FetchLikedPositions: a reply with neither an error nor data would throw inside the transformation and be caught; it is modelled as `FetchFailed`, which has the same effect. A row with an `undefined` rather than `null` position (which would also throw) is not modelled.
- React's `useState` scheduling: `setLikedPositions(prev => ...)` is applied at once to the current list, because the model is sequential.
- hooks/usePositionInteraction.ts, services/supabase.ts and the screens and UI components are outside this model. types/position.ts is reused as the `Position` record.
