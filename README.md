# GridRecall in Dafny

GridRecall is a single-page app for memorising sequences on a 3x3 grid of
buttons. Clicking a button appends that cell's index to the *sequence*. A
*current step* cursor says how much of the sequence is visible. Manual
controls move the cursor one step back or forward. Playback controls (play,
pause, stop) move it automatically, one step per interval tick. Each grid
cell shows the 1-based steps at which it was pressed, up to the cursor. The
labels are laid out on two clock-face rings of 12 positions each: steps
1..12 go on the inner ring and later steps on the outer ring. A step that
finds its position taken moves clockwise to the next free one.

The project has five modules:

- `ClockRing` (`clock_ring.dfy`) is the 12-position ring and the
  `findPosition` probe.
  - A ring is a `seq<Slot>` of length 12, and `Place` is the specification
    of one placement.
  - The source's loop is the method `FindPosition`. It works on an
    `array<Slot>` that stands for the `Map` of occupied positions.
  - `PlaceSteps` is the `forEach` that places all of a cell's steps.
- `ButtonGrid` (`button_grid.dfy`) is the rendering logic of one cell and of
  the grid:
  - the grid items and the button variant;
  - the step numbers (a loop, `SequenceNumbers`);
  - the split into the inner and outer rings, and the current-cell ring.
  `RenderCell` / `RenderGrid` assemble the view of a cell: its variant, its
  highlight, its labels and the contents of both rings.
- `Page` (`page.dfy`) is the state of the home page.
  - The page state is a value `Snapshot`: sequence, cursor, playback
    cursor, playing flag, and whether the interval timer is armed.
  - Each handler is a pure function `Handle`. The playback effect is
    `PlaybackEffect`. A user event or interval tick followed by the effect is
    `Step`.
  - The class `Home` holds the same state in mutable fields. It has one
    method per handler, each proved to update its fields as `Handle` says.
- `PageProperties` (`page_properties.dfy`) holds what the handlers and the
  effect promise together:
  - every reachable state is consistent;
  - navigation clamps;
  - replay from the end reveals every step and then stops.
- `ButtonGridExamples` (in `button_grid.dfy`) works two concrete scenarios
  through the rendering functions.

JavaScript semantics the model spells out:

- `slice` with a negative or too-large bound (`SliceIndex`).
- `sequence[i]` past the end is `undefined`, so loops over `currentStep`
  only see existing entries (`VisibleCount`), and `isCurrent` is false when
  the cursor is 0.
- `(stepNumber - 1) % 12`, for the positive step numbers the component
  produces.

Points where the code departs from a general clock-ring design:

- There are exactly two rings. Every step above 12 goes to the outer ring.
  From step 25 on, the outer ring can fill up, and then `findPosition`
  overwrites the step's initial position (`PlaceOnFullRing`). The step
  that held that position is no longer shown
  (`FullRingHidesOverwrittenStep`). No step is ever shown twice
  (`RingPlacementUnique`).
- A cell's labels show only the steps up to the cursor, not the whole
  history.
- After `L` ticks from a replay start, playing is still on. Playing stops
  on tick `L + 1`, when the updater finds no further step
  (`ReplayRevealsEveryStepThenStops`).
- Pause and stop do not clear the interval themselves. The playback
  effect that follows does (`PlaybackEffect`, `Step`).

## Model

| member | source | states |
|---|---|---|
| ClockRing.EmptyRing | src/components/button-grid.tsx:82-83 | a fresh occupancy map is a ring of 12 empty positions |
| ClockRing.Clockwise | src/components/button-grid.tsx:91 | moving clockwise stays on the 12 positions |
| ClockRing.ClockwiseNext | src/components/button-grid.tsx:91 | one more clockwise move wraps the position by `(p + 1) % 12` |
| ClockRing.InitialPosition | src/components/button-grid.tsx:86 | the initial position of a step `>= 1` is one of the 12 positions |
| ClockRing.ProbeFrom | src/components/button-grid.tsx:87-93 | the probe stops at the first empty position clockwise; every position it passes is taken; it gives up after 12 attempts |
| ClockRing.FullProbeMeansFull | src/components/button-grid.tsx:90-93 | a probe that uses all 12 attempts means the ring has no empty position |
| ClockRing.PlacementSlot | src/components/button-grid.tsx:85-101 | with a free position, a step lands on the first empty position clockwise from its initial one; on a full ring it lands back on its initial position |
| ClockRing.Place | src/components/button-grid.tsx:95-101 | placing a step writes only its slot and keeps the ring at 12 positions |
| ClockRing.PlaceAll | src/components/button-grid.tsx:104-110 | placing steps in order keeps the ring at 12 positions |
| ClockRing.Filled | src/components/button-grid.tsx:90 | the number of taken positions is at most the ring size |
| ClockRing.FreeIffNotFull | src/components/button-grid.tsx:90-95 | a ring has an empty position if and only if fewer than 12 positions are taken |
| ClockRing.FilledAfterUpdate | src/components/button-grid.tsx:96-100 | writing a slot changes the taken count by exactly the change at that slot |
| ClockRing.FilledAllEmpty | src/components/button-grid.tsx:82-83 | a fresh ring has no taken position |
| ClockRing.PlaceOnFreeSlot | src/components/button-grid.tsx:95-96 | on a ring with room, a placement writes only the first empty position clockwise and takes one more position |
| ClockRing.PlaceOnFullRing | src/components/button-grid.tsx:97-101 | on a full ring, a placement overwrites the step's initial position and the ring stays full |
| ClockRing.OverwriteWithNewLabel | src/components/button-grid.tsx:96-100 | writing a new label into any slot, free or taken, keeps labels unique and shows nothing but the old labels and the new one |
| ClockRing.FullRingHidesOverwrittenStep | src/components/button-grid.tsx:97-101 | on a full ring with unique labels, the step at the new step's initial position is shown before the placement and no longer shown after it |
| ClockRing.WriteNewLabel | src/components/button-grid.tsx:96 | writing a new label in an empty slot keeps labels unique and adds exactly that label |
| ClockRing.RingPlacementInjective | src/components/button-grid.tsx:104-110 | placing at most 12 distinct positive steps on an empty ring shows each step exactly once, shows nothing else and takes one position per step |
| ClockRing.RingPlacementUnique | src/components/button-grid.tsx:104-110 | placing any number of distinct positive steps on an empty ring never shows a step twice and shows only placed steps |
| ClockRing.InnerRingAtOwnPositions | src/components/button-grid.tsx:104-106 | ascending steps from 1..12 each land on their own position `step - 1`, and every other position stays empty |
| ClockRing.FindPosition | src/components/button-grid.tsx:85-102 | the probing loop leaves the occupancy array equal to `Place` of its old contents |
| ClockRing.PlaceSteps | src/components/button-grid.tsx:104-110 | the `forEach` leaves the occupancy array equal to `PlaceAll` of its old contents |
| ButtonGrid.GridItems | src/components/button-grid.tsx:43 | the grid items are `0 .. rows*cols - 1`: each once, ascending, nothing else |
| ButtonGrid.SliceIndex | src/components/button-grid.tsx:46-47 | the bound `slice` uses lies within the sequence and equals the given bound when that is in range |
| ButtonGrid.ButtonVariant | src/components/button-grid.tsx:45-52 | secondary if and only if the cell is pressed before the cursor; outline if and only if pressed only after it; default if and only if never pressed |
| ButtonGrid.StepNumbers | src/components/button-grid.tsx:54-62 | the step numbers are exactly the 1-based steps up to the bound at which the cell was pressed, strictly ascending |
| ButtonGrid.VisibleCount | src/components/button-grid.tsx:56-57 | the loop sees `currentStep` entries when the cursor is within the sequence, and never more than the sequence holds |
| ButtonGrid.SequenceNumbers | src/components/button-grid.tsx:54-62 | the loop returns `StepNumbers` for the visible steps: exactly the visible presses of the cell, ascending |
| ButtonGrid.IsInner | src/components/button-grid.tsx:75 | the inner filter `n <= 12`; a positive inner step starts its probe at its own position `n - 1` |
| ButtonGrid.IsOuter | src/components/button-grid.tsx:76 | the outer filter `n > 12` holds exactly when the inner one does not, so each step goes to one ring |
| ButtonGrid.InnerSteps | src/components/button-grid.tsx:75 | the inner list holds exactly the step numbers up to 12 |
| ButtonGrid.OuterSteps | src/components/button-grid.tsx:76 | the outer list holds exactly the step numbers above 12 |
| ButtonGrid.Filter | src/components/button-grid.tsx:75-76 | a filtered list holds exactly the kept members, and is no longer than its input |
| ButtonGrid.FilterAscending | src/components/button-grid.tsx:75-76 | filtering an ascending list keeps it ascending |
| ButtonGrid.FilterKeepsAll | src/components/button-grid.tsx:75-76 | a filter that keeps every member returns its input |
| ButtonGrid.FilterKeepsNone | src/components/button-grid.tsx:75-76 | a filter that keeps no member returns the empty list |
| ButtonGrid.RingSplitPartitions | src/components/button-grid.tsx:74-76 | for ascending step numbers, the inner steps followed by the outer steps are exactly all the step numbers |
| ButtonGrid.IsCurrent | src/components/button-grid.tsx:79 | a cell is current if and only if it was pressed at the step under the cursor; a current cell has a positive cursor within the sequence and shows the secondary variant |
| ButtonGrid.StepNumbersNonEmpty | src/components/button-grid.tsx:54-62 | a cell has step numbers up to a bound if and only if it appears in the sequence before that bound |
| ButtonGrid.VariantMatchesStepNumbers | src/components/button-grid.tsx:45-62 | the variant is secondary if and only if the cell shows some step number, and default if and only if it has none over the whole sequence |
| ButtonGrid.InnerRingLabels | src/components/button-grid.tsx:75 | every visible step `s <= 12` sits at inner position `s - 1`, and every taken inner position `j` shows step `j + 1` |
| ButtonGrid.OuterRingLabels | src/components/button-grid.tsx:76 | the outer ring never shows a step twice and shows only steps above 12; with at most 12 such steps it shows every one of them |
| ButtonGrid.Renders | src/components/button-grid.tsx:73-110 | what the grid's `map` callback derives for a cell; a rendered cell has two 12-position rings, and a current cell is secondary |
| ButtonGrid.RenderCell | src/components/button-grid.tsx:73-110 | the cell's view has the variant, highlight and step numbers of the cell, and rings built by `findPosition` over the two filtered lists; inner labels sit at their own positions; outer labels are unique, above 12, and complete when at most 12 |
| ButtonGrid.RenderGrid | src/components/button-grid.tsx:43 | one view per grid item, each the rendering of its own cell |
| ButtonGridExamples.ThreeClicksOnTwoCells | src/components/button-grid.tsx:54-110 | sequence `[0, 3, 0]` with the cursor at the end: cell 0 shows steps 1 and 3 at inner positions 0 and 2, nothing outside, and is current; cell 3 is secondary |
| ButtonGridExamples.NoOuterSteps | src/components/button-grid.tsx:76 | step numbers all at most 12 leave the outer ring empty |
| ButtonGridExamples.ThirteenClicksOnOneCell | src/components/button-grid.tsx:73-110 | one cell pressed 13 times fills the inner ring with steps 1..12 in order and shows step 13 at outer position 0 |
| ButtonGridExamples.OnlyThirteenIsOuter | src/components/button-grid.tsx:75-76 | among steps 1..13, step 13 alone goes to the outer ring |
| Page.Initial | src/app/page.tsx:26-40 | the mount state is consistent: empty sequence, not playing, no interval |
| Page.Max | src/app/page.tsx:109 | `Math.max` is an upper bound of both arguments and equals one of them |
| Page.Min | src/app/page.tsx:118 | `Math.min` is a lower bound of both arguments and equals one of them |
| Page.Handle | src/app/page.tsx:46-147 | every handler keeps both cursors within `0 .. |sequence|` and equal; only click and reset change the sequence; a click only appends; click and manual navigation do nothing while playing |
| Page.PlaybackEffect | src/app/page.tsx:43-79 | the effect arms the interval exactly while playing; when not playing it copies the playback cursor into the current step; on valid cursors it changes nothing else |
| Page.Step | src/app/page.tsx:43-147 | an event followed by the effect keeps the state consistent |
| Page.Ticks | src/app/page.tsx:45-63 | `n` ticks of the interval are `n` tick events |
| Page.Home.constructor | src/app/page.tsx:15-40 | mounting yields a 3x3 grid, an empty sequence, both cursors at 0, not playing and no interval |
| Page.Home.HandleButtonClick | src/app/page.tsx:83-92 | while playing nothing changes; otherwise the index is appended and both cursors move to the new length |
| Page.Home.HandleReset | src/app/page.tsx:95-104 | the sequence is emptied, both cursors go to 0, playing stops and the interval is cleared |
| Page.Home.HandlePreviousStep | src/app/page.tsx:106-113 | while playing nothing changes; otherwise both cursors move to `max(0, cursor - 1)` |
| Page.Home.HandleNextStep | src/app/page.tsx:115-122 | while playing nothing changes; otherwise both cursors move to `min(|sequence|, cursor + 1)` |
| Page.Home.HandlePlay | src/app/page.tsx:124-136 | nothing on an empty sequence; from the end both cursors restart at 0; otherwise the cursor takes the playback cursor; playing starts |
| Page.Home.HandlePause | src/app/page.tsx:138-141 | only the playing flag is cleared |
| Page.Home.HandleStop | src/app/page.tsx:143-147 | playing stops and both cursors go to 0; the sequence is kept |
| Page.Home.IntervalTick | src/app/page.tsx:45-62 | a tick with a step left advances both cursors by one; at the end it stops playing, clears the interval and keeps the cursor |
| Page.Home.RunPlaybackEffect | src/app/page.tsx:43-79 | the effect leaves the interval armed exactly while playing and updates the fields as `PlaybackEffect` |
| PageProperties.RunStaysConsistent | src/app/page.tsx:43-147 | any run of events from a consistent state ends consistent |
| PageProperties.ReachableStatesConsistent | src/app/page.tsx:26-147 | every state reachable from mount has equal cursors within the sequence, an interval armed exactly while playing, and a non-empty sequence while playing |
| PageProperties.ClickRecordsWhenIdle | src/app/page.tsx:83-92 | an idle click appends the cell and puts both cursors at the new end; a click while playing changes nothing |
| PageProperties.NavigationClamps | src/app/page.tsx:106-122 | previous and next move both cursors one step, clamped to `0 .. |sequence|`; both are ignored while playing and do nothing at the bounds |
| PageProperties.PlayStartsOrReplays | src/app/page.tsx:124-136 | play does nothing on an empty sequence, replays from 0 at the end, and otherwise resumes at the cursor with the interval armed |
| PageProperties.PauseFreezes | src/app/page.tsx:138-141 | pause keeps the sequence and cursor, stops playing and clears the interval |
| PageProperties.StopRewinds | src/app/page.tsx:143-147 | stop keeps the sequence, rewinds both cursors to 0, stops playing and clears the interval |
| PageProperties.ResetIsIdempotent | src/app/page.tsx:95-104 | reset from any state gives the mount state, so a second reset changes nothing |
| PageProperties.EffectIsIdleOnConsistentState | src/app/page.tsx:64-71 | the effect changes nothing on a consistent state, including right after a tick while playing |
| PageProperties.UnarmedIgnoresTicks | src/app/page.tsx:64-68 | with no interval armed, any number of ticks leaves the state unchanged |
| PageProperties.AutoplayAdvances | src/app/page.tsx:46-51 | while playing, each of the first `|sequence| - cursor` ticks advances both cursors by one |
| PageProperties.AutoplayStops | src/app/page.tsx:52-61 | any further tick stops playing and clears the interval with both cursors at the end; later ticks change nothing |
| PageProperties.ReplayRevealsEveryStepThenStops | src/app/page.tsx:46-136 | play from the end rewinds to 0; `L` ticks bring the cursor back to `L` still playing; one more tick stops playback there |

## Left out

- `getClockPositionStyle` (src/components/button-grid.tsx:19-39) is the CSS placement of a label. It uses floating-point trigonometry, so only the position index (0..11) is modelled.
- JSX, class names, tooltips and the `aria-label` text are not modelled. That includes joining the step numbers with `', '` and the disabled styling. They are presentation only.
- React's scheduling is abstracted:
  - batched `setState`, effect dependency tracking and cleanup order;
  - the 800 ms interval period.
  
  A tick is an event, and each event is followed by the playback effect at once.
- Stale closures over `sequence.length` in the interval callback are not modelled. The model reads the current sequence length, so it assumes the interval is re-created whenever the length changes, as the effect's dependency list does.
- The `isClient` flag and the loading placeholder are not modelled (src/app/page.tsx:21, 150-169). Neither is the parsing of the hard-coded `'3x3'` grid size: mounting sets rows and cols to 3 directly.
- The page's JSX wiring and the other components are not part of this model. These are `StepIndicator`, `PlaybackControls`, `GridConfigurator` and the layout. They only pass events to the handlers modelled here.
- ClockRing.InitialPosition: requires `step >= 1`, because the component only produces 1-based step numbers. JavaScript's truncating `%` on a step below 1 is not modelled.
- ClockRing.FindPosition: the `Map` of occupied positions is an array of 12 slots. The insertion order of the `Map` entries, which decides the order of the label `<span>`s, is not modelled.
- ButtonGrid.OuterRingLabels: states that every outer step is shown only when at most 12 steps reach the outer ring. With more, the code overwrites labels (see ClockRing.PlaceOnFullRing), and an overwritten step is no longer shown (ClockRing.FullRingHidesOverwrittenStep). Uniqueness holds for any number of steps.
