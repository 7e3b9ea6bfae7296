/** The per-cell derivations of `ButtonGrid` (src/components/button-grid.tsx):
    which steps a cell was struck at up to the cursor, its three-way
    variant, whether it is the current cell, the inner/outer ring split of
    its step numbers and the placement of those numbers on the two rings. */
module ButtonGrid {
  import opened ClockRing

  /** The three button variants: never struck, struck at or before the
      cursor, struck only after it. */
  datatype Variant = Default | Secondary | Outline

  /** The inner ring shows steps 1..12; every later step goes to the outer ring. */
  const InnerLimit: int := 12

  /** `gridItems`: the cell indices `0 .. rows * cols - 1`, in order. */
  function GridItems(rows: nat, cols: nat): (cells: seq<int>)
    ensures |cells| == rows * cols
    ensures forall c :: c in cells <==> 0 <= c < rows * cols
    ensures StrictlyAscending(cells)
  {
    var length := rows * cols;
    var items := seq(length, i => i);
    assert forall i :: 0 <= i < |items| ==> items[i] == i;
    assert forall c :: 0 <= c < length ==> c in items by {
      forall c | 0 <= c < length ensures c in items {
        assert items[c] == c;
      }
    }
    items
  }

  /** How `Array.prototype.slice` reads an index into a list of length
      `len`: negative indices count from the end, and every index is
      clamped into `0..len`. */
  function SliceIndex(n: int, len: nat): (k: nat)
    ensures k <= len
    ensures 0 <= n <= len ==> k == n
  {
    if n < 0 then (if len + n < 0 then 0 else len + n)
    else if n > len then len
    else n
  }

  /** `getButtonVariant`: `secondary` when the cell occurs before the
      cursor, otherwise `outline` when it occurs after it, otherwise
      `default`, which is exactly the case of a cell never struck. */
  function ButtonVariant(sequence: seq<int>, currentStep: int, index: int): (v: Variant)
    ensures var k := SliceIndex(currentStep, |sequence|);
      && (v == Secondary <==> index in sequence[..k])
      && (v == Outline <==> index !in sequence[..k] && index in sequence[k..])
      && (v == Default <==> index !in sequence)
  {
    var k := SliceIndex(currentStep, |sequence|);
    assert sequence == sequence[..k] + sequence[k..];
    var pressedBefore := index in sequence[..k];
    var pressedAfter := index in sequence[k..];
    if pressedBefore then Secondary
    else if pressedAfter then Outline
    else Default
  }

  /** The 1-based steps among the first `upTo` at which `index` was struck. */
  function StepNumbers(sequence: seq<int>, upTo: nat, index: int): (numbers: seq<int>)
    requires upTo <= |sequence|
    ensures forall n :: n in numbers <==> 1 <= n <= upTo && sequence[n - 1] == index
    ensures forall i :: 0 <= i < |numbers| ==> 1 <= numbers[i] <= upTo
    ensures StrictlyAscending(numbers)
  {
    if upTo == 0 then []
    else StepNumbers(sequence, upTo - 1, index) + (if sequence[upTo - 1] == index then [upTo] else [])
  }

  /** How many entries the loop of `getSequenceNumbers` can inspect:
      `i` runs over `0 .. currentStep - 1`, and `sequence[i]` past the end
      is `undefined`, which equals no index. */
  function VisibleCount(currentStep: int, len: nat): (k: nat)
    ensures k <= len
    ensures 0 <= currentStep <= len ==> k == currentStep
  {
    if currentStep < 0 then 0 else if currentStep > len then len else currentStep
  }

  /** `getSequenceNumbers`: the loop that collects `i + 1` for every
      `i < currentStep` with `sequence[i] === index`. */
  method SequenceNumbers(sequence: seq<int>, currentStep: int, index: int) returns (numbers: seq<int>)
    ensures numbers == StepNumbers(sequence, VisibleCount(currentStep, |sequence|), index)
    ensures forall n :: n in numbers <==>
      1 <= n <= currentStep && n <= |sequence| && sequence[n - 1] == index
    ensures StrictlyAscending(numbers)
  {
    numbers := [];
    var i := 0;
    while i < currentStep
      invariant 0 <= i
      invariant currentStep >= 0 ==> i <= currentStep
      invariant currentStep < 0 ==> i == 0
      invariant numbers == StepNumbers(sequence, if i < |sequence| then i else |sequence|, index)
    {
      if i < |sequence| && sequence[i] == index {
        numbers := numbers + [i + 1];
      }
      i := i + 1;
    }
  }

  /** `Array.prototype.filter` over step numbers. */
  function Filter(numbers: seq<int>, keep: int -> bool): (kept: seq<int>)
    ensures forall n :: n in kept <==> n in numbers && keep(n)
    ensures |kept| <= |numbers|
  {
    if numbers == [] then []
    else (if keep(numbers[0]) then [numbers[0]] else []) + Filter(numbers[1..], keep)
  }

  /** Filtering keeps the order of what it keeps. */
  lemma {:induction false} FilterAscending(numbers: seq<int>, keep: int -> bool)
    requires StrictlyAscending(numbers)
    ensures StrictlyAscending(Filter(numbers, keep))
  {
    if numbers != [] {
      var rest := numbers[1..];
      assert numbers == [numbers[0]] + rest;
      assert StrictlyAscending(rest) by {
        forall i, j | 0 <= i < j < |rest| ensures rest[i] < rest[j] {
          assert rest[i] == numbers[i + 1] && rest[j] == numbers[j + 1];
        }
      }
      FilterAscending(rest, keep);
      if keep(numbers[0]) {
        ConsAscending(numbers[0], rest, Filter(rest, keep));
      }
    }
  }

  /** Putting a step before an ascending list of later steps drawn from an
      ascending tail keeps it ascending. */
  lemma ConsAscending(first: int, tail: seq<int>, kept: seq<int>)
    requires StrictlyAscending([first] + tail) && StrictlyAscending(kept)
    requires forall n :: n in kept ==> n in tail
    ensures StrictlyAscending([first] + kept)
  {
    forall j | 0 <= j < |kept| ensures first < kept[j] {
      assert kept[j] in kept;
      var t :| 0 <= t < |tail| && tail[t] == kept[j];
      assert ([first] + tail)[0] == first && ([first] + tail)[t + 1] == kept[j];
    }
    var r := [first] + kept;
    forall i, j | 0 <= i < j < |r| ensures r[i] < r[j] {
      if i == 0 {
        assert r[j] == kept[j - 1];
      } else {
        assert r[i] == kept[i - 1] && r[j] == kept[j - 1];
      }
    }
  }

  /** The inner ring's filter `n => n <= 12`: a positive inner step starts
      its probe at its own clock position `n - 1`. */
  predicate IsInner(n: int): (inner: bool)
    ensures inner && n >= 1 ==> InitialPosition(n) == n - 1
  {
    n <= InnerLimit
  }

  /** The outer ring's filter `n => n > 12`: every step goes to exactly one
      of the two rings. */
  predicate IsOuter(n: int): (outer: bool)
    ensures outer <==> !IsInner(n)
  {
    n > InnerLimit
  }

  /** `innerSequenceNumbers`: the steps shown on the inner ring. */
  function InnerSteps(numbers: seq<int>): (inner: seq<int>)
    ensures forall n :: n in inner <==> n in numbers && n <= InnerLimit
  {
    Filter(numbers, IsInner)
  }

  /** `outerSequenceNumbers`: the steps shown on the outer ring. */
  function OuterSteps(numbers: seq<int>): (outer: seq<int>)
    ensures forall n :: n in outer <==> n in numbers && n > InnerLimit
  {
    Filter(numbers, IsOuter)
  }

  lemma {:induction false} FilterKeepsAll(numbers: seq<int>, keep: int -> bool)
    requires forall i :: 0 <= i < |numbers| ==> keep(numbers[i])
    ensures Filter(numbers, keep) == numbers
  {
    if numbers != [] {
      FilterKeepsAll(numbers[1..], keep);
    }
  }

  lemma {:induction false} FilterKeepsNone(numbers: seq<int>, keep: int -> bool)
    requires forall i :: 0 <= i < |numbers| ==> !keep(numbers[i])
    ensures Filter(numbers, keep) == []
  {
    if numbers != [] {
      FilterKeepsNone(numbers[1..], keep);
    }
  }

  /** On an ascending list of steps the ring split is a partition into a
      prefix and a suffix: inner (steps up to 12) followed by outer (later
      steps) gives back the list, and each part stays ascending. */
  lemma {:induction false} RingSplitPartitions(numbers: seq<int>)
    requires StrictlyAscending(numbers)
    ensures InnerSteps(numbers) + OuterSteps(numbers) == numbers
  {
    if numbers != [] {
      if IsInner(numbers[0]) {
        var rest := numbers[1..];
        assert StrictlyAscending(rest) by {
          forall i, j | 0 <= i < j < |rest| ensures rest[i] < rest[j] {
            assert rest[i] == numbers[i + 1] && rest[j] == numbers[j + 1];
          }
        }
        RingSplitPartitions(rest);
        SplitAfterInner(numbers);
      } else {
        AllOuterAfterOuter(numbers);
      }
    }
  }

  /** A step on the inner ring heads the inner part; the rest splits as before. */
  lemma SplitAfterInner(numbers: seq<int>)
    requires numbers != [] && IsInner(numbers[0])
    requires InnerSteps(numbers[1..]) + OuterSteps(numbers[1..]) == numbers[1..]
    ensures InnerSteps(numbers) + OuterSteps(numbers) == numbers
  {
    var first, rest := numbers[0], numbers[1..];
    assert InnerSteps(numbers) == [first] + InnerSteps(rest);
    assert OuterSteps(numbers) == OuterSteps(rest);
    assert InnerSteps(numbers) + OuterSteps(numbers) == [first] + (InnerSteps(rest) + OuterSteps(rest));
    assert numbers == [first] + rest;
  }

  /** An ascending list that starts past the inner limit lies wholly on the outer ring. */
  lemma AllOuterAfterOuter(numbers: seq<int>)
    requires StrictlyAscending(numbers) && numbers != [] && !IsInner(numbers[0])
    ensures InnerSteps(numbers) == [] && OuterSteps(numbers) == numbers
  {
    assert forall i :: 0 <= i < |numbers| ==> !IsInner(numbers[i]) by {
      forall i | 0 < i < |numbers| ensures !IsInner(numbers[i]) {
        assert numbers[0] < numbers[i];
      }
    }
    FilterKeepsNone(numbers, IsInner);
    FilterKeepsAll(numbers, IsOuter);
  }

  /** `isCurrent`: the cell struck at the cursor's step. Reading
      `sequence[currentStep - 1]` outside the list gives `undefined`, so
      a cursor of 0 or past the end marks no cell. */
  function IsCurrent(sequence: seq<int>, currentStep: int, index: int): (current: bool)
    ensures current ==> 0 < currentStep <= |sequence|
    ensures 0 <= currentStep <= |sequence| ==>
      (current <==> currentStep in StepNumbers(sequence, currentStep, index))
    ensures current ==> ButtonVariant(sequence, currentStep, index) == Secondary
  {
    0 < currentStep <= |sequence| && sequence[currentStep - 1] == index
  }

  /** A cell has a step number among the first `upTo` exactly when it
      occurs in that prefix of the sequence. */
  lemma StepNumbersNonEmpty(sequence: seq<int>, upTo: nat, index: int)
    requires upTo <= |sequence|
    ensures StepNumbers(sequence, upTo, index) != [] <==> index in sequence[..upTo]
  {
    var numbers := StepNumbers(sequence, upTo, index);
    if index in sequence[..upTo] {
      var i :| 0 <= i < upTo && sequence[i] == index;
      assert i + 1 in numbers;
    }
    if numbers != [] {
      assert numbers[0] in numbers;
      assert sequence[..upTo][numbers[0] - 1] == index;
    }
  }

  /** A cursor inside the list: the variant agrees with the step numbers a
      cell shows up to the cursor and over the whole history. */
  lemma VariantMatchesStepNumbers(sequence: seq<int>, currentStep: int, index: int)
    requires 0 <= currentStep <= |sequence|
    ensures ButtonVariant(sequence, currentStep, index) == Secondary <==>
            StepNumbers(sequence, currentStep, index) != []
    ensures ButtonVariant(sequence, currentStep, index) == Default <==>
            StepNumbers(sequence, |sequence|, index) == []
  {
    StepNumbersNonEmpty(sequence, currentStep, index);
    StepNumbersNonEmpty(sequence, |sequence|, index);
    assert sequence[..|sequence|] == sequence;
  }

  /** The inner ring of an ascending list of steps: every step up to 12 is
      shown at its own clock position `step - 1`, and nothing else is shown. */
  lemma InnerRingLabels(steps: seq<int>)
    requires StrictlyAscending(steps) && Positive(steps)
    ensures Positive(InnerSteps(steps))
    ensures forall s :: s in steps && s <= InnerLimit ==>
      PlaceAll(EmptyRing(), InnerSteps(steps))[s - 1] == Holds(s)
    ensures forall j :: 0 <= j < Positions && PlaceAll(EmptyRing(), InnerSteps(steps))[j].Holds? ==>
      PlaceAll(EmptyRing(), InnerSteps(steps))[j] == Holds(j + 1)
  {
    var inner := InnerSteps(steps);
    FilterAscending(steps, IsInner);
    assert forall i :: 0 <= i < |inner| ==> 1 <= inner[i] <= Positions by {
      forall i | 0 <= i < |inner| ensures 1 <= inner[i] <= Positions {
        assert inner[i] in inner;
        var t :| 0 <= t < |steps| && steps[t] == inner[i];
      }
    }
    InnerRingAtOwnPositions(inner);
  }

  /** The outer ring of an ascending list of steps: no two positions share
      a label and only steps above 12 are shown; if it receives at most 12
      steps, every one of them is shown. */
  lemma OuterRingLabels(steps: seq<int>)
    requires StrictlyAscending(steps) && Positive(steps)
    ensures Positive(OuterSteps(steps))
    ensures Injective(PlaceAll(EmptyRing(), OuterSteps(steps)))
    ensures Labels(PlaceAll(EmptyRing(), OuterSteps(steps))) <= set n | n in OuterSteps(steps)
    ensures |OuterSteps(steps)| <= Positions ==>
      Labels(PlaceAll(EmptyRing(), OuterSteps(steps))) == set n | n in OuterSteps(steps)
  {
    var outer := OuterSteps(steps);
    FilterAscending(steps, IsOuter);
    assert Positive(outer) by {
      forall i | 0 <= i < |outer| ensures outer[i] >= 1 {
        assert outer[i] in outer;
        var t :| 0 <= t < |steps| && steps[t] == outer[i];
      }
    }
    RingPlacementUnique(outer);
    if |outer| <= Positions {
      RingPlacementInjective(outer);
    }
  }

  /** What one grid cell displays. `steps` is the list the tooltip and the
      aria label print; it is the visible list, cut at the cursor. */
  datatype CellView = CellView(
    variant: Variant,
    isCurrent: bool,
    steps: seq<int>,
    inner: seq<Slot>,
    outer: seq<Slot>)

  /** `view` is what the grid's `map` callback derives for cell `index`. */
  predicate Renders(view: CellView, sequence: seq<int>, currentStep: int, index: int): (rendered: bool)
    ensures rendered ==> |view.inner| == Positions && |view.outer| == Positions
    ensures rendered && view.isCurrent ==> view.variant == Secondary
  {
    && view.variant == ButtonVariant(sequence, currentStep, index)
    && view.isCurrent == IsCurrent(sequence, currentStep, index)
    && view.steps == StepNumbers(sequence, VisibleCount(currentStep, |sequence|), index)
    && Positive(InnerSteps(view.steps))
    && Positive(OuterSteps(view.steps))
    && view.inner == PlaceAll(EmptyRing(), InnerSteps(view.steps))
    && view.outer == PlaceAll(EmptyRing(), OuterSteps(view.steps))
  }

  /** The body of the grid's `map` callback (lines 73-110) for one cell:
      the visible steps, their split, the two placement loops into fresh
      occupancy tables, the variant and the current-cell flag. Every visible
      step up to 12 sits at its own clock position; the outer ring never
      shows a step twice, shows only visible steps above 12, and shows all
      of them when it receives at most 12. */
  method RenderCell(sequence: seq<int>, currentStep: int, index: int) returns (view: CellView)
    ensures Renders(view, sequence, currentStep, index)
    ensures forall s :: s in view.steps && s <= InnerLimit ==> view.inner[s - 1] == Holds(s)
    ensures forall j :: 0 <= j < Positions && view.inner[j].Holds? ==> view.inner[j] == Holds(j + 1)
    ensures Injective(view.outer)
    ensures Labels(view.outer) <= set n | n in OuterSteps(view.steps)
    ensures |OuterSteps(view.steps)| <= Positions ==>
      Labels(view.outer) == set n | n in OuterSteps(view.steps)
  {
    var allSequenceNumbers := SequenceNumbers(sequence, currentStep, index);
    var innerSequenceNumbers := InnerSteps(allSequenceNumbers);
    var outerSequenceNumbers := OuterSteps(allSequenceNumbers);
    InnerRingLabels(allSequenceNumbers);
    OuterRingLabels(allSequenceNumbers);

    var occupiedInnerPositions := new Slot[Positions](_ => Empty);
    var occupiedOuterPositions := new Slot[Positions](_ => Empty);
    assert occupiedInnerPositions[..] == EmptyRing();
    assert occupiedOuterPositions[..] == EmptyRing();
    PlaceSteps(innerSequenceNumbers, occupiedInnerPositions);
    PlaceSteps(outerSequenceNumbers, occupiedOuterPositions);

    view := CellView(
      ButtonVariant(sequence, currentStep, index),
      IsCurrent(sequence, currentStep, index),
      allSequenceNumbers,
      occupiedInnerPositions[..],
      occupiedOuterPositions[..]);
  }

  /** The grid: one rendered cell per index of `gridItems`, in order. */
  method RenderGrid(rows: nat, cols: nat, sequence: seq<int>, currentStep: int) returns (views: seq<CellView>)
    ensures |views| == rows * cols
    ensures forall index :: 0 <= index < |views| ==> Renders(views[index], sequence, currentStep, index)
  {
    var gridItems := GridItems(rows, cols);
    views := [];
    for i := 0 to |gridItems|
      invariant |views| == i
      invariant forall index :: 0 <= index < i ==> Renders(views[index], sequence, currentStep, index)
    {
      var view := RenderCell(sequence, currentStep, gridItems[i]);
      views := views + [view];
    }
  }
}

/** Worked examples of the per-cell derivations on a 3x3 grid. */
module ButtonGridExamples {
  import opened ClockRing
  import opened ButtonGrid

  /** Clicks on cells 0, 3, 0: cell 0 shows steps 1 and 3, at clock
      positions 0 and 2 of the inner ring, and is the current cell. */
  lemma ThreeClicksOnTwoCells()
    ensures StepNumbers([0, 3, 0], 3, 0) == [1, 3]
    ensures PlaceAll(EmptyRing(), InnerSteps([1, 3]))[0] == Holds(1)
    ensures PlaceAll(EmptyRing(), InnerSteps([1, 3]))[2] == Holds(3)
    ensures OuterSteps([1, 3]) == []
    ensures IsCurrent([0, 3, 0], 3, 0) && ButtonVariant([0, 3, 0], 3, 3) == Secondary
  {
    assert StepNumbers([0, 3, 0], 3, 0) == [1, 3] by {
      assert StepNumbers([0, 3, 0], 1, 0) == [1];
      assert StepNumbers([0, 3, 0], 2, 0) == [1];
    }
    InnerRingLabels([1, 3]);
    NoOuterSteps([1, 3]);
  }

  /** A list of steps that never passes 12 gives the outer ring nothing. */
  lemma NoOuterSteps(steps: seq<int>)
    requires forall i :: 0 <= i < |steps| ==> steps[i] <= InnerLimit
    ensures OuterSteps(steps) == []
  {
    FilterKeepsNone(steps, IsOuter);
  }

  /** The same cell struck at 13 consecutive steps: with the cursor at the
      end, steps 1..12 fill the inner ring in order and step 13 sits at
      position 0 of the outer ring. */
  lemma ThirteenClicksOnOneCell(sequence: seq<int>, index: int, view: CellView)
    requires |sequence| == 13 && forall i :: 0 <= i < 13 ==> sequence[i] == index
    requires Renders(view, sequence, 13, index)
    ensures forall j :: 0 <= j < Positions ==> view.inner[j] == Holds(j + 1)
    ensures view.outer[0] == Holds(13)
  {
    var steps := view.steps;
    InnerRingLabels(steps);
    forall j | 0 <= j < Positions ensures view.inner[j] == Holds(j + 1) {
      assert sequence[j] == index;
      assert j + 1 in steps;
    }
    assert sequence[12] == index;
    OnlyThirteenIsOuter(steps);
    assert PlaceAll(EmptyRing(), [13]) == Place(EmptyRing(), 13);
    assert ProbeFrom(EmptyRing(), 0, 0) == 0;
  }

  /** Among the steps 1..13, containing 13, only 13 goes to the outer ring. */
  lemma OnlyThirteenIsOuter(steps: seq<int>)
    requires StrictlyAscending(steps) && 13 in steps
    requires forall n :: n in steps ==> 1 <= n <= 13
    ensures OuterSteps(steps) == [13]
  {
    var outer := OuterSteps(steps);
    FilterAscending(steps, IsOuter);
    assert 13 in outer;
    assert forall n :: n in outer ==> n == 13;
    assert outer[0] in outer;
    assert outer[|outer| - 1] in outer;
  }
}
