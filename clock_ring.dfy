/** Clock-position placement of step-number labels on one grid cell
    (`findPosition` and the two `forEach` placement loops of
    src/components/button-grid.tsx). A ring is an occupancy table of twelve
    clock positions: position 0 is twelve o'clock and positions proceed
    clockwise. The source keeps the table in a `Map` whose keys are always
    positions 0..11; here it is a sequence (or array) of twelve slots. */
module ClockRing {

  /** The number of clock positions in one ring. */
  const Positions: nat := 12

  /** One clock position: free, or labelled with a step number. */
  datatype Slot = Empty | Holds(step: int)

  /** A ring with no labels, as each render starts with (a fresh `Map`). */
  function EmptyRing(): (r: seq<Slot>)
    ensures |r| == Positions
    ensures forall j :: 0 <= j < |r| ==> r[j] == Empty
  {
    seq(Positions, _ => Empty)
  }

  /** Step numbers are 1-based. */
  predicate Positive(steps: seq<int>) {
    forall i :: 0 <= i < |steps| ==> steps[i] >= 1
  }

  predicate StrictlyAscending(steps: seq<int>) {
    forall i, j :: 0 <= i < j < |steps| ==> steps[i] < steps[j]
  }

  predicate Distinct(steps: seq<int>) {
    forall i, j :: 0 <= i < j < |steps| ==> steps[i] != steps[j]
  }

  /** The position `k` places clockwise of position `p`. */
  function Clockwise(p: nat, k: nat): (q: nat)
    ensures q < Positions
  {
    (p + k) % Positions
  }

  /** How many places clockwise position `q` lies from position `p`. */
  function Distance(p: nat, q: nat): (d: nat)
    requires p < Positions && q < Positions
    ensures d < Positions && Clockwise(p, d) == q
  {
    if p <= q then q - p else q + Positions - p
  }

  /** Walking fewer than twelve places from `p` and measuring back gives the walk's length. */
  lemma DistanceOfClockwise(p: nat, d: nat)
    requires p < Positions && d < Positions
    ensures Distance(p, Clockwise(p, d)) == d
  {
    if p + d < Positions {
      assert Clockwise(p, d) == p + d;
    } else {
      assert Clockwise(p, d) == p + d - Positions;
    }
  }

  /** One more place clockwise is one more step of the walk. */
  lemma ClockwiseNext(p: nat, k: nat)
    requires p < Positions
    ensures Clockwise(p, k + 1) == (Clockwise(p, k) + 1) % Positions
  {
    var q := (p + k) / Positions;
    assert p + k == q * Positions + Clockwise(p, k);
    assert p + k + 1 == q * Positions + (Clockwise(p, k) + 1);
  }

  /** The slot a step number is tried at first: `(stepNumber - 1) % 12`. */
  function InitialPosition(step: int): (p: nat)
    requires step >= 1
    ensures p < Positions
  {
    (step - 1) % Positions
  }

  predicate HasEmpty(slots: seq<Slot>) {
    exists j :: 0 <= j < |slots| && slots[j].Empty?
  }

  /** The value of `attempts` when the probe loop of `findPosition` stops,
      if it is at `attempts` now: the loop moves clockwise while the slot is
      occupied and fewer than twelve attempts were made. */
  function ProbeFrom(slots: seq<Slot>, start: nat, attempts: nat): (d: nat)
    requires |slots| == Positions && start < Positions && attempts <= Positions
    ensures attempts <= d <= Positions
    ensures forall k :: attempts <= k < d ==> slots[Clockwise(start, k)].Holds?
    ensures d < Positions ==> slots[Clockwise(start, d)].Empty?
    decreases Positions - attempts
  {
    if slots[Clockwise(start, attempts)].Holds? && attempts < Positions then
      ProbeFrom(slots, start, attempts + 1)
    else
      attempts
  }

  /** A probe that uses all twelve attempts has seen every position occupied. */
  lemma FullProbeMeansFull(slots: seq<Slot>, start: nat)
    requires |slots| == Positions && start < Positions
    requires ProbeFrom(slots, start, 0) == Positions
    ensures !HasEmpty(slots)
  {
    forall j | 0 <= j < Positions
      ensures slots[j].Holds?
    {
      var k := Distance(start, j);
      assert slots[Clockwise(start, k)].Holds?;
    }
  }

  /** The position `findPosition(step, …)` writes to: the first free
      position clockwise from the initial one, or, when all twelve are
      taken, the initial position itself (the probe wraps all the way). */
  function PlacementSlot(slots: seq<Slot>, step: int): (p: nat)
    requires |slots| == Positions && step >= 1
    ensures p < Positions
    ensures HasEmpty(slots) ==> slots[p].Empty?
    ensures HasEmpty(slots) ==>
      forall k :: 0 <= k < Distance(InitialPosition(step), p) ==>
        slots[Clockwise(InitialPosition(step), k)].Holds?
    ensures !HasEmpty(slots) ==> p == InitialPosition(step)
  {
    var start := InitialPosition(step);
    var d := ProbeFrom(slots, start, 0);
    if d == Positions then
      FullProbeMeansFull(slots, start);
      Clockwise(start, d)
    else
      DistanceOfClockwise(start, d);
      Clockwise(start, d)
  }

  /** The ring after `findPosition(step, …)`; both branches of the source's
      final `if` store the step at the probed position. */
  function Place(slots: seq<Slot>, step: int): (r: seq<Slot>)
    requires |slots| == Positions && step >= 1
    ensures |r| == Positions
  {
    slots[PlacementSlot(slots, step) := Holds(step)]
  }

  /** The ring after placing `steps` one after another, in order (the
      `forEach` loops at lines 104-110). */
  function PlaceAll(slots: seq<Slot>, steps: seq<int>): (r: seq<Slot>)
    requires |slots| == Positions && Positive(steps)
    ensures |r| == Positions
  {
    if steps == [] then slots
    else Place(PlaceAll(slots, steps[..|steps| - 1]), steps[|steps| - 1])
  }

  /** How many positions hold a label (the `Map`'s size). */
  function Filled(slots: seq<Slot>): (n: nat)
    ensures n <= |slots|
  {
    if slots == [] then 0
    else (if slots[0].Holds? then 1 else 0) + Filled(slots[1..])
  }

  /** The step numbers shown on the ring. */
  function Labels(slots: seq<Slot>): set<int> {
    set j | 0 <= j < |slots| && slots[j].Holds? :: slots[j].step
  }

  /** No step number is shown at two positions. */
  predicate Injective(slots: seq<Slot>) {
    forall i, j :: 0 <= i < j < |slots| && slots[i].Holds? && slots[j].Holds? ==>
      slots[i].step != slots[j].step
  }

  /** A ring has a free position exactly when fewer than all its positions are filled. */
  lemma {:induction false} FreeIffNotFull(slots: seq<Slot>)
    ensures HasEmpty(slots) <==> Filled(slots) < |slots|
  {
    if slots != [] {
      var rest := slots[1..];
      FreeIffNotFull(rest);
      if slots[0].Empty? {
        assert HasEmpty(slots);
      } else {
        if HasEmpty(slots) {
          var j :| 0 <= j < |slots| && slots[j].Empty?;
          assert rest[j - 1].Empty?;
        }
        if HasEmpty(rest) {
          var j :| 0 <= j < |rest| && rest[j].Empty?;
          assert slots[j + 1].Empty?;
        }
      }
    }
  }

  /** Overwriting one position changes the filled count by what left and what came in. */
  lemma {:induction false} FilledAfterUpdate(slots: seq<Slot>, p: nat, v: Slot)
    requires p < |slots|
    ensures Filled(slots[p := v]) ==
      Filled(slots) - (if slots[p].Holds? then 1 else 0) + (if v.Holds? then 1 else 0)
  {
    if p == 0 {
      assert slots[p := v][1..] == slots[1..];
    } else {
      FilledAfterUpdate(slots[1..], p - 1, v);
      assert slots[p := v][1..] == slots[1..][p - 1 := v];
    }
  }

  /** An empty ring has no label. */
  lemma {:induction false} FilledAllEmpty(slots: seq<Slot>)
    requires forall j :: 0 <= j < |slots| ==> slots[j] == Empty
    ensures Filled(slots) == 0
  {
    if slots != [] {
      FilledAllEmpty(slots[1..]);
    }
  }

  /** `findPosition` on a ring with a free position: the step lands on the
      first free position clockwise from its initial one, every other
      position keeps its label, and the ring holds one more label. */
  lemma PlaceOnFreeSlot(slots: seq<Slot>, step: int)
    requires |slots| == Positions && step >= 1 && Filled(slots) < Positions
    ensures var p := PlacementSlot(slots, step);
      && slots[p].Empty?
      && (forall k :: 0 <= k < Distance(InitialPosition(step), p) ==>
            slots[Clockwise(InitialPosition(step), k)].Holds?)
      && Place(slots, step)[p] == Holds(step)
      && (forall j :: 0 <= j < Positions && j != p ==> Place(slots, step)[j] == slots[j])
      && Filled(Place(slots, step)) == Filled(slots) + 1
  {
    FreeIffNotFull(slots);
    FilledAfterUpdate(slots, PlacementSlot(slots, step), Holds(step));
  }

  /** `findPosition` on a full ring: the probe wraps around all twelve
      positions and overwrites the initial position; the ring stays full. */
  lemma PlaceOnFullRing(slots: seq<Slot>, step: int)
    requires |slots| == Positions && step >= 1 && Filled(slots) == Positions
    ensures PlacementSlot(slots, step) == InitialPosition(step)
    ensures Place(slots, step) == slots[InitialPosition(step) := Holds(step)]
    ensures Filled(Place(slots, step)) == Positions
  {
    FreeIffNotFull(slots);
    FilledAfterUpdate(slots, InitialPosition(step), Holds(step));
  }

  /** On a full ring with unique labels, placing a new step hides the step
      that held its initial position: that step is no longer shown. */
  lemma FullRingHidesOverwrittenStep(slots: seq<Slot>, step: int)
    requires |slots| == Positions && step >= 1 && Filled(slots) == Positions
    requires Injective(slots) && step !in Labels(slots)
    ensures slots[InitialPosition(step)].Holds?
    ensures slots[InitialPosition(step)].step in Labels(slots)
    ensures slots[InitialPosition(step)].step !in Labels(Place(slots, step))
  {
    var ip := InitialPosition(step);
    FreeIffNotFull(slots);
    assert !slots[ip].Empty?;
    PlaceOnFullRing(slots, step);
    var r := Place(slots, step);
    var hidden := slots[ip].step;
    assert hidden in Labels(slots);
    forall j | 0 <= j < |r| && r[j].Holds?
      ensures r[j].step != hidden
    {
      if j != ip {
        assert r[j] == slots[j];
      }
    }
  }

  /** Writing a label not yet shown into any position, free or taken,
      keeps the ring injective and shows nothing besides the old labels
      and the new one. */
  lemma OverwriteWithNewLabel(slots: seq<Slot>, p: nat, step: int)
    requires p < |slots|
    requires Injective(slots) && step !in Labels(slots)
    ensures Injective(slots[p := Holds(step)])
    ensures Labels(slots[p := Holds(step)]) <= Labels(slots) + {step}
  {
    var r := slots[p := Holds(step)];
    forall i, j | 0 <= i < j < |r| && r[i].Holds? && r[j].Holds?
      ensures r[i].step != r[j].step
    {
      if i == p {
        assert slots[j].step in Labels(slots);
      } else if j == p {
        assert slots[i].step in Labels(slots);
      } else {
        assert r[i] == slots[i] && r[j] == slots[j];
      }
    }
    forall n | n in Labels(r)
      ensures n in Labels(slots) + {step}
    {
      var j :| 0 <= j < |r| && r[j].Holds? && r[j].step == n;
      if j != p {
        assert slots[j] == r[j];
      }
    }
  }

  /** Writing a label not yet shown into a free position keeps the ring
      injective and adds exactly that label. */
  lemma WriteNewLabel(slots: seq<Slot>, p: nat, step: int)
    requires p < |slots| && slots[p].Empty?
    requires Injective(slots) && step !in Labels(slots)
    ensures Injective(slots[p := Holds(step)])
    ensures Labels(slots[p := Holds(step)]) == Labels(slots) + {step}
  {
    var r := slots[p := Holds(step)];
    OverwriteWithNewLabel(slots, p, step);
    forall n | n in Labels(slots) + {step}
      ensures n in Labels(r)
    {
      if n == step {
        assert r[p].Holds? && r[p].step == step;
      } else {
        var j :| 0 <= j < |slots| && slots[j].Holds? && slots[j].step == n;
        assert r[j] == slots[j];
      }
    }
  }

  /** Placing at most twelve distinct steps into an empty ring shows each of
      them exactly once: no two positions share a label, the labels are
      exactly the steps, and one position is filled per step. */
  lemma {:induction false} RingPlacementInjective(steps: seq<int>)
    requires Positive(steps) && Distinct(steps) && |steps| <= Positions
    ensures Injective(PlaceAll(EmptyRing(), steps))
    ensures Labels(PlaceAll(EmptyRing(), steps)) == set n | n in steps
    ensures Filled(PlaceAll(EmptyRing(), steps)) == |steps|
  {
    if steps == [] {
      FilledAllEmpty(EmptyRing());
    } else {
      var init, last := steps[..|steps| - 1], steps[|steps| - 1];
      assert steps == init + [last];
      RingPlacementInjective(init);
      assert last !in init;
      var r0 := PlaceAll(EmptyRing(), init);
      PlaceOnFreeSlot(r0, last);
      WriteNewLabel(r0, PlacementSlot(r0, last), last);
    }
  }

  /** Placing any number of distinct steps into an empty ring never shows a
      step twice and shows only steps that were placed; past twelve steps
      an overwritten step is no longer shown. */
  lemma {:induction false} RingPlacementUnique(steps: seq<int>)
    requires Positive(steps) && Distinct(steps)
    ensures Injective(PlaceAll(EmptyRing(), steps))
    ensures Labels(PlaceAll(EmptyRing(), steps)) <= set n | n in steps
  {
    if steps != [] {
      var init, last := steps[..|steps| - 1], steps[|steps| - 1];
      assert steps == init + [last];
      RingPlacementUnique(init);
      assert last !in init;
      var r0 := PlaceAll(EmptyRing(), init);
      OverwriteWithNewLabel(r0, PlacementSlot(r0, last), last);
    }
  }

  /** Inner ring: when every step lies in 1..12 and the steps ascend, step
      `s` lands at position `s - 1` without probing, so position `j` shows
      `j + 1` exactly when that step was placed and is free otherwise. */
  lemma {:induction false} InnerRingAtOwnPositions(steps: seq<int>)
    requires StrictlyAscending(steps)
    requires forall i :: 0 <= i < |steps| ==> 1 <= steps[i] <= Positions
    ensures forall j :: 0 <= j < Positions ==>
      PlaceAll(EmptyRing(), steps)[j] == if j + 1 in steps then Holds(j + 1) else Empty
  {
    if steps != [] {
      var init, last := steps[..|steps| - 1], steps[|steps| - 1];
      assert steps == init + [last];
      InnerRingAtOwnPositions(init);
      var r0 := PlaceAll(EmptyRing(), init);
      assert last !in init;
      assert r0[last - 1] == Empty;
      assert InitialPosition(last) == last - 1;
      assert ProbeFrom(r0, last - 1, 0) == 0;
      assert PlacementSlot(r0, last) == last - 1;
      forall j | 0 <= j < Positions
        ensures PlaceAll(EmptyRing(), steps)[j] == if j + 1 in steps then Holds(j + 1) else Empty
      {
        assert j + 1 in steps <==> j + 1 in init || j + 1 == last;
      }
    }
  }

  /** `findPosition`: probe clockwise from `(step - 1) % 12` while the
      position is occupied and fewer than twelve attempts were made, then
      store the step at the position reached. */
  method FindPosition(step: int, occupied: array<Slot>)
    requires occupied.Length == Positions && step >= 1
    modifies occupied
    ensures occupied[..] == Place(old(occupied[..]), step)
  {
    var initialPositionIndex := (step - 1) % Positions;
    var finalPositionIndex := initialPositionIndex;
    var attempts := 0;
    while occupied[finalPositionIndex].Holds? && attempts < Positions
      invariant 0 <= attempts <= Positions
      invariant occupied[..] == old(occupied[..])
      invariant finalPositionIndex == Clockwise(initialPositionIndex, attempts)
      invariant ProbeFrom(occupied[..], initialPositionIndex, attempts)
             == ProbeFrom(occupied[..], initialPositionIndex, 0)
      decreases Positions - attempts
    {
      ClockwiseNext(initialPositionIndex, attempts);
      finalPositionIndex := (finalPositionIndex + 1) % Positions;
      attempts := attempts + 1;
    }
    assert ProbeFrom(occupied[..], initialPositionIndex, 0) == attempts;
    assert finalPositionIndex == PlacementSlot(occupied[..], step);
    occupied[finalPositionIndex] := Holds(step);
  }

  /** One `forEach` placement loop: place each step of `steps` in order. */
  method PlaceSteps(steps: seq<int>, occupied: array<Slot>)
    requires occupied.Length == Positions && Positive(steps)
    modifies occupied
    ensures occupied[..] == PlaceAll(old(occupied[..]), steps)
  {
    for i := 0 to |steps|
      invariant occupied[..] == PlaceAll(old(occupied[..]), steps[..i])
    {
      FindPosition(steps[i], occupied);
      assert steps[..i + 1][..i] == steps[..i];
    }
    assert steps[..|steps|] == steps;
  }
}
