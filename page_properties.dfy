/** Properties of the home page's playback state machine, stated over
    `Page.Step` (one handler followed by the playback effect) and
    `Page.Run` (a sequence of such events). */
module PageProperties {
  import opened Page

  /** Every run of events from a consistent state ends in a consistent state. */
  lemma {:induction false} RunStaysConsistent(s: Snapshot, cmds: seq<Command>)
    requires Consistent(s)
    ensures Consistent(Run(s, cmds))
    decreases |cmds|
  {
    if cmds != [] {
      RunStaysConsistent(Step(s, cmds[0]), cmds[1..]);
    }
  }

  /** Every reachable state has `0 <= currentStep == playbackStep <= |sequence|`,
      the interval armed exactly while playing, and a non-empty sequence
      while playing. */
  lemma {:induction false} ReachableStatesConsistent(cmds: seq<Command>)
    ensures Consistent(Run(Initial(), cmds))
  {
    RunStaysConsistent(Initial(), cmds);
  }

  /** A click while not playing records exactly that cell and moves both
      cursors to the new end; while playing it changes nothing. */
  lemma ClickRecordsWhenIdle(s: Snapshot, index: int)
    requires Consistent(s)
    ensures !s.isPlaying ==>
      Step(s, ButtonClick(index)) == s.(sequence := s.sequence + [index],
        currentStep := |s.sequence| + 1, playbackStep := |s.sequence| + 1)
    ensures s.isPlaying ==> Step(s, ButtonClick(index)) == s
  {
  }

  /** Manual navigation clamps into `0 .. |sequence|`, moves both cursors
      together, keeps the sequence, and is ignored while playing. */
  lemma NavigationClamps(s: Snapshot)
    requires Consistent(s)
    ensures !s.isPlaying ==>
      var back := Max(0, s.currentStep - 1);
      Step(s, PreviousStep) == s.(currentStep := back, playbackStep := back)
    ensures !s.isPlaying ==>
      var forward := Min(|s.sequence|, s.currentStep + 1);
      Step(s, NextStep) == s.(currentStep := forward, playbackStep := forward)
    ensures s.isPlaying ==> Step(s, PreviousStep) == s && Step(s, NextStep) == s
    ensures s.currentStep == 0 && !s.isPlaying ==> Step(s, PreviousStep) == s
    ensures s.currentStep == |s.sequence| && !s.isPlaying ==> Step(s, NextStep) == s
  {
  }

  /** Play: nothing on an empty sequence; from the end both cursors restart
      at 0 (replay); otherwise playing resumes at the cursor. */
  lemma PlayStartsOrReplays(s: Snapshot)
    requires Consistent(s)
    ensures |s.sequence| == 0 ==> Step(s, Play) == s
    ensures |s.sequence| > 0 && s.playbackStep >= |s.sequence| ==>
      Step(s, Play) == s.(currentStep := 0, playbackStep := 0, isPlaying := true, timerArmed := true)
    ensures |s.sequence| > 0 && s.playbackStep < |s.sequence| ==>
      Step(s, Play) == s.(isPlaying := true, timerArmed := true)
  {
  }

  /** Pause freezes the cursor and the sequence and stops the interval. */
  lemma PauseFreezes(s: Snapshot)
    requires Consistent(s)
    ensures Step(s, Pause) == s.(isPlaying := false, timerArmed := false)
  {
  }

  /** Stop rewinds both cursors to 0, stops playing and clears the interval,
      and keeps the sequence. */
  lemma StopRewinds(s: Snapshot)
    requires Consistent(s)
    ensures Step(s, Stop) == s.(currentStep := 0, playbackStep := 0, isPlaying := false, timerArmed := false)
  {
  }

  /** Reset from any state yields the initial state, so resetting twice is
      resetting once. */
  lemma ResetIsIdempotent(s: Snapshot)
    ensures Step(s, Reset) == Initial()
    ensures Step(Step(s, Reset), Reset) == Step(s, Reset)
  {
  }

  /** On a consistent state the playback effect changes nothing, so React
      running it once more is harmless; in particular the updater of a tick
      leaves nothing for the effect to do. */
  lemma EffectIsIdleOnConsistentState(s: Snapshot)
    requires Consistent(s)
    ensures PlaybackEffect(s) == s
    ensures s.isPlaying ==> PlaybackEffect(Handle(s, IntervalFires)) == Handle(s, IntervalFires)
  {
  }

  /** Without an armed interval, ticks do nothing. */
  lemma {:induction false} UnarmedIgnoresTicks(s: Snapshot, n: nat)
    requires !s.timerArmed
    ensures Run(s, Ticks(n)) == s
  {
    if n > 0 {
      assert Ticks(n)[0] == IntervalFires && Ticks(n)[1..] == Ticks(n - 1);
      UnarmedIgnoresTicks(s, n - 1);
    }
  }

  /** While playing, each of the first `|sequence| - currentStep` ticks
      advances both cursors by one and playing goes on. */
  lemma {:induction false} AutoplayAdvances(s: Snapshot, n: nat)
    requires Consistent(s) && s.isPlaying && n <= |s.sequence| - s.currentStep
    ensures Run(s, Ticks(n)) == s.(currentStep := s.currentStep + n, playbackStep := s.playbackStep + n)
    decreases n
  {
    if n > 0 {
      var t := Step(s, IntervalFires);
      assert t == s.(currentStep := s.currentStep + 1, playbackStep := s.playbackStep + 1);
      assert Ticks(n)[0] == IntervalFires && Ticks(n)[1..] == Ticks(n - 1);
      AutoplayAdvances(t, n - 1);
    }
  }

  /** Any further tick finds the cursor at the end: it stops playing and
      clears the interval without moving the cursor, and later ticks find
      no interval. */
  lemma {:induction false} AutoplayStops(s: Snapshot, n: nat)
    requires Consistent(s) && s.isPlaying && n > |s.sequence| - s.currentStep
    ensures Run(s, Ticks(n)) ==
      s.(currentStep := |s.sequence|, playbackStep := |s.sequence|, isPlaying := false, timerArmed := false)
    decreases n
  {
    var t := Step(s, IntervalFires);
    assert Ticks(n)[0] == IntervalFires && Ticks(n)[1..] == Ticks(n - 1);
    if s.currentStep == |s.sequence| {
      assert t == s.(isPlaying := false, timerArmed := false);
      UnarmedIgnoresTicks(t, n - 1);
    } else {
      AutoplayStops(t, n - 1);
    }
  }

  /** Replay of a sequence of length L from its end: Play rewinds to 0, L
      ticks reveal every step with playing still on, and the tick after
      them stops playing with the cursor left at L. */
  lemma ReplayRevealsEveryStepThenStops(s: Snapshot)
    requires Consistent(s) && |s.sequence| > 0 && s.playbackStep == |s.sequence|
    ensures Step(s, Play).currentStep == 0 && Step(s, Play).isPlaying
    ensures Run(Step(s, Play), Ticks(|s.sequence|)) ==
      s.(isPlaying := true, timerArmed := true)
    ensures Run(Step(s, Play), Ticks(|s.sequence| + 1)) ==
      s.(isPlaying := false, timerArmed := false)
  {
    var p := Step(s, Play);
    assert p == s.(currentStep := 0, playbackStep := 0, isPlaying := true, timerArmed := true);
    AutoplayAdvances(p, |s.sequence|);
    AutoplayStops(p, |s.sequence| + 1);
  }
}
