/** The recording and playback state of the GridRecall home page
    (src/app/page.tsx): the recorded sequence of cell indices, the two
    cursors `currentStep` and `playbackStep`, the `isPlaying` flag and the
    autoplay interval, which is modelled as armed or not. */
module Page {

  /** The page's state as a value. */
  datatype Snapshot = Snapshot(
    sequence: seq<int>,   // cell indices, in the order they were clicked
    currentStep: int,     // the cursor the grid and the step indicator show
    playbackStep: int,    // the cursor the autoplay interval advances
    isPlaying: bool,
    timerArmed: bool)     // the interval handle is set

  /** The cursor invariant: both cursors agree and lie in `0 .. |sequence|`. */
  predicate CursorsValid(s: Snapshot) {
    0 <= s.currentStep == s.playbackStep <= |s.sequence|
  }

  /** What holds once the playback effect has run: the interval is armed
      exactly while playing, and only a non-empty sequence plays. */
  predicate Settled(s: Snapshot) {
    s.timerArmed == s.isPlaying && (s.isPlaying ==> |s.sequence| > 0)
  }

  predicate Consistent(s: Snapshot) {
    CursorsValid(s) && Settled(s)
  }

  /** The state the mount effect (lines 26-40) establishes. */
  function Initial(): (s: Snapshot)
    ensures Consistent(s) && s.sequence == [] && !s.isPlaying && !s.timerArmed
  {
    Snapshot([], 0, 0, false, false)
  }

  /** What the page reacts to: the seven handlers and one firing of the
      autoplay interval. */
  datatype Command =
    | ButtonClick(index: int)
    | PreviousStep
    | NextStep
    | Play
    | Pause
    | Stop
    | Reset
    | IntervalFires

  /** `Math.max` on two integers. */
  function Max(a: int, b: int): (m: int)
    ensures a <= m && b <= m && (m == a || m == b)
  {
    if a < b then b else a
  }

  /** `Math.min` on two integers. */
  function Min(a: int, b: int): (m: int)
    ensures m <= a && m <= b && (m == a || m == b)
  {
    if a < b then a else b
  }

  /** What one handler, or the interval's updater (lines 46-62), does to the
      state, before React re-renders and runs the playback effect. Every
      command keeps the cursor invariant; only a click or a reset changes
      the sequence, and a click only appends; the manual commands are
      ignored while playing; a tick never moves the cursor past the end. */
  function Handle(s: Snapshot, cmd: Command): (r: Snapshot)
    ensures CursorsValid(s) ==> CursorsValid(r)
    ensures !cmd.ButtonClick? && !cmd.Reset? ==> r.sequence == s.sequence
    ensures cmd.ButtonClick? ==> |s.sequence| <= |r.sequence| && r.sequence[..|s.sequence|] == s.sequence
    ensures s.isPlaying && (cmd.ButtonClick? || cmd.PreviousStep? || cmd.NextStep?) ==> r == s
    ensures cmd.IntervalFires? && s.playbackStep <= |s.sequence| ==> r.playbackStep <= |r.sequence|
  {
    match cmd
    case ButtonClick(index) =>
      if s.isPlaying then s
      else
        var newSequence := s.sequence + [index];
        s.(sequence := newSequence, currentStep := |newSequence|, playbackStep := |newSequence|)
    case Reset =>
      s.(sequence := [], currentStep := 0, isPlaying := false, playbackStep := 0, timerArmed := false)
    case PreviousStep =>
      if s.isPlaying then s
      else
        var newStep := Max(0, s.currentStep - 1);
        s.(currentStep := newStep, playbackStep := newStep)
    case NextStep =>
      if s.isPlaying then s
      else
        var newStep := Min(|s.sequence|, s.currentStep + 1);
        s.(currentStep := newStep, playbackStep := newStep)
    case Play =>
      if |s.sequence| == 0 then s
      else if s.playbackStep >= |s.sequence| then
        s.(playbackStep := 0, currentStep := 0, isPlaying := true)
      else
        s.(currentStep := s.playbackStep, isPlaying := true)
    case Pause =>
      s.(isPlaying := false)
    case Stop =>
      s.(isPlaying := false, playbackStep := 0, currentStep := 0)
    case IntervalFires =>
      var nextStep := s.playbackStep + 1;
      if nextStep <= |s.sequence| then
        s.(currentStep := nextStep, playbackStep := nextStep)
      else
        s.(isPlaying := false, timerArmed := false)
  }

  /** The playback effect (lines 43-79): while playing it (re)arms the
      interval; otherwise it clears the interval and copies `playbackStep`
      into `currentStep`. It leaves the interval armed exactly while
      playing, and on a state with valid cursors it changes nothing else. */
  function PlaybackEffect(s: Snapshot): (r: Snapshot)
    ensures r.timerArmed == r.isPlaying
    ensures r.sequence == s.sequence && r.isPlaying == s.isPlaying
    ensures r.playbackStep == s.playbackStep
    ensures !s.isPlaying ==> r.currentStep == s.playbackStep
    ensures CursorsValid(s) ==> r == s.(timerArmed := s.isPlaying)
  {
    if s.isPlaying then s.(timerArmed := true)
    else s.(timerArmed := false, currentStep := s.playbackStep)
  }

  /** One event as the page goes through it: the handler, then the playback
      effect. The interval fires only while it is armed. */
  function Step(s: Snapshot, cmd: Command): (r: Snapshot)
    ensures Consistent(s) ==> Consistent(r)
  {
    if cmd.IntervalFires? && !s.timerArmed then s
    else PlaybackEffect(Handle(s, cmd))
  }

  /** A run of events, in order. */
  function Run(s: Snapshot, cmds: seq<Command>): Snapshot
    decreases |cmds|
  {
    if cmds == [] then s else Run(Step(s, cmds[0]), cmds[1..])
  }

  /** `n` firings of the autoplay interval. */
  function Ticks(n: nat): (cmds: seq<Command>)
    ensures |cmds| == n && forall i :: 0 <= i < n ==> cmds[i] == IntervalFires
  {
    seq(n, _ => IntervalFires)
  }

  /** The page's state variables and handlers (the `Home` component). The
      grid dimensions come from the hard-coded `'3x3'` grid size. */
  class Home {
    const rows: nat
    const cols: nat
    var sequence: seq<int>
    var currentStep: int
    var playbackStep: int
    var isPlaying: bool
    var timerArmed: bool

    function State(): Snapshot
      reads this
    {
      Snapshot(sequence, currentStep, playbackStep, isPlaying, timerArmed)
    }

    ghost predicate Valid()
      reads this
    {
      CursorsValid(State())
    }

    /** The mount effect (lines 26-40). */
    constructor ()
      ensures Valid() && Consistent(State())
      ensures rows == 3 && cols == 3
      ensures sequence == [] && currentStep == 0 && playbackStep == 0
      ensures !isPlaying && !timerArmed
      ensures State() == Initial()
    {
      rows, cols := 3, 3;
      sequence := [];
      currentStep := 0;
      isPlaying := false;
      playbackStep := 0;
      timerArmed := false;
    }

    /** `handleButtonClick`: ignored while playing; otherwise records the
      cell and moves both cursors to the new end. */
    method HandleButtonClick(index: int)
      requires Valid()
      modifies this
      ensures Valid() && State() == Handle(old(State()), ButtonClick(index))
      ensures old(isPlaying) ==> State() == old(State())
      ensures !old(isPlaying) ==>
        && sequence == old(sequence) + [index]
        && currentStep == playbackStep == |sequence|
        && isPlaying == old(isPlaying) && timerArmed == old(timerArmed)
    {
      if isPlaying {
        return;
      }
      var newSequence := sequence + [index];
      currentStep := |newSequence|;
      playbackStep := |newSequence|;
      sequence := newSequence;
    }

    /** `handleReset`: empties the sequence, zeroes both cursors, stops and
      clears the interval. */
    method HandleReset()
      requires Valid()
      modifies this
      ensures Valid() && State() == Handle(old(State()), Reset)
      ensures sequence == [] && currentStep == 0 && playbackStep == 0
      ensures !isPlaying && !timerArmed
    {
      sequence := [];
      currentStep := 0;
      isPlaying := false;
      playbackStep := 0;
      if timerArmed {
        timerArmed := false;
      }
    }

    /** `handlePreviousStep`: ignored while playing; otherwise both cursors
      move back one, stopping at 0. */
    method HandlePreviousStep()
      requires Valid()
      modifies this
      ensures Valid() && State() == Handle(old(State()), PreviousStep)
      ensures sequence == old(sequence) && isPlaying == old(isPlaying) && timerArmed == old(timerArmed)
      ensures old(isPlaying) ==> currentStep == old(currentStep)
      ensures !old(isPlaying) ==> currentStep == playbackStep == Max(0, old(currentStep) - 1)
    {
      if isPlaying {
        return;
      }
      var newStep := Max(0, currentStep - 1);
      playbackStep := newStep;
      currentStep := newStep;
    }

    /** `handleNextStep`: ignored while playing; otherwise both cursors
      move forward one, stopping at the end of the sequence. */
    method HandleNextStep()
      requires Valid()
      modifies this
      ensures Valid() && State() == Handle(old(State()), NextStep)
      ensures sequence == old(sequence) && isPlaying == old(isPlaying) && timerArmed == old(timerArmed)
      ensures old(isPlaying) ==> currentStep == old(currentStep)
      ensures !old(isPlaying) ==> currentStep == playbackStep == Min(|sequence|, old(currentStep) + 1)
    {
      if isPlaying {
        return;
      }
      var newStep := Min(|sequence|, currentStep + 1);
      playbackStep := newStep;
      currentStep := newStep;
    }

    /** `handlePlay`: nothing on an empty sequence; from the end it
      restarts both cursors at 0 (replay); otherwise it resumes from
      `playbackStep`. In both non-empty cases playing starts. */
    method HandlePlay()
      requires Valid()
      modifies this
      ensures Valid() && State() == Handle(old(State()), Play)
      ensures sequence == old(sequence) && timerArmed == old(timerArmed)
      ensures |sequence| == 0 ==> State() == old(State())
      ensures |sequence| > 0 ==> isPlaying
      ensures |sequence| > 0 && old(playbackStep) >= |sequence| ==> currentStep == playbackStep == 0
      ensures |sequence| > 0 && old(playbackStep) < |sequence| ==>
        currentStep == playbackStep == old(playbackStep)
    {
      if |sequence| == 0 {
        return;
      }
      if playbackStep >= |sequence| {
        playbackStep := 0;
        currentStep := 0;
      } else {
        currentStep := playbackStep;
      }
      isPlaying := true;
    }

    /** `handlePause`: only clears `isPlaying`. */
    method HandlePause()
      requires Valid()
      modifies this
      ensures Valid() && State() == Handle(old(State()), Pause)
      ensures State() == old(State()).(isPlaying := false)
    {
      isPlaying := false;
    }

    /** `handleStop`: clears `isPlaying` and zeroes both cursors; the
      sequence is kept and the effect clears the interval afterwards. */
    method HandleStop()
      requires Valid()
      modifies this
      ensures Valid() && State() == Handle(old(State()), Stop)
      ensures sequence == old(sequence) && timerArmed == old(timerArmed)
      ensures !isPlaying && currentStep == 0 && playbackStep == 0
    {
      isPlaying := false;
      playbackStep := 0;
      currentStep := 0;
    }

    /** The updater the interval runs every 800 ms (lines 46-62): advance
      both cursors while the next step is within the sequence; otherwise
      stop playing, clear the interval and keep the cursors where they are. */
    method IntervalTick()
      requires Valid() && timerArmed
      modifies this
      ensures Valid() && State() == Handle(old(State()), IntervalFires)
      ensures sequence == old(sequence)
      ensures old(playbackStep) + 1 <= |sequence| ==>
        && currentStep == playbackStep == old(playbackStep) + 1
        && isPlaying == old(isPlaying) && timerArmed
      ensures old(playbackStep) + 1 > |sequence| ==>
        && currentStep == old(currentStep) && playbackStep == old(playbackStep)
        && !isPlaying && !timerArmed
    {
      var nextStep := playbackStep + 1;
      if nextStep <= |sequence| {
        currentStep := nextStep;
        playbackStep := nextStep;
      } else {
        isPlaying := false;
        if timerArmed {
          timerArmed := false;
        }
      }
    }

    /** The playback effect (lines 43-79), run after a render in which
      `isPlaying`, the sequence's length or `playbackStep` changed. */
    method RunPlaybackEffect()
      requires Valid()
      modifies this
      ensures Valid() && State() == PlaybackEffect(old(State()))
      ensures timerArmed == isPlaying
      ensures old(State()).(timerArmed := isPlaying) == State()
    {
      if isPlaying {
        timerArmed := true;
      } else {
        if timerArmed {
          timerArmed := false;
        }
        currentStep := playbackStep;
      }
    }
  }
}
