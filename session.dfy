/**
  The controls: the program's module-level state (the current grid, the
  playing flag, the stored speed, the speed slider's value and the repeating
  timer) as one Session object, and the event handlers that update it: the
  play/pause button, the reset and shuffle buttons, the speed slider, a click
  on a cell, and the step that the timer runs.
 */
module Controls {
  import opened Life
  import opened GridUpdate
  import opened Timers
  import opened Patterns

  const TABLE_ROWS := 36
  const TABLE_COLS := 64
  /** The step period in milliseconds at speed 0. */
  const GAME_SPEED := 1000
  /** The speed slider's range and step. */
  const SPEED_MIN := 0
  const SPEED_MAX := 900
  const SPEED_STEP := 25

  /** A value the speed slider can take. */
  predicate SpeedSetting(v: int)
  {
    SPEED_MIN <= v <= SPEED_MAX && v % SPEED_STEP == 0
  }

  /** The step period for a speed setting: never shorter than 100 ms and never
      longer than GAME_SPEED. */
  function Period(speed: int): (p: int)
    requires SPEED_MIN <= speed <= SPEED_MAX
    ensures 100 <= p <= GAME_SPEED
  {
    GAME_SPEED - speed
  }

  class Session {
    var currentGrid: Grid
    var isPlaying: bool
    var speed: int
    var slider: int
    var timers: TimerTable

    /** The grid is a 0/1 table of the program's size, the stored speed is a
        slider setting that the slider shows, and the timer table is well formed. */
    ghost predicate Valid()
      reads this
    {
      IsTorus(currentGrid, TABLE_ROWS, TABLE_COLS) && IsBinary(currentGrid) &&
      SpeedSetting(speed) && slider == speed &&
      WellFormed(timers)
    }

    /** A timer is live exactly while playing, it is the one the interval
        variable names, and it runs at the period of the stored speed. */
    ghost predicate OneTimerWhilePlaying()
      reads this
    {
      timers.live.Keys == (if isPlaying then {timers.interval} else {}) &&
      (isPlaying ==> SpeedSetting(speed) && timers.live[timers.interval] == Period(speed))
    }

    /** The state at load time: an all-dead grid, paused, speed 0, no timer. */
    constructor ()
      ensures Valid() && OneTimerWhilePlaying()
      ensures currentGrid == Zeros(TABLE_ROWS, TABLE_COLS)
      ensures !isPlaying && speed == 0 && timers == Idle
    {
      var g := BlankGrid(TABLE_ROWS, TABLE_COLS);
      currentGrid := g;
      isPlaying := false;
      speed := 0;
      slider := 0;
      timers := Idle;
    }

    /** The end of a generation: when the new generation has no live cell and
        the game is playing, it stops, its timer is cleared and the speed and
        the slider go back to 0; otherwise nothing changes. */
    method AutoStop(count: int)
      requires Valid()
      modifies this
      ensures Valid() && currentGrid == old(currentGrid)
      ensures if count == 0 && old(isPlaying)
              then !isPlaying && speed == 0 && timers == ClearInterval(old(timers))
              else isPlaying == old(isPlaying) && speed == old(speed) && timers == old(timers)
      ensures old(OneTimerWhilePlaying()) ==> OneTimerWhilePlaying()
    {
      if count == 0 && isPlaying {
        isPlaying := false;
        timers := ClearInterval(timers);
        speed := 0;
        slider := 0;
      }
    }

    /** One generation, as the timer callback and the play button run it: the
        grid is replaced by its successor, followed by the auto-stop. */
    method Step()
      requires Valid()
      modifies this
      ensures Valid()
      ensures currentGrid == NextGeneration(old(currentGrid), TABLE_ROWS, TABLE_COLS)
      ensures if Population(currentGrid) == 0 && old(isPlaying)
              then !isPlaying && speed == 0 && timers == ClearInterval(old(timers))
              else isPlaying == old(isPlaying) && speed == old(speed) && timers == old(timers)
      ensures old(OneTimerWhilePlaying()) ==> OneTimerWhilePlaying()
    {
      var next, count := NextGrid(currentGrid, TABLE_ROWS, TABLE_COLS);
      AutoStop(count);
      currentGrid := next;
    }

    /** The play/pause button. Pausing clears the timer. Playing runs one
        generation at once and, if that generation did not stop the game,
        arms a timer at the period of the stored speed. */
    method PlayPause()
      requires Valid() && OneTimerWhilePlaying()
      modifies this
      ensures Valid() && OneTimerWhilePlaying()
      ensures old(isPlaying) ==>
                !isPlaying && currentGrid == old(currentGrid) && speed == old(speed) &&
                timers == ClearInterval(old(timers))
      ensures !old(isPlaying) ==>
                currentGrid == NextGeneration(old(currentGrid), TABLE_ROWS, TABLE_COLS) &&
                isPlaying == (Population(currentGrid) != 0) &&
                speed == (if isPlaying then old(speed) else 0) &&
                timers == if isPlaying then SetInterval(old(timers), Period(speed))
                          else ClearInterval(old(timers))
    {
      if isPlaying {
        isPlaying := false;
        timers := ClearInterval(timers);
      } else {
        isPlaying := true;
        Step();
        if isPlaying {
          timers := SetInterval(timers, Period(speed));
        }
      }
    }

    /** The play/pause button as the program has it: playing arms a timer even
        when the immediate generation has just stopped the game, and does not
        clear the timer the interval variable held before. */
    method PlayPauseAsWritten()
      requires Valid()
      modifies this
      ensures Valid()
      ensures old(isPlaying) ==>
                !isPlaying && currentGrid == old(currentGrid) && speed == old(speed) &&
                timers == ClearInterval(old(timers))
      ensures !old(isPlaying) ==>
                currentGrid == NextGeneration(old(currentGrid), TABLE_ROWS, TABLE_COLS) &&
                isPlaying == (Population(currentGrid) != 0) &&
                speed == (if isPlaying then old(speed) else 0) &&
                timers == SetInterval(if isPlaying then old(timers) else ClearInterval(old(timers)),
                                      Period(speed))
    {
      if isPlaying {
        isPlaying := false;
        timers := ClearInterval(timers);
      } else {
        isPlaying := true;
        Step();
        timers := SetInterval(timers, Period(speed));
      }
    }

    /** The reset button: paused, timer cleared, an all-dead grid, speed 0. */
    method Reset()
      requires Valid()
      modifies this
      ensures Valid()
      ensures !isPlaying && speed == 0 && currentGrid == Zeros(TABLE_ROWS, TABLE_COLS)
      ensures timers == ClearInterval(old(timers))
      ensures old(OneTimerWhilePlaying()) ==> OneTimerWhilePlaying() && timers.live == map[]
    {
      isPlaying := false;
      timers := ClearInterval(timers);
      var g := BlankGrid(TABLE_ROWS, TABLE_COLS);
      AutoStop(0);
      currentGrid := g;
      speed := 0;
      slider := 0;
    }

    /** The shuffle button, with the random cells supplied as a 0/1 grid:
        paused, timer cleared, the given grid, speed 0. */
    method Shuffle(random: Grid)
      requires Valid() && IsGrid(random, TABLE_ROWS, TABLE_COLS) && IsBinary(random)
      modifies this
      ensures Valid()
      ensures !isPlaying && speed == 0 && currentGrid == random
      ensures timers == ClearInterval(old(timers))
      ensures old(OneTimerWhilePlaying()) ==> OneTimerWhilePlaying() && timers.live == map[]
    {
      isPlaying := false;
      timers := ClearInterval(timers);
      AutoStop(0);
      currentGrid := random;
      speed := 0;
      slider := 0;
    }

    /** The speed slider moved to v. While paused the slider springs back to
        the stored speed and nothing else changes; while playing the speed
        becomes v and the timer is re-armed at the new period. */
    method ChangeSpeed(v: int)
      requires Valid() && SpeedSetting(v)
      modifies this
      ensures Valid()
      ensures isPlaying == old(isPlaying) && currentGrid == old(currentGrid)
      ensures !old(isPlaying) ==> speed == old(speed) && slider == old(speed) && timers == old(timers)
      ensures old(isPlaying) ==>
                speed == v && slider == v &&
                timers == SetInterval(ClearInterval(old(timers)), Period(v))
      ensures old(OneTimerWhilePlaying()) ==> OneTimerWhilePlaying()
    {
      slider := v;
      if !isPlaying {
        slider := speed;
        return;
      }
      speed := slider;
      timers := ClearInterval(timers);
      timers := SetInterval(timers, Period(speed));
      if old(OneTimerWhilePlaying()) {
        ReArmKeepsOneTimer(old(timers), Period(v));
      }
    }

    /** A click on cell (r, c) toggles it between dead and alive; nothing else changes. */
    method ToggleCell(r: int, c: int)
      requires Valid() && 0 <= r < TABLE_ROWS && 0 <= c < TABLE_COLS
      modifies this
      ensures Valid()
      ensures currentGrid == Toggled(old(currentGrid), r, c)
      ensures isPlaying == old(isPlaying) && speed == old(speed) && timers == old(timers)
      ensures old(OneTimerWhilePlaying()) ==> OneTimerWhilePlaying()
    {
      var isAlive := currentGrid[r][c] != 0;
      currentGrid := currentGrid[r := currentGrid[r][c := if isAlive then 0 else 1]];
    }
  }

  /** A horizontal blinker drawn on the all-dead table. */
  function BlinkerTable(): (g: Grid)
    ensures IsTorus(g, TABLE_ROWS, TABLE_COLS) && IsBinary(g)
  {
    Toggled(Toggled(Toggled(Zeros(TABLE_ROWS, TABLE_COLS), 10, 10), 10, 11), 10, 12)
  }

  /** The drawn table is the horizontal blinker anchored at its middle cell
      (10, 11). */
  lemma BlinkerTableIsPlaced()
    ensures BlinkerTable() == Placed(Horizontal, TABLE_ROWS, TABLE_COLS, 10, 11)
  {
    var g := BlinkerTable();
    var p := Placed(Horizontal, TABLE_ROWS, TABLE_COLS, 10, 11);
    forall i, j | 0 <= i < TABLE_ROWS && 0 <= j < TABLE_COLS
      ensures g[i][j] == p[i][j]
    {
      ModRange(i - 10, TABLE_ROWS);
      ModRange(j - 11, TABLE_COLS);
    }
    forall i | 0 <= i < TABLE_ROWS
      ensures g[i] == p[i]
    {
    }
  }

  /** On the table the blinker keeps blinking: it returns after two
      generations, its two phases differ and neither is extinct. */
  lemma TableBlinkerHasPeriodTwo()
    ensures NextGeneration(NextGeneration(BlinkerTable(), TABLE_ROWS, TABLE_COLS), TABLE_ROWS, TABLE_COLS)
         == BlinkerTable()
    ensures NextGeneration(BlinkerTable(), TABLE_ROWS, TABLE_COLS) != BlinkerTable()
    ensures Population(BlinkerTable()) != 0
    ensures Population(NextGeneration(BlinkerTable(), TABLE_ROWS, TABLE_COLS)) != 0
  {
    BlinkerTableIsPlaced();
    BlinkerHasPeriodTwo(TABLE_ROWS, TABLE_COLS, 10, 11);
    HorizontalToVertical(TABLE_ROWS, TABLE_COLS, 10, 11);
    BlinkerNeverExtinct(TABLE_ROWS, TABLE_COLS, 10, 11);
  }

  /** The blinker's first generation on the table is not extinct. */
  lemma BlinkerSurvives()
    ensures Population(NextGeneration(BlinkerTable(), TABLE_ROWS, TABLE_COLS)) != 0
  {
    TableBlinkerHasPeriodTwo();
  }

  /** Three clicks on the all-dead table draw the blinker; nothing else changes. */
  method DrawBlinker(s: Session)
    requires s.Valid() && s.currentGrid == Zeros(TABLE_ROWS, TABLE_COLS)
    modifies s
    ensures s.Valid() && s.currentGrid == BlinkerTable()
    ensures s.isPlaying == old(s.isPlaying) && s.speed == old(s.speed) && s.timers == old(s.timers)
  {
    s.ToggleCell(10, 10);
    s.ToggleCell(10, 11);
    s.ToggleCell(10, 12);
  }

  /** The all-dead table is its own next generation and has no live cell. */
  lemma EmptyTableIsExtinct()
    ensures NextGeneration(Zeros(TABLE_ROWS, TABLE_COLS), TABLE_ROWS, TABLE_COLS) == Zeros(TABLE_ROWS, TABLE_COLS)
    ensures Population(Zeros(TABLE_ROWS, TABLE_COLS)) == 0
  {
    ZerosAreStill(TABLE_ROWS, TABLE_COLS);
    PopulationZero(Zeros(TABLE_ROWS, TABLE_COLS));
  }

  /** Pressing the program's play button on an all-dead table stops the game
      at once, yet leaves a timer live at the period of speed 0. */
  method PlayOnEmptyTableAsWritten(s: Session)
    requires s.Valid() && !s.isPlaying && s.timers.live == map[] && s.speed == 0
    requires s.currentGrid == Zeros(TABLE_ROWS, TABLE_COLS)
    modifies s
    ensures s.Valid() && !s.isPlaying && s.speed == 0
    ensures s.currentGrid == Zeros(TABLE_ROWS, TABLE_COLS)
    ensures s.timers == TimerTable(map[old(s.timers.nextHandle) := GAME_SPEED],
                                   old(s.timers.nextHandle), old(s.timers.nextHandle) + 1)
  {
    EmptyTableIsExtinct();
    s.PlayPauseAsWritten();
  }

  /** The corrected play button on an all-dead table stops the game at once
      and leaves no timer live. */
  method PlayOnEmptyTableCorrected(s: Session)
    requires s.Valid() && !s.isPlaying && s.timers.live == map[] && s.speed == 0
    requires s.currentGrid == Zeros(TABLE_ROWS, TABLE_COLS)
    modifies s
    ensures s.Valid() && !s.isPlaying && s.speed == 0
    ensures s.currentGrid == Zeros(TABLE_ROWS, TABLE_COLS)
    ensures s.timers == old(s.timers) && s.OneTimerWhilePlaying()
  {
    EmptyTableIsExtinct();
    s.PlayPause();
  }

  /** A running game on a table with a single live cell stops after one
      generation: the cell dies, the game pauses and its timer is cleared. */
  method LoneCellStops(s: Session, r: int, c: int)
    requires s.Valid() && s.isPlaying && 0 <= r < TABLE_ROWS && 0 <= c < TABLE_COLS
    requires s.currentGrid == LoneCell(TABLE_ROWS, TABLE_COLS, r, c)
    modifies s
    ensures s.Valid() && !s.isPlaying && s.speed == 0 && Population(s.currentGrid) == 0
    ensures s.timers == ClearInterval(old(s.timers))
  {
    LoneCellDies(TABLE_ROWS, TABLE_COLS, r, c);
    s.Step();
  }

  /** Pressing the program's play button on the blinker: the game keeps
      playing and a new timer is armed beside every timer already live. */
  method PlayOnBlinkerAsWritten(s: Session)
    requires s.Valid() && !s.isPlaying && s.currentGrid == BlinkerTable()
    modifies s
    ensures s.Valid() && s.isPlaying
    ensures s.timers == SetInterval(old(s.timers), Period(old(s.speed)))
  {
    BlinkerSurvives();
    s.PlayPauseAsWritten();
  }

  /** Pressing the corrected play button on the blinker: the game keeps
      playing and the one live timer is the new one. */
  method PlayOnBlinkerCorrected(s: Session)
    requires s.Valid() && !s.isPlaying && s.currentGrid == BlinkerTable()
    requires s.OneTimerWhilePlaying()
    modifies s
    ensures s.Valid() && s.isPlaying && s.OneTimerWhilePlaying()
    ensures s.timers == SetInterval(old(s.timers), Period(old(s.speed)))
  {
    BlinkerSurvives();
    s.PlayPause();
  }

  /** Pressing play on the all-dead table, drawing a blinker, pressing play
      and then pause, with the program's play button: while playing two timers
      are live, and after the pause one of them still is. */
  method OrphanTimerAsWritten() returns (whilePlaying: nat, afterPause: nat, paused: bool)
    ensures whilePlaying == 2 && afterPause == 1 && paused
  {
    var s := new Session();
    PlayOnEmptyTableAsWritten(s);
    DrawBlinker(s);
    PlayOnBlinkerAsWritten(s);
    assert s.timers.live.Keys == {1, 2};
    whilePlaying := |s.timers.live|;
    s.PlayPauseAsWritten();
    assert s.timers.live.Keys == {1};
    afterPause := |s.timers.live|;
    paused := !s.isPlaying;
  }

  /** The same presses with the corrected play button: one timer while
      playing and none after the pause. */
  method OrphanTimerCorrected() returns (whilePlaying: nat, afterPause: nat, paused: bool)
    ensures whilePlaying == 1 && afterPause == 0 && paused
  {
    var s := new Session();
    PlayOnEmptyTableCorrected(s);
    DrawBlinker(s);
    PlayOnBlinkerCorrected(s);
    assert s.timers.live.Keys == {s.timers.interval};
    whilePlaying := |s.timers.live|;
    s.PlayPause();
    afterPause := |s.timers.live|;
    paused := !s.isPlaying;
  }
}
