/** The state that the main loop of the terminal Game of Life mutates in place: the cell
    sheet, the population and generation counters, the speed setting and the pause flag,
    with the key, click and timer handling that change them. */
module Simulation {
  import opened Life

  /** Delay setting at startup (src/main.rs:49). */
  const InitialDelay: nat := 50
  /** Largest delay the `-` key can reach. */
  const MaxDelay: nat := 99
  /** Terminal sizes are `u16` values. */
  const U16Limit: nat := 0x1_0000
  /** `isize`/`usize` are 64 bits wide. */
  const UsizeModulus: int := 0x1_0000_0000_0000_0000
  const IsizeLimit: int := 0x8000_0000_0000_0000

  /** `x as usize` for an `isize` value `x`: a negative value wraps around to 2^64 + x. */
  function AsUsize(x: int): (u: nat)
    requires -IsizeLimit <= x < IsizeLimit
    ensures x >= 0 ==> u == x
    ensures x < 0 ==> u >= IsizeLimit
  {
    if x < 0 then x + UsizeModulus else x
  }

  /** The probe of the neighbour scan as the source writes it: the `||` guard, then
      `cells.get(row as usize)` and `.get(column as usize)`, a `None` counting as dead. */
  predicate ProbeLive(g: Grid, width: nat, r: int, c: int)
    requires IsRect(g, width) && -IsizeLimit <= r < IsizeLimit && -IsizeLimit <= c < IsizeLimit
  {
    (r >= 0 || c >= 0) && AsUsize(r) < |g| && AsUsize(c) < width && g[AsUsize(r)][AsUsize(c)]
  }

  /** On a sheet of terminal size the guarded, wrapping probe is a plain bounds check. */
  lemma ProbeIsBoundsCheck(g: Grid, width: nat, r: int, c: int)
    requires IsRect(g, width) && |g| < U16Limit && width < U16Limit
    requires -IsizeLimit <= r < IsizeLimit && -IsizeLimit <= c < IsizeLimit
    ensures ProbeLive(g, width, r, c) <==> LiveAt(g, r, c)
  {
  }

  /** One more probe of the scan adds one to the count exactly when it reads a live cell. */
  lemma ProbeCounts(g: Grid, width: nat, row: nat, column: nat, i: nat, live: bool)
    requires IsRect(g, width) && |g| < U16Limit && width < U16Limit
    requires row < |g| && column < width && i < |Offsets|
    requires live == ProbeLive(g, width, row + Offsets[i].1, column + Offsets[i].0)
    ensures CountLive(g, row, column, Offsets[..i + 1]) == CountLive(g, row, column, Offsets[..i]) + (if live then 1 else 0)
  {
    ProbeIsBoundsCheck(g, width, row + Offsets[i].1, column + Offsets[i].0);
    assert Offsets[..i + 1][..i] == Offsets[..i];
  }

  /** The contents of a two-dimensional array as a grid value. */
  ghost function ArraySnapshot(a: array2<bool>): (g: Grid)
    reads a
    ensures |g| == a.Length0 && IsRect(g, a.Length1)
    ensures forall r, c :: 0 <= r < a.Length0 && 0 <= c < a.Length1 ==> g[r][c] == a[r, c]
  {
    seq(a.Length0, r requires 0 <= r < a.Length0 reads a =>
      seq(a.Length1, c requires 0 <= c < a.Length1 reads a => a[r, c]))
  }

  lemma SnapshotIs(a: array2<bool>, g: Grid)
    requires |g| == a.Length0 && IsRect(g, a.Length1)
    requires forall r, c :: 0 <= r < a.Length0 && 0 <= c < a.Length1 ==> a[r, c] == g[r][c]
    ensures ArraySnapshot(a) == g
  {
    var s := ArraySnapshot(a);
    forall r | 0 <= r < |g| ensures s[r] == g[r] {
      assert forall c :: 0 <= c < |g[r]| ==> s[r][c] == g[r][c];
    }
  }

  /** A fresh copy of `a` (the `clone()` of the sheet). */
  method Clone(a: array2<bool>) returns (b: array2<bool>)
    ensures fresh(b) && b.Length0 == a.Length0 && b.Length1 == a.Length1
    ensures forall r, c :: 0 <= r < a.Length0 && 0 <= c < a.Length1 ==> b[r, c] == a[r, c]
    ensures ArraySnapshot(b) == ArraySnapshot(a)
  {
    b := new bool[a.Length0, a.Length1]((r, c) reads a =>
      if 0 <= r < a.Length0 && 0 <= c < a.Length1 then a[r, c] else false);
    SnapshotIs(b, ArraySnapshot(a));
  }

  /** Flips cell (r, c) of `a` and moves the population count `pop` by one, as both the
      click handler and the generation step do for every cell they change. */
  method Flip(a: array2<bool>, r: nat, c: nat, pop: nat) returns (pop': nat)
    requires r < a.Length0 && c < a.Length1
    requires pop == Population(ArraySnapshot(a))
    modifies a
    ensures ArraySnapshot(a) == ToggleCell(old(ArraySnapshot(a)), r, c)
    ensures pop' == Population(ArraySnapshot(a))
    ensures pop' == if old(a[r, c]) then pop - 1 else pop + 1
  {
    ghost var before := ArraySnapshot(a);
    PopulationToggle(before, r, c);
    if a[r, c] {
      a[r, c] := false;
      pop' := pop - 1;
    } else {
      a[r, c] := true;
      pop' := pop + 1;
    }
    SnapshotIs(a, ToggleCell(before, r, c));
  }

  // ---------------------------------------------------------------------------
  // Speed and pacing

  /** Delay after `+`: one step faster, no change at 0. */
  function Faster(delay: nat): nat {
    if delay > 0 then delay - 1 else delay
  }

  /** Delay after `-`: one step slower, no change at `MaxDelay`. */
  function Slower(delay: nat): nat {
    if delay < MaxDelay then delay + 1 else delay
  }

  /** Both keys keep the delay within [0, MaxDelay], are no-ops at their bound and undo
      each other away from it. */
  lemma DelayAdjustments(delay: nat)
    requires delay <= MaxDelay
    ensures Faster(delay) <= MaxDelay && Slower(delay) <= MaxDelay
    ensures Faster(0) == 0 && Slower(MaxDelay) == MaxDelay
    ensures delay > 0 ==> Slower(Faster(delay)) == delay
    ensures delay < MaxDelay ==> Faster(Slower(delay)) == delay
  {
  }

  /** Milliseconds that must pass between two generations at a given delay. */
  function GateMs(delay: nat): nat {
    8 * delay + 250
  }

  /** The pacing gate of the main loop. */
  predicate ShouldAdvance(paused: bool, delay: nat, elapsed: nat) {
    !paused && elapsed >= GateMs(delay)
  }

  /** The wait lies between 250 ms and 1042 ms, grows with the delay, and once open the
      gate stays open as time goes on. */
  lemma GateProperties(delay: nat, delay': nat, elapsed: nat, elapsed': nat)
    requires delay <= MaxDelay
    ensures 250 <= GateMs(delay) <= 1042
    ensures delay < delay' ==> GateMs(delay) < GateMs(delay')
    ensures ShouldAdvance(false, delay, elapsed) && elapsed <= elapsed' ==> ShouldAdvance(false, delay, elapsed')
    ensures ShouldAdvance(true, delay, elapsed) == false
  {
  }

  // ---------------------------------------------------------------------------
  // Events

  datatype Modifiers = NoModifiers | Control | OtherModifiers

  /** What a poll of the terminal can yield, reduced to what the loop distinguishes. */
  datatype Event =
    | Key(code: char, modifiers: Modifiers)
    | LeftDown(row: nat, column: nat)   // left mouse button pressed at a terminal cell
    | OtherMouse                        // any other mouse event
    | OtherEvent                        // resize, focus, paste, and every key without a
                                        // character code (Enter, arrows, function keys)

  datatype Option<T> = None | Some(value: T)

  /** `q` without modifiers, or Ctrl-C. */
  predicate IsQuit(e: Event) {
    e == Key('c', Control) || e == Key('q', NoModifiers)
  }

  // ---------------------------------------------------------------------------
  // The game

  class Game {
    const height: nat
    const width: nat
    var cells: array2<bool>
    var population: nat
    var generation: nat
    var delay: nat
    var paused: bool

    /** The sheet has the terminal's dimensions, the delay its range, and the
        incrementally maintained population equals the number of live cells. */
    ghost predicate Valid()
      reads this, cells
    {
      Shaped()
      && delay <= MaxDelay
      && population == Population(Snapshot())
    }

    /** The sheet has the terminal's dimensions, which fit in `u16`. */
    ghost predicate Shaped()
      reads this
    {
      cells.Length0 == height && cells.Length1 == width
      && TopMargin + BottomMargin <= height < U16Limit && width < U16Limit
    }

    ghost function Snapshot(): Grid
      reads this, cells
    {
      ArraySnapshot(cells)
    }

    /** Startup: an all-dead sheet, generation 0, delay 50, paused. */
    constructor (h: nat, w: nat)
      requires TopMargin + BottomMargin <= h < U16Limit && w < U16Limit
      ensures Valid() && fresh(cells)
      ensures height == h && width == w
      ensures AllDead(Snapshot()) && population == 0
      ensures generation == 0 && delay == InitialDelay && paused
    {
      height, width := h, w;
      cells := new bool[h, w]((r, c) => false);
      generation, delay, paused := 0, InitialDelay, true;
      population := 0;
      new;
      PopulationZeroIffAllDead(ArraySnapshot(cells));
    }

    /** `p`: flips the pause flag and nothing else. */
    method TogglePause()
      requires Valid()
      modifies this`paused
      ensures Valid()
      ensures paused == !old(paused)
    {
      paused := !paused;
    }

    /** `+`: one step faster unless already at 0. */
    method SpeedUp()
      requires Valid()
      modifies this`delay
      ensures Valid()
      ensures delay == Faster(old(delay))
    {
      if delay > 0 {
        delay := delay - 1;
      }
    }

    /** `-`: one step slower unless already at `MaxDelay`. */
    method SpeedDown()
      requires Valid()
      modifies this`delay
      ensures Valid()
      ensures delay == Slower(old(delay))
    {
      if delay < MaxDelay {
        delay := delay + 1;
      }
    }

    /** A left click: outside the playable rows it is ignored, otherwise it flips the cell
        and moves the population by one. */
    method Click(row: nat, column: nat)
      requires Valid()
      requires Playable(height, row) ==> column < width
      modifies this`population, cells
      ensures Valid()
      ensures Snapshot() == if Playable(height, row) then ToggleCell(old(Snapshot()), row, column) else old(Snapshot())
      ensures population == if !Playable(height, row) then old(population)
                            else if old(cells[row, column]) then old(population) - 1
                            else old(population) + 1
    {
      if row < TopMargin || row >= height - BottomMargin {
      } else {
        population := Flip(cells, row, column, population);
      }
    }

    /** One probe of the neighbour scan: the `||` guard, then the `usize` casts and the
        bounds-checked reads of the row and the column. */
    method Probe(r: int, c: int) returns (live: bool)
      requires Shaped() && -IsizeLimit <= r < IsizeLimit && -IsizeLimit <= c < IsizeLimit
      ensures live == ProbeLive(Snapshot(), width, r, c)
    {
      live := false;
      if r >= 0 || c >= 0 {
        var r', c' := AsUsize(r), AsUsize(c);
        live := r' < height && c' < width && cells[r', c'];
      }
    }

    /** The live-neighbour count of one cell, scanning the eight offsets with the
        source's guarded, wrapping probe. */
    method LiveNeighbourCount(row: nat, column: nat) returns (n: nat)
      requires Shaped() && row < height && column < width
      ensures n == LiveNeighbours(Snapshot(), row, column)
    {
      ghost var g := Snapshot();
      n := 0;
      for i := 0 to |Offsets|
        invariant n == CountLive(g, row, column, Offsets[..i])
      {
        var (x, y) := Offsets[i];
        var live := Probe(row + y, column + x);
        ProbeCounts(g, width, row, column, i, live);
        if live {
          n := n + 1;
        }
      }
      assert Offsets[..|Offsets|] == Offsets;
    }

    /** Cell (row, column) of the copy `next` receives its next-generation value, computed
        from the sheet as it was before the step; the population follows the change. */
    method StepCell(next: array2<bool>, row: nat, column: nat, pop: nat, ghost g: Grid) returns (pop': nat)
      requires Shaped() && next != cells && g == Snapshot()
      requires next.Length0 == height && next.Length1 == width
      requires Playable(height, row) && column < width
      requires next[row, column] == g[row][column]
      requires pop == Population(ArraySnapshot(next))
      modifies next
      ensures next[row, column] == NextGen(g)[row][column]
      ensures forall r, c :: 0 <= r < height && 0 <= c < width && (r != row || c != column) ==> next[r, c] == old(next[r, c])
      ensures pop' == Population(ArraySnapshot(next))
    {
      var n := LiveNeighbourCount(row, column);
      var alive := cells[row, column];
      NextGenAt(g, row, column);
      pop' := pop;
      if (alive && n <= 1) || (!alive && n == 3) || (alive && n >= 4) {
        pop' := Flip(next, row, column, pop);
      }
    }

    /** Every cell of playable row `row` of the copy `next` receives its next-generation value. */
    method StepRow(next: array2<bool>, row: nat, pop: nat, ghost g: Grid) returns (pop': nat)
      requires Shaped() && next != cells && g == Snapshot()
      requires next.Length0 == height && next.Length1 == width
      requires Playable(height, row)
      requires forall c :: 0 <= c < width ==> next[row, c] == g[row][c]
      requires pop == Population(ArraySnapshot(next))
      modifies next
      ensures forall c :: 0 <= c < width ==> next[row, c] == NextGen(g)[row][c]
      ensures forall r, c :: 0 <= r < height && 0 <= c < width && r != row ==> next[r, c] == old(next[r, c])
      ensures pop' == Population(ArraySnapshot(next))
    {
      ghost var target := NextGen(g)[row];
      pop' := pop;
      for column := 0 to width
        invariant forall c :: 0 <= c < width ==> next[row, c] == if c < column then target[c] else g[row][c]
        invariant forall r, c :: 0 <= r < height && 0 <= c < width && r != row ==> next[r, c] == old(next[r, c])
        invariant pop' == Population(ArraySnapshot(next))
      {
        pop' := StepCell(next, row, column, pop', g);
      }
    }

    /** One generation: every playable cell is computed from the sheet as it was before
        the step and written to a copy, which then replaces the sheet. */
    method Step()
      requires Valid()
      modifies this`cells, this`population, this`generation
      ensures Valid()
      ensures Snapshot() == NextGen(old(Snapshot()))
      ensures generation == old(generation) + 1
    {
      ghost var g := Snapshot();
      var next := Clone(cells);
      var pop := population;
      for row := TopMargin to height - BottomMargin
        modifies next
        invariant forall r, c :: 0 <= r < height && 0 <= c < width ==>
          next[r, c] == if TopMargin <= r < row then NextGen(g)[r][c] else g[r][c]
        invariant pop == Population(ArraySnapshot(next))
      {
        pop := StepRow(next, row, pop, g);
      }
      SnapshotIs(next, NextGen(g));
      cells := next;
      population := pop;
      generation := generation + 1;
    }

    /** The pacing gate: advance one generation when not paused and `elapsed`
        milliseconds (time since the last generation) reach the gate. */
    method Tick(elapsed: nat) returns (advanced: bool)
      requires Valid()
      modifies this`cells, this`population, this`generation
      ensures Valid()
      ensures advanced == ShouldAdvance(paused, delay, elapsed)
      ensures Snapshot() == if advanced then NextGen(old(Snapshot())) else old(Snapshot())
      ensures generation == if advanced then old(generation) + 1 else old(generation)
    {
      if paused || elapsed < 8 * delay + 250 {
        advanced := false;
      } else {
        Step();
        advanced := true;
      }
    }

    /** Dispatch of one input event: quit keys end the loop, `p`, `+` and `-` adjust the
        controls, a left click toggles a cell; any other event changes nothing. */
    method HandleEvent(e: Event) returns (quit: bool)
      requires Valid()
      requires e.LeftDown? && Playable(height, e.row) ==> e.column < width
      modifies this`population, this`delay, this`paused, cells
      ensures Valid()
      ensures quit <==> IsQuit(e)
      ensures paused == (if e == Key('p', NoModifiers) then !old(paused) else old(paused))
      ensures delay == (if e == Key('+', NoModifiers) then Faster(old(delay))
                        else if e == Key('-', NoModifiers) then Slower(old(delay))
                        else old(delay))
      ensures Snapshot() == (if e.LeftDown? && Playable(height, e.row)
                             then ToggleCell(old(Snapshot()), e.row, e.column)
                             else old(Snapshot()))
    {
      quit := false;
      match e {
        case Key(code, modifiers) =>
          if (code == 'c' && modifiers == Control) || (code == 'q' && modifiers == NoModifiers) {
            quit := true;
          } else if code == 'p' && modifiers == NoModifiers {
            TogglePause();
          } else if code == '+' && modifiers == NoModifiers {
            SpeedUp();
          } else if code == '-' && modifiers == NoModifiers {
            SpeedDown();
          }
        case LeftDown(row, column) =>
          Click(row, column);
        case OtherMouse =>
        case OtherEvent =>
      }
    }

    /** One pass of the main loop: handle the event the poll returned, if any; stop on a
        quit key; otherwise advance a generation when the pacing gate is open. */
    method RunIteration(event: Option<Event>, elapsed: nat) returns (quit: bool, advanced: bool)
      requires Valid()
      requires event.Some? && event.value.LeftDown? && Playable(height, event.value.row) ==> event.value.column < width
      modifies this, cells
      ensures Valid()
      ensures quit <==> event.Some? && IsQuit(event.value)
      ensures advanced <==> !quit && ShouldAdvance(paused, delay, elapsed)
      ensures paused == (if event == Some(Key('p', NoModifiers)) then !old(paused) else old(paused))
      ensures delay == (if event == Some(Key('+', NoModifiers)) then Faster(old(delay))
                        else if event == Some(Key('-', NoModifiers)) then Slower(old(delay))
                        else old(delay))
      ensures quit ==> Snapshot() == old(Snapshot())
      ensures !quit ==>
        (var s := if event.Some? && event.value.LeftDown? && Playable(height, event.value.row)
                  then ToggleCell(old(Snapshot()), event.value.row, event.value.column)
                  else old(Snapshot());
         Snapshot() == if advanced then NextGen(s) else s)
      ensures advanced ==> generation == old(generation) + 1
      ensures !advanced ==> generation == old(generation)
    {
      quit, advanced := false, false;
      if event.Some? {
        quit := HandleEvent(event.value);
        if quit {
          return;
        }
      }
      advanced := Tick(elapsed);
    }
  }
}
