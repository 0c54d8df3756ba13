/** Fixed scenarios: the blinker oscillator on a six-row, three-column sheet (rows 0-1 are
    the top ribbon, row 5 the help line), the effect of a click on a paused game, and the
    `-` key clamping the delay at its top. */
module Scenarios {
  import opened Life
  import opened Simulation

  const Horizontal: Grid := [
    [false, false, false], [false, false, false], [false, false, false],
    [true, true, true], [false, false, false], [false, false, false]]

  const Vertical: Grid := [
    [false, false, false], [false, false, false], [false, true, false],
    [false, true, false], [false, true, false], [false, false, false]]

  lemma HorizontalToVerticalRow2()
    ensures NextGen(Horizontal)[2] == Vertical[2]
  {
    NeighboursUnfolded(Horizontal, 2, 0);
    NeighboursUnfolded(Horizontal, 2, 1);
    NeighboursUnfolded(Horizontal, 2, 2);
  }

  lemma HorizontalToVerticalRow3()
    ensures NextGen(Horizontal)[3] == Vertical[3]
  {
    NeighboursUnfolded(Horizontal, 3, 0);
    NeighboursUnfolded(Horizontal, 3, 1);
    NeighboursUnfolded(Horizontal, 3, 2);
  }

  lemma HorizontalToVerticalRow4()
    ensures NextGen(Horizontal)[4] == Vertical[4]
  {
    NeighboursUnfolded(Horizontal, 4, 0);
    NeighboursUnfolded(Horizontal, 4, 1);
    NeighboursUnfolded(Horizontal, 4, 2);
  }

  lemma VerticalToHorizontalRow2()
    ensures NextGen(Vertical)[2] == Horizontal[2]
  {
    NeighboursUnfolded(Vertical, 2, 0);
    NeighboursUnfolded(Vertical, 2, 1);
    NeighboursUnfolded(Vertical, 2, 2);
  }

  lemma VerticalToHorizontalRow3()
    ensures NextGen(Vertical)[3] == Horizontal[3]
  {
    NeighboursUnfolded(Vertical, 3, 0);
    NeighboursUnfolded(Vertical, 3, 1);
    NeighboursUnfolded(Vertical, 3, 2);
  }

  lemma VerticalToHorizontalRow4()
    ensures NextGen(Vertical)[4] == Horizontal[4]
  {
    NeighboursUnfolded(Vertical, 4, 0);
    NeighboursUnfolded(Vertical, 4, 1);
    NeighboursUnfolded(Vertical, 4, 2);
  }

  lemma HorizontalToVertical()
    ensures NextGen(Horizontal) == Vertical
  {
    HorizontalToVerticalRow2();
    HorizontalToVerticalRow3();
    HorizontalToVerticalRow4();
    var v := NextGen(Horizontal);
    assert v[0] == Vertical[0] && v[1] == Vertical[1] && v[5] == Vertical[5];
  }

  lemma VerticalToHorizontal()
    ensures NextGen(Vertical) == Horizontal
  {
    VerticalToHorizontalRow2();
    VerticalToHorizontalRow3();
    VerticalToHorizontalRow4();
    var h := NextGen(Vertical);
    assert h[0] == Horizontal[0] && h[1] == Horizontal[1] && h[5] == Horizontal[5];
  }

  lemma BlinkerPopulation()
    ensures Population(Horizontal) == 3 && Population(Vertical) == 3
  {
    assert CountRow([false, false, false]) == 0;
    assert CountRow([true, true, true]) == 3;
    assert CountRow([false, true, false]) == 1;
    assert Horizontal[1..][1..][1..] == [[true, true, true], [false, false, false], [false, false, false]];
    assert Vertical[1..][1..] == [[false, true, false], [false, true, false], [false, true, false], [false, false, false]];
  }

  /** A horizontal blinker turns vertical and back, with three live cells throughout. */
  lemma BlinkerOscillates(k: nat)
    ensures Generations(Horizontal, k) == if k % 2 == 0 then Horizontal else Vertical
    ensures Population(Generations(Horizontal, k)) == 3
  {
    HorizontalToVertical();
    VerticalToHorizontal();
    PeriodTwo(Horizontal, Vertical, k);
    BlinkerPopulation();
  }

  /** Clicking a playable cell of a fresh (paused) game brings it to life and raises the
      population to 1 without advancing the generation; a click on the ribbon is ignored. */
  method PausedClickScenario() returns (game: Game)
    ensures game.Valid() && game.paused
    ensures game.generation == 0 && game.population == 1
    ensures LiveAt(game.Snapshot(), 3, 1)
  {
    game := new Game(6, 3);
    game.Click(3, 1);
    game.Click(0, 1);
    var quit := game.HandleEvent(Key('x', NoModifiers));
    assert !quit;
  }

  /** Pressing `-` until the delay reaches its top, then once more, leaves it at the top:
      the slowest speed is a hard limit. */
  method SlowestDelayScenario() returns (game: Game)
    ensures game.Valid() && game.delay == MaxDelay
    ensures game.generation == 0 && game.population == 0
  {
    game := new Game(6, 3);
    while game.delay < MaxDelay
      invariant game.Valid() && fresh(game.cells)
      invariant game.generation == 0 && game.population == 0
      decreases MaxDelay - game.delay
    {
      var quit := game.HandleEvent(Key('-', NoModifiers));
    }
    var quit := game.HandleEvent(Key('-', NoModifiers));
  }
}
