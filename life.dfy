/** The grid of the terminal Game of Life as a value: neighbour counting, the
    2/3-survival, 3-birth rule, one generation over the playable rows, the
    population count and the single-cell toggle a click performs. */
module Life {

  /** Rows at the top of the terminal reserved for the generation/population/speed ribbon. */
  const TopMargin: nat := 2
  /** Row at the bottom of the terminal reserved for the help ribbon. */
  const BottomMargin: nat := 1

  /** One snapshot of the terminal sheet: rows of cells, `true` for a live cell. */
  type Grid = seq<seq<bool>>

  /** Every row of `g` holds `width` cells. */
  predicate IsRect(g: Grid, width: nat) {
    forall r :: 0 <= r < |g| ==> |g[r]| == width
  }

  /** Row `r` lies between the two margins of a sheet of `height` rows. */
  predicate Playable(height: nat, r: int) {
    TopMargin <= r < height - BottomMargin
  }

  /** Cell (r, c) lies inside the grid and is alive: a probe outside the grid reads as dead. */
  predicate LiveAt(g: Grid, r: int, c: int) {
    0 <= r < |g| && 0 <= c < |g[r]| && g[r][c]
  }

  predicate AllDead(g: Grid) {
    forall r, c :: 0 <= r < |g| && 0 <= c < |g[r]| ==> !g[r][c]
  }

  /** No element of `s` occurs twice: each differs from all those before it. */
  predicate Distinct<T(==)>(s: seq<T>) {
    s == [] || (s[|s| - 1] !in s[..|s| - 1] && Distinct(s[..|s| - 1]))
  }

  // ---------------------------------------------------------------------------
  // Neighbours

  /** The Moore offsets as (column delta, row delta), in the order the source scans them. */
  const Offsets: seq<(int, int)> := [(-1, -1), (-1, 0), (-1, 1), (0, 1), (1, 1), (1, 0), (1, -1), (0, -1)]

  /** How many of the offsets `offs` lead from (r, c) to a live cell of `g`. */
  function CountLive(g: Grid, r: int, c: int, offs: seq<(int, int)>): (n: nat)
    ensures n <= |offs|
  {
    if offs == [] then 0
    else
      var o := offs[|offs| - 1];
      CountLive(g, r, c, offs[..|offs| - 1]) + (if LiveAt(g, r + o.1, c + o.0) then 1 else 0)
  }

  /** The live-neighbour count of cell (r, c), which fits the source's `u8` accumulator. */
  function LiveNeighbours(g: Grid, r: int, c: int): (n: nat)
    ensures n <= 8
  {
    CountLive(g, r, c, Offsets)
  }

  /** Reference definition: the offsets of the Moore neighbourhood, every (dx, dy) in
      {-1, 0, 1} x {-1, 0, 1} except (0, 0), that reach a live cell inside the grid. */
  ghost function MooreLive(g: Grid, r: int, c: int): set<(int, int)> {
    set dx: int, dy: int | -1 <= dx <= 1 && -1 <= dy <= 1 && (dx != 0 || dy != 0) && LiveAt(g, r + dy, c + dx)
      :: (dx, dy)
  }

  /** The live offsets among `offs`. */
  ghost function LiveOffsets(g: Grid, r: int, c: int, offs: seq<(int, int)>): set<(int, int)> {
    set o | o in offs && LiveAt(g, r + o.1, c + o.0)
  }

  /** The last offset of a list joins the live set of the others exactly when it reaches a
      live cell. */
  lemma LiveOffsetsLast(g: Grid, r: int, c: int, offs: seq<(int, int)>)
    requires offs != []
    ensures LiveOffsets(g, r, c, offs) ==
      LiveOffsets(g, r, c, offs[..|offs| - 1]) + (if LiveAt(g, r + offs[|offs| - 1].1, c + offs[|offs| - 1].0) then {offs[|offs| - 1]} else {})
  {
    var init := offs[..|offs| - 1];
    forall x ensures x in offs <==> x in init || x == offs[|offs| - 1] {
      if x in offs {
        var i :| 0 <= i < |offs| && offs[i] == x;
        if i < |init| { assert init[i] == x; }
      }
    }
  }

  /** Counting along a duplicate-free list of offsets counts the set of live ones. */
  lemma {:induction false} CountLiveIsSetSize(g: Grid, r: int, c: int, offs: seq<(int, int)>)
    requires Distinct(offs)
    ensures CountLive(g, r, c, offs) == |LiveOffsets(g, r, c, offs)|
  {
    if offs == [] {
      assert LiveOffsets(g, r, c, offs) == {};
    } else {
      var init, o := offs[..|offs| - 1], offs[|offs| - 1];
      CountLiveIsSetSize(g, r, c, init);
      LiveOffsetsLast(g, r, c, offs);
      var before := LiveOffsets(g, r, c, init);
      if LiveAt(g, r + o.1, c + o.0) {
        assert o !in before;
        assert |before + {o}| == |before| + 1;
      }
    }
  }

  /** The scan over the eight offsets counts exactly the live cells of the Moore
      neighbourhood that lie inside the grid: no wrap-around, no cell counted twice. */
  lemma NeighbourCountIsMooreCount(g: Grid, r: int, c: int)
    ensures LiveNeighbours(g, r, c) == |MooreLive(g, r, c)|
  {
    OffsetsDistinct();
    CountLiveIsSetSize(g, r, c, Offsets);
    forall o ensures o in LiveOffsets(g, r, c, Offsets) <==> o in MooreLive(g, r, c) {
      OffsetsAreMoore(o);
    }
    assert LiveOffsets(g, r, c, Offsets) == MooreLive(g, r, c);
  }

  /** No offset is scanned twice. */
  lemma OffsetsDistinct()
    ensures Distinct(Offsets)
  {
    assert Distinct(Offsets[..0]);
    assert Offsets[..1][..0] == Offsets[..0];
    assert Distinct(Offsets[..1]);
    assert Offsets[..2][..1] == Offsets[..1];
    assert Distinct(Offsets[..2]);
    assert Offsets[..3][..2] == Offsets[..2];
    assert Distinct(Offsets[..3]);
    assert Offsets[..4][..3] == Offsets[..3];
    assert Distinct(Offsets[..4]);
    assert Offsets[..5][..4] == Offsets[..4];
    assert Distinct(Offsets[..5]);
    assert Offsets[..6][..5] == Offsets[..5];
    assert Distinct(Offsets[..6]);
    assert Offsets[..7][..6] == Offsets[..6];
    assert Distinct(Offsets[..7]);
    assert Offsets[..8][..7] == Offsets[..7];
    assert Distinct(Offsets[..8]);
    assert Offsets[..8] == Offsets;
  }

  /** The eight offsets are exactly the Moore neighbourhood. */
  lemma OffsetsAreMoore(o: (int, int))
    ensures o in Offsets <==> -1 <= o.0 <= 1 && -1 <= o.1 <= 1 && (o.0 != 0 || o.1 != 0)
  {
  }

  function Bit(b: bool): nat {
    if b then 1 else 0
  }

  /** Reference definition: the count spelled out as the sum of the eight probes. */
  lemma NeighboursUnfolded(g: Grid, r: int, c: int)
    ensures LiveNeighbours(g, r, c) ==
      Bit(LiveAt(g, r - 1, c - 1)) + Bit(LiveAt(g, r, c - 1)) + Bit(LiveAt(g, r + 1, c - 1)) + Bit(LiveAt(g, r + 1, c))
      + Bit(LiveAt(g, r + 1, c + 1)) + Bit(LiveAt(g, r, c + 1)) + Bit(LiveAt(g, r - 1, c + 1)) + Bit(LiveAt(g, r - 1, c))
  {
    assert Offsets[..1][..0] == Offsets[..0];
    assert CountLive(g, r, c, Offsets[..1]) == CountLive(g, r, c, Offsets[..0]) + Bit(LiveAt(g, r - 1, c - 1));
    assert Offsets[..2][..1] == Offsets[..1];
    assert CountLive(g, r, c, Offsets[..2]) == CountLive(g, r, c, Offsets[..1]) + Bit(LiveAt(g, r, c - 1));
    assert Offsets[..3][..2] == Offsets[..2];
    assert CountLive(g, r, c, Offsets[..3]) == CountLive(g, r, c, Offsets[..2]) + Bit(LiveAt(g, r + 1, c - 1));
    assert Offsets[..4][..3] == Offsets[..3];
    assert CountLive(g, r, c, Offsets[..4]) == CountLive(g, r, c, Offsets[..3]) + Bit(LiveAt(g, r + 1, c));
    assert Offsets[..5][..4] == Offsets[..4];
    assert CountLive(g, r, c, Offsets[..5]) == CountLive(g, r, c, Offsets[..4]) + Bit(LiveAt(g, r + 1, c + 1));
    assert Offsets[..6][..5] == Offsets[..5];
    assert CountLive(g, r, c, Offsets[..6]) == CountLive(g, r, c, Offsets[..5]) + Bit(LiveAt(g, r, c + 1));
    assert Offsets[..7][..6] == Offsets[..6];
    assert CountLive(g, r, c, Offsets[..7]) == CountLive(g, r, c, Offsets[..6]) + Bit(LiveAt(g, r - 1, c + 1));
    assert Offsets[..8][..7] == Offsets[..7];
    assert CountLive(g, r, c, Offsets[..8]) == CountLive(g, r, c, Offsets[..7]) + Bit(LiveAt(g, r - 1, c));
    assert Offsets[..8] == Offsets;
  }

  /** In a grid with no live cell, every count is zero. */
  lemma {:induction false} CountLiveOfDead(g: Grid, r: int, c: int, offs: seq<(int, int)>)
    requires AllDead(g)
    ensures CountLive(g, r, c, offs) == 0
  {
    if offs != [] {
      CountLiveOfDead(g, r, c, offs[..|offs| - 1]);
    }
  }

  // ---------------------------------------------------------------------------
  // The rule

  /** The source's match on (neighbour count, current state): a live cell with 0-1 or 4+
      neighbours dies, a dead cell with exactly 3 is born, everything else keeps its state.
      This is the classic B3/S23 rule. */
  function NextState(alive: bool, n: nat): (b: bool)
    ensures b <==> n == 3 || (alive && n == 2)
  {
    if alive && n <= 1 then false
    else if !alive && n == 3 then true
    else if alive && n >= 4 then false
    else alive
  }

  /** One generation: each playable cell takes the rule's value for its neighbours in
      `g` (never in a partially computed grid); margin rows are copied unchanged. */
  function NextGen(g: Grid): (next: Grid)
    ensures |next| == |g|
    ensures forall r :: 0 <= r < |g| ==> |next[r]| == |g[r]|
    ensures forall r :: 0 <= r < |g| && !Playable(|g|, r) ==> next[r] == g[r]
    ensures forall r, c :: Playable(|g|, r) && 0 <= c < |g[r]| ==>
              (next[r][c] <==> LiveNeighbours(g, r, c) == 3 || (g[r][c] && LiveNeighbours(g, r, c) == 2))
  {
    seq(|g|, r requires 0 <= r < |g| =>
      if Playable(|g|, r) then seq(|g[r]|, c requires 0 <= c < |g[r]| => NextState(g[r][c], LiveNeighbours(g, r, c)))
      else g[r])
  }

  /** A playable cell of the next generation is the rule applied to that cell of `g`. */
  lemma NextGenAt(g: Grid, r: int, c: int)
    requires Playable(|g|, r) && 0 <= c < |g[r]|
    ensures NextGen(g)[r][c] == NextState(g[r][c], LiveNeighbours(g, r, c))
  {
  }

  /** The four cases of the rule, cell by cell, after one generation. */
  lemma StepRuleCases(g: Grid, r: int, c: int)
    requires Playable(|g|, r) && 0 <= c < |g[r]|
    ensures g[r][c] && LiveNeighbours(g, r, c) <= 1 ==> !NextGen(g)[r][c]
    ensures g[r][c] && LiveNeighbours(g, r, c) >= 4 ==> !NextGen(g)[r][c]
    ensures !g[r][c] ==> (NextGen(g)[r][c] <==> LiveNeighbours(g, r, c) == 3)
    ensures LiveNeighbours(g, r, c) == 2 ==> NextGen(g)[r][c] == g[r][c]
    ensures g[r][c] && 2 <= LiveNeighbours(g, r, c) <= 3 ==> NextGen(g)[r][c]
  {
  }

  /** An all-dead grid is a fixed point of the step. */
  lemma AllDeadStable(g: Grid)
    requires AllDead(g)
    ensures NextGen(g) == g
  {
    var next := NextGen(g);
    forall r | 0 <= r < |g| ensures next[r] == g[r] {
      if Playable(|g|, r) {
        forall c | 0 <= c < |g[r]| ensures next[r][c] == g[r][c] {
          CountLiveOfDead(g, r, c, Offsets);
        }
      }
    }
  }

  /** `k` generations from `g`. */
  function Generations(g: Grid, k: nat): Grid {
    if k == 0 then g else NextGen(Generations(g, k - 1))
  }

  /** An empty sheet stays empty for any number of generations. */
  lemma {:induction false} AllDeadForever(g: Grid, k: nat)
    requires AllDead(g)
    ensures Generations(g, k) == g
  {
    if k > 0 {
      AllDeadForever(g, k - 1);
      AllDeadStable(g);
    }
  }

  /** Two grids that step into each other alternate forever. */
  lemma {:induction false} PeriodTwo(a: Grid, b: Grid, k: nat)
    requires NextGen(a) == b && NextGen(b) == a
    ensures Generations(a, k) == if k % 2 == 0 then a else b
  {
    if k > 0 {
      PeriodTwo(a, b, k - 1);
    }
  }

  // ---------------------------------------------------------------------------
  // Population and the click toggle

  /** Number of live cells in one row. */
  function CountRow(row: seq<bool>): (n: nat)
    ensures n <= |row|
  {
    if row == [] then 0 else (if row[0] then 1 else 0) + CountRow(row[1..])
  }

  /** Number of live cells in the grid, counted by a full scan. */
  function Population(g: Grid): nat {
    if g == [] then 0 else CountRow(g[0]) + Population(g[1..])
  }

  /** `g` with cell (r, c) set to `v`. */
  function SetCell(g: Grid, r: nat, c: nat, v: bool): Grid
    requires r < |g| && c < |g[r]|
  {
    g[r := g[r][c := v]]
  }

  /** A click's edit: cell (r, c) flipped and every other cell kept. */
  function ToggleCell(g: Grid, r: nat, c: nat): (t: Grid)
    requires r < |g| && c < |g[r]|
    ensures |t| == |g| && forall i :: 0 <= i < |g| ==> |t[i]| == |g[i]|
    ensures t[r][c] == !g[r][c]
    ensures forall i, j :: 0 <= i < |g| && 0 <= j < |g[i]| && (i, j) != (r, c) ==> t[i][j] == g[i][j]
  {
    SetCell(g, r, c, !g[r][c])
  }

  lemma {:induction false} CountRowUpdate(row: seq<bool>, c: nat, v: bool)
    requires c < |row|
    ensures CountRow(row[c := v]) + (if row[c] then 1 else 0) == CountRow(row) + (if v then 1 else 0)
  {
    if c > 0 {
      assert row[c := v][1..] == row[1..][c - 1 := v];
      CountRowUpdate(row[1..], c - 1, v);
    }
  }

  /** Writing one cell changes the population by the difference of the old and new value:
      the incremental +1/-1 bookkeeping agrees with a full re-count. */
  lemma {:induction false} PopulationUpdate(g: Grid, r: nat, c: nat, v: bool)
    requires r < |g| && c < |g[r]|
    ensures Population(SetCell(g, r, c, v)) + (if g[r][c] then 1 else 0) == Population(g) + (if v then 1 else 0)
  {
    if r == 0 {
      assert SetCell(g, r, c, v)[1..] == g[1..];
      CountRowUpdate(g[0], c, v);
    } else {
      assert SetCell(g, r, c, v)[1..] == SetCell(g[1..], r - 1, c, v);
      PopulationUpdate(g[1..], r - 1, c, v);
    }
  }

  /** A toggle adds one live cell to a dead position and removes one from a live one. */
  lemma PopulationToggle(g: Grid, r: nat, c: nat)
    requires r < |g| && c < |g[r]|
    ensures g[r][c] ==> Population(g) >= 1 && Population(ToggleCell(g, r, c)) == Population(g) - 1
    ensures !g[r][c] ==> Population(ToggleCell(g, r, c)) == Population(g) + 1
  {
    PopulationUpdate(g, r, c, !g[r][c]);
  }

  /** Toggling the same cell twice restores the grid. */
  lemma ToggleTwice(g: Grid, r: nat, c: nat)
    requires r < |g| && c < |g[r]|
    ensures ToggleCell(ToggleCell(g, r, c), r, c) == g
  {
    assert ToggleCell(g, r, c)[r][c := g[r][c]] == g[r];
  }

  lemma {:induction false} CountRowZeroIffDead(row: seq<bool>)
    ensures CountRow(row) == 0 <==> forall c :: 0 <= c < |row| ==> !row[c]
  {
    if row != [] {
      CountRowZeroIffDead(row[1..]);
      if CountRow(row) == 0 {
        forall c | 0 <= c < |row| ensures !row[c] {
          if c > 0 { assert row[c] == row[1..][c - 1]; }
        }
      }
    }
  }

  /** The population is zero exactly when no cell is alive. */
  lemma {:induction false} PopulationZeroIffAllDead(g: Grid)
    ensures Population(g) == 0 <==> AllDead(g)
  {
    if g != [] {
      PopulationZeroIffAllDead(g[1..]);
      CountRowZeroIffDead(g[0]);
      if Population(g) == 0 {
        forall r, c | 0 <= r < |g| && 0 <= c < |g[r]| ensures !g[r][c] {
          if r > 0 { assert g[r] == g[1..][r - 1]; }
        }
      } else if AllDead(g) {
        assert AllDead(g[1..]) by {
          forall r, c | 0 <= r < |g[1..]| && 0 <= c < |g[1..][r]| ensures !g[1..][r][c] {
            assert g[1..][r] == g[r + 1];
          }
        }
      }
    }
  }
}
