/** The generation step: the life rule with decay applied to every cell of
    a fresh buffer, then the random reseeding of the border. */
module Generation {
  import opened Cells
  import opened Coords
  import opened Neighbours

  /** The life rule's rescue condition for the cell at index `i`: alive with
      exactly two live neighbours, or exactly three live neighbours. */
  predicate Rescued(c: Config, g: seq<byte>, i: nat)
    requires c.width > 0 && |g| == c.Length() && i < |g|
    ensures Rescued(c, g, i) ==> CountNeighbours(c, i, g) == 2 || CountNeighbours(c, i, g) == 3
    ensures CountNeighbours(c, i, g) == 3 ==> Rescued(c, g, i)
    ensures g[i] < c.live ==> (Rescued(c, g, i) <==> CountNeighbours(c, i, g) == 3)
  {
    (g[i] >= c.live && CountNeighbours(c, i, g) == 2) || CountNeighbours(c, i, g) == 3
  }

  /** The value the per-cell pass writes for the cell at index `i`, before
      the border is reseeded. */
  function RuleCell(c: Config, g: seq<byte>, i: nat): (r: byte)
    requires c.width > 0 && |g| == c.Length() && i < |g|
    ensures Rescued(c, g, i) ==> r == c.live
    ensures !Rescued(c, g, i) && g[i] == 0 ==> r == 0
    ensures !Rescued(c, g, i) && g[i] > 0 ==> r == Decay(c, g[i])
  {
    if Rescued(c, g, i) then c.live else Fade(c, g[i])
  }

  /** Whether column `x`, row `y` lies on one of the four edges. */
  predicate OnBorder(c: Config, x: nat, y: nat)
  {
    x == 0 || x == c.width - 1 || y == 0 || y == c.height - 1
  }

  /** Coin flips one generation consumes: a top and a bottom one per
      column, then a left and a right one per row. */
  function DrawsPerStep(c: Config): nat
  {
    2 * c.width + 2 * c.height
  }

  /** The flip the row loop uses for column `x` on the top (`bottom` false)
      or bottom edge. */
  function RowDraw(x: nat, bottom: bool): nat
  {
    2 * x + Bit(bottom)
  }

  /** The flip the column loop uses for row `y` on the left (`right` false)
      or right edge. */
  function ColumnDraw(c: Config, y: nat, right: bool): nat
  {
    2 * c.width + 2 * y + Bit(right)
  }

  /** The value a border cell keeps: the last of the writes the two border
      loops make to it. The column loop runs second, so the first and last
      column (corners included) keep its flip; the right edge is written
      after the left one and the bottom edge after the top one. */
  function BorderCell(c: Config, draws: seq<bool>, x: nat, y: nat): (r: byte)
    requires x < c.width && y < c.height && |draws| >= DrawsPerStep(c)
    ensures r == 0 || r == c.live
    ensures x == 0 || x == c.width - 1 ==> r == RandomCellState(c, draws[ColumnDraw(c, y, x == c.width - 1)])
    ensures 0 < x < c.width - 1 ==> r == RandomCellState(c, draws[RowDraw(x, y == c.height - 1)])
  {
    if x == c.width - 1 then RandomCellState(c, draws[ColumnDraw(c, y, true)])
    else if x == 0 then RandomCellState(c, draws[ColumnDraw(c, y, false)])
    else if y == c.height - 1 then RandomCellState(c, draws[RowDraw(x, true)])
    else RandomCellState(c, draws[RowDraw(x, false)])
  }

  /** The next value of the cell at index `i`. */
  function StepCell(c: Config, g: seq<byte>, draws: seq<bool>, i: nat): byte
    requires c.width > 0 && |g| == c.Length() && i < |g| && |draws| >= DrawsPerStep(c)
  {
    var (x, y) := IndexToCoords(c, i);
    if OnBorder(c, x, y) then BorderCell(c, draws, x, y) else RuleCell(c, g, i)
  }

  /** The generation that follows `g` when the border loops flip `draws`. */
  function Step(c: Config, g: seq<byte>, draws: seq<bool>): (next: seq<byte>)
    requires c.width > 0 && |g| == c.Length() && |draws| >= DrawsPerStep(c)
    ensures |next| == |g|
  {
    seq(|g|, i requires 0 <= i < |g| => StepCell(c, g, draws, i))
  }

  /** The output buffer after the row loop has handled the columns below
      `k`. */
  ghost function AfterRowLoop(c: Config, g: seq<byte>, draws: seq<bool>, k: nat, i: nat): byte
    requires c.width > 0 && |g| == c.Length() && i < |g| && |draws| >= DrawsPerStep(c)
  {
    var (x, y) := IndexToCoords(c, i);
    if x < k && y == c.height - 1 then RandomCellState(c, draws[RowDraw(x, true)])
    else if x < k && y == 0 then RandomCellState(c, draws[RowDraw(x, false)])
    else RuleCell(c, g, i)
  }

  /** The output buffer after the column loop has handled the rows below
      `k`. */
  ghost function AfterColumnLoop(c: Config, g: seq<byte>, draws: seq<bool>, k: nat, i: nat): byte
    requires c.width > 0 && |g| == c.Length() && i < |g| && |draws| >= DrawsPerStep(c)
  {
    var (x, y) := IndexToCoords(c, i);
    if y < k && x == c.width - 1 then RandomCellState(c, draws[ColumnDraw(c, y, true)])
    else if y < k && x == 0 then RandomCellState(c, draws[ColumnDraw(c, y, false)])
    else AfterRowLoop(c, g, draws, c.width, i)
  }

  /** One round of the row loop writes the cell of column `x` on the top
      edge, then the one on the bottom edge, and changes nothing else; on a
      one-row grid the two coincide and the bottom write wins. */
  lemma RowLoopAdvances(c: Config, g: seq<byte>, draws: seq<bool>, x: nat, j: nat)
    requires c.Dimensions() && |g| == c.Length() && j < |g| && |draws| >= DrawsPerStep(c)
    requires x < c.width
    ensures AfterRowLoop(c, g, draws, x + 1, j) ==
            if j == CoordsToIndex(c.width, x, c.height - 1) then RandomCellState(c, draws[2 * x + 1])
            else if j == CoordsToIndex(c.width, x, 0) then RandomCellState(c, draws[2 * x])
            else AfterRowLoop(c, g, draws, x, j)
  {
  }

  /** One round of the column loop writes the cell of row `y` on the left
      edge, then the one on the right edge, and changes nothing else; on a
      one-column grid the two coincide and the right write wins. */
  lemma ColumnLoopAdvances(c: Config, g: seq<byte>, draws: seq<bool>, y: nat, j: nat)
    requires c.Dimensions() && |g| == c.Length() && j < |g| && |draws| >= DrawsPerStep(c)
    requires y < c.height
    ensures AfterColumnLoop(c, g, draws, y + 1, j) ==
            if j == CoordsToIndex(c.width, c.width - 1, y) then RandomCellState(c, draws[2 * c.width + 2 * y + 1])
            else if j == CoordsToIndex(c.width, 0, y) then RandomCellState(c, draws[2 * c.width + 2 * y])
            else AfterColumnLoop(c, g, draws, y, j)
  {
  }

  /** After both loops have run to the end, every cell holds StepCell. */
  lemma BorderLoopsGiveStep(c: Config, g: seq<byte>, draws: seq<bool>, j: nat)
    requires c.Dimensions() && |g| == c.Length() && j < |g| && |draws| >= DrawsPerStep(c)
    ensures AfterColumnLoop(c, g, draws, c.height, j) == StepCell(c, g, draws, j)
  {
  }

  /** `step_grid`: a zeroed output buffer, filled cell by cell from the
      input buffer alone, then the row loop and the column loop overwrite
      the border with fresh random cells. The input is only read, and the
      output is a new buffer. */
  method StepGrid(c: Config, inGrid: array<byte>, draws: seq<bool>) returns (outGrid: array<byte>)
    requires c.Dimensions() && inGrid.Length == c.Length() && |draws| >= DrawsPerStep(c)
    ensures fresh(outGrid)
    ensures outGrid[..] == Step(c, inGrid[..], draws)
  {
    outGrid := new byte[c.width * c.height](_ => 0);
    ApplyRule(c, inGrid, outGrid);
    ReseedRows(c, inGrid[..], outGrid, draws);
    ReseedColumns(c, inGrid[..], outGrid, draws);
    forall j | 0 <= j < outGrid.Length
      ensures outGrid[j] == StepCell(c, inGrid[..], draws, j)
    {
      BorderLoopsGiveStep(c, inGrid[..], draws, j);
    }
  }

  /** The per-cell pass of `step_grid` over a zeroed buffer: each cell the
      rule rescues becomes live, each other nonzero cell decays, and the
      others keep the 0 they started with. */
  method ApplyRule(c: Config, inGrid: array<byte>, outGrid: array<byte>)
    requires c.Dimensions() && inGrid.Length == c.Length() && outGrid.Length == c.Length()
    requires inGrid != outGrid
    requires forall j :: 0 <= j < outGrid.Length ==> outGrid[j] == 0
    modifies outGrid
    ensures forall j :: 0 <= j < outGrid.Length ==> outGrid[j] == RuleCell(c, inGrid[..], j)
  {
    for index := 0 to outGrid.Length
      invariant forall j :: 0 <= j < index ==> outGrid[j] == RuleCell(c, inGrid[..], j)
      invariant forall j :: index <= j < outGrid.Length ==> outGrid[j] == 0
    {
      var isAlive := inGrid[index] >= c.live;
      var neighbours := CountNeighbours(c, index, inGrid[..]);
      if (isAlive && neighbours == 2) || neighbours == 3 {
        outGrid[index] := c.live;
      } else if inGrid[index] > 0 {
        outGrid[index] := Decay(c, inGrid[index]);
      }
    }
  }

  /** The first border loop of `step_grid`: for every column, a fresh cell
      on the top edge, then one on the bottom edge. */
  method ReseedRows(c: Config, ghost g: seq<byte>, outGrid: array<byte>, draws: seq<bool>)
    requires c.Dimensions() && |g| == c.Length() && outGrid.Length == c.Length()
    requires |draws| >= DrawsPerStep(c)
    requires forall j :: 0 <= j < outGrid.Length ==> outGrid[j] == RuleCell(c, g, j)
    modifies outGrid
    ensures forall j :: 0 <= j < outGrid.Length ==> outGrid[j] == AfterRowLoop(c, g, draws, c.width, j)
  {
    for x := 0 to c.width
      invariant forall j :: 0 <= j < outGrid.Length ==> outGrid[j] == AfterRowLoop(c, g, draws, x, j)
    {
      CoordsRoundTrip(c, x, 0);
      CoordsRoundTrip(c, x, c.height - 1);
      outGrid[CoordsToIndex(c.width, x, 0)] := RandomCellState(c, draws[2 * x]);
      outGrid[CoordsToIndex(c.width, x, c.height - 1)] := RandomCellState(c, draws[2 * x + 1]);
      forall j | 0 <= j < outGrid.Length
        ensures outGrid[j] == AfterRowLoop(c, g, draws, x + 1, j)
      {
        RowLoopAdvances(c, g, draws, x, j);
      }
    }
  }

  /** The second border loop of `step_grid`: for every row, a fresh cell on
      the left edge, then one on the right edge. */
  method ReseedColumns(c: Config, ghost g: seq<byte>, outGrid: array<byte>, draws: seq<bool>)
    requires c.Dimensions() && |g| == c.Length() && outGrid.Length == c.Length()
    requires |draws| >= DrawsPerStep(c)
    requires forall j :: 0 <= j < outGrid.Length ==> outGrid[j] == AfterRowLoop(c, g, draws, c.width, j)
    modifies outGrid
    ensures forall j :: 0 <= j < outGrid.Length ==> outGrid[j] == AfterColumnLoop(c, g, draws, c.height, j)
  {
    for y := 0 to c.height
      invariant forall j :: 0 <= j < outGrid.Length ==> outGrid[j] == AfterColumnLoop(c, g, draws, y, j)
    {
      CoordsRoundTrip(c, 0, y);
      CoordsRoundTrip(c, c.width - 1, y);
      outGrid[CoordsToIndex(c.width, 0, y)] := RandomCellState(c, draws[2 * c.width + 2 * y]);
      outGrid[CoordsToIndex(c.width, c.width - 1, y)] := RandomCellState(c, draws[2 * c.width + 2 * y + 1]);
      forall j | 0 <= j < outGrid.Length
        ensures outGrid[j] == AfterColumnLoop(c, g, draws, y + 1, j)
      {
        ColumnLoopAdvances(c, g, draws, y, j);
      }
    }
  }

  /** Whether the cell at index `i` lies on one of the four edges. */
  predicate IndexOnBorder(c: Config, i: nat)
    requires c.width > 0
  {
    var (x, y) := IndexToCoords(c, i);
    OnBorder(c, x, y)
  }

  /** Every border cell of the next generation is a fresh random cell,
      live or dormant, whatever the rule computed for it: it is the same
      whatever grid the step started from. */
  lemma BorderIsReseeded(c: Config, g: seq<byte>, other: seq<byte>, draws: seq<bool>, i: nat)
    requires c.width > 0 && |g| == c.Length() && |other| == |g| && |draws| >= DrawsPerStep(c)
    requires i < |g| && IndexOnBorder(c, i)
    ensures Step(c, g, draws)[i] == 0 || Step(c, g, draws)[i] == c.live
    ensures Step(c, g, draws)[i] == Step(c, other, draws)[i]
  {
  }

  /** Which flip a border cell keeps: a cell of the first or last column,
      corners included, keeps the column loop's flip for its row (the right
      one when the grid is one column wide); any other border cell keeps
      the row loop's flip for its column (the bottom one when the grid is
      one row high). */
  lemma BorderDrawOrder(c: Config, g: seq<byte>, draws: seq<bool>, x: nat, y: nat)
    requires c.Dimensions() && |g| == c.Length() && |draws| >= DrawsPerStep(c)
    requires x < c.width && y < c.height && OnBorder(c, x, y)
    ensures CoordsToIndex(c.width, x, y) < |g|
    ensures var v := Step(c, g, draws)[CoordsToIndex(c.width, x, y)];
            (x == 0 || x == c.width - 1 ==>
               v == RandomCellState(c, draws[2 * c.width + 2 * y + Bit(x == c.width - 1)])) &&
            (0 < x < c.width - 1 ==>
               v == RandomCellState(c, draws[2 * x + Bit(y == c.height - 1)]))
  {
    CoordsRoundTrip(c, x, y);
  }

  /** The cells of the first and last column, the four corners among them,
      do not depend on the row loop's flips: the column loop overwrites
      them afterwards. */
  lemma CornersKeepColumnLoopDraw(c: Config, g: seq<byte>, draws: seq<bool>, other: seq<bool>, x: nat, y: nat)
    requires c.Dimensions() && |g| == c.Length()
    requires |draws| >= DrawsPerStep(c) && |other| == |draws|
    requires draws[2 * c.width..] == other[2 * c.width..]
    requires y < c.height && (x == 0 || x == c.width - 1)
    ensures CoordsToIndex(c.width, x, y) < |g|
    ensures Step(c, g, draws)[CoordsToIndex(c.width, x, y)] == Step(c, g, other)[CoordsToIndex(c.width, x, y)]
  {
    CoordsRoundTrip(c, x, y);
    var k := 2 * c.width + 2 * y + Bit(x == c.width - 1);
    assert draws[k] == draws[2 * c.width..][k - 2 * c.width];
    assert other[k] == other[2 * c.width..][k - 2 * c.width];
  }

  /** A cell off the border follows the life rule with decay: rescued, it
      is live; otherwise a nonzero cell decays by one step (with `u8`
      wrap-around) and a dormant one stays 0. The flips do not matter. */
  lemma InteriorFollowsRule(c: Config, g: seq<byte>, draws: seq<bool>, other: seq<bool>, i: nat)
    requires c.Dimensions() && |g| == c.Length() && i < |g|
    requires |draws| >= DrawsPerStep(c) && |other| >= DrawsPerStep(c)
    requires !IndexOnBorder(c, i)
    ensures var n, v := CountNeighbours(c, i, g), Step(c, g, draws)[i];
            ((g[i] >= c.live && n == 2) || n == 3 ==> v == c.live) &&
            (!((g[i] >= c.live && n == 2) || n == 3) && g[i] > 0 ==> v == Decay(c, g[i])) &&
            (!((g[i] >= c.live && n == 2) || n == 3) && g[i] == 0 ==> v == 0)
    ensures Step(c, g, draws)[i] == Step(c, g, other)[i]
  {
  }

  /** On values a running simulation holds, the step keeps them reachable,
      decay never wraps around, and (for a positive live value) an interior
      cell is live next exactly when the rule rescues it. */
  lemma ReachableCellStep(c: Config, g: seq<byte>, draws: seq<bool>, i: nat)
    requires c.Valid() && |g| == c.Length() && i < |g| && |draws| >= DrawsPerStep(c)
    requires Reachable(c, g[i])
    ensures Reachable(c, Step(c, g, draws)[i])
    ensures !IndexOnBorder(c, i) && !Rescued(c, g, i) && g[i] > 0 ==>
            Step(c, g, draws)[i] as int == g[i] as int - c.deathStep as int
    ensures c.live > 0 && !IndexOnBorder(c, i) ==>
            (Step(c, g, draws)[i] == c.live <==> Rescued(c, g, i))
  {
    FadeKeepsReachable(c, g[i]);
    LiveIsReachable(c);
    var v := Step(c, g, draws)[i];
    assert v == StepCell(c, g, draws, i);
    var (x, y) := IndexToCoords(c, i);
    if OnBorder(c, x, y) {
      assert v == 0 || v == c.live;
    } else {
      assert v == RuleCell(c, g, i);
    }
  }

  /** A grid whose every cell is reachable steps to one whose every cell is
      reachable: no cell ever exceeds the live value or falls off the decay
      ladder. */
  lemma StepKeepsReachable(c: Config, g: seq<byte>, draws: seq<bool>)
    requires c.Valid() && |g| == c.Length() && |draws| >= DrawsPerStep(c)
    requires forall j :: 0 <= j < |g| ==> Reachable(c, g[j])
    ensures forall j :: 0 <= j < |g| ==> Reachable(c, Step(c, g, draws)[j])
  {
    forall j | 0 <= j < |g|
      ensures Reachable(c, Step(c, g, draws)[j])
    {
      ReachableCellStep(c, g, draws, j);
    }
  }

  /** The indices of the cells within one step of column `x`, row `y`,
      the cell itself included. */
  ghost function Window(c: Config, x: nat, y: nat): set<nat>
  {
    set nx: nat, ny: nat | x - 1 <= nx <= x + 1 && y - 1 <= ny <= y + 1 &&
                           nx < c.width && ny < c.height :: CoordsToIndex(c.width, nx, ny)
  }

  /** Grids that agree on the window around (`x`, `y`) agree on whether the
      cell at (`nx`, `ny`) in that window is alive. */
  lemma IsAliveLocal(c: Config, g1: seq<byte>, g2: seq<byte>, x: nat, y: nat, nx: int, ny: int)
    requires |g1| == c.Length() && |g2| == c.Length()
    requires x - 1 <= nx <= x + 1 && y - 1 <= ny <= y + 1
    requires forall j :: j in Window(c, x, y) && j < |g1| ==> g1[j] == g2[j]
    ensures IsAlive(c, g1, nx, ny) == IsAlive(c, g2, nx, ny)
  {
    if 0 <= nx < c.width && 0 <= ny < c.height {
      CoordsRoundTrip(c, nx, ny);
      var j := CoordsToIndex(c.width, nx, ny);
      assert j in Window(c, x, y) by {
        var px: nat, py: nat := nx, ny;
        assert x - 1 <= px <= x + 1 && y - 1 <= py <= y + 1 && px < c.width && py < c.height;
      }
    }
  }

  /** Grids that agree on the window around the cell at index `i` give it
      the same neighbour count. */
  lemma CountNeighboursLocal(c: Config, g1: seq<byte>, g2: seq<byte>, i: nat)
    requires c.width > 0 && |g1| == c.Length() && |g2| == c.Length()
    requires forall j :: j in Window(c, IndexToCoords(c, i).0, IndexToCoords(c, i).1) && j < |g1| ==>
                           g1[j] == g2[j]
    ensures CountNeighbours(c, i, g1) == CountNeighbours(c, i, g2)
  {
    var (x, y) := IndexToCoords(c, i);
    IsAliveLocal(c, g1, g2, x, y, x - 1, y - 1);
    IsAliveLocal(c, g1, g2, x, y, x, y - 1);
    IsAliveLocal(c, g1, g2, x, y, x + 1, y - 1);
    IsAliveLocal(c, g1, g2, x, y, x - 1, y);
    IsAliveLocal(c, g1, g2, x, y, x + 1, y);
    IsAliveLocal(c, g1, g2, x, y, x - 1, y + 1);
    IsAliveLocal(c, g1, g2, x, y, x, y + 1);
    IsAliveLocal(c, g1, g2, x, y, x + 1, y + 1);
  }

  /** The next value of a cell depends on the previous generation only
      through the cell and its eight neighbours: each cell of the step reads
      the old buffer, never cells of the new one. */
  lemma StepIsLocal(c: Config, g1: seq<byte>, g2: seq<byte>, draws: seq<bool>, i: nat)
    requires c.Dimensions() && |g1| == c.Length() && |g2| == c.Length()
    requires |draws| >= DrawsPerStep(c) && i < |g1|
    requires forall j :: j in Window(c, IndexToCoords(c, i).0, IndexToCoords(c, i).1) && j < |g1| ==>
                           g1[j] == g2[j]
    ensures Step(c, g1, draws)[i] == Step(c, g2, draws)[i]
  {
    CountNeighboursLocal(c, g1, g2, i);
    var (x, y) := IndexToCoords(c, i);
    assert i in Window(c, x, y) by {
      assert i == CoordsToIndex(c.width, x, y);
    }
    assert RuleCell(c, g1, i) == RuleCell(c, g2, i);
    assert StepCell(c, g1, draws, i) == StepCell(c, g2, draws, i);
  }

  /** With no live neighbour and a live value of 255, the centre decays
      by one step of 1. */
  lemma IsolatedCentreNext(draws: seq<bool>)
    requires |draws| >= 12
    ensures Step(Config(3, 3, 255, 1), [0, 0, 0, 0, 255, 0, 0, 0, 0], draws)[4] == 254
  {
    var c, g: seq<byte> := Config(3, 3, 255, 1), [0, 0, 0, 0, 255, 0, 0, 0, 0];
    LoneCellHasNoLiveNeighbour(c, g, 4);
    assert IndexToCoords(c, 4) == (1, 1);
    assert RuleCell(c, g, 4) == 254;
  }

  /** Every cell of a 3 by 3 grid but the centre is on the border. */
  lemma ThreeByThreeRing(j: nat)
    requires j < 9 && j != 4
    ensures IndexOnBorder(Config(3, 3, 255, 1), j)
  {
    assert j / 3 == 0 || j / 3 == 2 || j % 3 == 0 || j % 3 == 2;
  }

  /** A 3 by 3 grid with a live value of 255 and a decay step of 1, dormant
      but for a live centre: the isolated centre has no live neighbour and
      decays to 254, and every other cell, all on the border, is a fresh
      random cell. */
  lemma IsolatedCentreDecays(draws: seq<bool>)
    requires |draws| >= 12
    ensures var c := Config(3, 3, 255, 1);
            var next := Step(c, [0, 0, 0, 0, 255, 0, 0, 0, 0], draws);
            next[4] == 254 &&
            forall j :: 0 <= j < 9 && j != 4 ==> next[j] == 0 || next[j] == 255
  {
    var c := Config(3, 3, 255, 1);
    var g: seq<byte> := [0, 0, 0, 0, 255, 0, 0, 0, 0];
    IsolatedCentreNext(draws);
    forall j | 0 <= j < 9 && j != 4
      ensures Step(c, g, draws)[j] == 0 || Step(c, g, draws)[j] == 255
    {
      ThreeByThreeRing(j);
      BorderIsReseeded(c, g, g, draws, j);
    }
  }
}
