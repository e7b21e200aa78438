/** The neighbour rule: which cells count as alive, and how many of the
    eight Moore neighbours of a cell are alive. */
module Neighbours {
  import opened Cells
  import opened Coords

  /** `is_alive`: a coordinate outside the grid is dead, one inside is alive
      when its value has reached the live value. Coordinates are integers,
      so the `x - 1` and `y - 1` of column and row 0 are -1 here. */
  predicate IsAlive(c: Config, g: seq<byte>, x: int, y: int)
    requires |g| == c.Length()
    ensures IsAlive(c, g, x, y) ==> 0 <= x < c.width && 0 <= y < c.height
  {
    0 <= x < c.width && 0 <= y < c.height &&
    (CoordsRoundTrip(c, x, y); g[CoordsToIndex(c.width, x, y)] >= c.live)
  }

  /** One more than the largest `usize`. */
  const UsizeModulus: int := 0x1_0000_0000_0000_0000

  /** The `usize` a coordinate computation yields in a release build, where
      `0 - 1` wraps around to the largest `usize`. */
  function Usize(v: int): nat
  {
    v % UsizeModulus
  }

  /** `is_alive` exactly as written, on `usize` coordinates: only the upper
      bounds are checked. */
  predicate IsAliveUsize(c: Config, g: seq<byte>, x: nat, y: nat)
    requires |g| == c.Length()
    ensures IsAliveUsize(c, g, x, y) ==> x < c.width && y < c.height
  {
    x < c.width && y < c.height &&
    (CoordsRoundTrip(c, x, y); g[CoordsToIndex(c.width, x, y)] >= c.live)
  }

  /** For the coordinates `count_neighbours` forms (one step outside the grid
      at most) and a grid that fits in memory, the wrapped `usize` test
      agrees with the integer one: a wrapped `x - 1` fails `x < width`, and
      `x + 1 == width` fails it too, so nothing wraps into the adjacent row. */
  lemma WrappedNeighbourIsDead(c: Config, g: seq<byte>, x: int, y: int)
    requires c.Dimensions() && c.Length() < UsizeModulus && |g| == c.Length()
    requires -1 <= x <= c.width && -1 <= y <= c.height
    ensures IsAliveUsize(c, g, Usize(x), Usize(y)) == IsAlive(c, g, x, y)
  {
    MulMonotone(1, c.height, c.width);
    MulMonotone(1, c.width, c.height);
    assert Usize(x) == (if x < 0 then UsizeModulus - 1 else x);
    assert Usize(y) == (if y < 0 then UsizeModulus - 1 else y);
  }

  /** `b as usize`. */
  function Bit(b: bool): nat
  {
    if b then 1 else 0
  }

  /** `count_neighbours`: the eight `is_alive` tests around the cell at
      index `i`, each adding 1 when it holds. */
  function CountNeighbours(c: Config, i: nat, g: seq<byte>): (n: nat)
    requires c.width > 0 && |g| == c.Length()
    ensures n <= 8
  {
    var (x, y) := IndexToCoords(c, i);
    Bit(IsAlive(c, g, x - 1, y - 1))
    + Bit(IsAlive(c, g, x, y - 1))
    + Bit(IsAlive(c, g, x + 1, y - 1))
    + Bit(IsAlive(c, g, x - 1, y))
    + Bit(IsAlive(c, g, x + 1, y))
    + Bit(IsAlive(c, g, x - 1, y + 1))
    + Bit(IsAlive(c, g, x, y + 1))
    + Bit(IsAlive(c, g, x + 1, y + 1))
  }

  /** The live Moore neighbours of column `x`, row `y`: the coordinates one
      step away in each direction, other than the cell itself, that lie
      inside the grid and hold a live value. */
  ghost function LiveNeighbours(c: Config, g: seq<byte>, x: int, y: int): set<(int, int)>
    requires |g| == c.Length()
  {
    set nx: int, ny: int | x - 1 <= nx <= x + 1 && y - 1 <= ny <= y + 1 &&
                           (nx != x || ny != y) && IsAlive(c, g, nx, ny) :: (nx, ny)
  }

  /** The eight positions around column `x`, row `y`, in the order
      `count_neighbours` tests them. */
  function MoorePositions(x: int, y: int): (ps: seq<(int, int)>)
    ensures |ps| == 8
  {
    [(x - 1, y - 1), (x, y - 1), (x + 1, y - 1), (x - 1, y),
     (x + 1, y), (x - 1, y + 1), (x, y + 1), (x + 1, y + 1)]
  }

  /** How many of the positions `ps` hold a live cell. */
  function CountAlive(c: Config, g: seq<byte>, ps: seq<(int, int)>): nat
    requires |g| == c.Length()
  {
    if ps == [] then 0 else Bit(IsAlive(c, g, ps[0].0, ps[0].1)) + CountAlive(c, g, ps[1..])
  }

  /** The positions among `ps` that hold a live cell. */
  ghost function AliveAmong(c: Config, g: seq<byte>, ps: seq<(int, int)>): set<(int, int)>
    requires |g| == c.Length()
  {
    set p | p in ps && IsAlive(c, g, p.0, p.1)
  }

  /** Among distinct positions, the live ones are as many as CountAlive
      says. */
  lemma {:induction false} AliveAmongSize(c: Config, g: seq<byte>, ps: seq<(int, int)>)
    requires |g| == c.Length()
    requires forall j, k :: 0 <= j < k < |ps| ==> ps[j] != ps[k]
    ensures |AliveAmong(c, g, ps)| == CountAlive(c, g, ps)
  {
    if ps != [] {
      var p, rest := ps[0], ps[1..];
      AliveAmongSize(c, g, rest);
      assert p !in rest by {
        forall k | 0 <= k < |rest| ensures rest[k] != p {
          assert rest[k] == ps[k + 1];
        }
      }
      var tail := AliveAmong(c, g, rest);
      if IsAlive(c, g, p.0, p.1) {
        assert AliveAmong(c, g, ps) == tail + {p};
      } else {
        assert AliveAmong(c, g, ps) == tail;
      }
    }
  }

  /** The count is the number of live Moore neighbours inside the grid:
      each of the eight tests counts a distinct neighbour, and no cell
      outside the grid is ever counted. */
  lemma {:induction false} CountNeighboursIsLiveNeighbours(c: Config, g: seq<byte>, i: nat)
    requires c.width > 0 && |g| == c.Length()
    ensures CountNeighbours(c, i, g) ==
            |LiveNeighbours(c, g, IndexToCoords(c, i).0, IndexToCoords(c, i).1)|
    ensures forall p :: p in LiveNeighbours(c, g, IndexToCoords(c, i).0, IndexToCoords(c, i).1) ==>
                          0 <= p.0 < c.width && 0 <= p.1 < c.height
  {
    var (x, y) := IndexToCoords(c, i);
    var ps := MoorePositions(x, y);
    AliveAmongSize(c, g, ps);
    CountAliveMoore(c, g, x, y);
    AliveAmongMoore(c, g, x, y);
  }

  /** CountAlive over the eight positions is the sum of the eight tests. */
  lemma CountAliveMoore(c: Config, g: seq<byte>, x: int, y: int)
    requires |g| == c.Length()
    ensures CountAlive(c, g, MoorePositions(x, y)) ==
            Bit(IsAlive(c, g, x - 1, y - 1)) + Bit(IsAlive(c, g, x, y - 1))
            + Bit(IsAlive(c, g, x + 1, y - 1)) + Bit(IsAlive(c, g, x - 1, y))
            + Bit(IsAlive(c, g, x + 1, y)) + Bit(IsAlive(c, g, x - 1, y + 1))
            + Bit(IsAlive(c, g, x, y + 1)) + Bit(IsAlive(c, g, x + 1, y + 1))
  {
    var ps := MoorePositions(x, y);
    assert CountAlive(c, g, ps[7..]) == Bit(IsAlive(c, g, x + 1, y + 1)) by {
      assert ps[7..][1..] == [];
    }
    assert CountAlive(c, g, ps[6..]) == Bit(IsAlive(c, g, x, y + 1)) + CountAlive(c, g, ps[7..]) by {
      assert ps[6..][1..] == ps[7..];
    }
    assert CountAlive(c, g, ps[5..]) == Bit(IsAlive(c, g, x - 1, y + 1)) + CountAlive(c, g, ps[6..]) by {
      assert ps[5..][1..] == ps[6..];
    }
    assert CountAlive(c, g, ps[4..]) == Bit(IsAlive(c, g, x + 1, y)) + CountAlive(c, g, ps[5..]) by {
      assert ps[4..][1..] == ps[5..];
    }
    assert CountAlive(c, g, ps[3..]) == Bit(IsAlive(c, g, x - 1, y)) + CountAlive(c, g, ps[4..]) by {
      assert ps[3..][1..] == ps[4..];
    }
    assert CountAlive(c, g, ps[2..]) == Bit(IsAlive(c, g, x + 1, y - 1)) + CountAlive(c, g, ps[3..]) by {
      assert ps[2..][1..] == ps[3..];
    }
    assert CountAlive(c, g, ps[1..]) == Bit(IsAlive(c, g, x, y - 1)) + CountAlive(c, g, ps[2..]) by {
      assert ps[1..][1..] == ps[2..];
    }
  }

  /** The live ones among the eight positions are the live Moore
      neighbours. */
  lemma AliveAmongMoore(c: Config, g: seq<byte>, x: int, y: int)
    requires |g| == c.Length()
    ensures AliveAmong(c, g, MoorePositions(x, y)) == LiveNeighbours(c, g, x, y)
  {
  }

  /** A cell whose every other cell is below the live value has no live
      neighbour. */
  lemma LoneCellHasNoLiveNeighbour(c: Config, g: seq<byte>, i: nat)
    requires c.width > 0 && |g| == c.Length() && i < |g|
    requires forall j :: 0 <= j < |g| && j != i ==> g[j] < c.live
    ensures CountNeighbours(c, i, g) == 0
  {
    var (x, y) := IndexToCoords(c, i);
    forall nx: int, ny: int | (nx, ny) != (x, y)
      ensures !IsAlive(c, g, nx, ny)
    {
      if 0 <= nx < c.width && 0 <= ny < c.height {
        CoordsRoundTrip(c, nx, ny);
      }
    }
  }

  /** A cell on the border of the grid has at most five live neighbours,
      and a corner cell at most three. */
  lemma EdgeCellsCountFewer(c: Config, g: seq<byte>, i: nat)
    requires c.width > 0 && |g| == c.Length()
    ensures var (x, y) := IndexToCoords(c, i);
            (x == 0 || x == c.width - 1 || y == 0 || y == c.height - 1 ==> CountNeighbours(c, i, g) <= 5) &&
            ((x == 0 || x == c.width - 1) && (y == 0 || y == c.height - 1) ==> CountNeighbours(c, i, g) <= 3)
  {
  }

  datatype Option<T> = None | Some(value: T)

  /** `usize` subtraction as a debug build performs it, with the overflow
      check on: `None` stands for the panic "attempt to subtract with
      overflow". */
  function CheckedSub(a: nat, b: nat): (r: Option<nat>)
    ensures r.Some? <==> a >= b
    ensures r.Some? ==> r.value + b == a
  {
    if a >= b then Some(a - b) else None
  }

  /** `count_neighbours` as written, in a debug build: the first test
      already computes `x - 1` and `y - 1`, which panic at column 0 or
      row 0; otherwise no coordinate leaves the `usize` range. */
  function CountNeighboursDebug(c: Config, i: nat, g: seq<byte>): (r: Option<nat>)
    requires c.width > 0 && |g| == c.Length()
    ensures r.None? <==> IndexToCoords(c, i).0 == 0 || IndexToCoords(c, i).1 == 0
    ensures r.Some? ==> r.value <= 8
  {
    var (x, y) := IndexToCoords(c, i);
    var left, up := CheckedSub(x, 1), CheckedSub(y, 1);
    if left.None? || up.None? then None
    else
      var xl, yu := left.value, up.value;
      Some(Bit(IsAliveUsize(c, g, xl, yu))
           + Bit(IsAliveUsize(c, g, x, yu))
           + Bit(IsAliveUsize(c, g, x + 1, yu))
           + Bit(IsAliveUsize(c, g, xl, y))
           + Bit(IsAliveUsize(c, g, x + 1, y))
           + Bit(IsAliveUsize(c, g, xl, y + 1))
           + Bit(IsAliveUsize(c, g, x, y + 1))
           + Bit(IsAliveUsize(c, g, x + 1, y + 1)))
  }

  /** In a debug build the neighbour count panics for every cell of the
      first row and of the first column, so the very first cell the step
      visits, index 0, panics whatever the grid holds. */
  lemma DebugCountPanicsOnFirstRowAndColumn(c: Config, g: seq<byte>, i: nat)
    requires c.Dimensions() && |g| == c.Length()
    requires IndexToCoords(c, i).0 == 0 || IndexToCoords(c, i).1 == 0
    ensures CountNeighboursDebug(c, i, g) == None
    ensures CountNeighboursDebug(c, 0, g) == None
  {
  }

  /** Away from the first row and column the debug count and the count on
      integer coordinates agree. */
  lemma DebugCountAgreesInside(c: Config, g: seq<byte>, i: nat)
    requires c.width > 0 && |g| == c.Length()
    requires IndexToCoords(c, i).0 > 0 && IndexToCoords(c, i).1 > 0
    ensures CountNeighboursDebug(c, i, g) == Some(CountNeighbours(c, i, g))
  {
  }
}
