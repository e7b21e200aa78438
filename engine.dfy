/** Grid initialisation and reset, and the sequence of generations the
    program displays: a random start followed by one step per frame. */
module Engine {
  import opened Cells
  import opened Coords
  import opened Generation

  /** The grid the fill loops produce from the coin flips `draws`, one flip
      per cell in index order. */
  function RandomGrid(c: Config, draws: seq<bool>): (g: seq<byte>)
    requires |draws| >= c.Length()
    ensures |g| == c.Length()
  {
    seq(c.Length(), i requires 0 <= i < c.Length() => RandomCellState(c, draws[i]))
  }

  /** The reset loop: every cell of the grid, in index order, becomes a
      fresh random cell. */
  method Reseed(c: Config, grid: array<byte>, draws: seq<bool>)
    requires grid.Length == c.Length() && |draws| >= c.Length()
    modifies grid
    ensures grid[..] == RandomGrid(c, draws)
  {
    for i := 0 to grid.Length
      invariant forall j :: 0 <= j < i ==> grid[j] == RandomCellState(c, draws[j])
    {
      grid[i] := RandomCellState(c, draws[i]);
    }
  }

  /** The start of `main`: a zeroed grid, then the same fill loop. */
  method InitialGrid(c: Config, draws: seq<bool>) returns (grid: array<byte>)
    requires |draws| >= c.Length()
    ensures fresh(grid)
    ensures grid[..] == RandomGrid(c, draws)
  {
    grid := new byte[c.width * c.height](_ => 0);
    Reseed(c, grid, draws);
  }

  /** A freshly filled grid holds only live and dormant cells, the cell at
      index `i` being live exactly when its flip came up heads (for a
      positive live value); all of them are reachable values. */
  lemma RandomGridIsFresh(c: Config, draws: seq<bool>)
    requires |draws| >= c.Length()
    ensures forall i :: 0 <= i < c.Length() ==>
              RandomGrid(c, draws)[i] == 0 || RandomGrid(c, draws)[i] == c.live
    ensures c.live > 0 ==> forall i :: 0 <= i < c.Length() ==> (RandomGrid(c, draws)[i] == c.live <==> draws[i])
    ensures c.Valid() ==> forall i :: 0 <= i < c.Length() ==> Reachable(c, RandomGrid(c, draws)[i])
  {
  }

  /** Each frame supplies enough coin flips for one step. */
  predicate FramesSupplyDraws(c: Config, frames: seq<seq<bool>>)
  {
    forall k :: 0 <= k < |frames| ==> |frames[k]| >= DrawsPerStep(c)
  }

  /** The generation reached from `g` after one step per frame, the `k`-th
      step flipping `frames[k]`. */
  ghost function Run(c: Config, g: seq<byte>, frames: seq<seq<bool>>): (r: seq<byte>)
    requires c.width > 0 && |g| == c.Length() && FramesSupplyDraws(c, frames)
    ensures |r| == |g|
    decreases |frames|
  {
    if frames == [] then g else Run(c, Step(c, g, frames[0]), frames[1..])
  }

  /** Running one more frame is one more step after the others. */
  lemma {:induction false} RunSnoc(c: Config, g: seq<byte>, frames: seq<seq<bool>>, d: seq<bool>)
    requires c.width > 0 && |g| == c.Length() && FramesSupplyDraws(c, frames)
    requires |d| >= DrawsPerStep(c)
    ensures FramesSupplyDraws(c, frames + [d])
    ensures Run(c, g, frames + [d]) == Step(c, Run(c, g, frames), d)
    decreases |frames|
  {
    assert FramesSupplyDraws(c, frames + [d]) by {
      forall k | 0 <= k < |frames| + 1
        ensures |(frames + [d])[k]| >= DrawsPerStep(c)
      {
        if k < |frames| {
          assert (frames + [d])[k] == frames[k];
        }
      }
    }
    if frames != [] {
      assert (frames + [d])[1..] == frames[1..] + [d];
      RunSnoc(c, Step(c, g, frames[0]), frames[1..], d);
    }
  }

  /** An interior cell that the life rule does not rescue in any of the
      generations run fades once per generation: after `n` frames it holds
      its starting value faded `n` times. */
  lemma {:induction false} UnrescuedCellFades(c: Config, g: seq<byte>, frames: seq<seq<bool>>, i: nat)
    requires c.width > 0 && |g| == c.Length() && FramesSupplyDraws(c, frames) && i < |g|
    requires !OnBorder(c, IndexToCoords(c, i).0, IndexToCoords(c, i).1)
    requires forall t :: 0 <= t < |frames| ==> !Rescued(c, Run(c, g, frames[..t]), i)
    ensures Run(c, g, frames)[i] == FadeTimes(c, g[i], |frames|)
    decreases |frames|
  {
    if frames != [] {
      var n := |frames|;
      var before, d := frames[..n - 1], frames[n - 1];
      assert frames == before + [d];
      forall t | 0 <= t < n - 1
        ensures !Rescued(c, Run(c, g, before[..t]), i)
      {
        assert before[..t] == frames[..t];
      }
      UnrescuedCellFades(c, g, before, i);
      RunSnoc(c, g, before, d);
      assert !Rescued(c, Run(c, g, before), i);
    }
  }

  /** A live interior cell that the life rule never rescues again holds
      `live - n * deathStep` after `n` generations, and is dormant exactly
      from generation `live / deathStep` on. */
  lemma UnrescuedLiveCellBecomesDormant(c: Config, g: seq<byte>, frames: seq<seq<bool>>, i: nat)
    requires c.Valid() && c.live > 0 && |g| == c.Length() && FramesSupplyDraws(c, frames)
    requires i < |g| && g[i] == c.live
    requires !OnBorder(c, IndexToCoords(c, i).0, IndexToCoords(c, i).1)
    requires forall t :: 0 <= t < |frames| ==> !Rescued(c, Run(c, g, frames[..t]), i)
    ensures Run(c, g, frames)[i] as int ==
            if |frames| * c.deathStep as int <= c.live as int then c.live as int - |frames| * c.deathStep as int else 0
    ensures Run(c, g, frames)[i] == 0 <==> |frames| >= c.live as int / c.deathStep as int
  {
    UnrescuedCellFades(c, g, frames, i);
    FadeTimesFromLive(c, |frames|);
    LiveCellBecomesDormant(c, |frames|);
  }

  /** Steps keep every cell reachable, however many frames run. */
  lemma {:induction false} RunKeepsReachable(c: Config, g: seq<byte>, frames: seq<seq<bool>>)
    requires c.Valid() && |g| == c.Length() && FramesSupplyDraws(c, frames)
    requires forall j :: 0 <= j < |g| ==> Reachable(c, g[j])
    ensures forall j :: 0 <= j < |g| ==> Reachable(c, Run(c, g, frames)[j])
    decreases |frames|
  {
    if frames != [] {
      StepKeepsReachable(c, g, frames[0]);
      RunKeepsReachable(c, Step(c, g, frames[0]), frames[1..]);
    }
  }

  /** From a freshly filled grid, every generation reached with no reset in
      between holds only multiples of the decay step between 0 and the live
      value, so the decay subtraction never wraps around. A reset refills
      the grid, and RandomGridIsFresh starts the invariant again. */
  lemma EveryGenerationReachable(c: Config, start: seq<bool>, frames: seq<seq<bool>>)
    requires c.Valid() && |start| >= c.Length() && FramesSupplyDraws(c, frames)
    ensures forall j :: 0 <= j < c.Length() ==> Reachable(c, Run(c, RandomGrid(c, start), frames)[j])
  {
    RandomGridIsFresh(c, start);
    RunKeepsReachable(c, RandomGrid(c, start), frames);
  }
}
