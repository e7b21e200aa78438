/** Cell values, the engine's configuration and the per-cell primitives of
    the simulation: the random draw of a fresh cell and the decay of a cell
    that the life rule does not rescue. */
module Cells {

  /** An unsigned 8-bit cell value (Rust `u8`). */
  newtype byte = x: int | 0 <= x < 256

  /** The parameters the program fixes as constants: the grid's width and
      height, the value of a live cell and the amount a cell loses per
      generation when it is not rescued. */
  datatype Config = Config(width: nat, height: nat, live: byte, deathStep: byte)
  {
    /** Number of cells of the row-major grid. */
    function Length(): nat { width * height }

    /** Both dimensions are positive: the border loops use `height - 1` and
        `width - 1` and write the cell at index 0. */
    predicate Dimensions() { width >= 1 && height >= 1 }

    /** A configuration the program can start with. */
    predicate Valid() { Dimensions() && StartupCheck(this) == Pass }
  }

  datatype StartupError = DeathStepZero | DeathStepUneven

  datatype Outcome = Pass | Fail(error: StartupError)

  /** The check `main` makes before opening the window: the decay step must
      fit evenly into the live value (a zero step cannot even be divided by). */
  function StartupCheck(c: Config): (r: Outcome)
    ensures r == Pass <==> c.deathStep > 0 && c.live % c.deathStep == 0
    ensures r == Fail(DeathStepZero) <==> c.deathStep == 0
  {
    if c.deathStep == 0 then Fail(DeathStepZero)
    else if c.live % c.deathStep != 0 then Fail(DeathStepUneven)
    else Pass
  }

  /** `random_cell_state`, with the coin flip passed in: a fresh cell is
      either live or dormant. */
  function RandomCellState(c: Config, heads: bool): (v: byte)
    ensures v == 0 || v == c.live
    ensures c.live > 0 ==> (v == c.live <==> heads)
  {
    if heads then c.live else 0
  }

  /** `in_grid[index] - DEATH_STEP` on `u8`, which wraps around below zero in
      a release build. */
  function Decay(c: Config, v: byte): (r: byte)
    ensures v >= c.deathStep ==> r == v - c.deathStep
    ensures v < c.deathStep ==> r as int == v as int + 256 - c.deathStep as int
  {
    ((v as int - c.deathStep as int) % 256) as byte
  }

  /** What a cell that the life rule does not rescue becomes: a nonzero cell
      decays, a dormant cell stays 0 (the output buffer starts zeroed). */
  function Fade(c: Config, v: byte): (r: byte)
    ensures v == 0 ==> r == 0
    ensures 0 < v && c.deathStep <= v ==> r as int == v as int - c.deathStep as int
    ensures 0 < v < c.deathStep ==> r as int == v as int + 256 - c.deathStep as int
  {
    if v > 0 then Decay(c, v) else 0
  }

  /** The values a running simulation holds: multiples of the decay step
      between 0 and the live value. */
  predicate Reachable(c: Config, v: byte)
  {
    c.deathStep > 0 && v <= c.live && v % c.deathStep == 0
  }

  /** The live value itself is reachable. */
  lemma LiveIsReachable(c: Config)
    requires c.Valid()
    ensures Reachable(c, c.live)
  {
    var l, s := c.live as int, c.deathStep as int;
    assert l == s * (l / s);
    MultipleMod(s, l / s);
  }

  /** Under a valid configuration, fading a reachable value never wraps
      around: it loses exactly one decay step, or stays at 0, and remains
      reachable. */
  lemma {:induction false} FadeKeepsReachable(c: Config, v: byte)
    requires c.Valid() && Reachable(c, v)
    ensures v > 0 ==> Fade(c, v) as int == v as int - c.deathStep as int
    ensures v == 0 ==> Fade(c, v) == 0
    ensures Reachable(c, Fade(c, v))
  {
    var s, w := c.deathStep as int, v as int;
    var q := w / s;
    assert w == s * q;
    if w > 0 {
      assert q >= 1;
      assert s * q >= s;
      assert w - s == s * (q - 1);
      MultipleMod(s, q - 1);
    }
  }

  /** `s * k` leaves no remainder when divided by `s`. */
  lemma MultipleMod(s: int, k: nat)
    requires s > 0
    ensures (s * k) % s == 0
  {
    assert s * k == s * k + 0;
    DivModUnique(s, s * k, k, 0);
  }

  /** Quotient and remainder are unique: the fact Dafny's nonlinear
      arithmetic does not find unaided. */
  lemma DivModUnique(s: int, n: int, q: int, r: int)
    requires s > 0 && 0 <= r < s && n == s * q + r
    ensures n / s == q && n % s == r
  {
    var q0, r0 := n / s, n % s;
    assert s * q0 + r0 == s * q + r;
    if q0 > q {
      MulAtLeast(s, q0 - q);
    } else if q0 < q {
      MulAtLeast(s, q - q0);
    }
  }

  /** A positive factor `d` does not make `s` smaller. */
  lemma MulAtLeast(s: int, d: int)
    requires s > 0 && d >= 1
    ensures s * d >= s
  {
    assert s * d == s * (d - 1) + s;
  }

  /** Multiplying by a nonnegative `s` keeps the order of `a` and `b`. */
  lemma MulMonotone(a: int, b: int, s: int)
    requires s >= 0 && a <= b
    ensures a * s <= b * s
  {
    assert b * s - a * s == (b - a) * s;
  }

  /** One more factor `k` adds one more `s`. */
  lemma MulSucc(k: nat, s: int)
    requires k > 0
    ensures k * s == (k - 1) * s + s
  {
  }

  /** `k` generations of fading, starting from `v`. */
  function FadeTimes(c: Config, v: byte, k: nat): (r: byte)
    decreases k
  {
    if k == 0 then v else Fade(c, FadeTimes(c, v, k - 1))
  }

  /** A live cell that is never rescued again loses one decay step per
      generation and never goes below 0. */
  lemma {:induction false} FadeTimesFromLive(c: Config, k: nat)
    requires c.Valid()
    ensures FadeTimes(c, c.live, k) as int ==
            if k * c.deathStep as int <= c.live as int then c.live as int - k * c.deathStep as int else 0
    ensures Reachable(c, FadeTimes(c, c.live, k))
  {
    if k == 0 {
      LiveIsReachable(c);
    } else {
      FadeTimesFromLive(c, k - 1);
      var prev := FadeTimes(c, c.live, k - 1);
      FadeKeepsReachable(c, prev);
      var s, l := c.deathStep as int, c.live as int;
      var before := (k - 1) * s;
      MulSucc(k, s);
      if before <= l && l < before + s {
        // prev == l - before is a multiple of s below s, hence 0
        DivModUnique(s, prev as int, 0, prev as int);
      }
    }
  }

  /** Arithmetic core of LiveCellBecomesDormant: `l - k * s`, floored at 0,
      reaches 0 exactly from `k == l / s` on when `s` divides `l`. */
  lemma FadedOutAt(l: int, s: int, k: nat, f: int)
    requires s > 0 && l > 0 && l % s == 0
    requires f == if k * s <= l then l - k * s else 0
    ensures f == 0 <==> k >= l / s
  {
    var m := l / s;
    assert l == m * s;
    if k >= m {
      MulMonotone(m, k, s);
    } else {
      MulMonotone(k, m - 1, s);
      assert (m - 1) * s == l - s;
    }
  }

  /** A live cell left unrescued becomes dormant after exactly
      `live / deathStep` generations, and not before. */
  lemma {:induction false} LiveCellBecomesDormant(c: Config, k: nat)
    requires c.Valid() && c.live > 0
    ensures FadeTimes(c, c.live, k) == 0 <==> k >= c.live as int / c.deathStep as int
  {
    FadeTimesFromLive(c, k);
    FadedOutAt(c.live as int, c.deathStep as int, k, FadeTimes(c, c.live, k) as int);
  }
}
