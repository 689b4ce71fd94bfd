/**
 * Grid geometry of the snake game: cells and step vectors as integer pairs,
 * the board dimensions, and the small direction helpers of `SnakeGame`
 * (`_is_reverse`, `_dir_from`, `_dir_to_angle`).
 */
module Grid {

  /** A grid cell or a step vector, the `(x, y)` tuples of the game; y grows downwards. */
  type Vec = (int, int)

  function Add(a: Vec, d: Vec): Vec {
    (a.0 + d.0, a.1 + d.1)
  }

  function Neg(d: Vec): Vec {
    (-d.0, -d.1)
  }

  const Right: Vec := (1, 0)
  const Left: Vec := (-1, 0)
  const Down: Vec := (0, 1)
  const Up: Vec := (0, -1)
  const Zero: Vec := (0, 0)

  /** One of the four headings a snake can have; no diagonal is ever a heading. */
  predicate IsUnit(d: Vec) {
    d == Right || d == Left || d == Down || d == Up
  }

  type UnitVec = d: Vec | IsUnit(d) witness (1, 0)

  /**
   * Board size and timing. The game fixes these as module constants; the
   * model takes them as a parameter and `SourceConfig` holds the values.
   */
  datatype Config = Config(gridW: int, gridH: int, stepMs: int, startLen: int) {

    /** The starting snake (head at the centre, extending left) fits on the board. */
    predicate Valid() {
      && gridW > 0 && gridH > 0
      && stepMs > 0
      && 1 <= startLen <= gridW / 2 + 1
    }
  }

  /** 1024 // 48 by 600 // 48 tiles, a 150 ms step and a four-cell start. */
  const SourceConfig: Config := Config(1024 / 48, 600 / 48, 150, 4)

  predicate InGrid(cfg: Config, c: Vec) {
    0 <= c.0 < cfg.gridW && 0 <= c.1 < cfg.gridH
  }

  predicate Distinct(s: seq<Vec>) {
    forall i, j :: 0 <= i < j < |s| ==> s[i] != s[j]
  }

  predicate AllInGrid(cfg: Config, s: seq<Vec>) {
    forall i :: 0 <= i < |s| ==> InGrid(cfg, s[i])
  }

  /** The set of cells a snake occupies (the game's `set(self.snake)`). */
  function CellsOf(s: seq<Vec>): set<Vec> {
    set c | c in s
  }

  lemma SourceConfigIsValid()
    ensures SourceConfig.Valid()
    ensures SourceConfig.gridW == 21 && SourceConfig.gridH == 12
  {
  }

  /** `_is_reverse(want, cur)`: `want` points exactly against `cur`. */
  function IsReverse(want: Vec, cur: Vec): (r: bool)
    ensures r <==> want == Neg(cur)
    ensures IsUnit(cur) && r ==> IsUnit(want) && want != cur
  {
    want.0 == -cur.0 && want.1 == -cur.1
  }

  /** Every heading has exactly one reverse, and reversal is symmetric. */
  lemma ReverseIsUniqueAndSymmetric(a: Vec, b: Vec, c: Vec)
    ensures IsReverse(a, c) && IsReverse(b, c) ==> a == b
    ensures IsReverse(a, b) <==> IsReverse(b, a)
  {
  }

  /**
   * `_dir_from(a, b)`: the grid step from `b` towards `a`. The x difference
   * takes priority; equal cells give the zero vector.
   */
  function DirFrom(a: Vec, b: Vec): (r: Vec)
    ensures IsUnit(r) || r == Zero
    ensures r == Zero <==> a == b
    ensures a.0 != b.0 ==> r.1 == 0 && r.0 * (a.0 - b.0) > 0
    ensures a.0 == b.0 && a.1 != b.1 ==> r.0 == 0 && r.1 * (a.1 - b.1) > 0
  {
    var dx := a.0 - b.0;
    var dy := a.1 - b.1;
    if dx > 0 then Right
    else if dx < 0 then Left
    else if dy > 0 then Down
    else if dy < 0 then Up
    else Zero
  }

  /** Stepping from `b` by a heading `d` and asking for the direction back gives `d`. */
  lemma DirFromStep(b: Vec, d: Vec)
    requires IsUnit(d)
    ensures DirFrom(Add(b, d), b) == d
    ensures DirFrom(b, Add(b, d)) == Neg(d)
  {
  }

  /** `_dir_to_angle(d)`: sprite rotation for a heading; anything else rotates by 0. */
  function DirToAngle(d: Vec): (r: int)
    ensures r == 0 || r == 90 || r == 180 || r == 270
    ensures !IsUnit(d) ==> r == 0
  {
    if d == Right then 0
    else if d == Down then 90
    else if d == Left then 180
    else if d == Up then 270
    else 0
  }

  /** The four headings get four different angles, and a reversal is a half turn. */
  lemma DirToAngleIsFaithful(d: Vec, e: Vec)
    requires IsUnit(d) && IsUnit(e)
    ensures DirToAngle(Right) == 0 && DirToAngle(Down) == 90
    ensures DirToAngle(d) == DirToAngle(e) ==> d == e
    ensures DirToAngle(Neg(d)) == (DirToAngle(d) + 180) % 360
  {
  }
}
