/**
 * The snake world of `SnakeGame`: the game record, `reset`, the per-tick
 * `step`, and food placement by rejection sampling (`random_empty_cell`).
 *
 * The random cell a placement returns is a parameter `pick`; a precondition
 * says it is one the sampler can return, i.e. a free in-grid cell.
 */
module World {
  import opened Grid
  import opened Wrappers

  /** The game's `state` string: "menu", "playing", "paused" or "gameover". */
  datatype Screen = Menu | Playing | Paused | GameOver

  /** The mutable fields of `SnakeGame` that the simulation reads and writes. */
  datatype Game = Game(
    snake: seq<Vec>,  // head first
    dir: Vec,
    nextDir: Vec,
    grow: int,
    score: int,
    food: Vec,
    accum: int,
    screen: Screen)

  /** A cell the food may be placed on: in the grid and not blocked. */
  predicate FreeCell(cfg: Config, blocked: set<Vec>, c: Vec) {
    InGrid(cfg, c) && c !in blocked
  }

  /**
   * `random_empty_cell(blocked)`: draw uniformly random in-grid cells until
   * one is not blocked. `draws` is a finite prefix of the random stream; the
   * result is None when every draw in it was blocked (the sampler would go on).
   */
  function SampleFood(cfg: Config, blocked: set<Vec>, draws: seq<Vec>): (r: Option<Vec>)
    requires AllInGrid(cfg, draws)
    ensures r.Some? ==> FreeCell(cfg, blocked, r.value)
    ensures r.Some? ==> exists k :: 0 <= k < |draws| && draws[k] == r.value &&
                                    forall i :: 0 <= i < k ==> draws[i] in blocked
    ensures r.None? <==> forall i :: 0 <= i < |draws| ==> draws[i] in blocked
  {
    if |draws| == 0 then None
    else if draws[0] !in blocked then Some(draws[0])
    else SampleFood(cfg, blocked, draws[1..])
  }

  /** Every free cell is a possible outcome: blocked draws followed by it return it. */
  lemma {:induction false} SampleFoodReachesEveryFreeCell(cfg: Config, blocked: set<Vec>, misses: seq<Vec>, c: Vec)
    requires AllInGrid(cfg, misses) && forall i :: 0 <= i < |misses| ==> misses[i] in blocked
    requires FreeCell(cfg, blocked, c)
    ensures AllInGrid(cfg, misses + [c])
    ensures SampleFood(cfg, blocked, misses + [c]) == Some(c)
  {
    if |misses| > 0 {
      assert (misses + [c])[1..] == misses[1..] + [c];
      SampleFoodReachesEveryFreeCell(cfg, blocked, misses[1..], c);
    }
  }

  /**
   * The sampler has no board-full guard: when every grid cell is blocked,
   * no finite run of draws ever returns a cell.
   */
  lemma SampleFoodNeverStopsOnFullBoard(cfg: Config, blocked: set<Vec>, draws: seq<Vec>)
    requires forall c :: InGrid(cfg, c) ==> c in blocked
    requires AllInGrid(cfg, draws)
    ensures SampleFood(cfg, blocked, draws) == None
  {
  }

  // ---------- reset ----------

  /** The centre cell the starting head is placed on. */
  function Centre(cfg: Config): Vec {
    (cfg.gridW / 2, cfg.gridH / 2)
  }

  /** `[(cx - i, cy) for i in range(START_LEN)]`. */
  function StartSnake(cfg: Config): (s: seq<Vec>)
    requires cfg.Valid()
    ensures |s| == cfg.startLen && s[0] == Centre(cfg)
    ensures forall i :: 0 < i < |s| ==> s[i] == Add(s[i - 1], Left)
  {
    seq(cfg.startLen, i => (cfg.gridW / 2 - i, cfg.gridH / 2))
  }

  /**
   * The world invariant every tick keeps: a non-empty snake of distinct
   * in-grid cells, food in the grid and off the snake, counters in range,
   * a heading that is a unit vector and a queued heading that is not its
   * reverse, and a leftover of less than one step in the accumulator.
   * Each food eaten eventually adds two cells (one on the eating tick, one
   * through `grow`), hence the length accounting.
   */
  predicate Inv(cfg: Config, g: Game) {
    && |g.snake| > 0
    && Distinct(g.snake)
    && AllInGrid(cfg, g.snake)
    && InGrid(cfg, g.food)
    && g.food !in g.snake
    && 0 <= g.grow <= g.score
    && |g.snake| + g.grow == cfg.startLen + 2 * g.score
    && IsUnit(g.dir) && IsUnit(g.nextDir) && !IsReverse(g.nextDir, g.dir)
    && 0 <= g.accum < cfg.stepMs
  }

  /** `reset()`, given the cell the food sampler returned. */
  function Reset(cfg: Config, pick: Vec): (r: Game)
    requires cfg.Valid()
    requires FreeCell(cfg, CellsOf(StartSnake(cfg)), pick)
    ensures Inv(cfg, r)
    ensures |r.snake| == cfg.startLen && r.snake[0] == Centre(cfg)
    ensures forall i :: 0 < i < |r.snake| ==> r.snake[i] == Add(r.snake[i - 1], Left)
    ensures r.dir == Right && r.nextDir == Right
    ensures r.grow == 0 && r.score == 0 && r.accum == 0
    ensures r.food == pick && r.screen == Menu
  {
    var s := StartSnake(cfg);
    assert Distinct(s) by {
      forall i, j | 0 <= i < j < |s| ensures s[i] != s[j] {
        assert s[i].0 == cfg.gridW / 2 - i;
      }
    }
    Game(s, Right, Right, 0, 0, pick, 0, Menu)
  }

  // ---------- step ----------

  /** Where the head goes on the next tick: the current head plus the queued heading. */
  function NextHead(g: Game): Vec
    requires |g.snake| > 0
  {
    Add(g.snake[0], g.nextDir)
  }

  /** The next head leaves the grid or lands on any current cell, the tail included. */
  predicate Collides(cfg: Config, g: Game)
    requires |g.snake| > 0
  {
    !InGrid(cfg, NextHead(g)) || NextHead(g) in g.snake
  }

  predicate Eats(cfg: Config, g: Game)
    requires |g.snake| > 0
  {
    !Collides(cfg, g) && NextHead(g) == g.food
  }

  /**
   * `pick` is a cell the sampler can return for this tick: it matters only
   * when the tick eats, and then it must be free of the lengthened snake.
   */
  predicate PickOk(cfg: Config, g: Game, pick: Vec) {
    && |g.snake| > 0
    && (Eats(cfg, g) ==> FreeCell(cfg, CellsOf([NextHead(g)] + g.snake), pick))
  }

  /** `step()`: one tick of the simulation. */
  function Step(cfg: Config, g: Game, pick: Vec): (r: Game)
    requires PickOk(cfg, g, pick)
    ensures r.dir == g.nextDir && r.nextDir == g.nextDir && r.accum == g.accum
    ensures |r.snake| > 0
    // leaving the grid or hitting the body ends the game and moves nothing
    ensures !InGrid(cfg, NextHead(g)) || NextHead(g) in g.snake ==>
              r == g.(dir := g.nextDir, screen := GameOver)
    // otherwise the head advances onto the new cell, the rest follows
    ensures InGrid(cfg, NextHead(g)) && NextHead(g) !in g.snake ==>
              && r.screen == g.screen
              && r.snake[0] == NextHead(g)
              && r.snake[1..] <= g.snake
    // eating: one more point, one more pending growth, one more cell, new food
    ensures Eats(cfg, g) ==>
              && r.score == g.score + 1 && r.grow == g.grow + 1
              && |r.snake| == |g.snake| + 1
              && InGrid(cfg, r.food) && r.food !in r.snake
    // not eating: pending growth keeps the tail, otherwise the tail is dropped
    ensures !Collides(cfg, g) && !Eats(cfg, g) ==>
              && r.score == g.score && r.food == g.food
              && (g.grow > 0 ==> |r.snake| == |g.snake| + 1 && r.grow == g.grow - 1)
              && (g.grow <= 0 ==> |r.snake| == |g.snake| && r.grow == g.grow
                                  && r.snake[1..] == g.snake[..|g.snake| - 1])
  {
    var turned := g.(dir := g.nextDir);
    var head := Add(g.snake[0], turned.dir);
    if !InGrid(cfg, head) then
      turned.(screen := GameOver)
    else if head in g.snake then
      turned.(screen := GameOver)
    else
      var body := [head] + g.snake;
      if head == g.food then
        turned.(snake := body, score := g.score + 1, grow := g.grow + 1, food := pick)
      else if g.grow > 0 then
        turned.(snake := body, grow := g.grow - 1)
      else
        turned.(snake := body[..|body| - 1])
  }

  /** One tick keeps the world invariant, whether it moves, eats or ends the game. */
  lemma StepKeepsInv(cfg: Config, g: Game, pick: Vec)
    requires Inv(cfg, g) && PickOk(cfg, g, pick)
    ensures Inv(cfg, Step(cfg, g, pick))
  {
  }

  /**
   * A run of ticks whose every pick is one the sampler can return at that
   * point (only eating ticks constrain their pick).
   */
  predicate Schedulable(cfg: Config, g: Game, picks: seq<Vec>)
    decreases |picks|
  {
    && |g.snake| > 0
    && (|picks| > 0 ==>
          PickOk(cfg, g, picks[0]) && Schedulable(cfg, Step(cfg, g, picks[0]), picks[1..]))
  }

  /** `len(picks)` consecutive ticks. */
  function StepN(cfg: Config, g: Game, picks: seq<Vec>): (r: Game)
    requires Schedulable(cfg, g, picks)
    decreases |picks|
    ensures |r.snake| > 0 && r.accum == g.accum
    ensures g.score <= r.score <= g.score + |picks|
  {
    if |picks| == 0 then g
    else StepN(cfg, Step(cfg, g, picks[0]), picks[1..])
  }

  /** Any number of ticks keeps the world invariant. */
  lemma {:induction false} StepNKeepsInv(cfg: Config, g: Game, picks: seq<Vec>)
    requires Inv(cfg, g) && Schedulable(cfg, g, picks)
    ensures Inv(cfg, StepN(cfg, g, picks))
    decreases |picks|
  {
    if |picks| > 0 {
      StepKeepsInv(cfg, g, picks[0]);
      StepNKeepsInv(cfg, Step(cfg, g, picks[0]), picks[1..]);
    }
  }

  /** With the invariant, the snake is never shorter than it started. */
  lemma SnakeNeverShrinks(cfg: Config, g: Game)
    requires Inv(cfg, g)
    ensures |g.snake| >= cfg.startLen + g.score
  {
  }

  /**
   * Ticks still owed after a collision change nothing more: the head is
   * pointed at the same blocked cell again.
   */
  lemma CollisionIsFinal(cfg: Config, g: Game, pick: Vec, pick': Vec)
    requires |g.snake| > 0 && Collides(cfg, g)
    ensures PickOk(cfg, Step(cfg, g, pick), pick')
    ensures Step(cfg, Step(cfg, g, pick), pick') == Step(cfg, g, pick)
  {
  }

  /**
   * On a 10 by 10 board, a four-cell snake at (5,5)-(2,5) heading right with
   * the food at (6,5) eats it, grows to five cells and scores one.
   */
  lemma EatingExample(pick: Vec)
    requires FreeCell(Config(10, 10, 150, 4), CellsOf([(6, 5), (5, 5), (4, 5), (3, 5), (2, 5)]), pick)
    ensures
      var cfg := Config(10, 10, 150, 4);
      var g := Game([(5, 5), (4, 5), (3, 5), (2, 5)], Right, Right, 0, 0, (6, 5), 0, Playing);
      && PickOk(cfg, g, pick)
      && var r := Step(cfg, g, pick);
      && r.snake[0] == (6, 5) && r.score == 1 && |r.snake| == 5
      && r.food == pick && r.food !in r.snake
  {
  }
}
