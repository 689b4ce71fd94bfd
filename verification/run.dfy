/**
 * The main loop of `SnakeGame.run`: screen transitions on key and joystick
 * button events, and the fixed-step accumulator that turns a frame's
 * elapsed milliseconds into ticks.
 */
module Run {
  import opened Grid
  import opened Wrappers
  import opened World
  import opened Input
  import opened Arith

  /** The keys the loop distinguishes; every other key is `OtherKey`. */
  datatype Key = Escape | Return | Space | OtherKey

  /** The events the loop reacts to; all others are `OtherEvent`. */
  datatype Event =
    | Quit
    | KeyDown(key: Key)
    | JoyButtonDown(button: int)
    | JoyDeviceAdded
    | JoyDeviceRemoved
    | OtherEvent

  /** `JOY_START_BTN`. */
  const StartButton := 9

  /** The game plus the loop's `running` flag. */
  datatype LoopState = LoopState(game: Game, running: bool)

  /** Enter, or the joystick's start button. */
  predicate IsStart(ev: Event) {
    ev == KeyDown(Return) || ev == JoyButtonDown(StartButton)
  }

  /** Space, or the joystick's start button. */
  predicate IsPauseToggle(ev: Event) {
    ev == KeyDown(Space) || ev == JoyButtonDown(StartButton)
  }

  /**
   * One event of the loop's event pump. Quit and Escape stop the loop;
   * a start input on the menu or the game-over screen resets and plays;
   * Space or start toggles between playing and paused. `pick` is the food
   * cell a reset's sampler returns.
   */
  function OnEvent(cfg: Config, s: LoopState, ev: Event, pick: Vec): (r: LoopState)
    requires cfg.Valid() && FreeCell(cfg, CellsOf(StartSnake(cfg)), pick)
    ensures r.running == (s.running && ev != Quit && ev != KeyDown(Escape))
    ensures (ev == Quit || ev == KeyDown(Escape)) ==> r.game == s.game
    ensures IsStart(ev) && s.game.screen in {Menu, GameOver} ==>
              r.game == Reset(cfg, pick).(screen := Playing)
    ensures IsPauseToggle(ev) && s.game.screen == Playing ==> r.game == s.game.(screen := Paused)
    ensures IsPauseToggle(ev) && s.game.screen == Paused ==> r.game == s.game.(screen := Playing)
    ensures !IsStart(ev) && !IsPauseToggle(ev) ==> r.game == s.game
    ensures !IsPauseToggle(ev) && s.game.screen in {Playing, Paused} ==> r.game == s.game
    ensures !IsStart(ev) && s.game.screen in {Menu, GameOver} ==> r.game == s.game
  {
    var g := s.game;
    match ev
    case Quit => s.(running := false)
    case KeyDown(k) =>
      if k == Escape then s.(running := false)
      else if g.screen in {Menu, GameOver} && k == Return then s.(game := Reset(cfg, pick).(screen := Playing))
      else if g.screen == Playing && k == Space then s.(game := g.(screen := Paused))
      else if g.screen == Paused && k == Space then s.(game := g.(screen := Playing))
      else s
    case JoyButtonDown(b) =>
      if b != StartButton then s
      else if g.screen in {Menu, GameOver} then s.(game := Reset(cfg, pick).(screen := Playing))
      else if g.screen == Playing then s.(game := g.(screen := Paused))
      else if g.screen == Paused then s.(game := g.(screen := Playing))
      else s
    case _ => s
  }

  /** The screen changes an event may cause. */
  predicate Allowed(from: Screen, to: Screen) {
    from == to
    || (from == Menu && to == Playing)
    || (from == GameOver && to == Playing)
    || (from == Playing && to == Paused)
    || (from == Paused && to == Playing)
  }

  /** Events only ever take the allowed screen changes, and keep the world invariant. */
  lemma OnEventKeepsInvAndFlow(cfg: Config, s: LoopState, ev: Event, pick: Vec)
    requires cfg.Valid() && FreeCell(cfg, CellsOf(StartSnake(cfg)), pick)
    requires Inv(cfg, s.game)
    ensures Allowed(s.game.screen, OnEvent(cfg, s, ev, pick).game.screen)
    ensures Inv(cfg, OnEvent(cfg, s, ev, pick).game)
  {
  }

  /** Pausing and resuming gives back exactly the game that was paused. */
  lemma PauseResumeRoundTrip(cfg: Config, s: LoopState, ev: Event, ev': Event, pick: Vec, pick': Vec)
    requires cfg.Valid() && FreeCell(cfg, CellsOf(StartSnake(cfg)), pick)
    requires FreeCell(cfg, CellsOf(StartSnake(cfg)), pick')
    requires s.game.screen == Playing && IsPauseToggle(ev) && IsPauseToggle(ev')
    ensures OnEvent(cfg, OnEvent(cfg, s, ev, pick), ev', pick').game == s.game
  {
  }

  /**
   * Lines `self.accum += dt` and `while self.accum >= STEP_MS: step()`:
   * add the frame's elapsed time, then run one tick per whole step owed and
   * keep the remainder. `picks` holds the food cell sampled by each tick.
   */
  method Advance(cfg: Config, g: Game, dt: int, picks: seq<Vec>) returns (r: Game, ticks: nat)
    requires cfg.stepMs > 0 && 0 <= g.accum && 0 <= dt
    requires |picks| == (g.accum + dt) / cfg.stepMs
    requires Schedulable(cfg, g, picks)
    ensures ticks == (g.accum + dt) / cfg.stepMs
    ensures r.accum == (g.accum + dt) % cfg.stepMs
    ensures 0 <= r.accum < cfg.stepMs
    ensures r == StepN(cfg, g, picks).(accum := r.accum)
  {
    // `step` never reads the accumulator, so the world and the counter are
    // advanced side by side.
    var acc := g.accum + dt;
    var w := g;
    ticks := 0;
    while acc >= cfg.stepMs
      invariant 0 <= acc && ticks * cfg.stepMs + acc == g.accum + dt
      invariant ticks <= |picks|
      invariant Schedulable(cfg, w, picks[ticks..])
      invariant StepN(cfg, w, picks[ticks..]) == StepN(cfg, g, picks)
      decreases acc
    {
      assert ticks < |picks| by {
        if ticks == |picks| {
          assert (ticks + 1) * cfg.stepMs <= g.accum + dt;
          DivLowerBound(g.accum + dt, cfg.stepMs, ticks + 1);
        }
      }
      assert picks[ticks..][1..] == picks[ticks + 1..];
      w := Step(cfg, w, picks[ticks]);
      acc := acc - cfg.stepMs;
      ticks := ticks + 1;
    }
    DivOfRemainder(g.accum + dt, cfg.stepMs, ticks, acc);
    r := w.(accum := acc);
  }

  /**
   * The movement part of one frame: only while playing, sample input and
   * then tick as often as the accumulator allows. Other screens leave the
   * game as it is, accumulator included.
   */
  method PlayFrame(cfg: Config, g: Game, dt: int, joy: Option<Joystick>, keys: Keys, picks: seq<Vec>)
    returns (r: Game, ticks: nat)
    requires Inv(cfg, g) && 0 <= dt
    requires |picks| == (if g.screen == Playing then (g.accum + dt) / cfg.stepMs else 0)
    requires g.screen == Playing ==> Schedulable(cfg, HandleInput(g, joy, keys), picks)
    ensures Inv(cfg, r)
    ensures g.screen != Playing ==> r == g && ticks == 0
    ensures g.score <= r.score
    ensures g.screen == Playing ==> r == StepN(cfg, HandleInput(g, joy, keys), picks).(accum := r.accum)
    ensures g.screen == Playing ==>
              && ticks == (g.accum + dt) / cfg.stepMs
              && r.accum == (g.accum + dt) % cfg.stepMs
              && r.score <= g.score + ticks
              && (r.screen == Playing || r.screen == GameOver)
  {
    if g.screen == Playing {
      var g1 := HandleInput(g, joy, keys);
      HandleInputKeepsInv(cfg, g, joy, keys);
      r, ticks := Advance(cfg, g1, dt, picks);
      StepNKeepsInv(cfg, g1, picks);
      StepNScreen(cfg, g1, picks);
    } else {
      r, ticks := g, 0;
    }
  }

  /** Ticks started while playing end playing or game over. */
  lemma {:induction false} StepNScreen(cfg: Config, g: Game, picks: seq<Vec>)
    requires Schedulable(cfg, g, picks) && g.screen == Playing
    ensures StepN(cfg, g, picks).screen in {Playing, GameOver}
    decreases |picks|
  {
    if |picks| > 0 {
      var g' := Step(cfg, g, picks[0]);
      if g'.screen == Playing {
        StepNScreen(cfg, g', picks[1..]);
      } else {
        GameOverStaysOver(cfg, g', picks[1..]);
      }
    }
  }

  lemma {:induction false} GameOverStaysOver(cfg: Config, g: Game, picks: seq<Vec>)
    requires Schedulable(cfg, g, picks) && g.screen == GameOver
    ensures StepN(cfg, g, picks).screen == GameOver
    decreases |picks|
  {
    if |picks| > 0 {
      GameOverStaysOver(cfg, Step(cfg, g, picks[0]), picks[1..]);
    }
  }
}
