/**
 * Input arbitration of `SnakeGame`: the joystick hat mapping of `_joy_dir`,
 * the keyboard fallback and the reversal guard of `handle_input`.
 */
module Input {
  import opened Grid
  import opened Wrappers
  import opened World

  /**
   * One poll of the joystick. `hat` is hat 0 as `(hx, hy)` with hy = +1 for
   * up; `axisDir` is what the analog-stick fallback decided, which the model
   * takes as given.
   */
  datatype Joystick = Joystick(numHats: int, hat: (int, int), axisDir: Option<UnitVec>)

  /** Held keys; `up` stands for the up arrow or W, and so on. */
  datatype Keys = Keys(up: bool, down: bool, left: bool, right: bool)

  function Sign(x: int): int {
    if x > 0 then 1 else if x < 0 then -1 else 0
  }

  /**
   * `_joy_dir()`: None without a joystick; otherwise the hat when it is
   * deflected (vertical wins over horizontal, hat up is grid up), else the
   * analog fallback.
   */
  function JoyDir(joy: Option<Joystick>): (r: Option<Vec>)
    ensures r.Some? ==> IsUnit(r.value)
    ensures joy.None? ==> r.None?
    ensures joy.Some? && joy.value.numHats > 0 && joy.value.hat.1 != 0 ==>
              r == Some((0, -Sign(joy.value.hat.1)))
    ensures joy.Some? && joy.value.numHats > 0 && joy.value.hat.1 == 0 && joy.value.hat.0 != 0 ==>
              r == Some((Sign(joy.value.hat.0), 0))
    ensures joy.Some? && (joy.value.numHats <= 0 || joy.value.hat == (0, 0)) ==>
              r == joy.value.axisDir
  {
    match joy
    case None => None
    case Some(j) =>
      if j.numHats > 0 && j.hat.1 != 0 then
        if j.hat.1 > 0 then Some(Up) else Some(Down)
      else if j.numHats > 0 && j.hat.0 != 0 then
        if j.hat.0 > 0 then Some(Right) else Some(Left)
      else j.axisDir
  }

  /** The hat position that means heading `d` (hat y is up-positive, grid y is down-positive). */
  function HatFor(d: Vec): (int, int) {
    (d.0, -d.1)
  }

  /** Each heading is produced by exactly its own hat position, whatever the analog stick says. */
  lemma HatRoundTrip(d: Vec, axis: Option<UnitVec>)
    requires IsUnit(d)
    ensures JoyDir(Some(Joystick(1, HatFor(d), axis))) == Some(d)
  {
  }

  /**
   * The heading `handle_input` wants before the reversal guard: the joystick
   * if it gave one, else the first held key in the order up, down, left,
   * right, else the heading already queued.
   */
  function Candidate(g: Game, joy: Option<Joystick>, keys: Keys): (want: Vec)
    ensures IsUnit(g.nextDir) ==> IsUnit(want)
    ensures JoyDir(joy).Some? ==> want == JoyDir(joy).value
    ensures JoyDir(joy).None? && keys.up ==> want == Up
    ensures JoyDir(joy).None? && !keys.up && keys.down ==> want == Down
    ensures JoyDir(joy).None? && !keys.up && !keys.down && keys.left ==> want == Left
    ensures JoyDir(joy).None? && !keys.up && !keys.down && !keys.left && keys.right ==> want == Right
    ensures JoyDir(joy).None? && keys == Keys(false, false, false, false) ==> want == g.nextDir
  {
    match JoyDir(joy)
    case Some(d) => d
    case None =>
      if keys.up then Up
      else if keys.down then Down
      else if keys.left then Left
      else if keys.right then Right
      else g.nextDir
  }

  /**
   * `handle_input()`: queue the candidate heading unless it is the exact
   * reverse of the current heading, in which case the queue keeps its value.
   */
  function HandleInput(g: Game, joy: Option<Joystick>, keys: Keys): (r: Game)
    ensures r == g.(nextDir := r.nextDir)
    ensures IsReverse(Candidate(g, joy, keys), g.dir) ==> r.nextDir == g.nextDir
    ensures !IsReverse(Candidate(g, joy, keys), g.dir) ==> r.nextDir == Candidate(g, joy, keys)
    ensures !IsReverse(g.nextDir, g.dir) ==> r.nextDir != Neg(g.dir)
  {
    var want := Candidate(g, joy, keys);
    if !IsReverse(want, g.dir) then g.(nextDir := want) else g
  }

  /** The input step keeps the world invariant (in particular, no queued reversal). */
  lemma HandleInputKeepsInv(cfg: Config, g: Game, joy: Option<Joystick>, keys: Keys)
    requires Inv(cfg, g)
    ensures Inv(cfg, HandleInput(g, joy, keys))
  {
  }

  /** Heading right, holding only the left key is rejected and right stays queued. */
  lemma ReversalExample(g: Game)
    requires g.dir == Right && g.nextDir == Right
    ensures HandleInput(g, None, Keys(false, false, true, false)).nextDir == Right
  {
  }
}
