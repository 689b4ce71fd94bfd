# Pumpkin Python Snake — verified model of the simulation core and the DFPlayer frames

This project models, in Dafny, two pure pieces of the Pumpkin Python Snake
cabinet game:

1. **The snake simulation and its screen flow** (`main.py`): the game record of
   `SnakeGame`, `reset`, the per-tick `step` with its wall and self collision,
   eating, pending growth and tail removal; food placement by rejection
   sampling (`random_empty_cell`); the joystick hat mapping and keyboard
   fallback of `_joy_dir` / `handle_input` with the reversal guard
   `_is_reverse`; the direction helpers `_dir_from` and `_dir_to_angle`; and,
   from the main loop `run`, the menu / playing / paused / game-over
   transitions on key and joystick-button events and the fixed-step
   accumulator that turns a frame's elapsed milliseconds into ticks.
2. **The DFPlayer command-frame encoder** (`audio_mgr.py`): the 16-bit
   two's-complement checksum, the ten-byte frame, and the clamping done by the
   set-volume and play-track commands.

Modules, one per component:

- `Grid` (grid.dfy): cells and step vectors as integer pairs, the board
  configuration (`SourceConfig` = 21 x 12 tiles, 150 ms per step, a
  four-cell start, i.e. 1024 // 48, 600 // 48, `STEP_MS`, `START_LEN`),
  `_is_reverse`, `_dir_from`, `_dir_to_angle`.
- `World` (world.dfy): the `Game` record, `Reset`, `Step`, `StepN`,
  `SampleFood` and the world invariant `Inv`.
- `Input` (input.dfy): `JoyDir`, `Candidate`, `HandleInput`.
- `Run` (run.dfy): `OnEvent` (the event pump), `Advance` (the accumulator
  loop) and `PlayFrame` (the movement part of a frame).
- `DfPlayer` (dfplayer.dfy): `Checksum`, `Frame`, `SetVolumeFrame`,
  `PlayTrackFrame`, and `Parse`, a receiver for the same wire format used as
  the encoder's round-trip partner.
- `Arith` and `Wrappers`: division facts and `Option`.

Randomness is a parameter: `Step` and `Reset` take the cell the food sampler
returned (`pick`), with a precondition that it is a cell the sampler can
return — a free in-grid cell. `SampleFood` models the sampler itself over a
finite prefix of random draws, and its lemmas show that its possible results
are exactly the free cells, and that it never returns when every cell is
blocked (the code has no board-full guard, so a full board would hang it; the
precondition on `pick` is where the model requires a free cell to exist).

Behaviour worth knowing that the model makes explicit:

- Each food adds two cells in total: the eating tick keeps the tail, and
  `grow` is also incremented, so a later tick keeps the tail once more. The
  invariant `|snake| + grow == START_LEN + 2 * score` (in `World.Inv`) records
  this.
- The accumulator is zeroed only by `reset`; pausing keeps the leftover
  (always less than one step), so resuming cannot burst.
- Ticks still owed after a collision in the same frame run `step` again and
  change nothing (`World.CollisionIsFinal`).
- The checksum is computed from the unmasked command and feedback values, so
  with a feedback value from 0 to 255, a command number from 256 to 65535
  produces a frame that a receiver rejects
  (`DfPlayer.WideCommandFrameIsRejected`). The game only sends 0x03 and 0x06,
  with feedback 0.

Three behaviours of the code are modelled as written:

- The self-collision test counts the tail cell even when no growth is
  pending and the tail is about to move away.
- Food placement has no board-full guard: on a full board the sampler
  never returns.
- The accumulator is zeroed only by `reset`, not when play is paused.

## Model

| member | source | states |
|---|---|---|
| Grid.SourceConfigIsValid | main.py:16-18 | the game's constants give a 21 x 12 board on which the four-cell start fits |
| Grid.IsReverse | main.py:159-161 | true exactly when `want` is the negation of `cur`; the reverse of a heading is another heading |
| Grid.ReverseIsUniqueAndSymmetric | main.py:159-161 | a heading has one reverse, and reversal is symmetric |
| Grid.DirFrom | main.py:187-195 | the result is a heading or zero, zero exactly when the cells are equal; x takes priority and the result points from b towards a |
| Grid.DirFromStep | main.py:187-195 | the direction from a cell to its neighbour along heading d is d, and back is -d |
| Grid.DirToAngle | main.py:197-204 | the angle is one of 0, 90, 180, 270, and 0 for anything that is not a heading |
| Grid.DirToAngleIsFaithful | main.py:197-204 | right is 0 and down is 90 degrees, distinct headings get distinct angles, and reversing a heading adds a half turn |
| World.SampleFood | main.py:48-52 | a returned cell is in the grid, not blocked, and the first draw that is not blocked; no cell is returned exactly when every draw was blocked |
| World.SampleFoodReachesEveryFreeCell | main.py:48-52 | every free cell is a possible result of the sampler |
| World.SampleFoodNeverStopsOnFullBoard | main.py:48-52 | with every grid cell blocked, no run of draws ever yields a cell |
| World.Reset | main.py:122-133 | START_LEN cells, the head at the centre and each further cell the left neighbour of the one before, headings right, counters zero, food off the snake, menu screen, world invariant holds |
| World.Step | main.py:228-256 | off-grid or body hit (tail included) ends the game and changes nothing else; otherwise the head advances, eating adds one point, one pending growth, one cell and free new food; not eating consumes growth or drops the tail; score unchanged |
| World.StepKeepsInv | main.py:233-256 | a tick keeps the snake's cells distinct and in the grid, the food off the snake and the length accounting |
| World.StepN | main.py:411-413 | consecutive ticks keep the snake non-empty and the accumulator, and raise the score by at most one per tick |
| World.StepNKeepsInv | main.py:411-413 | any number of ticks keeps the world invariant |
| World.SnakeNeverShrinks | main.py:243-256 | under the invariant the snake has at least START_LEN plus score cells |
| World.CollisionIsFinal | main.py:228-241 | a tick after a collision leaves the game exactly as the collision left it |
| World.EatingExample | main.py:243-250 | a four-cell snake at (5,5)-(2,5) heading right onto food at (6,5) grows to five cells, scores one and gets new free food |
| Input.JoyDir | main.py:136-147 | no joystick gives nothing; a deflected hat gives a heading, vertical first, hat-up meaning grid-up; otherwise the analog result |
| Input.HatRoundTrip | main.py:142-147 | each heading comes from its own hat position |
| Input.Candidate | main.py:163-180 | the joystick wins; else the first held key among up, down, left, right; else the queued heading |
| Input.HandleInput | main.py:163-184 | only the queued heading changes; a reversing candidate leaves it as it was, any other is queued; if the queue did not hold the reverse of the heading before, it does not after |
| Input.HandleInputKeepsInv | main.py:182-184 | the input step keeps the world invariant |
| Input.ReversalExample | main.py:182-184 | heading right, a request to go left is rejected and right stays queued |
| Run.OnEvent | main.py:361-392 | Quit or Escape stop the loop; Enter or start on menu or game over resets and plays; Space or start toggles playing and paused; every other event leaves the game unchanged |
| Run.OnEventKeepsInvAndFlow | main.py:370-392 | events only move menu or game over to playing and between playing and paused, and keep the world invariant |
| Run.PauseResumeRoundTrip | main.py:376-392 | pausing and resuming gives back the same game |
| Run.Advance | main.py:410-413 | exactly (accum + dt) div STEP_MS ticks run, the leftover is in [0, STEP_MS), and the world is those ticks applied in order |
| Run.PlayFrame | main.py:407-413 | only the playing screen moves; there the result is the input step followed by the owed ticks in order; it keeps the world invariant, ends playing or game over, and the score never drops and gains at most one point per tick |
| Run.StepNScreen | main.py:233-241 | ticks started while playing end on playing or game over |
| Run.GameOverStaysOver | main.py:233-241 | once over, further ticks leave the game over |
| DfPlayer.Checksum | audio_mgr.py:22-24 | the checksum is a 16-bit value that brings the sum of version, length, command, feedback, parameter bytes and itself to zero mod 65536 |
| DfPlayer.ChecksumIsUnique | audio_mgr.py:22-24 | no other 16-bit value closes that sum |
| DfPlayer.Frame | audio_mgr.py:26-33 | ten bytes framed by 0x7E 0xFF 0x06 ... 0xEF, command and feedback masked to a byte, parameter split big-endian mod 65536, checksum high then low byte, and the checksum identity over the frame for byte-sized command and feedback |
| DfPlayer.Parse | audio_mgr.py:20-21 | a receiver for the documented layout returns only 16-bit parameters |
| DfPlayer.ParseFrame | audio_mgr.py:26-33 | every in-range command is recovered from its frame |
| DfPlayer.FrameParse | audio_mgr.py:26-33 | every accepted frame is exactly the encoder's frame for its command |
| DfPlayer.WideCommandFrameIsRejected | audio_mgr.py:22-31 | every command number from 256 to 65535 (byte-sized feedback, any parameter) gives a frame whose checksum does not match its bytes |
| DfPlayer.SetVolumeFrame | audio_mgr.py:44-46 | the frame is a well-formed set-volume (0x06) command without feedback whose parameter is the volume clamped to [0, 30] |
| DfPlayer.PlayTrackFrame | audio_mgr.py:48-51 | the frame is a well-formed play-track (0x03) command without feedback whose parameter is the track clamped to [1, 299] |

## Left out

- Rendering: `draw_playfield`, `draw_menu`, `_draw_body_block`, `_orient_sprite`, `grid_to_px`, asset loading and the toast timer produce pixels only.
- The analog-axis branch of `_joy_dir` compares floating-point axis readings with a deadzone; its result is an input of the model (`Joystick.axisDir`).
- Joystick hot-plugging and device enumeration are device plumbing; their events change no game state (`OnEvent` treats them as no-ops).
- The frame loop's clock (`clock.tick`) is the parameter `dt`; the order of events within a frame is left to the caller, one `OnEvent` at a time.
- `audio_mgr`'s `_open_uart`, `_df_write_frame`, `init` and `play_hiss` are serial and mixer I/O with module-level state; the `play_hiss` calls in `reset` and `step` are treated as no-ops.
- DfPlayer.SetVolumeFrame: takes an integer volume; Python's `int()` truncation of a float argument is not modelled.
- DfPlayer.PlayTrackFrame: takes an integer track number; Python's `int()` truncation of a float argument is not modelled.
- Board dimensions, step duration and start length are a `Config` parameter rather than module constants; the model requires the starting snake to fit on the board, which the game's constants satisfy.
- A leaderboard, name entry, lock-out timers and a board-full outcome do not exist in this code and are not modelled; `buttontester.py` and `config.py` are not part of this model.
