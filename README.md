# Manhole game: the game-state machine

A model of the game logic of `manhole.py`, a small arcade game. The player is a
manhole cover that sits on one of four manholes (two paths, two manholes per
path). Pedestrians spawn off screen to the left on a random path and walk right.
A pedestrian whose centre passes a covered manhole earns one point per manhole. A
pedestrian who steps into the zone of an uncovered manhole falls, costs one life
and is removed. A pedestrian who walks off the right edge earns a 5-point bonus
and is removed. At zero lives the game is over until R is pressed.

The model has two layers:

- `Session` (session.dfy) describes the session as a value `State` (score, lives,
  covered slot, pedestrian list, game-over flag, spawn timer, next spawn delay).
  It gives what a key press (`KeyPress`), the spawn check (`SpawnTick`), the pass
  over the pedestrians (`Sweep`) and one frame of game logic (`Tick`) do to it. It
  proves the game's rules about these functions.
- `Game` (game.dfy) is the program itself: class `ManholeGame` holds the session
  variables as fields. `KeyDown`, `Reset`, `Spawn`, `ResolvePedestrian`,
  `MoveAndCollide`, `RemoveMarked` and `Step` update them in place, with the same
  loops, the same `break` and the same descending deletion as the source. Each
  method is proved to produce exactly the state a specification function gives:
  `Reset`, `KeyDown`, `Spawn`, `MoveAndCollide` and `Step` follow `ResetState`,
  `KeyPress`, `SpawnTick`, `Sweep` and `Tick` of `Session`; `ResolvePedestrian`
  follows `Pedestrians.PedStep`; `RemoveMarked` follows `Removal.KeepFrom`. The
  constructor, `Reset`, `KeyDown` and `Step`, the operations the game loop calls,
  also establish or keep the session invariant `Valid()`.

`Pedestrians` (pedestrians.dfy) holds the layout constants and the rule for one
pedestrian against the manhole columns of its row. `Removal` (removal.dfy) holds
the deletion of marked indices and its characterisation.

Geometry is in integers. The manhole centres are 240 and 560 (30% and 70% of the
800-pixel width). A collision zone is the open interval of half-width 25 around a
centre. A pedestrian's box is 20 wide, so its centre is `x + 10`. It leaves the
screen when its left edge is past 800. Python's `%` and Dafny's `%` agree here
because the divisor is positive, so `(0 - 1) % 2 == 1` wraps as in the source.

Randomness is injected. Each operation that draws a random value takes it as a
parameter, with a `requires` that states the range `random` guarantees:
- the spawn row is in {0, 1};
- a spawn delay is in [200, 400].

## Model

| member | source | states |
|---|---|---|
| Pedestrians.CreatePedestrian | manhole.py:86-97 | a new pedestrian is on the drawn row, fully off screen to the left (`x + 20 == 0`), credited nowhere, and well formed |
| Pedestrians.ZonesDisjoint | manhole.py:35-37 | no centre lies in both collision zones, so at most one column can act on a pedestrian per frame |
| Pedestrians.ColumnsCredit | manhole.py:190-205 | the column check keeps every earlier credit, adds only slots of the pedestrian's own row, and scores exactly one point per slot it adds |
| Pedestrians.ColumnsExact | manhole.py:190-213 | from a given column on, slot (row, c) is newly credited iff it is covered, the centre is in its zone at or past its centre, and it was not credited before; the check reports a fall iff the centre is in an uncovered zone |
| Pedestrians.FellKeepsCredits | manhole.py:207-213 | a pedestrian that falls gains no credit and no point in that frame |
| Pedestrians.AtMostTwoCredits | manhole.py:201-205 | a well-formed pedestrian's credited set has at most 2 elements |
| Pedestrians.PedStepFacts | manhole.py:179-219 | one frame moves a pedestrian by exactly the speed and keeps its row and credits; it never both falls and earns the bonus; its points are the newly credited slots plus exactly 5 on a safe exit; a fall scores nothing |
| Pedestrians.FallIffUncovered | manhole.py:194-213 | a pedestrian falls iff its moved centre is strictly inside the zone of a column whose slot the cover does not occupy, whether or not that slot was credited before |
| Pedestrians.CreditIff | manhole.py:195-205 | slot (row, c) is newly credited iff the cover is on it, the moved centre is in its zone at or past the manhole centre, and it was not already credited; so a credited slot never scores again |
| Removal.UnmarkedExact | manhole.py:222-224 | the surviving indices are exactly the unmarked ones in range, each once, in strictly increasing order |
| Removal.KeepFromSelects | manhole.py:222-224 | the list after deletion is, in order, the original elements at the unmarked indices |
| Removal.KeepFromNoneMarked | manhole.py:222-224 | with no index marked, deletion leaves the list unchanged |
| Removal.KeepFromSubset | manhole.py:222-224 | every element left after deletion was in the list before |
| Session.PlayerManholePos | manhole.py:109-113 | the cover is drawn at a whole-pixel x strictly inside the collision zone of the covered column and of no other column, and at a y on the screen |
| Session.PlayerManholePosInjective | manhole.py:109-113 | two slots are drawn at the same place iff they are the same slot |
| Session.ResetState | manhole.py:115-125 | a reset session is valid: score 0, 3 lives, cover on (0, 0), no pedestrians, running, timer 0, delay in [200, 400] |
| Session.KeyPressValid | manhole.py:142-164 | every key press keeps both indices of the cover in {0, 1} and keeps the session valid |
| Session.MovesUndo | manhole.py:145-156 | while running, left then right, right then left, up then down and down then up each return the cover to where it was |
| Session.KeyPressTransitions | manhole.py:142-164 | while running, R and unmapped keys change nothing and moves change only the cover; after game over, no key except R moves the cover, R gives the reset session, and any other key changes nothing |
| Session.SpawnTickFacts | manhole.py:170-174 | when the frame count reaches the delay, exactly one fresh pedestrian is appended on the drawn row, the timer is 0 and the delay is the drawn one; otherwise only the timer advances by one; nothing else changes |
| Session.SweepAt | manhole.py:177-219 | the pass turns pedestrian i into its own one-frame result, marks i iff it fell or exited, marks no other index, loses one life per fallen pedestrian, and never lowers the score |
| Session.TickValid | manhole.py:167-228 | a frame keeps the session valid: cover on a slot, timer below its delay, pedestrians on their rows with only their own row's slots credited, score non-negative, game over iff lives <= 0 |
| Session.TickTransitions | manhole.py:167-228 | a finished game is left unchanged; a running one keeps the cover, never loses score, loses exactly one life per fallen pedestrian, and is over afterwards iff lives <= 0 |
| Session.TickSurvivors | manhole.py:221-224 | after a running frame the list holds, in original order and with their new state, exactly the pedestrians that neither fell nor exited |
| Session.CoveredCrossingExample | manhole.py:195-205 | a row-0 pedestrian reaching the left centre with the cover on (0, 0) earns exactly 1 point and walks on, and earns nothing there on the next frame |
| Session.UncoveredFallExample | manhole.py:207-213 | the same pedestrian with the cover on (0, 1) falls, scoring nothing |
| Game.ManholeGame.constructor | manhole.py:68-78 | a new game holds the reset session |
| Game.ManholeGame.Reset | manhole.py:115-125 | the fields become the reset session with the drawn delay |
| Game.ManholeGame.KeyDown | manhole.py:142-164 | the fields become `KeyPress` of the old session, and the session stays valid |
| Game.ManholeGame.Spawn | manhole.py:170-174 | the fields become `SpawnTick` of the old session |
| Game.ManholeGame.ResolvePedestrian | manhole.py:179-219 | pedestrian i is replaced by its one-frame result; score and lives change by its points and its fall; it is reported for removal iff it fell or exited |
| Game.ManholeGame.MoveAndCollide | manhole.py:177-219 | the list, score and lives become those of `Sweep`, and the set of returned indices is exactly `Sweep`'s marked set |
| Game.ManholeGame.RemoveMarked | manhole.py:221-224 | the list becomes the elements at the unmarked indices, in order, and nothing else changes |
| Game.ManholeGame.Step | manhole.py:167-228 | the fields become `Tick` of the old session, and the session stays valid |

## Left out

- Rendering (everything from line 231 on), font loading, window creation, `draw_text`, and the `player_rect.center` updates. These are presentation only. `PlayerManholePos` models the position computation but not the drawing.
- Event polling, QUIT and `sys.exit`, and the 60-frames-per-second pacing. These are host-loop I/O. Key presses are the abstract `Key` type: arrow keys and A/D/W/S are `Left`/`Right`/`Up`/`Down`, R is `Restart`, and any other key is `Other`.
- `random.choice` and `random.randint` are not modelled. Their results are parameters in the ranges they guarantee.
- Game.ManholeGame.Step: the speed is an integer parameter. The source adds the float 1.5 to pygame's integer `Rect.x`, and that coercion is not modelled. The proved properties hold for any integer speed.
- The vertical coordinate of pedestrians (`PATH_CENTERS_Y`, the box height) plays no part in the game logic beyond the row index and is not modelled.
- Removal order: the source sorts the distinct indices in descending order and deletes each one that is in range. The model visits every index from the highest down and deletes it when it is marked. This gives the same deletions in the same order, because every marked index is in range.
- The debug `print` calls are not modelled.
