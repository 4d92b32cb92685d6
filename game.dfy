/** The running game: the session variables as fields of one object, updated in
    place by key presses and by the per-frame game logic, each method proved to do
    what the corresponding function of module Session says. */
module Game {
  import opened Pedestrians
  import opened Removal
  import opened Session

  class ManholeGame {
    var score: int
    var lives: int
    var playerRow: int
    var playerCol: int
    var pedestrians: seq<Pedestrian>
    var gameOver: bool
    var spawnTimer: int
    var nextSpawnDelay: int

    /** The session these fields hold. */
    function Snapshot(): State
      reads this
    {
      State(score, lives, playerRow, playerCol, pedestrians, gameOver, spawnTimer, nextSpawnDelay)
    }

    ghost predicate Valid()
      reads this
    {
      Session.Valid(Snapshot())
    }

    /** A new game, started with the given first spawn delay. */
    constructor (delay: int)
      requires DelayInRange(delay)
      ensures Snapshot() == ResetState(delay) && Valid()
    {
      score, lives := 0, StartLives;
      playerRow, playerCol := 0, 0;
      pedestrians := [];
      gameOver := false;
      spawnTimer, nextSpawnDelay := 0, delay;
    }

    /** Restart: score 0, three lives, cover on slot (0, 0), no pedestrians, running,
        spawn timer at 0 with a new delay. */
    method Reset(delay: int)
      requires DelayInRange(delay)
      modifies this
      ensures Snapshot() == ResetState(delay) && Valid()
    {
      score := 0;
      lives := StartLives;
      playerRow := 0;
      playerCol := 0;
      pedestrians := [];
      gameOver := false;
      spawnTimer := 0;
      nextSpawnDelay := delay;
    }

    /** A key press: while running, a move key moves the cover one slot with
        wrap-around; once over, R restarts (delay is the newly drawn spawn delay). */
    method KeyDown(key: Key, delay: int)
      requires Valid() && DelayInRange(delay)
      modifies this
      ensures Snapshot() == KeyPress(old(Snapshot()), key, delay) && Valid()
    {
      KeyPressValid(Snapshot(), key, delay);
      if !gameOver {
        if key == Left {
          playerCol := (playerCol - 1) % |ManholeCentersX|;
        } else if key == Right {
          playerCol := (playerCol + 1) % |ManholeCentersX|;
        } else if key == Up {
          playerRow := (playerRow - 1) % PathCount;
        } else if key == Down {
          playerRow := (playerRow + 1) % PathCount;
        }
      } else if key == Restart {
        Reset(delay);
      }
    }

    /** Count one frame and, when the delay is reached, append a pedestrian on row
        and restart the count with the newly drawn delay. */
    method Spawn(row: int, delay: int)
      requires 0 <= row < PathCount && DelayInRange(delay)
      modifies this
      ensures Snapshot() == SpawnTick(old(Snapshot()), row, delay)
    {
      spawnTimer := spawnTimer + 1;
      if spawnTimer >= nextSpawnDelay {
        pedestrians := pedestrians + [CreatePedestrian(row)];
        spawnTimer := 0;
        nextSpawnDelay := delay;
      }
    }

    /** Move pedestrian i by speed and check it against the manhole columns in order,
        the cover being at (pr, pc): a covered zone at or past its centre credits
        the slot once, the first uncovered zone drops the pedestrian and costs a life,
        and a pedestrian that did not fall and is past the right edge earns the exit
        bonus. Reports whether the pedestrian is to be removed. */
    method ResolvePedestrian(i: int, speed: int, pr: int, pc: int) returns (removed: bool)
      requires 0 <= i < |pedestrians|
      modifies this
      ensures var r := PedStep(old(pedestrians)[i], speed, pr, pc);
        pedestrians == old(pedestrians)[i := r.ped] &&
        score == old(score) + r.points &&
        lives == old(lives) - (if r.fell then 1 else 0) &&
        removed == (r.fell || r.exited)
      ensures playerRow == old(playerRow) && playerCol == old(playerCol) && gameOver == old(gameOver)
      ensures spawnTimer == old(spawnTimer) && nextSpawnDelay == old(nextSpawnDelay)
    {
      var p := pedestrians[i];
      var moved := p.(x := p.x + speed);
      var cx := CenterX(moved.x);
      var scored := moved.scored;
      var fell := false;
      ghost var full := Columns(cx, moved.row, scored, pr, pc, 0);
      var col := 0;
      while col < |ManholeCentersX|
        invariant 0 <= col <= |ManholeCentersX| && !fell
        invariant var rest := Columns(cx, moved.row, scored, pr, pc, col);
          full == Outcome(rest.scored, score - old(score) + rest.points, rest.fell)
        invariant lives == old(lives) && pedestrians == old(pedestrians)
        invariant playerRow == old(playerRow) && playerCol == old(playerCol) && gameOver == old(gameOver)
        invariant spawnTimer == old(spawnTimer) && nextSpawnDelay == old(nextSpawnDelay)
      {
        var manholeX := ManholeCentersX[col];
        if manholeX - ManholeCollisionWidth / 2 < cx < manholeX + ManholeCollisionWidth / 2 {
          if moved.row == pr && col == pc {
            if cx >= manholeX && Slot(moved.row, col) !in scored {
              score := score + 1;
              scored := scored + {Slot(moved.row, col)};
            }
          } else {
            lives := lives - 1;
            fell := true;
            break;
          }
        }
        col := col + 1;
      }
      assert full == Outcome(scored, score - old(score), fell);
      removed := fell;
      if !fell && moved.x > ScreenWidth {
        score := score + ExitBonus;
        removed := true;
      }
      pedestrians := pedestrians[i := moved.(scored := scored)];
    }

    /** Move and resolve every pedestrian in list order, and return the indices to
        remove, in the order they were found. */
    method MoveAndCollide(speed: int) returns (marks: seq<int>)
      modifies this
      ensures var w := Sweep(old(pedestrians), speed, playerRow, playerCol);
        pedestrians == w.pedestrians &&
        score == old(score) + w.points && lives == old(lives) - w.falls &&
        (set j | j in marks) == w.marked
      ensures playerRow == old(playerRow) && playerCol == old(playerCol) && gameOver == old(gameOver)
      ensures spawnTimer == old(spawnTimer) && nextSpawnDelay == old(nextSpawnDelay)
    {
      ghost var ps := pedestrians;
      var pr, pc := playerRow, playerCol;
      marks := [];
      var i := 0;
      while i < |pedestrians|
        invariant 0 <= i <= |ps| == |pedestrians|
        invariant pedestrians[i..] == ps[i..]
        invariant var w := Sweep(ps[..i], speed, pr, pc);
          pedestrians[..i] == w.pedestrians &&
          score == old(score) + w.points && lives == old(lives) - w.falls &&
          (set j | j in marks) == w.marked
        invariant playerRow == pr && playerCol == pc && gameOver == old(gameOver)
        invariant spawnTimer == old(spawnTimer) && nextSpawnDelay == old(nextSpawnDelay)
      {
        ghost var before, marksBefore := pedestrians, marks;
        assert before[i] == ps[i];
        var removed := ResolvePedestrian(i, speed, pr, pc);
        if removed {
          marks := marks + [i];
        }
        assert (set j | j in marks) == (set j | j in marksBefore) + (if removed then {i} else {});
        assert ps[..i + 1][..i] == ps[..i];
        assert pedestrians[..i + 1] == before[..i] + [pedestrians[i]];
        assert pedestrians[i + 1..] == before[i + 1..];
        i := i + 1;
      }
      assert ps[..i] == ps;
    }

    /** Delete the pedestrians at the marked indices (duplicates counted once), from
        the highest index down so that the lower indices stay put. */
    method RemoveMarked(marks: seq<int>)
      modifies this
      ensures pedestrians == KeepFrom(old(pedestrians), set j | j in marks, 0)
      ensures old(Snapshot()).(pedestrians := pedestrians) == Snapshot()
    {
      var marked := set j | j in marks;
      ghost var ps := pedestrians;
      var k := |pedestrians|;
      while k > 0
        invariant 0 <= k <= |ps|
        invariant pedestrians == ps[..k] + KeepFrom(ps, marked, k)
        invariant old(Snapshot()).(pedestrians := pedestrians) == Snapshot()
      {
        k := k - 1;
        if k in marked {
          pedestrians := pedestrians[..k] + pedestrians[k + 1..];
          assert pedestrians == ps[..k] + KeepFrom(ps, marked, k + 1);
        } else {
          assert ps[..k + 1] == ps[..k] + [ps[k]];
        }
      }
    }

    /** One frame of game logic: nothing once the game is over; otherwise the
        spawn check (with the drawn row and delay), moving and resolving every
        pedestrian, deleting the marked ones, and game over when lives run out. */
    method Step(speed: int, spawnRow: int, spawnDelay: int)
      requires Valid() && 0 <= spawnRow < PathCount && DelayInRange(spawnDelay)
      modifies this
      ensures Snapshot() == Tick(old(Snapshot()), speed, spawnRow, spawnDelay) && Valid()
    {
      TickValid(Snapshot(), speed, spawnRow, spawnDelay);
      if !gameOver {
        Spawn(spawnRow, spawnDelay);
        var marks := MoveAndCollide(speed);
        RemoveMarked(marks);
        if lives <= 0 {
          gameOver := true;
        }
      }
    }
  }
}
