/** The game session as a value: what a key press, a spawn check and one tick of
    game logic do to it. The class in module Game is proved to follow these. */
module Session {
  import opened Pedestrians
  import opened Removal

  const ScreenHeight: int := 450
  /** Vertical centres of the two paths (40% and 75% of the screen height). */
  const PathCentersY: seq<real> := [ScreenHeight as real * 0.40, ScreenHeight as real * 0.75]
  const SpawnDelayMin: int := 200
  const SpawnDelayMax: int := 400
  const StartLives: int := 3

  /** The keys the game reacts to: the arrow keys (or A/D/W/S), R, and any other key. */
  datatype Key = Left | Right | Up | Down | Restart | Other

  /** The session variables: score, lives, the covered slot (row, col), the pedestrians,
      whether the game is over, and the spawn timer with the delay it counts to. */
  datatype State = State(
    score: int,
    lives: int,
    row: int,
    col: int,
    pedestrians: seq<Pedestrian>,
    gameOver: bool,
    spawnTimer: int,
    nextSpawnDelay: int)

  predicate DelayInRange(delay: int) {
    SpawnDelayMin <= delay <= SpawnDelayMax
  }

  /** What holds of every session between events. */
  predicate Valid(s: State) {
    0 <= s.row < PathCount && 0 <= s.col < |ManholeCentersX| &&
    DelayInRange(s.nextSpawnDelay) && 0 <= s.spawnTimer < s.nextSpawnDelay &&
    0 <= s.score && s.lives <= StartLives &&
    (s.gameOver <==> s.lives <= 0) &&
    forall p :: p in s.pedestrians ==> WellFormed(p)
  }

  /** Where the player's cover is drawn: the centre of the covered manhole. Its x
      is a whole pixel inside the collision zone of the covered column and of no
      other, and its y is on the screen. */
  function PlayerManholePos(row: int, col: int): (pos: (real, real))
    requires 0 <= row < PathCount && 0 <= col < |ManholeCentersX|
    ensures pos.0 == pos.0.Floor as real && InZone(pos.0.Floor, col)
    ensures forall c :: 0 <= c < |ManholeCentersX| && c != col ==> !InZone(pos.0.Floor, c)
    ensures 0.0 < pos.1 < ScreenHeight as real
  {
    (ManholeCentersX[col] as real, PathCentersY[row])
  }

  /** Different slots are drawn at different places. */
  lemma PlayerManholePosInjective(r1: int, c1: int, r2: int, c2: int)
    requires 0 <= r1 < PathCount && 0 <= c1 < |ManholeCentersX|
    requires 0 <= r2 < PathCount && 0 <= c2 < |ManholeCentersX|
    ensures PlayerManholePos(r1, c1) == PlayerManholePos(r2, c2) <==> r1 == r2 && c1 == c2
  {
  }

  /** A fresh session with the given first spawn delay. */
  function ResetState(delay: int): (s: State)
    requires DelayInRange(delay)
    ensures Valid(s) && !s.gameOver && s.pedestrians == []
  {
    State(0, StartLives, 0, 0, [], false, 0, delay)
  }

  /** A key press. While the game runs, the arrow keys move the cover one slot,
      wrapping around, and every other key (R included) does nothing; once the game
      is over, only R acts, restarting with the given spawn delay. */
  function KeyPress(s: State, key: Key, delay: int): State
    requires DelayInRange(delay)
  {
    if !s.gameOver then
      match key
      case Left => s.(col := (s.col - 1) % |ManholeCentersX|)
      case Right => s.(col := (s.col + 1) % |ManholeCentersX|)
      case Up => s.(row := (s.row - 1) % PathCount)
      case Down => s.(row := (s.row + 1) % PathCount)
      case _ => s
    else if key == Restart then ResetState(delay)
    else s
  }

  /** The spawn check at the start of a tick: count one frame and, when the delay is
      reached, add one pedestrian on the given row and restart the count with a new
      delay. */
  function SpawnTick(s: State, row: int, delay: int): State
    requires 0 <= row < PathCount && DelayInRange(delay)
  {
    var timer := s.spawnTimer + 1;
    if timer >= s.nextSpawnDelay then
      s.(pedestrians := s.pedestrians + [CreatePedestrian(row)], spawnTimer := 0, nextSpawnDelay := delay)
    else s.(spawnTimer := timer)
  }

  /** The pedestrians after one pass of the tick, the points scored, the lives lost and
      the indices marked for removal. */
  datatype SweepResult = SweepResult(pedestrians: seq<Pedestrian>, points: int, falls: int, marked: set<int>)

  /** One pass over the pedestrians, in list order, with the cover at (pr, pc). */
  function Sweep(ps: seq<Pedestrian>, speed: int, pr: int, pc: int): SweepResult
    decreases |ps|
  {
    if ps == [] then SweepResult([], 0, 0, {})
    else
      var n := |ps| - 1;
      var prev := Sweep(ps[..n], speed, pr, pc);
      var r := PedStep(ps[n], speed, pr, pc);
      SweepResult(
        prev.pedestrians + [r.ped],
        prev.points + r.points,
        prev.falls + (if r.fell then 1 else 0),
        prev.marked + (if r.fell || r.exited then {n} else {}))
  }

  /** The indices of the pedestrians that fall in a pass. */
  function Fallen(ps: seq<Pedestrian>, speed: int, pr: int, pc: int): set<int> {
    set i | 0 <= i < |ps| && PedStep(ps[i], speed, pr, pc).fell
  }

  /** A pass treats each pedestrian on its own: pedestrian i becomes PedStep of itself, it
      is marked exactly when it fell or left the screen, no other index is marked,
      one life is lost per fallen pedestrian, and the score gained is not negative. */
  lemma SweepAt(ps: seq<Pedestrian>, speed: int, pr: int, pc: int)
    ensures var w := Sweep(ps, speed, pr, pc);
      |w.pedestrians| == |ps| &&
      (forall i :: 0 <= i < |ps| ==> w.pedestrians[i] == PedStep(ps[i], speed, pr, pc).ped) &&
      (forall i :: i in w.marked <==>
        0 <= i < |ps| && (PedStep(ps[i], speed, pr, pc).fell || PedStep(ps[i], speed, pr, pc).exited)) &&
      w.falls == |Fallen(ps, speed, pr, pc)| &&
      0 <= w.points
  {
    SweepPedestrians(ps, speed, pr, pc);
    SweepMarked(ps, speed, pr, pc);
    SweepFalls(ps, speed, pr, pc);
    SweepPoints(ps, speed, pr, pc);
  }

  lemma {:induction false} SweepPedestrians(ps: seq<Pedestrian>, speed: int, pr: int, pc: int)
    ensures var w := Sweep(ps, speed, pr, pc);
      |w.pedestrians| == |ps| &&
      forall i :: 0 <= i < |ps| ==> w.pedestrians[i] == PedStep(ps[i], speed, pr, pc).ped
    decreases |ps|
  {
    if ps != [] {
      var n := |ps| - 1;
      SweepPedestrians(ps[..n], speed, pr, pc);
      assert forall i :: 0 <= i < n ==> ps[..n][i] == ps[i];
    }
  }

  lemma {:induction false} SweepMarked(ps: seq<Pedestrian>, speed: int, pr: int, pc: int)
    ensures forall i :: i in Sweep(ps, speed, pr, pc).marked <==>
      0 <= i < |ps| && (PedStep(ps[i], speed, pr, pc).fell || PedStep(ps[i], speed, pr, pc).exited)
    decreases |ps|
  {
    if ps != [] {
      var n := |ps| - 1;
      SweepMarked(ps[..n], speed, pr, pc);
      assert forall i :: 0 <= i < n ==> ps[..n][i] == ps[i];
    }
  }

  lemma {:induction false} SweepFalls(ps: seq<Pedestrian>, speed: int, pr: int, pc: int)
    ensures Sweep(ps, speed, pr, pc).falls == |Fallen(ps, speed, pr, pc)|
    decreases |ps|
  {
    if ps == [] {
      assert Fallen(ps, speed, pr, pc) == {};
    } else {
      var n := |ps| - 1;
      var prefix := ps[..n];
      SweepFalls(prefix, speed, pr, pc);
      var before := Fallen(prefix, speed, pr, pc);
      var added := if PedStep(ps[n], speed, pr, pc).fell then {n} else {};
      forall i ensures i in Fallen(ps, speed, pr, pc) <==> i in before + added {
        if 0 <= i < n {
          assert prefix[i] == ps[i];
        }
      }
      assert Fallen(ps, speed, pr, pc) == before + added;
      assert n !in before;
    }
  }

  lemma {:induction false} SweepPoints(ps: seq<Pedestrian>, speed: int, pr: int, pc: int)
    ensures 0 <= Sweep(ps, speed, pr, pc).points
    decreases |ps|
  {
    if ps != [] {
      var n := |ps| - 1;
      SweepPoints(ps[..n], speed, pr, pc);
      ColumnsCredit(CenterX(ps[n].x + speed), ps[n].row, ps[n].scored, pr, pc, 0);
    }
  }

  /** One tick of game logic: nothing while the game is over; otherwise the spawn
      check, one pass over the pedestrians, deletion of the marked ones, and game over
      once lives are down to zero. */
  function Tick(s: State, speed: int, spawnRow: int, spawnDelay: int): State
    requires 0 <= spawnRow < PathCount && DelayInRange(spawnDelay)
  {
    if s.gameOver then s
    else
      var s1 := SpawnTick(s, spawnRow, spawnDelay);
      var w := Sweep(s1.pedestrians, speed, s1.row, s1.col);
      var lives := s1.lives - w.falls;
      s1.(score := s1.score + w.points,
          lives := lives,
          pedestrians := KeepFrom(w.pedestrians, w.marked, 0),
          gameOver := if lives <= 0 then true else s1.gameOver)
  }

  /** The spawn check appends exactly one fresh pedestrian on the drawn row, with a
      new delay and the timer back at zero, exactly when the count reaches the
      delay; otherwise it only counts the frame. It keeps the session valid. */
  lemma SpawnTickFacts(s: State, row: int, delay: int)
    requires Valid(s) && 0 <= row < PathCount && DelayInRange(delay)
    ensures var t := SpawnTick(s, row, delay);
      Valid(t) &&
      (s.spawnTimer + 1 >= s.nextSpawnDelay ==>
        t.pedestrians == s.pedestrians + [Pedestrian(0 - PedestrianWidth, row, {})] &&
        t.spawnTimer == 0 && t.nextSpawnDelay == delay) &&
      (s.spawnTimer + 1 < s.nextSpawnDelay ==>
        t.pedestrians == s.pedestrians && t.spawnTimer == s.spawnTimer + 1 &&
        t.nextSpawnDelay == s.nextSpawnDelay) &&
      t.(pedestrians := s.pedestrians, spawnTimer := s.spawnTimer, nextSpawnDelay := s.nextSpawnDelay) == s
  {
  }

  /** A tick keeps the session valid: the cover stays on a slot, the spawn timer
      stays below its delay, pedestrians stay on their rows with at most their own
      row's slots credited, score stays non-negative and game over still means no
      lives left. */
  lemma TickValid(s: State, speed: int, spawnRow: int, spawnDelay: int)
    requires Valid(s) && 0 <= spawnRow < PathCount && DelayInRange(spawnDelay)
    ensures Valid(Tick(s, speed, spawnRow, spawnDelay))
  {
    if !s.gameOver {
      var s1 := SpawnTick(s, spawnRow, spawnDelay);
      SpawnTickFacts(s, spawnRow, spawnDelay);
      var w := Sweep(s1.pedestrians, speed, s1.row, s1.col);
      SweepAt(s1.pedestrians, speed, s1.row, s1.col);
      forall p | p in w.pedestrians ensures WellFormed(p) {
        var i :| 0 <= i < |w.pedestrians| && w.pedestrians[i] == p;
        PedStepFacts(s1.pedestrians[i], speed, s1.row, s1.col);
      }
      KeepFromSubset(w.pedestrians, w.marked, 0);
    }
  }

  /** The transitions of a tick: a finished game is left exactly as it is; a running
      one keeps the cover where it is, never loses score, loses exactly one life per
      pedestrian that fell, and is over afterwards exactly when no lives are left. */
  lemma TickTransitions(s: State, speed: int, spawnRow: int, spawnDelay: int)
    requires Valid(s) && 0 <= spawnRow < PathCount && DelayInRange(spawnDelay)
    ensures var t := Tick(s, speed, spawnRow, spawnDelay);
      (s.gameOver ==> t == s) &&
      (!s.gameOver ==>
        var s1 := SpawnTick(s, spawnRow, spawnDelay);
        t.row == s.row && t.col == s.col && t.score >= s.score &&
        t.lives == s.lives - |Fallen(s1.pedestrians, speed, s.row, s.col)| &&
        t.lives <= s.lives &&
        (t.gameOver <==> t.lives <= 0))
  {
    if !s.gameOver {
      var s1 := SpawnTick(s, spawnRow, spawnDelay);
      SweepAt(s1.pedestrians, speed, s1.row, s1.col);
    }
  }

  /** The pedestrians left after a running tick are, in their original order, the
      moved-and-checked pedestrians that neither fell nor left the screen: pedestrian j of
      the result is the stepped pedestrian at the j-th such index. */
  lemma TickSurvivors(s: State, speed: int, spawnRow: int, spawnDelay: int)
    requires !s.gameOver && 0 <= spawnRow < PathCount && DelayInRange(spawnDelay)
    ensures var ps := SpawnTick(s, spawnRow, spawnDelay).pedestrians;
      var gone := set i | 0 <= i < |ps| &&
        (PedStep(ps[i], speed, s.row, s.col).fell || PedStep(ps[i], speed, s.row, s.col).exited);
      var keep := Unmarked(|ps|, gone, 0);
      var t := Tick(s, speed, spawnRow, spawnDelay);
      |t.pedestrians| == |keep| &&
      (forall j :: j in keep <==> 0 <= j < |ps| && j !in gone) &&
      (forall a, b :: 0 <= a < b < |keep| ==> keep[a] < keep[b]) &&
      forall t' :: 0 <= t' < |keep| ==>
        keep[t'] < |ps| && t.pedestrians[t'] == PedStep(ps[keep[t']], speed, s.row, s.col).ped
  {
    var ps := SpawnTick(s, spawnRow, spawnDelay).pedestrians;
    var w := Sweep(ps, speed, s.row, s.col);
    SweepAt(ps, speed, s.row, s.col);
    var gone := set i | 0 <= i < |ps| &&
      (PedStep(ps[i], speed, s.row, s.col).fell || PedStep(ps[i], speed, s.row, s.col).exited);
    assert w.marked == gone;
    KeepFromSelects(w.pedestrians, w.marked, 0);
    UnmarkedExact(|ps|, gone, 0);
  }

  /** A key press keeps the session valid. */
  lemma KeyPressValid(s: State, key: Key, delay: int)
    requires Valid(s) && DelayInRange(delay)
    ensures Valid(KeyPress(s, key, delay))
  {
  }

  /** Moves are undone by the opposite move: left then right, right then left, up
      then down and down then up each return the cover to where it was. */
  lemma MovesUndo(s: State, delay: int)
    requires Valid(s) && !s.gameOver && DelayInRange(delay)
    ensures KeyPress(KeyPress(s, Left, delay), Right, delay) == s
    ensures KeyPress(KeyPress(s, Right, delay), Left, delay) == s
    ensures KeyPress(KeyPress(s, Up, delay), Down, delay) == s
    ensures KeyPress(KeyPress(s, Down, delay), Up, delay) == s
  {
  }

  /** Which keys act in which state: while running, R and unmapped keys change
      nothing and moves change only the cover; once over, no key moves the cover,
      R restarts and every other key changes nothing. */
  lemma KeyPressTransitions(s: State, key: Key, delay: int)
    requires DelayInRange(delay)
    ensures var t := KeyPress(s, key, delay);
      (!s.gameOver && (key == Restart || key == Other) ==> t == s) &&
      (!s.gameOver ==> t.(row := s.row, col := s.col) == s) &&
      (s.gameOver && key != Restart ==> t == s) &&
      (s.gameOver && key == Restart ==> t == ResetState(delay))
  {
  }

  /** A pedestrian on row 0 whose centre reaches the left manhole's centre while the
      cover is on slot (0, 0) earns exactly one point and walks on; on the next
      frame that slot does not score again. */
  lemma CoveredCrossingExample()
    ensures PedStep(Pedestrian(229, 0, {}), 1, 0, 0) ==
      PedResult(Pedestrian(230, 0, {Slot(0, 0)}), 1, false, false)
    ensures PedStep(Pedestrian(230, 0, {Slot(0, 0)}), 1, 0, 0) ==
      PedResult(Pedestrian(231, 0, {Slot(0, 0)}), 0, false, false)
  {
  }

  /** The same pedestrian with the cover on slot (0, 1) falls into the open left hole. */
  lemma UncoveredFallExample()
    ensures PedStep(Pedestrian(229, 0, {}), 1, 0, 1) ==
      PedResult(Pedestrian(230, 0, {}), 0, true, false)
  {
  }
}
