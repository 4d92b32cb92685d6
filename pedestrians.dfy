/** Layout constants, pedestrians and the rule that resolves one pedestrian's
    move against the manhole columns of its row, in integer geometry. */
module Pedestrians {

  const ScreenWidth: int := 800
  /** Manhole centres: 30% and 70% of the screen width (exact in integers). */
  const ManholeCentersX: seq<int> := [ScreenWidth * 3 / 10, ScreenWidth * 7 / 10]
  const ManholeCollisionWidth: int := 50
  const PedestrianWidth: int := 20
  /** Number of paths (rows); each row has one manhole per entry of ManholeCentersX. */
  const PathCount: int := 2
  const ExitBonus: int := 5

  /** A manhole location: (row, column). */
  datatype Slot = Slot(row: int, col: int)

  /** A pedestrian: the left edge of its box, its row, and the slots already credited to it. */
  datatype Pedestrian = Pedestrian(x: int, row: int, scored: set<Slot>)

  /** The two slots of one row. */
  function RowSlots(row: int): set<Slot> {
    {Slot(row, 0), Slot(row, 1)}
  }

  /** A pedestrian is well formed when it walks a real row and has only been
      credited at the manholes of that row. */
  predicate WellFormed(p: Pedestrian) {
    0 <= p.row < PathCount && p.scored <= RowSlots(p.row)
  }

  /** A new pedestrian on the given row, fully off screen to the left, credited nowhere. */
  function CreatePedestrian(row: int): (p: Pedestrian)
    requires 0 <= row < PathCount
    ensures WellFormed(p) && p.row == row
    ensures p.x + PedestrianWidth == 0 && p.scored == {}
  {
    Pedestrian(0 - PedestrianWidth, row, {})
  }

  /** The horizontal centre of a pedestrian box whose left edge is at x. */
  function CenterX(x: int): int {
    x + PedestrianWidth / 2
  }

  /** Whether a centre lies strictly inside the collision zone of column col. */
  predicate InZone(cx: int, col: int)
    requires 0 <= col < |ManholeCentersX|
  {
    ManholeCentersX[col] - ManholeCollisionWidth / 2 < cx < ManholeCentersX[col] + ManholeCollisionWidth / 2
  }

  /** What checking the columns did to one pedestrian: its credited set afterwards,
      the points it earned and whether it fell. */
  datatype Outcome = Outcome(scored: set<Slot>, points: int, fell: bool)

  /** The column check from column col onwards, in column order, stopping at the
      first uncovered zone the centre is in (the player covers slot (pr, pc)). */
  function Columns(cx: int, row: int, scored: set<Slot>, pr: int, pc: int, col: nat): Outcome
    decreases |ManholeCentersX| - col
  {
    if col >= |ManholeCentersX| then Outcome(scored, 0, false)
    else if !InZone(cx, col) then Columns(cx, row, scored, pr, pc, col + 1)
    else if row == pr && col == pc then
      if cx >= ManholeCentersX[col] && Slot(row, col) !in scored then
        var rest := Columns(cx, row, scored + {Slot(row, col)}, pr, pc, col + 1);
        Outcome(rest.scored, rest.points + 1, rest.fell)
      else Columns(cx, row, scored, pr, pc, col + 1)
    else Outcome(scored, 0, true)
  }

  /** Whether the player's slot (pr, pc) credits a pedestrian of the given row whose
      centre is cx at column c, given the slots it was already credited. */
  predicate Credits(cx: int, row: int, scored: set<Slot>, pr: int, pc: int, c: int)
    requires 0 <= c < |ManholeCentersX|
  {
    InZone(cx, c) && row == pr && c == pc && cx >= ManholeCentersX[c] && Slot(row, c) !in scored
  }

  /** Whether the centre cx of a pedestrian of the given row is in the zone of a
      column the player does not cover. */
  predicate Uncovered(cx: int, row: int, pr: int, pc: int, c: int)
    requires 0 <= c < |ManholeCentersX|
  {
    InZone(cx, c) && !(row == pr && c == pc)
  }

  /** The two collision zones do not overlap: a centre is in at most one of them. */
  lemma ZonesDisjoint(cx: int)
    ensures !(InZone(cx, 0) && InZone(cx, 1))
  {
  }

  /** Checking the columns only adds slots of the pedestrian's own row from column
      col onwards, scores exactly one point per slot it adds, and never adds a slot
      that was already credited. */
  lemma {:induction false} ColumnsCredit(cx: int, row: int, scored: set<Slot>, pr: int, pc: int, col: nat)
    ensures var o := Columns(cx, row, scored, pr, pc, col);
      scored <= o.scored &&
      (forall s :: s in o.scored - scored ==> s.row == row && col <= s.col < |ManholeCentersX|) &&
      o.points == |o.scored - scored|
    decreases |ManholeCentersX| - col
  {
    var o := Columns(cx, row, scored, pr, pc, col);
    if col >= |ManholeCentersX| {
      assert o.scored - scored == {};
    } else if !InZone(cx, col) {
      ColumnsCredit(cx, row, scored, pr, pc, col + 1);
    } else if row == pr && col == pc {
      if cx >= ManholeCentersX[col] && Slot(row, col) !in scored {
        var added := scored + {Slot(row, col)};
        ColumnsCredit(cx, row, added, pr, pc, col + 1);
        assert o.scored - scored == (o.scored - added) + {Slot(row, col)};
        assert Slot(row, col) !in o.scored - added;
      } else {
        ColumnsCredit(cx, row, scored, pr, pc, col + 1);
      }
    } else {
      assert o.scored - scored == {};
    }
  }

  /** The column check from column col credits slot (row, c) exactly when the
      player covers it, the centre is in its zone at or past its centre, and it was
      not credited before; it falls exactly when the centre is in the zone of an
      uncovered column (at col or later). */
  lemma {:induction false} ColumnsExact(cx: int, row: int, scored: set<Slot>, pr: int, pc: int, col: nat)
    requires col <= |ManholeCentersX|
    ensures var o := Columns(cx, row, scored, pr, pc, col);
      (forall c :: col <= c < |ManholeCentersX| ==>
        (Slot(row, c) in o.scored - scored <==> Credits(cx, row, scored, pr, pc, c))) &&
      (o.fell <==> exists c :: col <= c < |ManholeCentersX| && Uncovered(cx, row, pr, pc, c))
    decreases |ManholeCentersX| - col
  {
    ZonesDisjoint(cx);
    if col < |ManholeCentersX| {
      var o := Columns(cx, row, scored, pr, pc, col);
      if !InZone(cx, col) {
        ColumnsExact(cx, row, scored, pr, pc, col + 1);
      } else if row == pr && col == pc {
        // The centre is in this column's zone, so in no other one.
        assert forall c :: col < c < |ManholeCentersX| ==> !InZone(cx, c);
        if cx >= ManholeCentersX[col] && Slot(row, col) !in scored {
          var added := scored + {Slot(row, col)};
          ColumnsExact(cx, row, added, pr, pc, col + 1);
          ColumnsCredit(cx, row, added, pr, pc, col + 1);
        } else {
          ColumnsExact(cx, row, scored, pr, pc, col + 1);
          ColumnsCredit(cx, row, scored, pr, pc, col + 1);
        }
      } else {
        assert Uncovered(cx, row, pr, pc, col);
      }
    }
  }

  /** What one tick does to one pedestrian. */
  datatype PedResult = PedResult(ped: Pedestrian, points: int, fell: bool, exited: bool)

  /** One tick for one pedestrian: advance by speed, check the columns, and award
      the exit bonus when it did not fall and its left edge is past the screen. */
  function PedStep(p: Pedestrian, speed: int, pr: int, pc: int): PedResult {
    var moved := p.(x := p.x + speed);
    var o := Columns(CenterX(moved.x), moved.row, moved.scored, pr, pc, 0);
    var exited := !o.fell && moved.x > ScreenWidth;
    PedResult(moved.(scored := o.scored), o.points + (if exited then ExitBonus else 0), o.fell, exited)
  }

  /** A well-formed pedestrian has been credited at most twice. */
  lemma AtMostTwoCredits(p: Pedestrian)
    requires WellFormed(p)
    ensures |p.scored| <= 2
  {
    var both := RowSlots(p.row);
    assert |both| == 2 by {
      assert Slot(p.row, 0) != Slot(p.row, 1);
    }
    SubsetCard(p.scored, both);
  }

  lemma SubsetCard<T>(a: set<T>, b: set<T>)
    requires a <= b
    ensures |a| <= |b|
  {
    assert b == a + (b - a);
  }

  /** One tick keeps a pedestrian well formed, keeps its row and every earlier
      credit, moves it by exactly speed, never both drops and rewards it, scores
      one point per newly credited slot plus exactly the exit bonus on a safe exit,
      and credits a slot only once. */
  lemma PedStepFacts(p: Pedestrian, speed: int, pr: int, pc: int)
    requires WellFormed(p)
    ensures var r := PedStep(p, speed, pr, pc);
      WellFormed(r.ped) && r.ped.row == p.row && r.ped.x == p.x + speed &&
      p.scored <= r.ped.scored &&
      !(r.fell && r.exited) &&
      r.exited == (!r.fell && r.ped.x > ScreenWidth) &&
      r.points == |r.ped.scored - p.scored| + (if r.exited then ExitBonus else 0) &&
      0 <= r.points &&
      (r.fell ==> r.ped.scored == p.scored && r.points == 0)
  {
    var cx := CenterX(p.x + speed);
    ColumnsCredit(cx, p.row, p.scored, pr, pc, 0);
    FellKeepsCredits(cx, p.row, p.scored, pr, pc, 0);
  }

  /** A pedestrian that falls is not credited anywhere in that tick: only one
      column can hold its centre, and that one is uncovered. */
  lemma {:induction false} FellKeepsCredits(cx: int, row: int, scored: set<Slot>, pr: int, pc: int, col: nat)
    ensures var o := Columns(cx, row, scored, pr, pc, col); o.fell ==> o.scored == scored && o.points == 0
    decreases |ManholeCentersX| - col
  {
    ZonesDisjoint(cx);
    if col < |ManholeCentersX| {
      if !InZone(cx, col) {
        FellKeepsCredits(cx, row, scored, pr, pc, col + 1);
      } else if row == pr && col == pc {
        var added := if cx >= ManholeCentersX[col] && Slot(row, col) !in scored then scored + {Slot(row, col)} else scored;
        NoFallOutsideZones(cx, row, added, pr, pc, col + 1);
      }
    }
  }

  /** From column col on, a centre in none of the remaining zones cannot fall. */
  lemma {:induction false} NoFallOutsideZones(cx: int, row: int, scored: set<Slot>, pr: int, pc: int, col: nat)
    requires forall c :: col <= c < |ManholeCentersX| ==> !InZone(cx, c)
    ensures !Columns(cx, row, scored, pr, pc, col).fell
    decreases |ManholeCentersX| - col
  {
    if col < |ManholeCentersX| {
      NoFallOutsideZones(cx, row, scored, pr, pc, col + 1);
    }
  }

  /** A pedestrian falls in a tick exactly when, after moving, its centre is in the
      zone of a column its row's player cover does not cover; this holds even at a
      slot credited earlier. */
  lemma FallIffUncovered(p: Pedestrian, speed: int, pr: int, pc: int)
    ensures var cx := CenterX(p.x + speed);
      PedStep(p, speed, pr, pc).fell <==>
        exists c :: 0 <= c < |ManholeCentersX| && Uncovered(cx, p.row, pr, pc, c)
  {
    ColumnsExact(CenterX(p.x + speed), p.row, p.scored, pr, pc, 0);
  }

  /** A tick credits slot (row, c) to a pedestrian exactly when the player covers
      that slot, the moved centre is in its zone at or past the manhole centre, and
      the slot was not credited before; so a credited slot never scores again. */
  lemma CreditIff(p: Pedestrian, speed: int, pr: int, pc: int, c: int)
    requires 0 <= c < |ManholeCentersX|
    ensures var cx := CenterX(p.x + speed);
      Slot(p.row, c) in PedStep(p, speed, pr, pc).ped.scored - p.scored <==>
        Credits(cx, p.row, p.scored, pr, pc, c)
  {
    ColumnsExact(CenterX(p.x + speed), p.row, p.scored, pr, pc, 0);
  }
}
