/** What one pass of the incremental gravity engine does, as functions on a
    value: the grid plus the three coordinate sets the engine keeps. */
module GravitySpec {
  import opened Entities
  import opened Boards

  /** The engine's state: the grid, the fallers to visit on the next pass, the
      fallers resting on the player that have not fallen yet, and the fallers
      that have moved at least once. */
  datatype World = World(board: Board, active: set<Pos>, armed: set<Pos>, fallen: set<Pos>)

  /** Drops every record of p. */
  function Forget(w: World, p: Pos): World {
    w.(active := w.active - {p}, armed := w.armed - {p}, fallen := w.fallen - {p})
  }

  /** Marks (x, y) active when it is on the grid and holds a faller. */
  function Activate(w: World, x: int, y: int): World {
    if w.board.InBounds(x, y) && CanFall(w.board.Cell(x, y)) then w.(active := w.active + {Pos(x, y)})
    else w
  }

  /** Reaction to (x, y) becoming empty: nothing when the row above is off the
      grid; otherwise the fallers beside it become active, and a faller above it
      becomes active and stops waiting for the player. */
  function Emptied(w: World, x: int, y: int): World {
    if !w.board.InBounds(x, y - 1) then w
    else
      var w' := Activate(Activate(w, x - 1, y), x + 1, y);
      if !CanFall(w.board.Cell(x, y - 1)) then w'
      else w'.(armed := w'.armed - {Pos(x, y - 1)}, active := w'.active + {Pos(x, y - 1)})
  }

  /** Column tx is an open shaft of the given depth from row y down. */
  predicate ShaftOpen(b: Board, tx: int, y: int, depth: int) {
    forall yy | y <= yy < y + depth :: b.InBounds(tx, yy) && b.Cell(tx, yy) == Empty
  }

  /** Moves the faller t from p to q, carrying its records along, then reacts
      to p becoming empty. */
  function Fall(w: World, p: Pos, q: Pos, t: Kind): World {
    var moved := World(
      w.board.SetCell(p.x, p.y, Empty).SetCell(q.x, q.y, t),
      w.active - {p} + {q},
      w.armed - {p},
      w.fallen - {p} + {q});
    Emptied(moved, p.x, p.y)
  }

  /** A faller t at p whose lower neighbour is on the grid and is not the
      player: it falls straight into an empty cell, otherwise slides into an open
      shaft on the left, otherwise into one on the right, otherwise comes to rest
      and is forgotten. */
  function Settle(w: World, p: Pos, t: Kind, depth: int): World {
    var b := w.board;
    if b.Cell(p.x, p.y + 1) == Empty then Fall(w, p, Pos(p.x, p.y + 1), t)
    else if ShaftOpen(b, p.x - 1, p.y, depth) then Fall(w, p, Pos(p.x - 1, p.y + 1), t)
    else if ShaftOpen(b, p.x + 1, p.y, depth) then Fall(w, p, Pos(p.x + 1, p.y + 1), t)
    else Forget(w, p)
  }

  /** The faller t at p lands on the player below it and is forgotten. */
  function Crush(w: World, p: Pos, t: Kind): World {
    Forget(w.(board := w.board.SetCell(p.x, p.y, Empty).SetCell(p.x, p.y + 1, t)), p)
  }

  /** One visit of the pass: the new world, and whether the player was crushed. */
  function Step(w: World, p: Pos, depth: int): (World, bool) {
    var b := w.board;
    if p !in w.active then (w, false)
    else if !b.InBounds(p.x, p.y) then (Forget(w, p), false)
    else
      var t := b.Cell(p.x, p.y);
      if !CanFall(t) || !b.InBounds(p.x, p.y + 1) then (Forget(w, p), false)
      else if b.Cell(p.x, p.y + 1) == Player then
        if t != Gem && p in w.fallen then (Crush(w, p, t), true)
        else (w.(active := w.active - {p}, armed := w.armed + {p}), false)
      else (Settle(w, p, t, depth), false)
  }

  /** Visits the positions in order, stopping at the first crush. */
  function Run(w: World, order: seq<Pos>, depth: int): (World, bool)
    decreases |order|
  {
    if order == [] then (w, false)
    else
      var (w', crushed) := Step(w, order[0], depth);
      if crushed then (w', true) else Run(w', order[1..], depth)
  }

  // ---------------------------------------------------------------- visiting order

  /** m comes first among s in row-major order. */
  predicate IsLeast(m: Pos, s: set<Pos>) {
    m in s && forall q | q in s :: q == m || Before(m, q)
  }

  /** Row-major order is total on distinct positions. */
  lemma BeforeTotal(p: Pos, q: Pos)
    ensures p == q || Before(p, q) || Before(q, p)
    ensures !(Before(p, q) && Before(q, p))
  {
  }

  lemma {:induction false} LeastExists(s: set<Pos>)
    requires s != {}
    ensures exists m :: IsLeast(m, s)
    decreases |s|
  {
    var p :| p in s;
    if s == {p} {
      assert IsLeast(p, s);
    } else {
      LeastExists(s - {p});
      var m :| IsLeast(m, s - {p});
      BeforeTotal(p, m);
      if Before(p, m) {
        forall q | q in s ensures q == p || Before(p, q) {
          if q != p {
            assert q in s - {p};
          }
        }
        assert IsLeast(p, s);
      } else {
        forall q | q in s ensures q == m || Before(m, q) {
          if q != p {
            assert q in s - {p};
          }
        }
        assert IsLeast(m, s);
      }
    }
  }

  lemma LeastUnique(m1: Pos, m2: Pos, s: set<Pos>)
    requires IsLeast(m1, s) && IsLeast(m2, s)
    ensures m1 == m2
  {
    BeforeTotal(m1, m2);
  }

  ghost function Least(s: set<Pos>): (m: Pos)
    requires s != {}
    ensures IsLeast(m, s)
  {
    LeastExists(s);
    var m :| IsLeast(m, s); m
  }

  /** The positions of s sorted by row, then by column: the pass's snapshot order. */
  ghost function SortedOf(s: set<Pos>): seq<Pos>
    decreases |s|
  {
    if s == {} then [] else [Least(s)] + SortedOf(s - {Least(s)})
  }

  /** The snapshot lists every position of s exactly once, strictly in
      row-major order. */
  lemma {:induction false} SortedOfSorted(s: set<Pos>)
    ensures |SortedOf(s)| == |s|
    ensures forall p :: p in SortedOf(s) <==> p in s
    ensures forall i, j | 0 <= i < j < |SortedOf(s)| :: Before(SortedOf(s)[i], SortedOf(s)[j])
    decreases |s|
  {
    if s != {} {
      var m := Least(s);
      SortedOfSorted(s - {m});
      var r := SortedOf(s);
      assert r == [m] + SortedOf(s - {m});
      forall i, j | 0 <= i < j < |r| ensures Before(r[i], r[j]) {
        if i == 0 {
          assert r[j] in s - {m};
        } else {
          assert r[i] == SortedOf(s - {m})[i - 1] && r[j] == SortedOf(s - {m})[j - 1];
        }
      }
    }
  }

  /** The fallers on the grid: every in-bounds position holding Rock or Gem. */
  function FallersOf(b: Board): (s: set<Pos>)
    ensures forall p :: p in s <==> b.InBounds(p.x, p.y) && (b.Cell(p.x, p.y) == Rock || b.Cell(p.x, p.y) == Gem)
  {
    set x, y | 0 <= x < b.width && 0 <= y < b.height && CanFall(b.Cell(x, y)) :: Pos(x, y)
  }

  // ---------------------------------------------------------------- the records

  /** Forgetting p removes it from all three sets and keeps every other
      position's membership. */
  lemma ForgetEffect(w: World, p: Pos, q: Pos)
    ensures var w' := Forget(w, p);
      && w'.board == w.board
      && p !in w'.active && p !in w'.armed && p !in w'.fallen
      && (q != p ==> (q in w'.active <==> q in w.active) && (q in w'.armed <==> q in w.armed)
                     && (q in w'.fallen <==> q in w.fallen))
  {
  }

  /** Emptying a cell whose upper neighbour is off the grid changes nothing;
      otherwise the in-grid fallers left, right and above become active, the one
      above stops waiting, and nothing else changes. */
  lemma EmptiedEffect(w: World, x: int, y: int, q: Pos)
    ensures !w.board.InBounds(x, y - 1) ==> Emptied(w, x, y) == w
    ensures var w' := Emptied(w, x, y);
      && w'.board == w.board && w'.fallen == w.fallen
      && (w.board.InBounds(x, y - 1) ==>
            && (q in w'.active <==>
                  q in w.active
                  || ((q == Pos(x - 1, y) || q == Pos(x + 1, y) || q == Pos(x, y - 1))
                      && w.board.InBounds(q.x, q.y) && CanFall(w.board.Cell(q.x, q.y))))
            && (q in w'.armed <==> q in w.armed && !(q == Pos(x, y - 1) && CanFall(w.board.Cell(x, y - 1)))))
  {
  }

  // ---------------------------------------------------------------- one visit

  /** Positions that were already removed from the active set are skipped, and
      positions that are off the grid, hold no faller, sit on the bottom row or
      cannot move are forgotten. */
  lemma StepForgets(w: World, p: Pos, depth: int)
    ensures p !in w.active ==> Step(w, p, depth) == (w, false)
    ensures var b := w.board;
      p in w.active &&
      (!b.InBounds(p.x, p.y) || !CanFall(b.Cell(p.x, p.y)) || !b.InBounds(p.x, p.y + 1)
       || (b.Cell(p.x, p.y + 1) != Player && b.Cell(p.x, p.y + 1) != Empty
           && !ShaftOpen(b, p.x - 1, p.y, depth) && !ShaftOpen(b, p.x + 1, p.y, depth)))
      ==> Step(w, p, depth) == (Forget(w, p), false)
  {
  }

  /** A visit crushes the player exactly when p is active and holds a rock that
      has fallen before, directly above the player; the rock then takes the
      player's cell, its own cell empties, and its records are dropped. A gem
      never crushes. */
  lemma StepCrush(w: World, p: Pos, depth: int)
    requires w.board.Valid()
    ensures var b := w.board;
      Step(w, p, depth).1 <==>
        p in w.active && p in w.fallen && b.InBounds(p.x, p.y + 1) && p.y >= 0 &&
        b.Cell(p.x, p.y) == Rock && b.Cell(p.x, p.y + 1) == Player
    ensures Step(w, p, depth).1 ==>
      var w' := Step(w, p, depth).0;
      && w'.board.Cell(p.x, p.y) == Empty && w'.board.Cell(p.x, p.y + 1) == Rock
      && p !in w'.active && p !in w'.armed && p !in w'.fallen
  {
    var b := w.board;
    if Step(w, p, depth).1 {
      SetCellEffect(b, p.x, p.y, Empty);
      SetCellEffect(b.SetCell(p.x, p.y, Empty), p.x, p.y + 1, b.Cell(p.x, p.y));
    }
  }

  /** A faller above the player that does not crush it is armed instead: it
      leaves the active set for the armed set and the grid stays as it is. */
  lemma StepArms(w: World, p: Pos, depth: int)
    requires p in w.active && w.board.InBounds(p.x, p.y + 1) && p.y >= 0
    requires CanFall(w.board.Cell(p.x, p.y)) && w.board.Cell(p.x, p.y + 1) == Player
    requires !(w.board.Cell(p.x, p.y) == Rock && p in w.fallen)
    ensures Step(w, p, depth) == (w.(active := w.active - {p}, armed := w.armed + {p}), false)
  {
  }

  /** Where a faller that can move goes: straight down into an empty cell,
      otherwise diagonally into an open shaft on the left, otherwise into one on
      the right. */
  function Target(b: Board, p: Pos, depth: int): Pos {
    if b.Cell(p.x, p.y + 1) == Empty then Pos(p.x, p.y + 1)
    else if ShaftOpen(b, p.x - 1, p.y, depth) then Pos(p.x - 1, p.y + 1)
    else Pos(p.x + 1, p.y + 1)
  }

  /** A faller can move: it is on the grid above a cell that is on the grid,
      and that cell is empty or a shaft beside it is open. */
  predicate CanMove(b: Board, p: Pos, depth: int) {
    && b.InBounds(p.x, p.y) && CanFall(b.Cell(p.x, p.y)) && b.InBounds(p.x, p.y + 1)
    && b.Cell(p.x, p.y + 1) != Player
    && (b.Cell(p.x, p.y + 1) == Empty || ShaftOpen(b, p.x - 1, p.y, depth) || ShaftOpen(b, p.x + 1, p.y, depth))
  }

  /** A faller that can move moves to its target, one row down and in another
      cell; with a shaft depth of at least 2 the target was empty and on the grid. */
  lemma StepFalls(w: World, p: Pos, depth: int)
    requires p in w.active && CanMove(w.board, p, depth)
    ensures var q := Target(w.board, p, depth);
      && Step(w, p, depth) == (Fall(w, p, q, w.board.Cell(p.x, p.y)), false)
      && q.y == p.y + 1 && q != p
      && (depth >= 2 ==> w.board.InBounds(q.x, q.y) && w.board.Cell(q.x, q.y) == Empty)
  {
    var b, q := w.board, Target(w.board, p, depth);
    if depth >= 2 && q != Pos(p.x, p.y + 1) {
      assert p.y <= p.y + 1 < p.y + depth;
    }
  }

  /** When a faller moves from p to q, p empties, q holds the faller, no
      other cell changes, its active and fallen records move with it and the
      origin is not armed. */
  lemma FallEffect(w: World, p: Pos, q: Pos, t: Kind)
    requires w.board.Valid() && w.board.InBounds(p.x, p.y) && q.y == p.y + 1
    ensures var w' := Fall(w, p, q, t);
      && w'.board == w.board.SetCell(p.x, p.y, Empty).SetCell(q.x, q.y, t)
      && w'.board.Valid()
      && w'.board.Cell(p.x, p.y) == Empty
      && (w.board.InBounds(q.x, q.y) ==> w'.board.Cell(q.x, q.y) == t)
      && (forall x, y | (x, y) != (p.x, p.y) && (x, y) != (q.x, q.y) :: w'.board.Cell(x, y) == w.board.Cell(x, y))
      && q in w'.active && q in w'.fallen && p !in w'.active && p !in w'.armed && p !in w'.fallen
  {
    var b1 := w.board.SetCell(p.x, p.y, Empty);
    SetCellEffect(w.board, p.x, p.y, Empty);
    SetCellEffect(b1, q.x, q.y, t);
  }

  // ---------------------------------------------------------------- conservation

  /** A visit that does not crush keeps the multiset of kinds on a valid grid
      when shafts are at least 2 deep: every move is into an empty cell. A visit
      that crushes turns one Player into Empty and nothing else. */
  lemma StepContents(w: World, p: Pos, depth: int)
    requires w.board.Valid() && depth >= 2
    ensures Step(w, p, depth).0.board.Valid()
    ensures !Step(w, p, depth).1 ==> Contents(Step(w, p, depth).0.board) == Contents(w.board)
    ensures Step(w, p, depth).1 ==>
      Contents(Step(w, p, depth).0.board) + multiset{Player} == Contents(w.board) + multiset{Empty}
  {
    if p in w.active && CanMove(w.board, p, depth) {
      FallContents(w, p, depth);
    } else if Step(w, p, depth).1 {
      CrushContents(w, p, depth);
    } else {
      StepForgetsOrArms(w, p, depth);
    }
  }

  lemma FallContents(w: World, p: Pos, depth: int)
    requires w.board.Valid() && depth >= 2 && p in w.active && CanMove(w.board, p, depth)
    ensures !Step(w, p, depth).1 && Step(w, p, depth).0.board.Valid()
    ensures Contents(Step(w, p, depth).0.board) == Contents(w.board)
  {
    var b := w.board;
    StepFalls(w, p, depth);
    var q := Target(b, p, depth);
    FallEffect(w, p, q, b.Cell(p.x, p.y));
    MoveContents(b, p, q, b.Cell(p.x, p.y), Empty);
    MultisetCancel(Contents(Step(w, p, depth).0.board), Contents(b), multiset{Empty});
  }

  lemma CrushContents(w: World, p: Pos, depth: int)
    requires w.board.Valid() && Step(w, p, depth).1
    ensures Step(w, p, depth).0.board.Valid()
    ensures Contents(Step(w, p, depth).0.board) + multiset{Player} == Contents(w.board) + multiset{Empty}
  {
    StepCrush(w, p, depth);
    MoveContents(w.board, p, Pos(p.x, p.y + 1), Rock, Player);
  }

  /** The visits that move nothing leave the grid as it is. */
  lemma StepForgetsOrArms(w: World, p: Pos, depth: int)
    requires !(p in w.active && CanMove(w.board, p, depth)) && !Step(w, p, depth).1
    ensures Step(w, p, depth).0.board == w.board
  {
  }

  /** A whole pass that does not crush keeps the multiset of kinds; one that
      crushes turns exactly one Player into Empty. */
  lemma {:induction false} RunContents(w: World, order: seq<Pos>, depth: int)
    requires w.board.Valid() && depth >= 2
    ensures Run(w, order, depth).0.board.Valid()
    ensures !Run(w, order, depth).1 ==> Contents(Run(w, order, depth).0.board) == Contents(w.board)
    ensures Run(w, order, depth).1 ==>
      Contents(Run(w, order, depth).0.board) + multiset{Player} == Contents(w.board) + multiset{Empty}
    decreases |order|
  {
    if order != [] {
      StepContents(w, order[0], depth);
      var (w', crushed) := Step(w, order[0], depth);
      if !crushed {
        RunContents(w', order[1..], depth);
      }
    }
  }

  // ---------------------------------------------------------------- an example

  /** Two rocks stacked over an empty cell in a one-column well: the pass
      visits the upper rock first, finds it blocked by the lower one and forgets
      it; then the lower rock falls, and the emptied cell reactivates the upper
      rock for the next pass. Only one rock moves per pass. */
  lemma StackFallsOneAtATime()
    ensures var w := World(Board(1, 3, [[Rock], [Rock], [Empty]]), {Pos(0, 0), Pos(0, 1)}, {}, {});
      var (w', crushed) := Run(w, [Pos(0, 0), Pos(0, 1)], 2);
      && !crushed
      && w'.board.Cell(0, 0) == Rock && w'.board.Cell(0, 1) == Empty && w'.board.Cell(0, 2) == Rock
      && w'.active == {Pos(0, 0), Pos(0, 2)} && w'.armed == {} && w'.fallen == {Pos(0, 2)}
  {
    var b := Board(1, 3, [[Rock], [Rock], [Empty]]);
    var w := World(b, {Pos(0, 0), Pos(0, 1)}, {}, {});
    assert !ShaftOpen(b, -1, 0, 2) by { assert !b.InBounds(-1, 0); }
    assert !ShaftOpen(b, 1, 0, 2) by { assert !b.InBounds(1, 0); }
    var w1 := Forget(w, Pos(0, 0));
    assert Step(w, Pos(0, 0), 2) == (w1, false);
    assert [Pos(0, 0), Pos(0, 1)][1..] == [Pos(0, 1)];
    assert Step(w1, Pos(0, 1), 2) == (Fall(w1, Pos(0, 1), Pos(0, 2), Rock), false);
    FallEffect(w1, Pos(0, 1), Pos(0, 2), Rock);
    var w2 := Fall(w1, Pos(0, 1), Pos(0, 2), Rock);
    assert w2.board.Cell(0, 0) == Rock;
  }
}
