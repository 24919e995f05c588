/** The incremental gravity engine: three coordinate sets updated in place
    and a pass that visits the active fallers top-down, moving them on the
    renderer's grid. Each method is proved against the functions of GravitySpec. */
module GravityEngine {
  import opened Entities
  import opened Boards
  import opened Renderer
  import opened GravitySpec

  /** The first position of s in row-major order. */
  method LeastOf(s: set<Pos>) returns (m: Pos)
    requires s != {}
    ensures m == Least(s)
  {
    m :| m in s;
    var todo := s - {m};
    while todo != {}
      invariant todo <= s && m in s && m !in todo
      invariant forall q | q in s && q !in todo :: q == m || Before(m, q)
      decreases |todo|
    {
      var q :| q in todo;
      BeforeTotal(q, m);
      if Before(q, m) {
        m := q;
      }
      todo := todo - {q};
    }
    LeastUnique(m, Least(s), s);
  }

  /** The snapshot of a set of positions, sorted by row and then by column. */
  method RowMajorOrder(s: set<Pos>) returns (order: seq<Pos>)
    ensures order == SortedOf(s)
  {
    order := [];
    var rest := s;
    while rest != {}
      invariant order + SortedOf(rest) == SortedOf(s)
      decreases |rest|
    {
      var m := LeastOf(rest);
      assert SortedOf(rest) == [m] + SortedOf(rest - {m});
      order := order + [m];
      rest := rest - {m};
    }
  }

  class GravityManager {
    const renderer: LevelRenderer
    /** How deep a side shaft must be for a blocked faller to slide into it. */
    const minSideShaftDepth: int
    var activeFallers: set<Pos>
    var armedWaitingForPlayerToLeave: set<Pos>
    var hasFallenAtLeastOnce: set<Pos>

    /** The engine's state together with the grid it works on. */
    function State(): World
      reads this, renderer
    {
      World(renderer.Grid(), activeFallers, armedWaitingForPlayerToLeave, hasFallenAtLeastOnce)
    }

    /** The game builds it with a shaft depth of 2. */
    constructor (renderer: LevelRenderer, minSideShaftDepth: int)
      ensures this.renderer == renderer && this.minSideShaftDepth == minSideShaftDepth
      ensures activeFallers == {} && armedWaitingForPlayerToLeave == {} && hasFallenAtLeastOnce == {}
    {
      this.renderer := renderer;
      this.minSideShaftDepth := minSideShaftDepth;
      activeFallers, armedWaitingForPlayerToLeave, hasFallenAtLeastOnce := {}, {}, {};
    }

    method ForgetStateAt(x: int, y: int)
      modifies this
      ensures State() == Forget(old(State()), Pos(x, y))
    {
      var k := Pos(x, y);
      activeFallers := activeFallers - {k};
      armedWaitingForPlayerToLeave := armedWaitingForPlayerToLeave - {k};
      hasFallenAtLeastOnce := hasFallenAtLeastOnce - {k};
    }

    method ActivateFallerAt(x: int, y: int)
      modifies this
      ensures State() == Activate(old(State()), x, y)
    {
      if !renderer.InBounds(x, y) {
        return;
      }
      if !CanFall(renderer.Cell(x, y)) {
        return;
      }
      activeFallers := activeFallers + {Pos(x, y)};
    }

    method OnCellEmptied(x: int, y: int)
      modifies this
      ensures State() == Emptied(old(State()), x, y)
    {
      var aboveY := y - 1;
      if !renderer.InBounds(x, aboveY) {
        return;
      }
      var leftX, rightX := x - 1, x + 1;
      if renderer.InBounds(leftX, y) && CanFall(renderer.Cell(leftX, y)) {
        activeFallers := activeFallers + {Pos(leftX, y)};
      }
      if renderer.InBounds(rightX, y) && CanFall(renderer.Cell(rightX, y)) {
        activeFallers := activeFallers + {Pos(rightX, y)};
      }
      if !CanFall(renderer.Cell(x, aboveY)) {
        return;
      }
      var aboveKey := Pos(x, aboveY);
      armedWaitingForPlayerToLeave := armedWaitingForPlayerToLeave - {aboveKey};
      activeFallers := activeFallers + {aboveKey};
    }

    method OnPlayerEnteredCell(x: int, y: int)
      modifies this
      ensures State() == Activate(old(State()), x, y - 1)
    {
      ActivateFallerAt(x, y - 1);
    }

    /** Starts over: every faller on the grid is active, and nothing is armed
        or has fallen. */
    method Initialize()
      requires renderer.Valid()
      modifies this
      ensures activeFallers == FallersOf(renderer.Grid())
      ensures armedWaitingForPlayerToLeave == {} && hasFallenAtLeastOnce == {}
    {
      activeFallers, armedWaitingForPlayerToLeave, hasFallenAtLeastOnce := {}, {}, {};
      for y := 0 to renderer.height
        invariant activeFallers == FallersBefore(renderer.Grid(), 0, y)
        invariant armedWaitingForPlayerToLeave == {} && hasFallenAtLeastOnce == {}
      {
        ActivateRow(y);
      }
      FallersBeforeAll(renderer.Grid());
    }

    /** The row loop of Initialize: activates the fallers of row y. */
    method ActivateRow(y: int)
      requires renderer.Valid() && 0 <= y < renderer.height
      requires activeFallers == FallersBefore(renderer.Grid(), 0, y)
      modifies this`activeFallers
      ensures activeFallers == FallersBefore(renderer.Grid(), 0, y + 1)
      ensures armedWaitingForPlayerToLeave == old(armedWaitingForPlayerToLeave)
      ensures hasFallenAtLeastOnce == old(hasFallenAtLeastOnce)
    {
      ghost var b := renderer.Grid();
      for x := 0 to renderer.width
        invariant activeFallers == FallersBefore(b, x, y)
      {
        if CanFall(renderer.Cell(x, y)) {
          activeFallers := activeFallers + {Pos(x, y)};
        }
        FallersBeforeStep(b, x, y);
      }
      FallersBeforeRow(b, y);
    }

    method OnPlayerMoved(oldX: int, oldY: int, newX: int, newY: int)
      modifies this
      ensures State() == Activate(Emptied(old(State()), oldX, oldY), newX, newY - 1)
    {
      OnCellEmptied(oldX, oldY);
      OnPlayerEnteredCell(newX, newY);
    }

    method OnRockPushed(fromX: int, fromY: int, toX: int, toY: int)
      modifies this
      ensures State() == Activate(Emptied(Forget(old(State()), Pos(fromX, fromY)), fromX, fromY), toX, toY)
    {
      ForgetStateAt(fromX, fromY);
      OnCellEmptied(fromX, fromY);
      ActivateFallerAt(toX, toY);
    }

    method OnCellCleared(x: int, y: int)
      modifies this
      ensures State() == Emptied(Forget(old(State()), Pos(x, y)), x, y)
    {
      ForgetStateAt(x, y);
      OnCellEmptied(x, y);
    }

    /** Whether column targetX is empty and on the grid for minSideShaftDepth
        rows from row y down. */
    method CanFallIntoSideShaft(targetX: int, y: int) returns (r: bool)
      ensures r == ShaftOpen(renderer.Grid(), targetX, y, minSideShaftDepth)
    {
      var d := 0;
      while d < minSideShaftDepth
        invariant 0 <= d && (d <= minSideShaftDepth || d == 0)
        invariant ShaftOpen(renderer.Grid(), targetX, y, d)
      {
        var yy := y + d;
        if !renderer.InBounds(targetX, yy) {
          assert !renderer.Grid().InBounds(targetX, yy);
          return false;
        }
        if renderer.Cell(targetX, yy) != Empty {
          assert renderer.Grid().Cell(targetX, yy) != Empty;
          return false;
        }
        d := d + 1;
      }
      return true;
    }

    /** Moves the faller t from (x, y) to (tx, y + 1) with its records. */
    method MoveFaller(x: int, y: int, tx: int, t: Kind)
      requires renderer.Valid()
      modifies this, renderer
      ensures renderer.Valid()
      ensures State() == Fall(old(State()), Pos(x, y), Pos(tx, y + 1), t)
    {
      var from, to := Pos(x, y), Pos(tx, y + 1);
      renderer.SetCell(x, y, Empty);
      renderer.SetCell(tx, y + 1, t);
      activeFallers := activeFallers - {from} + {to};
      armedWaitingForPlayerToLeave := armedWaitingForPlayerToLeave - {from};
      hasFallenAtLeastOnce := hasFallenAtLeastOnce - {from} + {to};
      OnCellEmptied(x, y);
    }

    /** The faller t at item, above a cell on the grid that is not the player,
        falls, slides into a side shaft, or comes to rest. */
    method SettleFaller(item: Pos, t: Kind)
      requires renderer.Valid()
      modifies this, renderer
      ensures renderer.Valid()
      ensures State() == Settle(old(State()), item, t, minSideShaftDepth)
    {
      var x, y := item.x, item.y;
      ghost var w := State();
      if renderer.Cell(x, y + 1) == Empty {
        MoveFaller(x, y, x, t);
        return;
      }
      var canLeft := CanFallIntoSideShaft(x - 1, y);
      var canRight := false;
      if !canLeft {
        canRight := CanFallIntoSideShaft(x + 1, y);
      }
      if canLeft || canRight {
        var targetX := if canLeft then x - 1 else x + 1;
        assert Settle(w, item, t, minSideShaftDepth) == Fall(w, item, Pos(targetX, y + 1), t);
        MoveFaller(x, y, targetX, t);
        return;
      }
      ForgetStateAt(x, y);
    }

    /** One visit of the pass; answers whether the player was crushed. */
    method ProcessItem(item: Pos) returns (crushed: bool)
      requires renderer.Valid()
      modifies this, renderer
      ensures renderer.Valid()
      ensures (State(), crushed) == Step(old(State()), item, minSideShaftDepth)
    {
      crushed := false;
      if item !in activeFallers {
        return;
      }
      var x, y := item.x, item.y;
      if !renderer.InBounds(x, y) {
        ForgetStateAt(x, y);
        return;
      }
      var t := renderer.Cell(x, y);
      if !CanFall(t) {
        ForgetStateAt(x, y);
        return;
      }
      var belowY := y + 1;
      if !renderer.InBounds(x, belowY) {
        ForgetStateAt(x, y);
        return;
      }
      var below := renderer.Cell(x, belowY);
      if below == Player {
        crushed := LandOnPlayer(item, t);
        return;
      }
      SettleFaller(item, t);
    }

    /** A faller of kind t at item with the player right below: a rock that
        has fallen before crushes the player; otherwise it waits, armed, for
        the player to leave. */
    method LandOnPlayer(item: Pos, t: Kind) returns (crushed: bool)
      requires renderer.Valid()
      modifies this, renderer
      ensures renderer.Valid()
      ensures var w := old(State());
        (State(), crushed) ==
          if t != Gem && item in w.fallen then (Crush(w, item, t), true)
          else (w.(active := w.active - {item}, armed := w.armed + {item}), false)
    {
      if t != Gem && item in hasFallenAtLeastOnce {
        renderer.SetCell(item.x, item.y, Empty);
        renderer.SetCell(item.x, item.y + 1, t);
        ForgetStateAt(item.x, item.y);
        return true;
      }
      activeFallers := activeFallers - {item};
      armedWaitingForPlayerToLeave := armedWaitingForPlayerToLeave + {item};
      crushed := false;
    }

    /** One gravity pass over a snapshot of the active set in row-major order;
        answers whether the player was crushed, which ends the pass. */
    method Tick() returns (killed: bool)
      requires renderer.Valid()
      modifies this, renderer
      ensures renderer.Valid()
      ensures (State(), killed) == Run(old(State()), SortedOf(old(activeFallers)), minSideShaftDepth)
    {
      var toProcess := RowMajorOrder(activeFallers);
      ghost var start := State();
      for i := 0 to |toProcess|
        invariant renderer.Valid()
        invariant Run(start, toProcess, minSideShaftDepth) == Run(State(), toProcess[i..], minSideShaftDepth)
      {
        assert toProcess[i..][1..] == toProcess[i + 1..];
        var crushed := ProcessItem(toProcess[i]);
        if crushed {
          return true;
        }
      }
      return false;
    }
  }

  /** The fallers before column x of row y in row-major order. */
  ghost function FallersBefore(b: Board, x: int, y: int): set<Pos> {
    set xx, yy | 0 <= xx < b.width && 0 <= yy < b.height && Before(Pos(xx, yy), Pos(x, y)) && CanFall(b.Cell(xx, yy))
      :: Pos(xx, yy)
  }

  lemma FallersBeforeStep(b: Board, x: int, y: int)
    requires 0 <= x < b.width && 0 <= y < b.height
    ensures FallersBefore(b, x + 1, y)
      == FallersBefore(b, x, y) + (if CanFall(b.Cell(x, y)) then {Pos(x, y)} else {})
  {
  }

  lemma FallersBeforeRow(b: Board, y: int)
    ensures FallersBefore(b, b.width, y) == FallersBefore(b, 0, y + 1)
  {
  }

  lemma FallersBeforeAll(b: Board)
    ensures FallersBefore(b, 0, b.height) == FallersOf(b)
  {
  }
}
