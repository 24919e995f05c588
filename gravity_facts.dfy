/** What a full-scan gravity pass does to the session. */
module GravityFacts {
  import opened Wrappers
  import opened Entities
  import opened Boards
  import opened GameSpec

  // ---------------------------------------------------------------- gravity's effect

  /** One cell of the scan: a rock or gem over empty ground or the player
      drops one row, leaving empty ground; landing on the player ends the
      game; a drop onto empty ground keeps the grid's kinds; nothing else
      changes. */
  lemma GravityCellEffect(s: Session, x: int, y: int)
    requires s.board.Valid()
    ensures var r, t, u := GravityCell(s, x, y), s.board.Cell(x, y), s.board.Cell(x, y + 1);
      && r.board.Valid() && r.board.width == s.board.width && r.board.height == s.board.height
      && r.exit == s.exit && r.player == s.player && r.collected == s.collected && r.bombs == s.bombs
      && r.win == s.win && r.totalDiamonds == s.totalDiamonds
      && (IsFaller(t) && (u == Empty || u == Player) ==> r.board.Cell(x, y) == Empty && r.board.Cell(x, y + 1) == t)
      && (!(IsFaller(t) && (u == Empty || u == Player)) ==> r.board == s.board)
      && (forall i, j | (i, j) != (x, y) && (i, j) != (x, y + 1) :: r.board.Cell(i, j) == s.board.Cell(i, j))
      && r.gameOver == (s.gameOver || (IsFaller(t) && u == Player))
      && (IsFaller(t) && u == Empty ==> Contents(r.board) == Contents(s.board))
  {
    var t, u := s.board.Cell(x, y), s.board.Cell(x, y + 1);
    if IsFaller(t) && (u == Empty || u == Player) {
      CellReads(s.board, x, y);
      CellReads(s.board, x, y + 1);
      SetTwoEffect(s.board, Pos(x, y), Empty, Pos(x, y + 1), t);
      if u == Empty {
        MoveContents(s.board, Pos(x, y), Pos(x, y + 1), t, Empty);
        MultisetCancel(Contents(s.board.SetCell(x, y, Empty).SetCell(x, y + 1, t)), Contents(s.board), multiset{Empty});
      }
    }
  }

  /** Rows 0 to Y of b are those of b0. */
  ghost predicate RowsKept(b0: Board, b: Board, Y: int) {
    forall x, y | y <= Y :: b.Cell(x, y) == b0.Cell(x, y)
  }

  /** Every cell of b holds what it held in b0, or empty ground, or the rock
      or gem that was directly above it in b0: nothing fell more than a row. */
  ghost predicate DropsAtMostOne(b0: Board, b: Board) {
    forall x, y {:trigger b.Cell(x, y)} :: b.Cell(x, y) == b0.Cell(x, y) || b.Cell(x, y) == Empty
                   || (IsFaller(b0.Cell(x, y - 1)) && b.Cell(x, y) == b0.Cell(x, y - 1))
  }

  /** Scanning the first m columns of row Y keeps the grid's shape and every
      field but the grid and the game-over flag. */
  lemma {:induction false} GravityRowShape(s: Session, Y: int, m: nat)
    requires s.board.Valid()
    ensures var r := GravityRow(s, Y, m);
      && r.board.Valid() && r.board.width == s.board.width && r.board.height == s.board.height
      && r.exit == s.exit && r.player == s.player && r.collected == s.collected && r.bombs == s.bombs
      && r.win == s.win && r.totalDiamonds == s.totalDiamonds
  {
    if m > 0 {
      GravityRowShape(s, Y, m - 1);
      GravityCellShape(GravityRow(s, Y, m - 1), m - 1, Y);
    }
  }

  /** Scanning the first m columns of row Y, when the rows up to Y are still
      as in s0: the rows above Y stay as in s0, and so do the unscanned cells
      of row Y. */
  lemma {:induction false} GravityRowKept(s0: Session, s: Session, Y: int, m: nat)
    requires s.board.Valid() && RowsKept(s0.board, s.board, Y)
    ensures var r := GravityRow(s, Y, m);
      && RowsKept(s0.board, r.board, Y - 1)
      && (forall x | !(0 <= x < m) :: r.board.Cell(x, Y) == s0.board.Cell(x, Y))
  {
    if m > 0 {
      GravityRowKept(s0, s, Y, m - 1);
      GravityRowShape(s, Y, m - 1);
      GravityCellKept(s0, GravityRow(s, Y, m - 1), Y, m);
    }
  }

  /** The step of GravityRowKept from m - 1 columns to m. */
  lemma GravityCellKept(s0: Session, cur: Session, Y: int, m: nat)
    requires m > 0 && cur.board.Valid() && RowsKept(s0.board, cur.board, Y - 1)
    requires forall x | !(0 <= x < m - 1) :: cur.board.Cell(x, Y) == s0.board.Cell(x, Y)
    ensures var r := GravityCell(cur, m - 1, Y);
      && RowsKept(s0.board, r.board, Y - 1)
      && (forall x | !(0 <= x < m) :: r.board.Cell(x, Y) == s0.board.Cell(x, Y))
  {
    var r := GravityCell(cur, m - 1, Y);
    GravityCellFrame(cur, m - 1, Y);
    forall x, y | y <= Y - 1
      ensures r.board.Cell(x, y) == s0.board.Cell(x, y)
    {
      assert r.board.Cell(x, y) == cur.board.Cell(x, y);
    }
    forall x | !(0 <= x < m)
      ensures r.board.Cell(x, Y) == s0.board.Cell(x, Y)
    {
      assert r.board.Cell(x, Y) == cur.board.Cell(x, Y);
    }
  }

  /** The next cell the row scan reaches is still as in s0. */
  lemma GravityRowNext(s0: Session, s: Session, Y: int, m: nat)
    requires s.board.Valid() && RowsKept(s0.board, s.board, Y)
    ensures GravityRow(s, Y, m).board.Cell(m, Y) == s0.board.Cell(m, Y)
  {
    GravityRowKept(s0, s, Y, m);
  }

  /** Scanning the first m columns of row Y, when the rows up to Y are still
      as in s0 and nothing has fallen more than a row: still nothing has. */
  lemma {:induction false} GravityRowDrops(s0: Session, s: Session, Y: int, m: nat)
    requires s.board.Valid() && RowsKept(s0.board, s.board, Y) && DropsAtMostOne(s0.board, s.board)
    ensures DropsAtMostOne(s0.board, GravityRow(s, Y, m).board)
  {
    if m > 0 {
      GravityRowDrops(s0, s, Y, m - 1);
      GravityRowShape(s, Y, m - 1);
      GravityRowNext(s0, s, Y, m - 1);
      GravityCellDrops(s0, GravityRow(s, Y, m - 1), m - 1, Y);
    }
  }

  /** One scan step at (x, Y), where the cell still holds what it held in
      s0, keeps every cell within one row of where it was in s0. */
  lemma GravityCellDrops(s0: Session, cur: Session, x: int, Y: int)
    requires cur.board.Valid() && DropsAtMostOne(s0.board, cur.board)
    requires cur.board.Cell(x, Y) == s0.board.Cell(x, Y)
    ensures DropsAtMostOne(s0.board, GravityCell(cur, x, Y).board)
  {
    var r := GravityCell(cur, x, Y);
    GravityCellFrame(cur, x, Y);
    forall i, j
      ensures r.board.Cell(i, j) == s0.board.Cell(i, j) || r.board.Cell(i, j) == Empty
              || (IsFaller(s0.board.Cell(i, j - 1)) && r.board.Cell(i, j) == s0.board.Cell(i, j - 1))
    {
      if (i, j) == (x, Y + 1) {
        assert j - 1 == Y;
      } else if (i, j) != (x, Y) {
        assert r.board.Cell(i, j) == cur.board.Cell(i, j);
      }
    }
  }

  /** One scan step keeps the grid's shape and every field but the grid and
      the game-over flag. */
  lemma GravityCellShape(s: Session, x: int, y: int)
    requires s.board.Valid()
    ensures var r := GravityCell(s, x, y);
      && r.board.Valid() && r.board.width == s.board.width && r.board.height == s.board.height
      && r.exit == s.exit && r.player == s.player && r.collected == s.collected && r.bombs == s.bombs
      && r.win == s.win && r.totalDiamonds == s.totalDiamonds
  {
    var t := s.board.Cell(x, y);
    SetCellEffect(s.board, x, y, Empty);
    SetCellEffect(s.board.SetCell(x, y, Empty), x, y + 1, t);
  }

  /** The cells one scan step writes, and what it writes there. */
  lemma GravityCellFrame(s: Session, x: int, y: int)
    requires s.board.Valid()
    ensures var r, t, u := GravityCell(s, x, y), s.board.Cell(x, y), s.board.Cell(x, y + 1);
      && (IsFaller(t) && (u == Empty || u == Player) ==> r.board.Cell(x, y) == Empty && r.board.Cell(x, y + 1) == t)
      && (!(IsFaller(t) && (u == Empty || u == Player)) ==> r.board == s.board)
      && (forall i, j | (i, j) != (x, y) && (i, j) != (x, y + 1) :: r.board.Cell(i, j) == s.board.Cell(i, j))
  {
    GravityCellEffect(s, x, y);
  }

  /** After the first n rows of the scan the rows not yet scanned are as in
      s0, and nothing has fallen more than a row. */
  lemma {:induction false} GravitySweepCells(s0: Session, h: int, w: nat, n: nat)
    requires s0.board.Valid()
    ensures var r := GravitySweep(s0, h, w, n);
      && r.board.Valid() && r.board.width == s0.board.width && r.board.height == s0.board.height
      && r.exit == s0.exit && r.player == s0.player && r.collected == s0.collected && r.bombs == s0.bombs
      && r.win == s0.win && r.totalDiamonds == s0.totalDiamonds
      && RowsKept(s0.board, r.board, h - 2 - n)
      && DropsAtMostOne(s0.board, r.board)
  {
    GravitySweepKept(s0, h, w, n);
    if n > 0 {
      GravitySweepCells(s0, h, w, n - 1);
      var prev, Y := GravitySweep(s0, h, w, n - 1), h - 1 - n;
      assert GravitySweep(s0, h, w, n) == GravityRow(prev, Y, w);
      GravityRowDrops(s0, prev, Y, w);
    } else {
      assert DropsAtMostOne(s0.board, s0.board);
    }
  }

  /** The shape part of GravitySweepCells: after n rows the grid keeps its
      size, the other fields are untouched, and the rows not yet reached are
      as they were. */
  lemma {:induction false} GravitySweepKept(s0: Session, h: int, w: nat, n: nat)
    requires s0.board.Valid()
    ensures var r := GravitySweep(s0, h, w, n);
      && r.board.Valid() && r.board.width == s0.board.width && r.board.height == s0.board.height
      && r.exit == s0.exit && r.player == s0.player && r.collected == s0.collected && r.bombs == s0.bombs
      && r.win == s0.win && r.totalDiamonds == s0.totalDiamonds
      && RowsKept(s0.board, r.board, h - 2 - n)
  {
    if n > 0 {
      GravitySweepKept(s0, h, w, n - 1);
      var prev, Y := GravitySweep(s0, h, w, n - 1), h - 1 - n;
      assert h - 2 - (n - 1) == Y && Y - 1 == h - 2 - n;
      assert GravitySweep(s0, h, w, n) == GravityRow(prev, Y, w);
      GravityRowShape(prev, Y, w);
      GravityRowKept(s0, prev, Y, w);
    }
  }

  /** A gravity pass moves each rock or gem at most one row down. */
  lemma GravityDropsAtMostOne(s: Session)
    requires s.board.Valid()
    ensures DropsAtMostOne(s.board, ApplyGravity(s).board)
  {
    if !s.Terminal() {
      GravitySweepCells(s, s.board.height, Columns(s.board), ScannedRows(s.board.height));
    } else {
      assert DropsAtMostOne(s.board, s.board);
    }
  }

  /** A gravity pass keeps the session consistent: unless it crushes the
      player, the player is still the one player cell and the exit is still
      an exit. */
  lemma ApplyGravityConsistent(s: Session)
    requires Consistent(s)
    ensures Consistent(ApplyGravity(s))
  {
    if !s.Terminal() {
      var h, n := s.board.height, ScannedRows(s.board.height);
      GravitySweepStatus(s, n);
      GravitySweepKept(s, h, Columns(s.board), n);
    }
  }

  /** Any number of passes of the time loop keeps the session consistent. */
  lemma {:induction false} GravitateConsistent(s: Session, n: nat)
    requires Consistent(s)
    ensures Consistent(Gravitate(s, n))
  {
    if n > 0 {
      GravitateConsistent(s, n - 1);
      ApplyGravityConsistent(Gravitate(s, n - 1));
    }
  }

  /** No cell but p holds the player. */
  ghost predicate OnlyPlayerAt(b: Board, p: Pos) {
    forall x, y | (x, y) != (p.x, p.y) :: b.Cell(x, y) != Player
  }

  /** The player's cell holds the player, or, once crushed, a rock or gem. */
  predicate PlayerCell(b: Board, p: Pos, crushed: bool) {
    if crushed then IsFaller(b.Cell(p.x, p.y)) else b.Cell(p.x, p.y) == Player
  }

  /** One scan step sets the game-over flag exactly when it drops a rock or
      gem onto the player. */
  lemma GravityCellCrush(s: Session, x: int, y: int)
    ensures GravityCell(s, x, y).gameOver
      == (s.gameOver || (IsFaller(s.board.Cell(x, y)) && s.board.Cell(x, y + 1) == Player))
  {
  }

  /** One scan step, with p the only cell holding the player, keeps p the
      only one and updates the player's cell as a crush or no crush demands. */
  lemma GravityCellPlayer(s: Session, p: Pos, x: int, y: int)
    requires s.board.Valid() && OnlyPlayerAt(s.board, p) && PlayerCell(s.board, p, s.gameOver)
    requires s.gameOver ==> (x, y) != (p.x, p.y)
    requires IsFaller(s.board.Cell(x, y)) ==> (x, y) != (p.x, p.y)
    ensures var r := GravityCell(s, x, y);
      OnlyPlayerAt(r.board, p) && PlayerCell(r.board, p, r.gameOver)
  {
    GravityCellFrame(s, x, y);
    GravityCellCrush(s, x, y);
    var r := GravityCell(s, x, y);
    var t, u := s.board.Cell(x, y), s.board.Cell(x, y + 1);
    if IsFaller(t) && (u == Empty || u == Player) {
      forall i, j | (i, j) != (p.x, p.y)
        ensures r.board.Cell(i, j) != Player
      {
        if (i, j) != (x, y) && (i, j) != (x, y + 1) {
          assert r.board.Cell(i, j) == s.board.Cell(i, j);
        }
      }
      if u == Empty {
        assert (x, y + 1) != (p.x, p.y);
        assert r.board.Cell(p.x, p.y) == s.board.Cell(p.x, p.y);
      }
    }
  }

  /** Scanning the first m columns of row Y never makes another cell hold
      the player, and crushes the player exactly when row Y is the one above
      the player and the rock or gem above the player (as in s0) has been
      reached. */
  lemma {:induction false} GravityRowPlayer(s0: Session, s: Session, p: Pos, Y: int, m: nat)
    requires s.board.Valid() && RowsKept(s0.board, s.board, Y)
    requires OnlyPlayerAt(s.board, p) && PlayerCell(s.board, p, s.gameOver)
    requires s.gameOver ==> Y < p.y - 1
    ensures var r := GravityRow(s, Y, m);
      && OnlyPlayerAt(r.board, p) && PlayerCell(r.board, p, r.gameOver)
      && r.gameOver == (s.gameOver || (Y == p.y - 1 && 0 <= p.x < m && IsFaller(s0.board.Cell(p.x, Y))))
  {
    if m > 0 {
      var cur := GravityRow(s, Y, m - 1);
      GravityRowPlayer(s0, s, p, Y, m - 1);
      GravityRowShape(s, Y, m - 1);
      GravityRowNext(s0, s, Y, m - 1);
      assert GravityRow(s, Y, m) == GravityCell(cur, m - 1, Y);
      GravityRowPlayerStep(s0, s.gameOver, cur, p, Y, m);
    }
  }

  /** The step of GravityRowPlayer from m - 1 columns to m, where cur is the
      session after m - 1 columns and wasOver the flag before the row. */
  lemma GravityRowPlayerStep(s0: Session, wasOver: bool, cur: Session, p: Pos, Y: int, m: nat)
    requires m > 0
    requires wasOver ==> Y < p.y - 1
    requires cur.board.Valid() && cur.board.Cell(m - 1, Y) == s0.board.Cell(m - 1, Y)
    requires OnlyPlayerAt(cur.board, p) && PlayerCell(cur.board, p, cur.gameOver)
    requires cur.gameOver == (wasOver || (Y == p.y - 1 && 0 <= p.x < m - 1 && IsFaller(s0.board.Cell(p.x, Y))))
    ensures var r := GravityCell(cur, m - 1, Y);
      && OnlyPlayerAt(r.board, p) && PlayerCell(r.board, p, r.gameOver)
      && r.gameOver == (wasOver || (Y == p.y - 1 && 0 <= p.x < m && IsFaller(s0.board.Cell(p.x, Y))))
  {
    var x := m - 1;
    assert cur.gameOver ==> (x, Y) != (p.x, p.y);
    assert IsFaller(cur.board.Cell(x, Y)) ==> (x, Y) != (p.x, p.y);
    GravityCellPlayer(cur, p, x, Y);
    GravityRowCrushStep(s0, wasOver, cur, p, Y, m);
  }

  /** The game-over part of GravityRowPlayerStep. */
  lemma GravityRowCrushStep(s0: Session, wasOver: bool, cur: Session, p: Pos, Y: int, m: nat)
    requires m > 0
    requires cur.board.Cell(m - 1, Y) == s0.board.Cell(m - 1, Y)
    requires OnlyPlayerAt(cur.board, p) && PlayerCell(cur.board, p, cur.gameOver)
    requires cur.gameOver == (wasOver || (Y == p.y - 1 && 0 <= p.x < m - 1 && IsFaller(s0.board.Cell(p.x, Y))))
    ensures GravityCell(cur, m - 1, Y).gameOver
      == (wasOver || (Y == p.y - 1 && 0 <= p.x < m && IsFaller(s0.board.Cell(p.x, Y))))
  {
    var x := m - 1;
    GravityCellCrush(cur, x, Y);
    if !cur.gameOver {
      assert cur.board.Cell(x, Y + 1) == Player <==> (x, Y + 1) == (p.x, p.y);
    } else {
      assert cur.board.Cell(x, Y + 1) != Player;
    }
  }

  /** Scanning a row leaves an exit cell as it is. */
  lemma {:induction false} GravityRowExit(s: Session, e: Pos, Y: int, m: nat)
    requires s.board.Valid() && IsExit(s.board.Cell(e.x, e.y))
    ensures GravityRow(s, Y, m).board.Cell(e.x, e.y) == s.board.Cell(e.x, e.y)
  {
    if m > 0 {
      GravityRowExit(s, e, Y, m - 1);
      GravityRowShape(s, Y, m - 1);
      GravityCellExit(GravityRow(s, Y, m - 1), e, m - 1, Y);
    }
  }

  /** One scan step leaves an exit cell as it is. */
  lemma GravityCellExit(s: Session, e: Pos, x: int, y: int)
    requires s.board.Valid() && IsExit(s.board.Cell(e.x, e.y))
    ensures GravityCell(s, x, y).board.Cell(e.x, e.y) == s.board.Cell(e.x, e.y)
  {
    GravityCellFrame(s, x, y);
    if (e.x, e.y) == (x, y) || (e.x, e.y) == (x, y + 1) {
      assert GravityCell(s, x, y).board == s.board;
    }
  }

  /** Scanning a row never clears the game-over flag, and unless it sets it
      the grid holds the same kinds as before. */
  lemma {:induction false} GravityRowContents(s: Session, Y: int, m: nat)
    requires s.board.Valid()
    ensures var r := GravityRow(s, Y, m);
      && (s.gameOver ==> r.gameOver)
      && (!r.gameOver ==> Contents(r.board) == Contents(s.board))
  {
    if m > 0 {
      GravityRowContents(s, Y, m - 1);
      GravityRowShape(s, Y, m - 1);
      GravityCellContents(GravityRow(s, Y, m - 1), m - 1, Y);
    }
  }

  /** One scan step never clears the game-over flag, and unless it sets it
      the grid holds the same kinds as before. */
  lemma GravityCellContents(s: Session, x: int, y: int)
    requires s.board.Valid()
    ensures var r := GravityCell(s, x, y);
      && (s.gameOver ==> r.gameOver)
      && (!r.gameOver ==> Contents(r.board) == Contents(s.board))
  {
    GravityCellEffect(s, x, y);
  }

  /** The state of the scan of a running, consistent session s0 once it has
      reached row Y: the player is crushed exactly when the row above the
      player has been scanned and held a rock or gem above the player; the
      player's cell is as the crush flag demands and no other cell holds the
      player; the exit cell is untouched; and without a crush the grid holds
      the same kinds as s0's. */
  ghost predicate SweepStatus(s0: Session, r: Session, Y: int) {
    var p, e := s0.player, s0.exit;
    && OnlyPlayerAt(r.board, p) && PlayerCell(r.board, p, r.gameOver)
    && r.gameOver == (p.y - 1 >= Y && IsFaller(s0.board.Cell(p.x, p.y - 1)))
    && r.board.Cell(e.x, e.y) == s0.board.Cell(e.x, e.y)
    && (!r.gameOver ==> Contents(r.board) == Contents(s0.board))
  }

  /** After the first n rows of the scan, that is once row h - 1 - n has
      been scanned, the session is in the state SweepStatus describes. */
  lemma {:induction false} GravitySweepStatus(s0: Session, n: nat)
    requires Consistent(s0) && !s0.Terminal() && n <= ScannedRows(s0.board.height)
    ensures SweepStatus(s0, GravitySweep(s0, s0.board.height, Columns(s0.board), n), s0.board.height - 1 - n)
  {
    if n == 0 {
      assert OnlyPlayerAt(s0.board, s0.player);
    } else {
      GravitySweepStatus(s0, n - 1);
      GravitySweepStatusNext(s0, n);
    }
  }

  /** The step of GravitySweepStatus from n - 1 rows to n. */
  lemma GravitySweepStatusNext(s0: Session, n: nat)
    requires s0.board.Valid() && IsExit(s0.board.Cell(s0.exit.x, s0.exit.y)) && n > 0
    requires SweepStatus(s0, GravitySweep(s0, s0.board.height, Columns(s0.board), n - 1), s0.board.height - n)
    ensures SweepStatus(s0, GravitySweep(s0, s0.board.height, Columns(s0.board), n), s0.board.height - 1 - n)
  {
    var h, w := s0.board.height, Columns(s0.board);
    var prev, Y := GravitySweep(s0, h, w, n - 1), h - 1 - n;
    GravitySweepKept(s0, h, w, n - 1);
    assert h - 2 - (n - 1) == Y;
    assert GravitySweep(s0, h, w, n) == GravityRow(prev, Y, w);
    GravitySweepStatusStep(s0, prev, Y, w);
  }

  /** Scanning row Y of a session prev in which the rows from Y up are still
      as in s0. */
  lemma GravitySweepStatusStep(s0: Session, prev: Session, Y: int, w: nat)
    requires s0.board.Valid() && w == Columns(s0.board) && IsExit(s0.board.Cell(s0.exit.x, s0.exit.y))
    requires prev.board.Valid() && RowsKept(s0.board, prev.board, Y)
    requires SweepStatus(s0, prev, Y + 1)
    ensures SweepStatus(s0, GravityRow(prev, Y, w), Y)
  {
    GravityRowPlayer(s0, prev, s0.player, Y, w);
    GravityRowExit(prev, s0.exit, Y, w);
    GravityRowContents(prev, Y, w);
  }

  // ---------------------------------------------------------------- as written

  /** The pass as written throws on every running game: the renderer has no
      `grid` property, so reading its length fails. */
  lemma ApplyGravityAsWrittenThrows(s: Session)
    requires !s.Terminal()
    ensures ApplyGravityAsWritten(s, RendererGridProperty) == Err(TypeError)
  {
  }

  /** Given the renderer's own rows in place of the missing property, the pass
      as written is exactly the pass the rest of the model uses. */
  lemma ApplyGravityAsIntended(s: Session)
    requires s.board.Valid()
    ensures ApplyGravityAsWritten(s, Some(s.board.rows)) == Ok(ApplyGravity(s))
  {
    if !s.Terminal() && s.board.height > 0 {
      assert |s.board.rows[0]| == Columns(s.board);
    }
  }

  // ---------------------------------------------------------------- a falling column

  /** What the scan step at (x, Y) leaves there and in the cell below, when
      (x, Y) held t and the cell below held u: a rock or gem over empty ground
      or the player moves down a row; anything else stays. */
  predicate StepLeaves(b: Board, x: int, Y: int, t: Kind, u: Kind) {
    if IsFaller(t) && (u == Empty || u == Player) then b.Cell(x, Y) == Empty && b.Cell(x, Y + 1) == t
    else b.Cell(x, Y) == t && b.Cell(x, Y + 1) == u
  }

  /** Column x of row Y after the scan's first m columns, when (x, Y) held t
      and the cell below held u: as its own scan step leaves it once
      scanned, untouched before. */
  predicate ColumnAfter(b: Board, x: int, Y: int, m: int, t: Kind, u: Kind) {
    if x < m then StepLeaves(b, x, Y, t, u) else b.Cell(x, Y) == t && b.Cell(x, Y + 1) == u
  }

  /** Scanning the first m columns of row Y leaves column x as ColumnAfter
      says, whatever the other columns did, since each scan step writes its
      own column only. */
  lemma {:induction false} GravityRowColumn(s: Session, Y: int, m: nat, x: int)
    ensures ColumnAfter(GravityRow(s, Y, m).board, x, Y, m, s.board.Cell(x, Y), s.board.Cell(x, Y + 1))
  {
    if m > 0 {
      GravityRowColumn(s, Y, m - 1, x);
      GravityColumnStep(GravityRow(s, Y, m - 1), GravityRow(s, Y, m), Y, m, x, s.board.Cell(x, Y), s.board.Cell(x, Y + 1));
    }
  }

  /** The step of GravityRowColumn: the scan step at column m - 1 of row Y. */
  lemma GravityColumnStep(cur: Session, next: Session, Y: int, m: nat, x: int, t: Kind, u: Kind)
    requires m > 0 && next == GravityCell(cur, m - 1, Y)
    requires ColumnAfter(cur.board, x, Y, m - 1, t, u)
    ensures ColumnAfter(next.board, x, Y, m, t, u)
  {
    GravityCellWrites(cur, m - 1, Y);
  }

  /** One scan step writes (x, y) and (x, y + 1) only, and leaves there what
      StepLeaves says, whether or not the grid is well formed. */
  lemma GravityCellWrites(s: Session, x: int, y: int)
    ensures var r, t, u := GravityCell(s, x, y).board, s.board.Cell(x, y), s.board.Cell(x, y + 1);
      && (forall i, j | (i, j) != (x, y) && (i, j) != (x, y + 1) :: r.Cell(i, j) == s.board.Cell(i, j))
      && StepLeaves(r, x, y, t, u)
  {
    var t, u := s.board.Cell(x, y), s.board.Cell(x, y + 1);
    if IsFaller(t) && (u == Empty || u == Player) {
      SetCellReads(s.board, x, y, Empty);
      SetCellReads(s.board.SetCell(x, y, Empty), x, y + 1, t);
    }
  }

  /** Scanning row Y writes only rows Y and Y + 1. */
  lemma {:induction false} GravityRowOther(s: Session, Y: int, m: nat, x: int, y: int)
    requires s.board.Valid() && y != Y && y != Y + 1
    ensures GravityRow(s, Y, m).board.Cell(x, y) == s.board.Cell(x, y)
  {
    if m > 0 {
      GravityRowOther(s, Y, m - 1, x, y);
      GravityRowShape(s, Y, m - 1);
      GravityCellFrame(GravityRow(s, Y, m - 1), m - 1, Y);
    }
  }

  /** Column x of b0 holds rocks or gems from row top to row bot over empty
      ground at row bot + 1. */
  ghost predicate FallingColumn(b0: Board, x: int, top: int, bot: int) {
    && 0 <= x < b0.width && 0 <= top <= bot && bot + 1 < b0.height
    && (forall y | top <= y <= bot :: IsFaller(b0.Cell(x, y)))
    && b0.Cell(x, bot + 1) == Empty
  }

  /** The falling column once the scan has reached row Y: every rock or gem
      at or below Y has moved down a row; the column's cell at row Y, if it is
      within the column or the ground under it, is empty; and once the scan
      has gone past the column's top, the top cell is empty unless a rock or
      gem sat right above it. */
  ghost predicate ColumnStatus(b0: Board, b: Board, x: int, top: int, bot: int, Y: int) {
    && (forall y | top <= y <= bot && Y <= y :: b.Cell(x, y + 1) == b0.Cell(x, y))
    && (top <= Y <= bot + 1 ==> b.Cell(x, Y) == Empty)
    && (Y < top && !IsFaller(b0.Cell(x, top - 1)) ==> b.Cell(x, top) == Empty)
  }

  /** Scanning row Y of a session prev in which the rows up to Y are still as
      in s0 moves the falling column on by one row. */
  lemma ColumnStep(s0: Session, prev: Session, next: Session, Y: int, Z: int, w: nat, x: int, top: int, bot: int)
    requires 0 <= x < w && top <= bot && Z == Y + 1
    requires top <= Y <= bot ==> IsFaller(s0.board.Cell(x, Y))
    requires Y == bot + 1 ==> s0.board.Cell(x, Y) == Empty
    requires prev.board.Valid() && RowsKept(s0.board, prev.board, Y)
    requires ColumnStatus(s0.board, prev.board, x, top, bot, Z)
    requires next == GravityRow(prev, Y, w)
    ensures ColumnStatus(s0.board, next.board, x, top, bot, Y)
  {
    var r := next.board;
    GravityRowColumn(prev, Y, w, x);
    assert prev.board.Cell(x, Y) == s0.board.Cell(x, Y);
    forall y | top <= y <= bot && Y <= y
      ensures r.Cell(x, y + 1) == s0.board.Cell(x, y)
    {
      if y != Y {
        GravityRowOther(prev, Y, w, x, y + 1);
      }
    }
    if Y + 1 < top {
      GravityRowOther(prev, Y, w, x, top);
    }
  }

  /** After the first n rows of the scan of s0 the falling column is in the
      state ColumnStatus describes for row h - 1 - n. */
  lemma {:induction false} GravitySweepColumn(s0: Session, n: nat, x: int, top: int, bot: int)
    requires s0.board.Valid() && FallingColumn(s0.board, x, top, bot)
    requires n <= ScannedRows(s0.board.height)
    ensures var h := s0.board.height;
      ColumnStatus(s0.board, GravitySweep(s0, h, Columns(s0.board), n).board, x, top, bot, h - 1 - n)
  {
    if n > 0 {
      GravitySweepColumn(s0, n - 1, x, top, bot);
      GravitySweepColumnNext(s0, n, x, top, bot);
    }
  }

  /** The step of GravitySweepColumn from n - 1 rows to n. */
  lemma GravitySweepColumnNext(s0: Session, n: nat, x: int, top: int, bot: int)
    requires s0.board.Valid() && FallingColumn(s0.board, x, top, bot) && n > 0
    requires var h := s0.board.height;
      ColumnStatus(s0.board, GravitySweep(s0, h, Columns(s0.board), n - 1).board, x, top, bot, h - n)
    ensures var h := s0.board.height;
      ColumnStatus(s0.board, GravitySweep(s0, h, Columns(s0.board), n).board, x, top, bot, h - 1 - n)
  {
    var h, w := s0.board.height, Columns(s0.board);
    var prev, Y := GravitySweep(s0, h, w, n - 1), h - 1 - n;
    GravitySweepKept(s0, h, w, n - 1);
    assert h - 2 - (n - 1) == Y;
    assert top <= Y <= bot ==> IsFaller(s0.board.Cell(x, Y));
    ColumnStep(s0, prev, GravitySweep(s0, h, w, n), Y, h - n, w, x, top, bot);
  }

  /** A stack of rocks and gems over empty ground falls as one in a single
      pass: the scan runs bottom-up, so each one drops into the cell the one
      below has just left. Every cell of the stack moves down a row, and the
      stack's top cell is left empty unless another rock or gem sat on it
      (that one drops into it). */
  lemma ColumnFalls(s: Session, x: int, top: int, bot: int)
    requires s.board.Valid() && !s.Terminal()
    requires 0 <= x < s.board.width && 0 <= top <= bot && bot + 1 < s.board.height
    requires forall y | top <= y <= bot :: IsFaller(s.board.Cell(x, y))
    requires s.board.Cell(x, bot + 1) == Empty
    ensures forall y | top <= y <= bot :: ApplyGravity(s).board.Cell(x, y + 1) == s.board.Cell(x, y)
    ensures top == 0 || !IsFaller(s.board.Cell(x, top - 1)) ==> ApplyGravity(s).board.Cell(x, top) == Empty
  {
    GravitySweepColumn(s, ScannedRows(s.board.height), x, top, bot);
  }

  /** Once the game is over or won, the time loop's passes change nothing. */
  lemma {:induction false} GravitateTerminal(s: Session, n: nat)
    requires s.Terminal()
    ensures Gravitate(s, n) == s
  {
    if n > 0 {
      GravitateTerminal(s, n - 1);
    }
  }
}
