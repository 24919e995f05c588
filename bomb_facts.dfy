/** What a bomb does to the session, cell by cell and counter by counter. */
module BombFacts {
  import opened Entities
  import opened Boards
  import opened GameSpec

  // ---------------------------------------------------------------- the bomb's effect

  /** q lies in the 3x3 block centred on c. */
  predicate InBlock(c: Pos, q: Pos) {
    c.x - 1 <= q.x <= c.x + 1 && c.y - 1 <= q.y <= c.y + 1
  }

  /** The position of q in the blast's visiting order. */
  function BlockIndex(c: Pos, q: Pos): int {
    3 * (q.y - c.y + 1) + (q.x - c.x + 1)
  }

  /** (x, y) is among the first n cells the blast around c visits. */
  predicate Blasted(c: Pos, n: int, x: int, y: int) {
    InBlock(c, Pos(x, y)) && BlockIndex(c, Pos(x, y)) < n
  }

  /** The visiting order runs through the block, each cell once. */
  lemma BlockOrder(c: Pos, k: int)
    requires 0 <= k < 9
    ensures InBlock(c, BlockCell(c, k)) && BlockIndex(c, BlockCell(c, k)) == k
    ensures BlockCell(c, k) == c <==> k == 4
  {
  }

  /** The gems among the first n cells of the block around c, the centre
      excepted. */
  function GemsBlasted(b: Board, c: Pos, n: nat): nat {
    if n == 0 then 0
    else
      var q := BlockCell(c, n - 1);
      GemsBlasted(b, c, n - 1) + (if q != c && b.Cell(q.x, q.y) == Gem then 1 else 0)
  }

  /** A requirement t after g blasted gems, each lowering it by one down to 0. */
  function Lowered(t: int, g: nat): int {
    if g == 0 then t else if t - g > 0 then t - g else 0
  }

  /** One blasted cell: only that cell and the exit can change; walls and the
      open exit are immune; anything else becomes empty ground; a gem lowers
      the requirement and may open the exit; the centre ends the game. */
  lemma BlastCellEffect(s: Session, c: Pos, q: Pos)
    requires s.board.Valid() && s.board.InBounds(s.exit.x, s.exit.y)
    requires s.board.Cell(s.exit.x, s.exit.y) != Gem && c != s.exit
    ensures var r, t, e := BlastCell(s, c, q), s.board.Cell(q.x, q.y), s.exit;
      && r.board.Valid() && r.board.width == s.board.width && r.board.height == s.board.height
      && r.exit == e && r.player == s.player && r.collected == s.collected && r.bombs == s.bombs && r.win == s.win
      && (forall x, y | (x, y) != (q.x, q.y) && (x, y) != (e.x, e.y) :: r.board.Cell(x, y) == s.board.Cell(x, y))
      && (q != e ==> r.board.Cell(q.x, q.y) == (if t == Wall || t == ExitOpen then t else Empty))
      && r.board.Cell(e.x, e.y) != Gem
      && (s.board.Cell(e.x, e.y) == ExitOpen ==> r.board.Cell(e.x, e.y) == ExitOpen)
      && r.totalDiamonds == (if q != c && t == Gem then Lowered(s.totalDiamonds, 1) else s.totalDiamonds)
      && r.gameOver == (s.gameOver || (q == c && t != Wall && t != ExitOpen))
      && (q != c && t == Gem && r.collected >= r.totalDiamonds ==> r.board.Cell(e.x, e.y) == ExitOpen)
  {
    var e := s.exit;
    CellReads(s.board, q.x, q.y);
    if s.board.InBounds(q.x, q.y) {
      var t := s.board.Cell(q.x, q.y);
      if t == Gem && q != c {
        var s1 := BlastGem(s);
        SetCellEffect(s.board, e.x, e.y, ExitOpen);
        assert q != e;
        SetCellEffect(s1.board, q.x, q.y, Empty);
      } else {
        SetCellEffect(s.board, q.x, q.y, Empty);
      }
    }
  }

  /** What one blasted cell leaves in the exit cell: the exit opens when a
      gem other than the centre is blasted and the count meets the lowered
      requirement; the blast reaching the exit itself empties it unless it is
      open; otherwise it stays. */
  lemma BlastCellExit(s: Session, c: Pos, q: Pos)
    requires s.board.Valid() && s.board.InBounds(s.exit.x, s.exit.y)
    requires s.board.Cell(s.exit.x, s.exit.y) != Gem && c != s.exit
    ensures var r, t, e := BlastCell(s, c, q), s.board.Cell(q.x, q.y), s.exit;
      && r.exit == e && r.collected == s.collected
      && r.totalDiamonds == (if q != c && t == Gem then Lowered(s.totalDiamonds, 1) else s.totalDiamonds)
      && r.board.Cell(e.x, e.y) ==
           if q != c && t == Gem && r.collected >= r.totalDiamonds then ExitOpen
           else if q == e && t != Wall && t != ExitOpen then Empty
           else s.board.Cell(e.x, e.y)
  {
    var e := s.exit;
    CellReads(s.board, q.x, q.y);
    if s.board.InBounds(q.x, q.y) {
      var t := s.board.Cell(q.x, q.y);
      if t == Gem && q != c {
        var s1 := BlastGem(s);
        SetCellEffect(s.board, e.x, e.y, ExitOpen);
        SetCellEffect(s1.board, q.x, q.y, Empty);
      } else {
        SetCellEffect(s.board, q.x, q.y, Empty);
      }
    }
  }

  /** The first n cells of the blast keep the grid's shape and the session's
      other fields; the exit cell never holds a gem and stays open once open. */
  lemma {:induction false} BlastShape(s0: Session, c: Pos, n: nat)
    requires n <= 9
    requires s0.board.Valid() && s0.board.InBounds(s0.exit.x, s0.exit.y)
    requires IsExit(s0.board.Cell(s0.exit.x, s0.exit.y)) && c != s0.exit
    ensures var r, e := Blast(s0, c, n), s0.exit;
      && r.board.Valid() && r.board.width == s0.board.width && r.board.height == s0.board.height
      && r.exit == e && r.player == s0.player && r.collected == s0.collected && r.bombs == s0.bombs && r.win == s0.win
      && r.board.Cell(e.x, e.y) != Gem
      && (s0.board.Cell(e.x, e.y) == ExitOpen ==> r.board.Cell(e.x, e.y) == ExitOpen)
  {
    if n > 0 {
      BlastShape(s0, c, n - 1);
      BlastCellEffect(Blast(s0, c, n - 1), c, BlockCell(c, n - 1));
    }
  }

  /** Cells the first n steps of the blast have not reached, the exit aside,
      are untouched. */
  lemma {:induction false} BlastUntouched(s0: Session, c: Pos, n: nat)
    requires n <= 9
    requires s0.board.Valid() && s0.board.InBounds(s0.exit.x, s0.exit.y)
    requires IsExit(s0.board.Cell(s0.exit.x, s0.exit.y)) && c != s0.exit
    ensures var r, e := Blast(s0, c, n), s0.exit;
      forall x, y | (x, y) != (e.x, e.y) && !Blasted(c, n, x, y) :: r.board.Cell(x, y) == s0.board.Cell(x, y)
  {
    if n > 0 {
      BlastUntouched(s0, c, n - 1);
      BlastShape(s0, c, n - 1);
      var prev, q, e := Blast(s0, c, n - 1), BlockCell(c, n - 1), s0.exit;
      BlockOrder(c, n - 1);
      BlastCellEffect(prev, c, q);
      forall x, y | (x, y) != (e.x, e.y) && !Blasted(c, n, x, y)
        ensures Blast(s0, c, n).board.Cell(x, y) == s0.board.Cell(x, y)
      {
        assert (x, y) != (q.x, q.y);
        assert !Blasted(c, n - 1, x, y);
      }
    }
  }

  /** Cells the first n steps of the blast have reached, the exit aside, are
      empty ground unless they were a wall or the open exit, which stay. */
  lemma {:induction false} BlastCleared(s0: Session, c: Pos, n: nat)
    requires n <= 9
    requires s0.board.Valid() && s0.board.InBounds(s0.exit.x, s0.exit.y)
    requires IsExit(s0.board.Cell(s0.exit.x, s0.exit.y)) && c != s0.exit
    ensures ClearedUpTo(s0, Blast(s0, c, n), c, n)
  {
    if n > 0 {
      BlastCleared(s0, c, n - 1);
      BlastUntouched(s0, c, n - 1);
      BlastShape(s0, c, n - 1);
      var prev, q, e := Blast(s0, c, n - 1), BlockCell(c, n - 1), s0.exit;
      BlockOrder(c, n - 1);
      assert q != e ==> prev.board.Cell(q.x, q.y) == s0.board.Cell(q.x, q.y);
      BlastClearedStep(s0, prev, c, n);
    }
  }

  /** The cells of the block around c among its first n, the exit aside,
      hold in r what the blast leaves of them in s0: walls and the open exit
      stay, anything else is empty ground. */
  ghost predicate ClearedUpTo(s0: Session, r: Session, c: Pos, n: int) {
    var e := s0.exit;
    forall x, y | (x, y) != (e.x, e.y) && Blasted(c, n, x, y) ::
      r.board.Cell(x, y) == (if s0.board.Cell(x, y) == Wall || s0.board.Cell(x, y) == ExitOpen then s0.board.Cell(x, y) else Empty)
  }

  /** The step of BlastCleared: the blast reaching its n-th cell, in a
      session prev where that cell is still as in s0. */
  lemma BlastClearedStep(s0: Session, prev: Session, c: Pos, n: nat)
    requires 0 < n <= 9
    requires prev.board.Valid() && prev.exit == s0.exit && prev.board.InBounds(s0.exit.x, s0.exit.y)
    requires prev.board.Cell(s0.exit.x, s0.exit.y) != Gem && c != s0.exit
    requires var q := BlockCell(c, n - 1); q != s0.exit ==> prev.board.Cell(q.x, q.y) == s0.board.Cell(q.x, q.y)
    requires ClearedUpTo(s0, prev, c, n - 1)
    ensures ClearedUpTo(s0, BlastCell(prev, c, BlockCell(c, n - 1)), c, n)
  {
    var q, e := BlockCell(c, n - 1), s0.exit;
    BlockOrder(c, n - 1);
    BlastCellEffect(prev, c, q);
    var r := BlastCell(prev, c, q);
    forall x, y | (x, y) != (e.x, e.y) && Blasted(c, n, x, y)
      ensures r.board.Cell(x, y) == (if s0.board.Cell(x, y) == Wall || s0.board.Cell(x, y) == ExitOpen then s0.board.Cell(x, y) else Empty)
    {
      if (x, y) != (q.x, q.y) {
        BlockCellOf(c, Pos(x, y));
        assert Blasted(c, n - 1, x, y);
      }
    }
  }

  /** A cell of the block is the one visited at its index. */
  lemma BlockCellOf(c: Pos, p: Pos)
    requires InBlock(c, p)
    ensures 0 <= BlockIndex(c, p) < 9 && BlockCell(c, BlockIndex(c, p)) == p
  {
  }

  /** The cell the blast reaches at step k still reads as it did before the
      blast, as far as being a wall, the open exit or a gem goes. */
  lemma BlastVisit(s0: Session, c: Pos, k: nat)
    requires k < 9
    requires s0.board.Valid() && s0.board.InBounds(s0.exit.x, s0.exit.y)
    requires IsExit(s0.board.Cell(s0.exit.x, s0.exit.y)) && c != s0.exit
    ensures var prev, q := Blast(s0, c, k), BlockCell(c, k);
      && (prev.board.Cell(q.x, q.y) == Gem <==> s0.board.Cell(q.x, q.y) == Gem)
      && (q == c ==> prev.board.Cell(q.x, q.y) == s0.board.Cell(q.x, q.y))
      && (q == c <==> k == 4)
  {
    BlastShape(s0, c, k);
    BlastUntouched(s0, c, k);
    BlockOrder(c, k);
  }

  /** Lowering in two stages is lowering by the sum. */
  lemma LoweredStep(t: int, g: nat)
    ensures Lowered(Lowered(t, g), 1) == Lowered(t, g + 1)
  {
  }

  /** The requirement after the first n cells of the blast is lowered once per
      blasted gem and never below 0. */
  lemma {:induction false} BlastRequirement(s0: Session, c: Pos, n: nat)
    requires n <= 9
    requires s0.board.Valid() && s0.board.InBounds(s0.exit.x, s0.exit.y)
    requires IsExit(s0.board.Cell(s0.exit.x, s0.exit.y)) && c != s0.exit
    ensures Blast(s0, c, n).totalDiamonds == Lowered(s0.totalDiamonds, GemsBlasted(s0.board, c, n))
  {
    if n > 0 {
      BlastRequirement(s0, c, n - 1);
      BlastShape(s0, c, n - 1);
      BlastVisit(s0, c, n - 1);
      var prev, q := Blast(s0, c, n - 1), BlockCell(c, n - 1);
      BlastCellEffect(prev, c, q);
      LoweredStep(s0.totalDiamonds, GemsBlasted(s0.board, c, n - 1));
    }
  }

  /** The game ends once the blast reaches the centre, unless the centre is a
      wall or the open exit. */
  lemma {:induction false} BlastEndsGame(s0: Session, c: Pos, n: nat)
    requires n <= 9
    requires s0.board.Valid() && s0.board.InBounds(s0.exit.x, s0.exit.y)
    requires IsExit(s0.board.Cell(s0.exit.x, s0.exit.y)) && c != s0.exit
    ensures Blast(s0, c, n).gameOver
      == (s0.gameOver || (n > 4 && s0.board.Cell(c.x, c.y) != Wall && s0.board.Cell(c.x, c.y) != ExitOpen))
  {
    if n > 0 {
      BlastEndsGame(s0, c, n - 1);
      BlastShape(s0, c, n - 1);
      BlastVisit(s0, c, n - 1);
      BlastCellEffect(Blast(s0, c, n - 1), c, BlockCell(c, n - 1));
    }
  }

  /** After any blasted gem the exit is open whenever the count meets the
      lowered requirement, so the level stays completable. */
  lemma {:induction false} BlastOpensExit(s0: Session, c: Pos, n: nat)
    requires n <= 9
    requires s0.board.Valid() && s0.board.InBounds(s0.exit.x, s0.exit.y)
    requires IsExit(s0.board.Cell(s0.exit.x, s0.exit.y)) && c != s0.exit
    ensures var r := Blast(s0, c, n);
      GemsBlasted(s0.board, c, n) > 0 && r.collected >= r.totalDiamonds ==> r.board.Cell(s0.exit.x, s0.exit.y) == ExitOpen
  {
    if n > 0 {
      BlastOpensExit(s0, c, n - 1);
      BlastRequirement(s0, c, n - 1);
      BlastRequirement(s0, c, n);
      BlastShape(s0, c, n - 1);
      BlastVisit(s0, c, n - 1);
      var prev, q := Blast(s0, c, n - 1), BlockCell(c, n - 1);
      BlastCellEffect(prev, c, q);
    }
  }

  /** The exit cell after the first n cells of the blast: open if a gem was
      blasted and the count meets the lowered requirement (the last gem
      blasted opens it, and an open exit resists the blast); otherwise empty
      ground if the blast reached the closed exit; otherwise as it was. */
  lemma {:induction false} BlastExit(s0: Session, c: Pos, n: nat)
    requires n <= 9
    requires s0.board.Valid() && s0.board.InBounds(s0.exit.x, s0.exit.y)
    requires IsExit(s0.board.Cell(s0.exit.x, s0.exit.y)) && c != s0.exit
    ensures var e, g := s0.exit, GemsBlasted(s0.board, c, n);
      Blast(s0, c, n).board.Cell(e.x, e.y) ==
        if g > 0 && s0.collected >= Lowered(s0.totalDiamonds, g) then ExitOpen
        else if Blasted(c, n, e.x, e.y) && s0.board.Cell(e.x, e.y) == ExitClosed then Empty
        else s0.board.Cell(e.x, e.y)
  {
    if n > 0 {
      BlastExit(s0, c, n - 1);
      BlastShape(s0, c, n - 1);
      BlastVisit(s0, c, n - 1);
      BlastRequirement(s0, c, n - 1);
      BlastExitStep(s0, Blast(s0, c, n - 1), c, n);
    }
  }

  /** The step of BlastExit: blasting the n-th cell of the block in a session
      prev that has the exit, the count and the requirement of the blast's
      first n - 1 cells, and still tells a gem at that cell as s0 does. */
  lemma BlastExitStep(s0: Session, prev: Session, c: Pos, n: nat)
    requires 0 < n <= 9
    requires prev.board.Valid() && prev.exit == s0.exit && prev.board.InBounds(s0.exit.x, s0.exit.y)
    requires prev.board.Cell(s0.exit.x, s0.exit.y) != Gem && c != s0.exit
    requires IsExit(s0.board.Cell(s0.exit.x, s0.exit.y)) && prev.collected == s0.collected
    requires prev.totalDiamonds == Lowered(s0.totalDiamonds, GemsBlasted(s0.board, c, n - 1))
    requires var q := BlockCell(c, n - 1); prev.board.Cell(q.x, q.y) == Gem <==> s0.board.Cell(q.x, q.y) == Gem
    requires var e, g := s0.exit, GemsBlasted(s0.board, c, n - 1);
      prev.board.Cell(e.x, e.y) ==
        if g > 0 && s0.collected >= Lowered(s0.totalDiamonds, g) then ExitOpen
        else if Blasted(c, n - 1, e.x, e.y) && s0.board.Cell(e.x, e.y) == ExitClosed then Empty
        else s0.board.Cell(e.x, e.y)
    ensures var e, g := s0.exit, GemsBlasted(s0.board, c, n);
      BlastCell(prev, c, BlockCell(c, n - 1)).board.Cell(e.x, e.y) ==
        if g > 0 && s0.collected >= Lowered(s0.totalDiamonds, g) then ExitOpen
        else if Blasted(c, n, e.x, e.y) && s0.board.Cell(e.x, e.y) == ExitClosed then Empty
        else s0.board.Cell(e.x, e.y)
  {
    var q, e := BlockCell(c, n - 1), s0.exit;
    BlockOrder(c, n - 1);
    BlastCellExit(prev, c, q);
    LoweredStep(s0.totalDiamonds, GemsBlasted(s0.board, c, n - 1));
    if InBlock(c, e) {
      BlockCellOf(c, e);
    }
  }

  /** A bomb on a running game with bombs left: one bomb is spent; outside the
      3x3 block around the player (and the exit) nothing changes; inside it
      every cell but a wall or the open exit becomes empty ground; walls stay
      walls everywhere; the requirement drops by the gems blasted, never below
      0; the exit is open if a gem was blasted and the count then meets the
      requirement, and otherwise empty ground if the block covered the closed
      exit, and otherwise as it was; and since the centre is the player's own
      cell, the game is over. */
  lemma BombEffect(s: Session)
    requires Consistent(s) && !s.Terminal() && s.bombs > 0
    ensures var r, c, e := Bomb(s), s.player, s.exit;
      && r.bombs == s.bombs - 1 && r.player == c && r.collected == s.collected && r.exit == e
      && r.gameOver && Consistent(r)
      && (forall x, y | (x, y) != (e.x, e.y) && !InBlock(c, Pos(x, y)) :: r.board.Cell(x, y) == s.board.Cell(x, y))
      && (forall x, y | (x, y) != (e.x, e.y) && InBlock(c, Pos(x, y)) ::
            r.board.Cell(x, y) == (if s.board.Cell(x, y) == Wall || s.board.Cell(x, y) == ExitOpen then s.board.Cell(x, y) else Empty))
      && (forall x, y | s.board.Cell(x, y) == Wall :: r.board.Cell(x, y) == Wall)
      && r.totalDiamonds == Lowered(s.totalDiamonds, GemsBlasted(s.board, c, 9))
      && (GemsBlasted(s.board, c, 9) > 0 && r.collected >= r.totalDiamonds ==> r.board.Cell(e.x, e.y) == ExitOpen)
      && r.board.Cell(e.x, e.y) ==
           if GemsBlasted(s.board, c, 9) > 0 && r.collected >= r.totalDiamonds then ExitOpen
           else if InBlock(c, e) && s.board.Cell(e.x, e.y) == ExitClosed then Empty
           else s.board.Cell(e.x, e.y)
  {
    var s0, c, e := s.(bombs := s.bombs - 1), s.player, s.exit;
    assert c != e;
    var r := Blast(s0, c, 9);
    assert Bomb(s) == r;
    BlastShape(s0, c, 9);
    BlastUntouched(s0, c, 9);
    BlastCleared(s0, c, 9);
    BlastRequirement(s0, c, 9);
    BlastEndsGame(s0, c, 9);
    BlastOpensExit(s0, c, 9);
    BlastExit(s0, c, 9);
    if InBlock(c, e) {
      BlockCellOf(c, e);
    }
    forall x, y | InBlock(c, Pos(x, y))
      ensures Blasted(c, 9, x, y)
    {
      BlockCellOf(c, Pos(x, y));
    }
  }
}
