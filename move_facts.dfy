/** What a single player move does to the session. */
module MoveFacts {
  import opened Entities
  import opened Boards
  import opened GameSpec

  // ---------------------------------------------------------------- moves

  /** Walking onto empty ground or dirt: the player's cell empties, the
      destination holds the player, nothing else changes, and the dirt (if any)
      is gone from the grid. */
  lemma MoveWalks(s: Session, dx: int, dy: int)
    requires Consistent(s) && !s.Terminal()
    requires var d := s.board.Cell(s.player.x + dx, s.player.y + dy); d == Empty || d == Dirt
    ensures var r, p, n := Move(s, dx, dy), s.player, Pos(s.player.x + dx, s.player.y + dy);
      && r.player == n && n != p && r.collected == s.collected && !r.Terminal()
      && r.board.Cell(n.x, n.y) == Player && r.board.Cell(p.x, p.y) == Empty
      && (forall x, y | (x, y) != (n.x, n.y) && (x, y) != (p.x, p.y) :: r.board.Cell(x, y) == s.board.Cell(x, y))
      && Contents(r.board) + multiset{s.board.Cell(n.x, n.y)} == Contents(s.board) + multiset{Empty}
      && Consistent(r)
  {
    var n := Pos(s.player.x + dx, s.player.y + dy);
    assert Move(s, dx, dy) == Walk(s, n);
    WalkEffect(s, n);
    MoveContents(s.board, s.player, n, Player, s.board.Cell(n.x, n.y));
  }

  /** A step of the player to an in-bounds cell other than the exit moves the
      player's mark there, empties the cell left behind, and keeps the session
      consistent. */
  lemma WalkEffect(s: Session, n: Pos)
    requires Consistent(s) && !s.Terminal()
    requires s.board.InBounds(n.x, n.y) && n != s.player && n != s.exit
    ensures var r, p := Walk(s, n), s.player;
      && r.player == n && r.collected == s.collected && !r.Terminal()
      && r.board.Cell(n.x, n.y) == Player && r.board.Cell(p.x, p.y) == Empty
      && (forall x, y | (x, y) != (n.x, n.y) && (x, y) != (p.x, p.y) :: r.board.Cell(x, y) == s.board.Cell(x, y))
      && Consistent(r)
  {
    var p, e := s.player, s.exit;
    SetTwoEffect(s.board, p, Empty, n, Player);
    assert Walk(s, n).board.Cell(e.x, e.y) == s.board.Cell(e.x, e.y);
  }

  /** Walking onto a gem: as a walk, and the gem is counted; the exit opens
      exactly when the count reaches the requirement. */
  lemma MoveCollects(s: Session, dx: int, dy: int)
    requires Consistent(s) && !s.Terminal()
    requires s.board.Cell(s.player.x + dx, s.player.y + dy) == Gem
    ensures var r, p, n, e := Move(s, dx, dy), s.player, Pos(s.player.x + dx, s.player.y + dy), s.exit;
      && r.player == n && r.collected == s.collected + 1 && !r.Terminal()
      && r.board.Cell(n.x, n.y) == Player && r.board.Cell(p.x, p.y) == Empty
      && r.board.Cell(e.x, e.y) == (if s.collected + 1 >= s.totalDiamonds then ExitOpen else s.board.Cell(e.x, e.y))
      && (forall x, y | (x, y) != (n.x, n.y) && (x, y) != (p.x, p.y) && (x, y) != (e.x, e.y) ::
            r.board.Cell(x, y) == s.board.Cell(x, y))
      && Consistent(r)
  {
    var p, n, e := s.player, Pos(s.player.x + dx, s.player.y + dy), s.exit;
    var s2 := CollectDiamond(s);
    assert Move(s, dx, dy) == Walk(s2, n);
    CollectEffect(s);
    WalkEffect(s2, n);
  }

  /** Counting a gem adds one to the count and, once the count reaches the
      requirement, opens the exit; no other cell changes. */
  lemma CollectEffect(s: Session)
    requires Consistent(s) && !s.Terminal()
    ensures var r, e := CollectDiamond(s), s.exit;
      && r.player == s.player && r.exit == e && r.collected == s.collected + 1 && !r.Terminal()
      && r.board.Cell(e.x, e.y) == (if s.collected + 1 >= s.totalDiamonds then ExitOpen else s.board.Cell(e.x, e.y))
      && (forall x, y | (x, y) != (e.x, e.y) :: r.board.Cell(x, y) == s.board.Cell(x, y))
      && Consistent(r)
  {
    SetCellEffect(s.board, s.exit.x, s.exit.y, ExitOpen);
  }

  /** Pushing a rock sideways into empty ground: the rock moves one cell on,
      the player stays where they were, and the grid holds the same kinds. */
  lemma MovePushes(s: Session, dx: int)
    requires Consistent(s) && !s.Terminal()
    requires s.board.Cell(s.player.x + dx, s.player.y) == Rock
    requires s.board.Cell(s.player.x + 2 * dx, s.player.y) == Empty
    ensures var r, n, m := Move(s, dx, 0), Pos(s.player.x + dx, s.player.y), Pos(s.player.x + 2 * dx, s.player.y);
      && r.player == s.player && r.collected == s.collected && !r.Terminal()
      && r.board.Cell(n.x, n.y) == Empty && r.board.Cell(m.x, m.y) == Rock
      && (forall x, y | (x, y) != (n.x, n.y) && (x, y) != (m.x, m.y) :: r.board.Cell(x, y) == s.board.Cell(x, y))
      && Contents(r.board) == Contents(s.board)
      && Consistent(r)
  {
    var n, m := Pos(s.player.x + dx, s.player.y), Pos(s.player.x + 2 * dx, s.player.y);
    var b1 := s.board.SetCell(m.x, m.y, Rock);
    var b2 := b1.SetCell(n.x, n.y, Empty);
    assert Move(s, dx, 0) == s.(board := b2);
    assert s.exit != n && s.exit != m && s.player != n && s.player != m && n != m;
    SetTwoEffect(s.board, m, Rock, n, Empty);
    PushContents(s.board, n, m);
  }

  /** Swapping a rock with the empty cell beside it keeps the grid's kinds. */
  lemma PushContents(b: Board, n: Pos, m: Pos)
    requires b.Valid() && b.InBounds(n.x, n.y) && b.InBounds(m.x, m.y)
    requires b.Cell(n.x, n.y) == Rock && b.Cell(m.x, m.y) == Empty
    ensures Contents(b.SetCell(m.x, m.y, Rock).SetCell(n.x, n.y, Empty)) == Contents(b)
  {
    var b1 := b.SetCell(m.x, m.y, Rock);
    SetCellEffect(b, m.x, m.y, Rock);
    SetCellContents(b, m.x, m.y, Rock);
    SetCellContents(b1, n.x, n.y, Empty);
    MultisetCancel(Contents(b1.SetCell(n.x, n.y, Empty)), Contents(b), multiset{Rock});
  }

  /** Every move keeps the session consistent. */
  lemma MoveConsistent(s: Session, dx: int, dy: int)
    requires Consistent(s)
    ensures Consistent(Move(s, dx, dy))
  {
    if !s.Terminal() {
      var d := s.board.Cell(s.player.x + dx, s.player.y + dy);
      if d == Empty || d == Dirt {
        MoveWalks(s, dx, dy);
      } else if d == Gem {
        MoveCollects(s, dx, dy);
      } else if d == Rock && dy == 0 && s.board.Cell(s.player.x + 2 * dx, s.player.y) == Empty {
        MovePushes(s, dx);
      }
    }
  }
}
