/** The game session: counters, terminal flags and the player's position,
    updated in place, with every rule working on the renderer's grid cell by
    cell. Each method is proved against the functions of GameSpec. */
module Logic {
  import opened Entities
  import opened Boards
  import opened Levels
  import opened Renderer
  import opened GameSpec
  import opened Accumulators

  /** One gravity pass every 120 milliseconds. */
  const TickMillis := 120

  /** The blast's k-th cell for k = 3i + j is column j and row i of the block. */
  lemma BlockCellAt(c: Pos, i: int, j: int)
    requires 0 <= i < 3 && 0 <= j < 3
    ensures BlockCell(c, 3 * i + j) == Pos(c.x - 1 + j, c.y - 1 + i)
  {
  }

  /** Doing the rows still left after the first n rows of the scan completes
      the scan. */
  lemma {:induction false} SweepDown(s: Session, h: int, w: nat, n: nat)
    requires n <= h - 1
    ensures GravityDown(GravitySweep(s, h, w, n), h - 2 - n, w) == GravitySweep(s, h, w, h - 1)
    decreases h - 1 - n
  {
    if n < h - 1 {
      assert GravitySweep(s, h, w, n + 1) == GravityRow(GravitySweep(s, h, w, n), h - 2 - n, w);
      SweepDown(s, h, w, n + 1);
    }
  }

  /** Blasting column j of row i of the block after the cells before it
      extends the blast by one cell. */
  lemma BlastNext(s0: Session, c: Pos, i: int, j: int, k: nat, q: Pos, prev: Session, next: Session)
    requires 0 <= i < 3 && 0 <= j < 3 && k == 3 * i + j && q == Pos(c.x - 1 + j, c.y - 1 + i)
    requires prev == Blast(s0, c, k)
    requires next == BlastCell(prev, c, q)
    ensures next == Blast(s0, c, k + 1)
  {
    BlockCellAt(c, i, j);
  }

  class GameLogic {
    const renderer: LevelRenderer
    /** The player's cell. */
    var player: Pos
    var collected: int
    var bombs: int
    var gameOver: bool
    var win: bool
    /** The gems still required to open the exit. */
    var totalDiamonds: int
    /** Time not yet spent on gravity passes, in milliseconds. */
    var tickAccMillis: int

    /** The session as the rules see it. */
    function Sess(): Session
      reads renderer, this`player, this`collected, this`bombs, this`gameOver, this`win, this`totalDiamonds
    {
      Session(renderer.Grid(), renderer.exit, player, collected, bombs, gameOver, win, totalDiamonds)
    }

    /** A new session on the renderer's grid with the player at start. */
    constructor (renderer: LevelRenderer, start: Pos)
      ensures this.renderer == renderer && player == start
      ensures collected == 0 && bombs == InitialBombCount && !gameOver && !win
      ensures totalDiamonds == renderer.totalGems && tickAccMillis == 0
    {
      this.renderer := renderer;
      player := start;
      collected, bombs, gameOver, win := 0, InitialBombCount, false, false;
      totalDiamonds := renderer.totalGems;
      tickAccMillis := 0;
    }

    /** Moves the rock at (nx, ny) one cell on by dx, leaving empty ground. */
    method PushRock(dx: int, nx: int, ny: int)
      requires renderer.Valid()
      modifies renderer
      ensures renderer.Valid()
      ensures renderer.Grid() == GameSpec.PushRock(old(renderer.Grid()), dx, nx, ny)
    {
      renderer.SetCell(nx + dx, ny, Rock);
      renderer.SetCell(nx, ny, Empty);
    }

    /** One step of the player by (deltaX, deltaY): blocked, push, collect,
        win or walk. */
    method MovePlayer(deltaX: int, deltaY: int)
      requires renderer.Valid()
      modifies this, renderer
      ensures renderer.Valid() && tickAccMillis == old(tickAccMillis)
      ensures Sess() == Move(old(Sess()), deltaX, deltaY)
    {
      if gameOver || win {
        return;
      }
      ghost var s := Sess();
      var newX, newY := player.x + deltaX, player.y + deltaY;
      var destinationCell := renderer.Cell(newX, newY);
      if DestinationBlocked(destinationCell) {
        return;
      }
      if destinationCell == Rock {
        if CanRockBePushed(renderer.Grid(), deltaX, deltaY, destinationCell, newX, newY) {
          PushRock(deltaX, newX, newY);
        } else {
          return;
        }
      }
      ghost var s1 := Sess();
      assert Move(s, deltaX, deltaY) == Arrive(s1, destinationCell, Pos(newX, newY));
      EnterCell(newX, newY, destinationCell);
    }

    /** The player arrives at (newX, newY), which held dest and is no longer
        blocked: a gem is counted, the open exit wins, a walkable cell is
        walked onto. */
    method EnterCell(newX: int, newY: int, dest: Kind)
      requires renderer.Valid()
      modifies this, renderer
      ensures renderer.Valid() && tickAccMillis == old(tickAccMillis)
      ensures Sess() == Arrive(old(Sess()), dest, Pos(newX, newY))
    {
      if dest == Gem {
        CollectDiamond();
      }
      if dest == ExitOpen {
        win := true;
        return;
      }
      if DestinationWalkable(dest) {
        WalkTo(newX, newY);
      }
    }

    /** Counts a collected gem and opens the exit once enough are collected. */
    method CollectDiamond()
      requires renderer.Valid()
      modifies this, renderer
      ensures renderer.Valid() && tickAccMillis == old(tickAccMillis)
      ensures Sess() == GameSpec.CollectDiamond(old(Sess()))
    {
      collected := collected + 1;
      if collected >= totalDiamonds {
        renderer.OpenExit();
      }
    }

    /** The player leaves empty ground behind and stands on (newX, newY). */
    method WalkTo(newX: int, newY: int)
      requires renderer.Valid()
      modifies this, renderer
      ensures renderer.Valid() && tickAccMillis == old(tickAccMillis)
      ensures Sess() == Walk(old(Sess()), Pos(newX, newY))
    {
      renderer.SetCell(player.x, player.y, Empty);
      player := Pos(newX, newY);
      renderer.SetCell(newX, newY, Player);
    }

    /** Spends a bomb and blasts the 3x3 block around the player, rows top
        to bottom and each row left to right. */
    method UseBomb()
      requires renderer.Valid()
      modifies this, renderer
      ensures renderer.Valid() && tickAccMillis == old(tickAccMillis)
      ensures Sess() == Bomb(old(Sess()))
    {
      if gameOver || win {
        return;
      }
      if bombs <= 0 {
        return;
      }
      ghost var before := Sess();
      bombs := bombs - 1;
      var cx, cy := player.x, player.y;
      ghost var c, s0 := player, Sess();
      assert s0 == before.(bombs := before.bombs - 1);
      for i := 0 to 3
        invariant renderer.Valid() && player == c && tickAccMillis == old(tickAccMillis)
        invariant Sess() == Blast(s0, c, 3 * i)
      {
        BlastRow(cx, cy, i, s0);
      }
      assert Bomb(before) == Blast(s0, c, 9);
    }

    /** Row i of the 3x3 block around the player at (cx, cy), left to right. */
    method BlastRow(cx: int, cy: int, i: int, ghost s0: Session)
      requires renderer.Valid() && 0 <= i < 3 && player == Pos(cx, cy)
      requires Sess() == Blast(s0, Pos(cx, cy), 3 * i)
      modifies this, renderer
      ensures renderer.Valid() && player == old(player) && tickAccMillis == old(tickAccMillis)
      ensures Sess() == Blast(s0, Pos(cx, cy), 3 * i + 3)
    {
      ghost var c, k := Pos(cx, cy), 3 * i;
      var y := cy - 1 + i;
      for j := 0 to 3
        invariant renderer.Valid() && player == c && tickAccMillis == old(tickAccMillis)
        invariant k == 3 * i + j && Sess() == Blast(s0, c, k)
      {
        var x := cx - 1 + j;
        ghost var prev := Sess();
        BlastAt(x, y, cx, cy);
        BlastNext(s0, c, i, j, k, Pos(x, y), prev, Sess());
        k := k + 1;
      }
    }

    /** The blast reaching (x, y) with the player at (cx, cy): walls and the
        open exit are spared, the player's own cell ends the game, a gem
        lowers the requirement, and the cell becomes empty ground. */
    method BlastAt(x: int, y: int, cx: int, cy: int)
      requires renderer.Valid()
      modifies this, renderer
      ensures renderer.Valid() && player == old(player) && tickAccMillis == old(tickAccMillis)
      ensures Sess() == BlastCell(old(Sess()), Pos(cx, cy), Pos(x, y))
    {
      if !renderer.InBounds(x, y) {
        return;
      }
      var t := renderer.Cell(x, y);
      if t == Wall || t == ExitOpen {
        return;
      }
      if x == cx && y == cy {
        renderer.SetCell(x, y, Empty);
        gameOver := true;
        return;
      }
      if t == Gem {
        totalDiamonds := if totalDiamonds - 1 > 0 then totalDiamonds - 1 else 0;
        if collected >= totalDiamonds {
          renderer.OpenExit();
        }
      }
      renderer.SetCell(x, y, Empty);
    }

    /** The full-scan gravity pass: rows from the second-lowest up to the
        top, each left to right; a rock or gem drops one row into empty
        ground, or onto the player, which ends the game. */
    method ApplyGravity()
      requires renderer.Valid()
      modifies this, renderer
      ensures renderer.Valid() && tickAccMillis == old(tickAccMillis)
      ensures Sess() == GameSpec.ApplyGravity(old(Sess()))
    {
      if gameOver || win {
        return;
      }
      ghost var s0 := Sess();
      assert s0.board.height == renderer.height >= 1 && Columns(s0.board) == renderer.width;
      SweepDown(s0, renderer.height, renderer.width, 0);
      GravityScanRows(renderer.height, renderer.width);
    }

    /** Rows height - 2 down to 0 of the scan, each left to right. */
    method GravityScanRows(height: int, width: nat)
      requires renderer.Valid()
      modifies this, renderer
      ensures renderer.Valid() && tickAccMillis == old(tickAccMillis)
      ensures Sess() == GravityDown(old(Sess()), height - 2, width)
    {
      var y := height - 2;
      while y >= 0
        invariant y <= height - 2 && (height >= 1 ==> -1 <= y)
        invariant renderer.Valid() && tickAccMillis == old(tickAccMillis)
        invariant GravityDown(Sess(), y, width) == GravityDown(old(Sess()), height - 2, width)
      {
        GravityScanRow(y, width);
        y := y - 1;
      }
    }

    /** Row y of the scan, columns 0 to width - 1 from left to right. */
    method GravityScanRow(y: int, width: nat)
      requires renderer.Valid()
      modifies this, renderer
      ensures renderer.Valid() && tickAccMillis == old(tickAccMillis)
      ensures Sess() == GravityRow(old(Sess()), y, width)
    {
      for x := 0 to width
        invariant renderer.Valid() && tickAccMillis == old(tickAccMillis)
        invariant Sess() == GravityRow(old(Sess()), y, x)
      {
        GravityAt(x, y);
      }
    }

    /** One cell of the scan. */
    method GravityAt(x: int, y: int)
      requires renderer.Valid()
      modifies this, renderer
      ensures renderer.Valid() && tickAccMillis == old(tickAccMillis)
      ensures Sess() == GravityCell(old(Sess()), x, y)
    {
      var t := renderer.Cell(x, y);
      if t != Rock && t != Gem {
        return;
      }
      var below := renderer.Cell(x, y + 1);
      if below == Player {
        renderer.SetCell(x, y, Empty);
        renderer.SetCell(x, y + 1, t);
        gameOver := true;
        return;
      }
      if below == Empty {
        renderer.SetCell(x, y, Empty);
        renderer.SetCell(x, y + 1, t);
      }
    }

    /** Resets the counters and the flags and puts the player back at the
        level's start; the grid is left as it is. */
    method Restart()
      requires renderer.Valid()
      modifies this, renderer
      ensures renderer.Valid() && renderer.cells == old(renderer.cells)
      ensures player == LevelPlayerStart(renderer.level)
      ensures collected == 0 && bombs == InitialBombCount && !gameOver && !win
      ensures totalDiamonds == renderer.totalGems && tickAccMillis == old(tickAccMillis)
    {
      renderer.Restart();
      player := LevelPlayerStart(renderer.level);
      collected := 0;
      bombs := InitialBombCount;
      gameOver := false;
      win := false;
      totalDiamonds := renderer.totalGems;
    }

    /** Adds dt milliseconds and runs one gravity pass per whole quantum
        accumulated; what is left is less than one quantum. */
    method Update(dt: int)
      requires renderer.Valid()
      modifies this, renderer
      ensures renderer.Valid()
      ensures Sess() == Gravitate(old(Sess()), Quanta(old(tickAccMillis) + dt, TickMillis))
      ensures tickAccMillis == old(tickAccMillis) + dt - Quanta(old(tickAccMillis) + dt, TickMillis) * TickMillis
      ensures tickAccMillis < TickMillis
    {
      tickAccMillis := tickAccMillis + dt;
      ghost var total := tickAccMillis;
      ghost var n: nat := 0;
      while tickAccMillis >= TickMillis
        invariant renderer.Valid()
        invariant tickAccMillis == total - n * TickMillis
        invariant n + Quanta(tickAccMillis, TickMillis) == Quanta(total, TickMillis)
        invariant Sess() == Gravitate(old(Sess()), n)
        decreases tickAccMillis
      {
        QuantaStep(tickAccMillis, TickMillis);
        tickAccMillis := tickAccMillis - TickMillis;
        ApplyGravity();
        n := n + 1;
      }
    }
  }

  /** The session a level starts with: the level's grid with its exit closed,
      the player at the level's start, no gem counted, the initial bombs, and
      every gem of the level required. */
  function StartSession(l: ValidLevel): Session {
    var e := LevelExit(l);
    Session(LevelBoard(l).SetCell(e.x, e.y, ExitClosed), e, LevelPlayerStart(l),
            0, InitialBombCount, false, false, multiset(Flatten(l.cells))[Gem])
  }

  /** A level that decoded starts a running, consistent session: the start
      is the one player cell and the exit cell holds the closed exit. */
  lemma InitialConsistent(l: ValidLevel)
    ensures var s := StartSession(l);
      Consistent(s) && !s.Terminal() && s.board.Cell(s.exit.x, s.exit.y) == ExitClosed
  {
    var b, e, p := LevelBoard(l), LevelExit(l), LevelPlayerStart(l);
    ValidLevelPositions(l);
    assert Contents(b)[Player] == 1;
    OnlyOccurrence(b, p, Player);
    SetCellEffect(b, e.x, e.y, ExitClosed);
  }

  /** Setting up a level: the renderer over the decoded level, then the game
      logic with the player at the level's start. */
  method StartGame(level: ValidLevel) returns (game: GameLogic)
    ensures fresh(game) && fresh(game.renderer) && game.renderer.Valid()
    ensures game.Sess() == StartSession(level) && Consistent(game.Sess())
  {
    var renderer := new LevelRenderer(level);
    game := new GameLogic(renderer, LevelPlayerStart(level));
    InitialConsistent(level);
  }
}
