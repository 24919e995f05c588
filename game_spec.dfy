/** The game rules as functions on a session value: one-step player moves,
    the 3x3 bomb, and the full-scan gravity pass. */
module GameSpec {
  import opened Wrappers
  import opened Entities
  import opened Boards

  /** Bombs at the start of a level. */
  const InitialBombCount := 3

  /** Everything the rules read and write: the grid, the fixed exit position,
      the player's position, the counters and the two terminal flags. */
  datatype Session = Session(
    board: Board, exit: Pos, player: Pos,
    collected: int, bombs: int, gameOver: bool, win: bool, totalDiamonds: int)
  {
    predicate Terminal() { gameOver || win }
  }

  /** The kinds the player walks onto. */
  predicate DestinationWalkable(k: Kind) {
    k == Empty || k == Dirt || k == Gem || k == ExitOpen
  }

  /** The kinds that stop a move outright. */
  predicate DestinationBlocked(k: Kind) {
    k == Wall || k == ExitClosed
  }

  /** A rock at (nx, ny) moves on only sideways and only into an empty cell. */
  predicate CanRockBePushed(b: Board, dx: int, dy: int, dest: Kind, nx: int, ny: int) {
    dy == 0 && dest == Rock && b.Cell(nx + dx, ny) == Empty
  }

  function PushRock(b: Board, dx: int, nx: int, ny: int): Board {
    b.SetCell(nx + dx, ny, Rock).SetCell(nx, ny, Empty)
  }

  function OpenExitOn(b: Board, e: Pos): Board {
    b.SetCell(e.x, e.y, ExitOpen)
  }

  /** Counts a collected gem and opens the exit once enough are collected. */
  function CollectDiamond(s: Session): Session {
    var s' := s.(collected := s.collected + 1);
    if s'.collected >= s'.totalDiamonds then s'.(board := OpenExitOn(s'.board, s'.exit)) else s'
  }

  /** The player steps from their cell to n, leaving empty ground behind. */
  function Walk(s: Session, n: Pos): Session {
    s.(board := s.board.SetCell(s.player.x, s.player.y, Empty).SetCell(n.x, n.y, Player), player := n)
  }

  /** One move of the player by (dx, dy). A finished game, a wall or closed
      exit ahead (the grid's edge reads as wall) and a rock that cannot be
      pushed leave the session as it is; only stepping onto the open exit wins;
      the bombs, the requirement, the exit position and the game-over flag
      never change. */
  function Move(s: Session, dx: int, dy: int): (r: Session)
    ensures s.Terminal() ==> r == s
    ensures DestinationBlocked(s.board.Cell(s.player.x + dx, s.player.y + dy)) ==> r == s
    ensures (s.board.Cell(s.player.x + dx, s.player.y + dy) == Rock
             && (dy != 0 || s.board.Cell(s.player.x + 2 * dx, s.player.y) != Empty)) ==> r == s
    ensures r.bombs == s.bombs && r.totalDiamonds == s.totalDiamonds && r.exit == s.exit
    ensures r.gameOver == s.gameOver
    ensures r.win <==> s.win || (!s.gameOver && s.board.Cell(s.player.x + dx, s.player.y + dy) == ExitOpen)
    ensures r.win && !s.win ==> r.board == s.board && r.player == s.player && r.collected == s.collected
  {
    if s.Terminal() then s
    else
      var nx, ny := s.player.x + dx, s.player.y + dy;
      var dest := s.board.Cell(nx, ny);
      if DestinationBlocked(dest) then s
      else if dest == Rock && !CanRockBePushed(s.board, dx, dy, dest, nx, ny) then s
      else
        var s1 := if dest == Rock then s.(board := PushRock(s.board, dx, nx, ny)) else s;
        Arrive(s1, dest, Pos(nx, ny))
  }

  /** What happens once the way to n is clear and n held dest: a gem is
      collected, the open exit wins, and a walkable cell is walked onto. */
  function Arrive(s1: Session, dest: Kind, n: Pos): Session {
    var s2 := if dest == Gem then CollectDiamond(s1) else s1;
    if dest == ExitOpen then s2.(win := true)
    else if DestinationWalkable(dest) then Walk(s2, n)
    else s2
  }

  // ---------------------------------------------------------------- the bomb

  /** The k-th cell the blast visits, for k from 0 to 8: rows top to bottom,
      each left to right, so cell k is in row k / 3 and column k % 3 of the
      block. */
  function BlockCell(c: Pos, k: int): Pos {
    var row := if k < 3 then 0 else if k < 6 then 1 else 2;
    Pos(c.x - 1 + (k - 3 * row), c.y - 1 + row)
  }

  /** One blasted gem lowers the requirement, never below 0, and opens the exit
      once the requirement is met. */
  function BlastGem(s: Session): Session {
    var required := if s.totalDiamonds - 1 > 0 then s.totalDiamonds - 1 else 0;
    var s' := s.(totalDiamonds := required);
    if s'.collected >= required then s'.(board := OpenExitOn(s'.board, s'.exit)) else s'
  }

  /** The blast reaching cell q, with the player at c. */
  function BlastCell(s: Session, c: Pos, q: Pos): Session {
    if !s.board.InBounds(q.x, q.y) then s
    else
      var t := s.board.Cell(q.x, q.y);
      if t == Wall || t == ExitOpen then s
      else if q == c then s.(board := s.board.SetCell(q.x, q.y, Empty), gameOver := true)
      else
        var s1 := if t == Gem then BlastGem(s) else s;
        s1.(board := s1.board.SetCell(q.x, q.y, Empty))
  }

  /** The first n cells of the block around c, blasted in order. */
  function Blast(s: Session, c: Pos, n: nat): Session {
    if n == 0 then s else BlastCell(Blast(s, c, n - 1), c, BlockCell(c, n - 1))
  }

  /** Spends a bomb and blasts the 3x3 block around the player; a finished
      game or an empty bomb bag leaves everything as it is. */
  function Bomb(s: Session): (r: Session)
    ensures s.Terminal() || s.bombs <= 0 ==> r == s
  {
    if s.Terminal() || s.bombs <= 0 then s
    else Blast(s.(bombs := s.bombs - 1), s.player, 9)
  }

  // ---------------------------------------------------------------- full-scan gravity

  predicate IsFaller(k: Kind) {
    k == Rock || k == Gem
  }

  /** The faller at (x, y), if any, drops into an empty cell below, or onto
      the player below, which ends the game. */
  function GravityCell(s: Session, x: int, y: int): Session {
    var t := s.board.Cell(x, y);
    if !IsFaller(t) then s
    else
      var below := s.board.Cell(x, y + 1);
      if below == Player then
        s.(board := s.board.SetCell(x, y, Empty).SetCell(x, y + 1, t), gameOver := true)
      else if below == Empty then
        s.(board := s.board.SetCell(x, y, Empty).SetCell(x, y + 1, t))
      else s
  }

  /** The first n columns of row y, left to right. */
  function GravityRow(s: Session, y: int, n: nat): Session {
    if n == 0 then s else GravityCell(GravityRow(s, y, n - 1), n - 1, y)
  }

  /** The first n rows of the scan of a grid h rows high and w wide: rows
      h - 2, h - 3, ... in that order. */
  function GravitySweep(s: Session, h: int, w: nat, n: nat): Session {
    if n == 0 then s else GravityRow(GravitySweep(s, h, w, n - 1), h - 1 - n, w)
  }

  /** The rest of a scan that has row y to do next: rows y, y - 1, ..., 0. */
  function GravityDown(s: Session, y: int, w: nat): Session
    decreases y + 1
  {
    if y < 0 then s else GravityDown(GravityRow(s, y, w), y - 1, w)
  }

  /** The number of rows the scan visits: all but the bottom one. */
  function ScannedRows(h: int): nat {
    if h >= 1 then h - 1 else 0
  }

  /** The number of columns the scan visits. */
  function Columns(b: Board): nat {
    if b.width >= 0 then b.width else 0
  }

  /** The full-scan gravity pass over the session's own grid; a finished game
      is left as it is. */
  function ApplyGravity(s: Session): (r: Session)
    ensures s.Terminal() ==> r == s
  {
    if s.Terminal() then s
    else GravitySweep(s, s.board.height, Columns(s.board), ScannedRows(s.board.height))
  }

  /** Why the pass as written cannot run: reading the length of a missing
      property. */
  datatype ScriptError = TypeError

  /** The pass as written: it takes its dimensions from a `grid` property of the
      renderer, given here as `grid` (None when the property is missing). */
  function ApplyGravityAsWritten(s: Session, grid: Option<seq<seq<Kind>>>): Result<Session, ScriptError> {
    if s.Terminal() then Ok(s)
    else match grid
      case None => Err(TypeError)
      case Some(g) =>
        var h := |g|;
        var w := if h > 0 then |g[0]| else 0;
        Ok(GravitySweep(s, h, w, ScannedRows(h)))
  }

  /** What the renderer answers for `grid`: it has no property of that name. */
  const RendererGridProperty: Option<seq<seq<Kind>>> := None

  /** Repeated passes, as the time loop runs them. */
  function Gravitate(s: Session, n: nat): Session {
    if n == 0 then s else ApplyGravity(Gravitate(s, n - 1))
  }

  // ---------------------------------------------------------------- invariant

  predicate IsExit(k: Kind) {
    k == ExitClosed || k == ExitOpen
  }

  /** The session's grid is well formed with the player and the exit on it,
      and while the game runs the player's cell is the one cell holding the
      player and the exit's cell holds an exit. */
  ghost predicate Consistent(s: Session) {
    && s.board.Valid()
    && s.board.InBounds(s.exit.x, s.exit.y)
    && s.board.InBounds(s.player.x, s.player.y)
    && (!s.Terminal() ==>
          && s.board.Cell(s.player.x, s.player.y) == Player
          && (forall x, y | (x, y) != (s.player.x, s.player.y) :: s.board.Cell(x, y) != Player)
          && IsExit(s.board.Cell(s.exit.x, s.exit.y)))
  }

  /** The game's own tests on a destination or a falling cell agree with the
      entities' predicates. */
  lemma RulesMatchEntities(k: Kind)
    ensures DestinationWalkable(k) <==> Walkable(k)
    ensures DestinationBlocked(k) <==> Immovable(k)
    ensures IsFaller(k) <==> CanFall(k)
  {
  }
}
