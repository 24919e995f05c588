/** The data half of the level renderer: the mutable grid the game plays on,
    with its bounds check, total reads and writes, and the exit switch. */
module Renderer {
  import opened Entities
  import opened Boards
  import opened Levels

  class LevelRenderer {
    const level: ValidLevel
    const width: int
    const height: int
    /** Where the level's exit is; the grid keeps it fixed. */
    const exit: Pos
    /** The level's gem count, taken once at construction. */
    const totalGems: nat
    /** The mutable grid, row by row. */
    var cells: seq<seq<Kind>>

    /** The grid has the level's shape and the exit lies on it. */
    ghost predicate Valid()
      reads this
    {
      && Grid().Valid()
      && width == Width(level) && height == Height(level)
      && exit == LevelExit(level)
      && InBounds(exit.x, exit.y)
    }

    /** The grid as a board value. */
    function Grid(): Board
      reads this
    {
      Board(width, height, cells)
    }

    /** Copies the level's cells, closes the exit and counts the gems. */
    constructor (level: ValidLevel)
      ensures Valid() && this.level == level
      ensures exit == LevelExit(level)
      ensures Grid() == LevelBoard(level).SetCell(exit.x, exit.y, ExitClosed)
      ensures Cell(exit.x, exit.y) == ExitClosed
      ensures forall x, y | (x, y) != (exit.x, exit.y) :: Cell(x, y) == LevelBoard(level).Cell(x, y)
      ensures totalGems == multiset(Flatten(level.cells))[Gem]
    {
      this.level := level;
      width, height := Width(level), Height(level);
      exit := LevelExit(level);
      totalGems := TotalGems(level.cells);
      cells := CloneCells(level);
      new;
      assert Grid() == LevelBoard(level);
      TotalGemsCounts(level.cells);
      SetCellEffect(Grid(), exit.x, exit.y, ExitClosed);
      CloseExit();
    }

    /** Rebuilds the visual layer only: no grid cell changes. */
    method Restart()
      modifies this
      ensures cells == old(cells)
    {
    }

    predicate InBounds(x: int, y: int)
      reads this
    {
      x >= 0 && y >= 0 && x < width && y < height
    }

    /** The kind at (x, y), Wall off the grid. */
    function Cell(x: int, y: int): Kind
      reads this
    {
      Grid().Cell(x, y)
    }

    /** Writes one cell; a coordinate off the grid changes nothing. */
    method SetCell(x: int, y: int, v: Kind)
      requires Valid()
      modifies this
      ensures Valid()
      ensures Grid() == old(Grid()).SetCell(x, y, v)
    {
      SetCellEffect(Grid(), x, y, v);
      if InBounds(x, y) && y < |cells| && x < |cells[y]| {
        cells := cells[y := cells[y][x := v]];
      }
    }

    /** Shows the exit as open. */
    method OpenExit()
      requires Valid()
      modifies this
      ensures Valid()
      ensures Grid() == old(Grid()).SetCell(exit.x, exit.y, ExitOpen)
    {
      SetCell(exit.x, exit.y, ExitOpen);
    }

    /** Shows the exit as closed. */
    method CloseExit()
      requires Valid()
      modifies this
      ensures Valid()
      ensures Grid() == old(Grid()).SetCell(exit.x, exit.y, ExitClosed)
    {
      SetCell(exit.x, exit.y, ExitClosed);
    }
  }

  /** Opening the exit on a valid grid changes the exit cell alone, makes it
      ExitOpen, and opening it a second time changes nothing. */
  lemma OpenExitEffect(b: Board, e: Pos)
    requires b.Valid() && b.InBounds(e.x, e.y)
    ensures var b' := b.SetCell(e.x, e.y, ExitOpen);
      && b'.Valid() && b'.Cell(e.x, e.y) == ExitOpen
      && (forall x, y | (x, y) != (e.x, e.y) :: b'.Cell(x, y) == b.Cell(x, y))
      && b'.SetCell(e.x, e.y, ExitOpen) == b'
  {
    SetCellEffect(b, e.x, e.y, ExitOpen);
    var b' := b.SetCell(e.x, e.y, ExitOpen);
    assert b'.rows[e.y][e.x] == ExitOpen;
    assert b'.rows[e.y][e.x := ExitOpen] == b'.rows[e.y];
    assert b'.rows[e.y := b'.rows[e.y]] == b'.rows;
  }
}
