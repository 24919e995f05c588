/** A level decoded from the pixels of a level image, and the scans the rest of
    the game asks of it: gem count, exit position, player position. */
module Levels {
  import opened Wrappers
  import opened Entities
  import opened Boards

  /** Why decoding fails. */
  datatype LoadError =
    | UnknownColor(x: int, y: int, color: RGB)
    | PlayerCount(found: int)
    | ExitCount(found: int)

  /** Every row is as long as the first one. */
  ghost predicate Rectangular(cells: seq<seq<Kind>>) {
    forall y | 0 <= y < |cells| :: |cells[y]| == |cells[0]|
  }

  /** Number of cells holding the player marker. */
  function PlayerCells(cells: seq<seq<Kind>>): nat {
    multiset(Flatten(cells))[Player]
  }

  /** Number of exit cells, closed and open together. */
  function ExitCells(cells: seq<seq<Kind>>): nat {
    multiset(Flatten(cells))[ExitClosed] + multiset(Flatten(cells))[ExitOpen]
  }

  /** The cells of a level, row by row. */
  datatype Level = Level(cells: seq<seq<Kind>>) {

    /** What a successful decode guarantees: a non-empty rectangle with exactly
        one player start and exactly one exit. */
    ghost predicate WellFormed() {
      |cells| >= 1 && |cells[0]| >= 1 && Rectangular(cells) &&
      PlayerCells(cells) == 1 && ExitCells(cells) == 1
    }
  }

  /** Levels only come out of a successful decode. */
  type ValidLevel = l: Level | l.WellFormed() witness Level([[Player, ExitClosed]])

  function Width(l: ValidLevel): nat { |l.cells[0]| }

  function Height(l: ValidLevel): nat { |l.cells| }

  /** The level as a board. */
  function LevelBoard(l: ValidLevel): (b: Board)
    ensures b.Valid() && b.width == Width(l) && b.height == Height(l)
  {
    Board(Width(l), Height(l), l.cells)
  }

  /** A copy of the cells, row by row. */
  function CloneCells(l: ValidLevel): (r: seq<seq<Kind>>)
    ensures |r| == Height(l)
    ensures forall y, x | 0 <= y < |r| && 0 <= x < Width(l) :: |r[y]| == Width(l) && r[y][x] == l.cells[y][x]
  {
    seq(|l.cells|, y requires 0 <= y < |l.cells| => l.cells[y][..])
  }

  // ---------------------------------------------------------------- gem count

  /** Gems in one row, summed cell by cell. */
  function RowGems(row: seq<Kind>): nat {
    if row == [] then 0 else (if Make(row[0]).IsGem() then 1 else 0) + RowGems(row[1..])
  }

  /** Gems in the whole grid, summed row by row. */
  function TotalGems(cells: seq<seq<Kind>>): nat {
    if cells == [] then 0 else RowGems(cells[0]) + TotalGems(cells[1..])
  }

  lemma {:induction false} RowGemsCounts(row: seq<Kind>)
    ensures RowGems(row) == multiset(row)[Gem]
  {
    if row != [] {
      RowGemsCounts(row[1..]);
      KindTestsExact(row[0]);
      assert row == [row[0]] + row[1..];
    }
  }

  /** The gem count is the number of Gem cells. */
  lemma {:induction false} TotalGemsCounts(cells: seq<seq<Kind>>)
    ensures TotalGems(cells) == multiset(Flatten(cells))[Gem]
  {
    if cells != [] {
      TotalGemsCounts(cells[1..]);
      RowGemsCounts(cells[0]);
    }
  }

  // ---------------------------------------------------------------- scans

  /** What a scan looks for. */
  datatype Target = ExitTarget | PlayerTarget

  predicate Matches(t: Target, k: Kind)
    ensures Matches(t, k) <==> if t == ExitTarget then k == ExitClosed || k == ExitOpen else k == Player
  {
    match t
    case ExitTarget => Make(k).IsExitClosed() || Make(k).IsExitOpen()
    case PlayerTarget => Make(k).IsPlayer()
  }

  /** Width used by the scans: the length of the first row. */
  function ScanWidth(cells: seq<seq<Kind>>): nat {
    if cells == [] then 0 else |cells[0]|
  }

  /** First column at or after x whose cell matches. */
  function FindInRow(row: seq<Kind>, t: Target, x: nat): (r: Option<nat>)
    decreases |row| - x
    ensures r.Some? ==> x <= r.value < |row| && Matches(t, row[r.value])
    ensures r.Some? ==> forall i | x <= i < r.value :: !Matches(t, row[i])
    ensures r.None? ==> forall i | x <= i < |row| :: !Matches(t, row[i])
  {
    if x >= |row| then None
    else if Matches(t, row[x]) then Some(x)
    else FindInRow(row, t, x + 1)
  }

  /** First matching cell in row-major order from row y on. */
  function FindFrom(cells: seq<seq<Kind>>, t: Target, y: nat): (r: Option<Pos>)
    requires Rectangular(cells)
    decreases |cells| - y
    ensures r.Some? ==> y <= r.value.y < |cells| && 0 <= r.value.x < ScanWidth(cells)
    ensures r.Some? ==> Matches(t, cells[r.value.y][r.value.x])
    ensures r.Some? ==> forall yy, xx | y <= yy < |cells| && 0 <= xx < ScanWidth(cells) && Before(Pos(xx, yy), r.value) ::
                          !Matches(t, cells[yy][xx])
    ensures r.None? ==> forall yy, xx | y <= yy < |cells| && 0 <= xx < ScanWidth(cells) :: !Matches(t, cells[yy][xx])
  {
    if y >= |cells| then None
    else match FindInRow(cells[y], t, 0)
      case Some(x) => Some(Pos(x, y))
      case None => FindFrom(cells, t, y + 1)
  }

  /** The first exit cell in row-major order; None where the game throws. */
  function ExitPosition(cells: seq<seq<Kind>>): Option<Pos>
    requires Rectangular(cells)
  {
    FindFrom(cells, ExitTarget, 0)
  }

  /** The first player cell in row-major order; None where the game throws. */
  function PlayerPosition(cells: seq<seq<Kind>>): Option<Pos>
    requires Rectangular(cells)
  {
    FindFrom(cells, PlayerTarget, 0)
  }

  /** The scan fails only when no cell matches: a matching cell anywhere on the
      grid makes it succeed. */
  lemma FindFromFinds(cells: seq<seq<Kind>>, t: Target, y: nat, x: nat)
    requires Rectangular(cells) && y < |cells| && x < |cells[y]|
    requires Matches(t, cells[y][x])
    ensures FindFrom(cells, t, 0).Some?
  {
  }

  /** A decoded level has its exit and its player start on the grid, the exit
      holding an exit kind and the start holding the player marker. */
  lemma ValidLevelPositions(l: ValidLevel)
    ensures ExitPosition(l.cells).Some? && PlayerPosition(l.cells).Some?
    ensures var e := ExitPosition(l.cells).value;
      LevelBoard(l).InBounds(e.x, e.y) && (l.cells[e.y][e.x] == ExitClosed || l.cells[e.y][e.x] == ExitOpen)
    ensures var p := PlayerPosition(l.cells).value;
      LevelBoard(l).InBounds(p.x, p.y) && l.cells[p.y][p.x] == Player
  {
    var k := if multiset(Flatten(l.cells))[ExitClosed] > 0 then ExitClosed else ExitOpen;
    FlattenMember(l.cells, k);
    var ey, ex :| 0 <= ey < |l.cells| && 0 <= ex < |l.cells[ey]| && l.cells[ey][ex] == k;
    FindFromFinds(l.cells, ExitTarget, ey, ex);
    FlattenMember(l.cells, Player);
    var py, px :| 0 <= py < |l.cells| && 0 <= px < |l.cells[py]| && l.cells[py][px] == Player;
    FindFromFinds(l.cells, PlayerTarget, py, px);
  }

  /** Exit position of a decoded level. */
  function LevelExit(l: ValidLevel): (e: Pos)
    ensures LevelBoard(l).InBounds(e.x, e.y)
  {
    ValidLevelPositions(l);
    ExitPosition(l.cells).value
  }

  /** Player start of a decoded level. */
  function LevelPlayerStart(l: ValidLevel): (p: Pos)
    ensures LevelBoard(l).InBounds(p.x, p.y)
  {
    ValidLevelPositions(l);
    PlayerPosition(l.cells).value
  }

  // ---------------------------------------------------------------- decoding

  /** `data[i] ?? 0`: a byte past the end of the pixel data reads as 0. */
  function ByteAt(data: seq<int>, i: int): int {
    if 0 <= i < |data| then data[i] else 0
  }

  /** The RGB of pixel (x, y): bytes (y*width + x)*4 + 0, 1, 2 (alpha unused). */
  function PixelColor(data: seq<int>, width: int, x: int, y: int): RGB {
    var i := (y * width + x) * 4;
    (ByteAt(data, i), ByteAt(data, i + 1), ByteAt(data, i + 2))
  }

  /** The kind registered for pixel (x, y)'s colour, Empty if none. */
  function PixelKind(colors: map<RGB, Kind>, data: seq<int>, width: int, x: int, y: int): Kind {
    var c := PixelColor(data, width, x, y);
    if c in colors then colors[c] else Empty
  }

  /** The grid the pixels describe. */
  function Decoded(colors: map<RGB, Kind>, data: seq<int>, width: nat, height: nat): (cells: seq<seq<Kind>>)
    ensures |cells| == height && forall y | 0 <= y < height :: |cells[y]| == width
  {
    seq(height, y requires 0 <= y < height => seq(width, x requires 0 <= x < width => PixelKind(colors, data, width, x, y)))
  }

  /** Every pixel's colour is registered. */
  ghost predicate AllKnown(colors: map<RGB, Kind>, data: seq<int>, width: nat, height: nat) {
    forall y, x | 0 <= y < height && 0 <= x < width :: PixelColor(data, width, x, y) in colors
  }

  lemma GridsEqual(a: seq<seq<Kind>>, b: seq<seq<Kind>>, width: nat, height: nat)
    requires |a| == height && |b| == height
    requires forall y | 0 <= y < height :: |a[y]| == width && |b[y]| == width
    requires forall y, x | 0 <= y < height && 0 <= x < width :: a[y][x] == b[y][x]
    ensures a == b
  {
    forall y | 0 <= y < height ensures a[y] == b[y] {
    }
  }

  /** Writing kind k over an Empty cell adds one player cell if k is the player
      marker and one exit cell if k is an exit. */
  lemma WriteCounts(cells: seq<seq<Kind>>, width: nat, height: nat, x: int, y: int, k: Kind)
    requires Board(width, height, cells).Valid() && 0 <= x < width && 0 <= y < height
    requires cells[y][x] == Empty
    ensures PlayerCells(cells[y := cells[y][x := k]]) == PlayerCells(cells) + (if k == Player then 1 else 0)
    ensures ExitCells(cells[y := cells[y][x := k]]) == ExitCells(cells) + (if k in {ExitClosed, ExitOpen} then 1 else 0)
  {
    var b := Board(width, height, cells);
    SetCellContents(b, x, y, k);
    assert b.SetCell(x, y, k).rows == cells[y := cells[y][x := k]];
    var before, after := Contents(b) + multiset{k}, Contents(b.SetCell(x, y, k)) + multiset{Empty};
    assert after[Player] == before[Player];
    assert after[ExitClosed] == before[ExitClosed];
    assert after[ExitOpen] == before[ExitOpen];
  }

  /** `height` rows of `width` Empty cells. */
  method EmptyGrid(width: nat, height: nat) returns (cells: seq<seq<Kind>>)
    ensures Board(width, height, cells).Valid()
    ensures forall y, x | 0 <= y < height && 0 <= x < width :: cells[y][x] == Empty
    ensures PlayerCells(cells) == 0 && ExitCells(cells) == 0
  {
    cells := [];
    for y := 0 to height
      invariant |cells| == y
      invariant forall yy | 0 <= yy < y :: |cells[yy]| == width
      invariant forall yy, xx | 0 <= yy < y && 0 <= xx < width :: cells[yy][xx] == Empty
    {
      var row: seq<Kind> := [];
      for x := 0 to width
        invariant |row| == x && forall xx | 0 <= xx < x :: row[xx] == Empty
      {
        row := row + [Empty];
      }
      cells := cells + [row];
    }
    if Player in multiset(Flatten(cells)) { FlattenMember(cells, Player); }
    if ExitClosed in multiset(Flatten(cells)) { FlattenMember(cells, ExitClosed); }
    if ExitOpen in multiset(Flatten(cells)) { FlattenMember(cells, ExitOpen); }
  }

  /** The pixels before (x, y) in row-major order are decoded into cells, the
      rest of the grid still holds Empty. */
  ghost predicate Filled(colors: map<RGB, Kind>, data: seq<int>, width: nat, height: nat,
                         cells: seq<seq<Kind>>, y: int, x: int)
  {
    && Board(width, height, cells).Valid()
    && forall yy, xx | 0 <= yy < height && 0 <= xx < width ::
         cells[yy][xx] == if Before(Pos(xx, yy), Pos(x, y)) then PixelKind(colors, data, width, xx, yy) else Empty
  }

  /** The pixels before (x, y) in row-major order have registered colours. */
  ghost predicate KnownBefore(colors: map<RGB, Kind>, data: seq<int>, width: nat, height: nat, y: int, x: int) {
    forall yy, xx | 0 <= yy < height && 0 <= xx < width && Before(Pos(xx, yy), Pos(x, y)) ::
      PixelColor(data, width, xx, yy) in colors
  }

  /** Decoding pixel (x, y) extends the filled prefix by one cell. */
  lemma FillStep(colors: map<RGB, Kind>, data: seq<int>, width: nat, height: nat,
                 cells: seq<seq<Kind>>, y: int, x: int)
    requires 0 <= y < height && 0 <= x < width
    requires Filled(colors, data, width, height, cells, y, x)
    requires KnownBefore(colors, data, width, height, y, x)
    requires PixelColor(data, width, x, y) in colors
    ensures var k := PixelKind(colors, data, width, x, y);
      && Filled(colors, data, width, height, cells[y := cells[y][x := k]], y, x + 1)
      && KnownBefore(colors, data, width, height, y, x + 1)
  {
    var k := PixelKind(colors, data, width, x, y);
    var cells' := cells[y := cells[y][x := k]];
    forall yy, xx | 0 <= yy < height && 0 <= xx < width
      ensures cells'[yy][xx] == if Before(Pos(xx, yy), Pos(x + 1, y)) then PixelKind(colors, data, width, xx, yy) else Empty
    {
      if (yy, xx) != (y, x) {
        assert cells'[yy][xx] == cells[yy][xx];
      }
    }
  }

  /** A row fully decoded is the same as the next row not yet started. */
  lemma FillRowDone(colors: map<RGB, Kind>, data: seq<int>, width: nat, height: nat,
                    cells: seq<seq<Kind>>, y: int)
    requires Filled(colors, data, width, height, cells, y, width)
    requires KnownBefore(colors, data, width, height, y, width)
    ensures Filled(colors, data, width, height, cells, y + 1, 0)
    ensures KnownBefore(colors, data, width, height, y + 1, 0)
  {
  }

  /** Decodes row y pixel by pixel, counting player and exit cells, and stops
      at the first unregistered colour of the row. */
  method DecodeRow(reg: EntityRegistry, data: seq<int>, width: nat, height: nat,
                   cells0: seq<seq<Kind>>, y: nat, players0: nat, exits0: nat)
    returns (cells: seq<seq<Kind>>, playerCount: nat, exitCount: nat, unknown: Option<nat>)
    requires y < height
    requires Filled(reg.entitiesByColor, data, width, height, cells0, y, 0)
    requires KnownBefore(reg.entitiesByColor, data, width, height, y, 0)
    requires players0 == PlayerCells(cells0) && exits0 == ExitCells(cells0)
    ensures unknown.None? ==>
      && Filled(reg.entitiesByColor, data, width, height, cells, y + 1, 0)
      && KnownBefore(reg.entitiesByColor, data, width, height, y + 1, 0)
      && playerCount == PlayerCells(cells) && exitCount == ExitCells(cells)
    ensures unknown.Some? ==>
      && unknown.value < width
      && PixelColor(data, width, unknown.value, y) !in reg.entitiesByColor
      && KnownBefore(reg.entitiesByColor, data, width, height, y, unknown.value)
  {
    ghost var colors := reg.entitiesByColor;
    cells, playerCount, exitCount := cells0, players0, exits0;
    for x := 0 to width
      invariant Filled(colors, data, width, height, cells, y, x)
      invariant KnownBefore(colors, data, width, height, y, x)
      invariant playerCount == PlayerCells(cells) && exitCount == ExitCells(cells)
    {
      var entity := reg.ByColor(PixelColor(data, width, x, y));
      if entity.None? {
        return cells, playerCount, exitCount, Some(x);
      }
      var k := entity.value;
      KindTestsExact(k);
      if Make(k).IsPlayer() {
        playerCount := playerCount + 1;
      }
      if Make(k).IsExitClosed() || Make(k).IsExitOpen() {
        exitCount := exitCount + 1;
      }
      FillStep(colors, data, width, height, cells, y, x);
      WriteCounts(cells, width, height, x, y, k);
      cells := cells[y := cells[y][x := k]];
    }
    FillRowDone(colors, data, width, height, cells, y);
    unknown := None;
  }

  /** The decoding loops: fills the grid pixel by pixel in row-major order and
      counts player and exit cells, stopping at the first unregistered colour. */
  method DecodePixels(reg: EntityRegistry, data: seq<int>, width: nat, height: nat)
    returns (cells: seq<seq<Kind>>, playerCount: nat, exitCount: nat, unknown: Option<Pos>)
    ensures unknown.None? ==> AllKnown(reg.entitiesByColor, data, width, height)
    ensures unknown.None? ==> cells == Decoded(reg.entitiesByColor, data, width, height)
    ensures unknown.None? ==> playerCount == PlayerCells(cells) && exitCount == ExitCells(cells)
    ensures unknown.Some? ==>
      var u := unknown.value;
      && 0 <= u.y < height && 0 <= u.x < width
      && PixelColor(data, width, u.x, u.y) !in reg.entitiesByColor
      && KnownBefore(reg.entitiesByColor, data, width, height, u.y, u.x)
  {
    ghost var colors := reg.entitiesByColor;
    cells := EmptyGrid(width, height);
    playerCount, exitCount := 0, 0;
    for y := 0 to height
      invariant Filled(colors, data, width, height, cells, y, 0)
      invariant KnownBefore(colors, data, width, height, y, 0)
      invariant playerCount == PlayerCells(cells) && exitCount == ExitCells(cells)
    {
      var bad;
      cells, playerCount, exitCount, bad := DecodeRow(reg, data, width, height, cells, y, playerCount, exitCount);
      if bad.Some? {
        return cells, playerCount, exitCount, Some(Pos(bad.value, y));
      }
    }
    GridsEqual(cells, Decoded(colors, data, width, height), width, height);
    unknown := None;
  }

  /** Decodes an RGBA pixel array of width x height pixels, failing on the first
      unregistered colour (row-major) and unless there is exactly one player
      start and exactly one exit. */
  method LoadLevel(reg: EntityRegistry, data: seq<int>, width: nat, height: nat) returns (r: Result<ValidLevel, LoadError>)
    ensures var colors := reg.entitiesByColor;
      r.Ok? <==> AllKnown(colors, data, width, height)
                 && PlayerCells(Decoded(colors, data, width, height)) == 1
                 && ExitCells(Decoded(colors, data, width, height)) == 1
    ensures r.Ok? ==> r.value.cells == Decoded(reg.entitiesByColor, data, width, height)
    ensures r.Err? && r.error.UnknownColor? ==>
      var e := r.error;
      && 0 <= e.y < height && 0 <= e.x < width
      && e.color == PixelColor(data, width, e.x, e.y) && e.color !in reg.entitiesByColor
      && KnownBefore(reg.entitiesByColor, data, width, height, e.y, e.x)
    ensures r.Err? && r.error.PlayerCount? ==>
      AllKnown(reg.entitiesByColor, data, width, height)
      && r.error.found == PlayerCells(Decoded(reg.entitiesByColor, data, width, height)) != 1
    ensures r.Err? && r.error.ExitCount? ==>
      AllKnown(reg.entitiesByColor, data, width, height)
      && PlayerCells(Decoded(reg.entitiesByColor, data, width, height)) == 1
      && r.error.found == ExitCells(Decoded(reg.entitiesByColor, data, width, height)) != 1
  {
    var cells, playerCount, exitCount, unknown := DecodePixels(reg, data, width, height);
    if unknown.Some? {
      var u := unknown.value;
      return Err(UnknownColor(u.x, u.y, PixelColor(data, width, u.x, u.y)));
    }
    if playerCount != 1 {
      return Err(PlayerCount(playerCount));
    }
    if exitCount != 1 {
      return Err(ExitCount(exitCount));
    }
    FlattenMember(cells, Player);
    return Ok(Level(cells));
  }
}
