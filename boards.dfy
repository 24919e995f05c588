/** The grid of cell kinds as a value: bounds, reads that answer Wall off the
    grid, and writes that ignore coordinates off the grid. */
module Boards {
  import opened Entities

  /** A cell coordinate: column x, row y (row 0 at the top). */
  datatype Pos = Pos(x: int, y: int)

  /** Row-major order: an earlier row first, then a smaller column. */
  predicate Before(p: Pos, q: Pos) {
    p.y < q.y || (p.y == q.y && p.x < q.x)
  }

  /** A width x height grid stored row by row. */
  datatype Board = Board(width: int, height: int, rows: seq<seq<Kind>>) {

    /** The rows really are height rows of width cells. */
    ghost predicate Valid() {
      0 <= width && |rows| == height &&
      forall y | 0 <= y < |rows| :: |rows[y]| == width
    }

    predicate InBounds(x: int, y: int) {
      x >= 0 && y >= 0 && x < width && y < height
    }

    /** The stored kind, or Wall for a coordinate off the grid. */
    function Cell(x: int, y: int): Kind {
      if InBounds(x, y) && y < |rows| && x < |rows[y]| then rows[y][x] else Wall
    }

    /** The grid with one cell replaced; a coordinate off the grid changes nothing. */
    function SetCell(x: int, y: int, v: Kind): Board {
      if InBounds(x, y) && y < |rows| && x < |rows[y]| then this.(rows := rows[y := rows[y][x := v]])
      else this
    }
  }

  /** Off the grid every read answers Wall; on it, the stored kind. */
  lemma CellReads(b: Board, x: int, y: int)
    requires b.Valid()
    ensures !b.InBounds(x, y) ==> b.Cell(x, y) == Wall
    ensures b.InBounds(x, y) ==> b.Cell(x, y) == b.rows[y][x]
  {
  }

  /** A write off the grid is a no-op; one on the grid changes that cell alone,
      keeps the shape, and reads back the value written. */
  lemma SetCellEffect(b: Board, x: int, y: int, v: Kind)
    requires b.Valid()
    ensures var b' := b.SetCell(x, y, v);
      && b'.Valid() && b'.width == b.width && b'.height == b.height
      && (!b.InBounds(x, y) ==> b' == b)
      && (b.InBounds(x, y) ==> b'.Cell(x, y) == v)
      && (forall p, q | (p, q) != (x, y) :: b'.Cell(p, q) == b.Cell(p, q))
  {
  }

  /** A write changes no other cell, and on a cell that reads back what the
      grid stores it stores v, whether or not the rows are well formed. */
  lemma SetCellReads(b: Board, x: int, y: int, v: Kind)
    ensures var b' := b.SetCell(x, y, v);
      && (forall p, q | (p, q) != (x, y) :: b'.Cell(p, q) == b.Cell(p, q))
      && (b.InBounds(x, y) && y < |b.rows| && x < |b.rows[y]| ==> b'.Cell(x, y) == v)
      && b'.width == b.width && b'.height == b.height && |b'.rows| == |b.rows|
      && (forall q | 0 <= q < |b.rows| :: |b'.rows[q]| == |b.rows[q]|)
  {
  }

  /** All cells, row after row. */
  function Flatten(rows: seq<seq<Kind>>): seq<Kind> {
    if rows == [] then [] else rows[0] + Flatten(rows[1..])
  }

  /** The kinds on a board, with their multiplicities. */
  function Contents(b: Board): multiset<Kind> {
    multiset(Flatten(b.rows))
  }

  /** Replacing one row replaces that row's kinds in the flattened grid. */
  lemma {:induction false} FlattenUpdate(rows: seq<seq<Kind>>, y: nat, r: seq<Kind>)
    requires y < |rows|
    ensures multiset(Flatten(rows[y := r])) + multiset(rows[y]) == multiset(Flatten(rows)) + multiset(r)
  {
    if y == 0 {
      assert rows[y := r][1..] == rows[1..];
    } else {
      FlattenUpdate(rows[1..], y - 1, r);
      assert rows[y := r][1..] == rows[1..][y - 1 := r];
      assert rows[1..][y - 1] == rows[y];
      assert multiset(Flatten(rows[y := r])) == multiset(rows[0]) + multiset(Flatten(rows[1..][y - 1 := r]));
      assert multiset(Flatten(rows)) == multiset(rows[0]) + multiset(Flatten(rows[1..]));
      var lhs := multiset(Flatten(rows[y := r])) + multiset(rows[y]);
      var rhs := multiset(Flatten(rows)) + multiset(r);
      forall k: Kind ensures lhs[k] == rhs[k] {
        assert (multiset(Flatten(rows[1..][y - 1 := r])) + multiset(rows[y]))[k]
            == (multiset(Flatten(rows[1..])) + multiset(r))[k];
      }
      assert lhs == rhs;
    }
  }

  /** Replacing one element of a row swaps one occurrence of the old element for the new one. */
  lemma RowUpdateContents(row: seq<Kind>, x: int, v: Kind)
    requires 0 <= x < |row|
    ensures multiset(row[x := v]) + multiset{row[x]} == multiset(row) + multiset{v}
  {
    assert row == row[..x] + [row[x]] + row[x + 1..];
    assert row[x := v] == row[..x] + [v] + row[x + 1..];
  }

  /** A common part added on both sides cancels. */
  lemma MultisetCancel(a: multiset<Kind>, b: multiset<Kind>, c: multiset<Kind>)
    requires a + c == b + c
    ensures a == b
  {
    forall k: Kind ensures a[k] == b[k] {
      assert (a + c)[k] == (b + c)[k];
    }
  }

  /** A write on the grid swaps exactly one occurrence of the old kind for the new one. */
  lemma SetCellContents(b: Board, x: int, y: int, v: Kind)
    requires b.Valid() && b.InBounds(x, y)
    ensures Contents(b.SetCell(x, y, v)) + multiset{b.Cell(x, y)} == Contents(b) + multiset{v}
  {
    var row := b.rows[y];
    var after, before := multiset(Flatten(b.rows[y := row[x := v]])), multiset(Flatten(b.rows));
    FlattenUpdate(b.rows, y, row[x := v]);
    RowUpdateContents(row, x, v);
    assert after + multiset(row) == before + multiset(row[x := v]);
    calc {
      after + multiset{row[x]} + multiset(row);
      before + multiset(row[x := v]) + multiset{row[x]};
      before + multiset{v} + multiset(row);
    }
    MultisetCancel(after + multiset{row[x]}, before + multiset{v}, multiset(row));
    assert b.SetCell(x, y, v).rows == b.rows[y := row[x := v]];
  }

  /** A kind that occurs in the flattened grid occurs at some row and column. */
  lemma {:induction false} FlattenMember(rows: seq<seq<Kind>>, k: Kind)
    requires k in multiset(Flatten(rows))
    ensures exists y, x :: 0 <= y < |rows| && 0 <= x < |rows[y]| && rows[y][x] == k
  {
    if k in multiset(rows[0]) {
      assert k in rows[0];
      var x :| 0 <= x < |rows[0]| && rows[0][x] == k;
      assert rows[0][x] == k;
    } else {
      FlattenMember(rows[1..], k);
      var y, x :| 0 <= y < |rows[1..]| && 0 <= x < |rows[1..][y]| && rows[1..][y][x] == k;
      assert rows[y + 1][x] == k;
    }
  }

  /** The kind of every cell on the grid occurs in the flattened grid. */
  lemma {:induction false} FlattenHas(rows: seq<seq<Kind>>, y: nat, x: nat)
    requires y < |rows| && x < |rows[y]|
    ensures rows[y][x] in multiset(Flatten(rows))
  {
    if y == 0 {
      assert rows[0][x] in rows[0];
    } else {
      FlattenHas(rows[1..], y - 1, x);
    }
  }

  /** A kind that occurs once on the grid occurs at no other cell than the
      one that holds it (walls aside, which every read off the grid answers). */
  lemma OnlyOccurrence(b: Board, p: Pos, k: Kind)
    requires b.Valid() && b.InBounds(p.x, p.y) && b.Cell(p.x, p.y) == k && k != Wall
    requires Contents(b)[k] == 1
    ensures forall x, y | (x, y) != (p.x, p.y) :: b.Cell(x, y) != k
  {
    forall x, y | (x, y) != (p.x, p.y)
      ensures b.Cell(x, y) != k
    {
      if b.Cell(x, y) == k {
        var v := if k == Empty then Rock else Empty;
        var b' := b.SetCell(p.x, p.y, v);
        CellReads(b, x, y);
        SetCellContents(b, p.x, p.y, v);
        SetCellEffect(b, p.x, p.y, v);
        assert (Contents(b') + multiset{k})[k] == (Contents(b) + multiset{v})[k];
        CellReads(b', x, y);
        FlattenHas(b'.rows, y, x);
        assert false;
      }
    }
  }

  /** Moving kind t from p onto a cell holding u replaces one u by Empty. */
  lemma MoveContents(b: Board, p: Pos, q: Pos, t: Kind, u: Kind)
    requires b.Valid() && b.InBounds(p.x, p.y) && b.InBounds(q.x, q.y) && p != q
    requires b.Cell(p.x, p.y) == t && b.Cell(q.x, q.y) == u
    ensures b.SetCell(p.x, p.y, Empty).SetCell(q.x, q.y, t).Valid()
    ensures Contents(b.SetCell(p.x, p.y, Empty).SetCell(q.x, q.y, t)) + multiset{u} == Contents(b) + multiset{Empty}
  {
    var b1 := b.SetCell(p.x, p.y, Empty);
    SetCellEffect(b, p.x, p.y, Empty);
    SetCellContents(b, p.x, p.y, Empty);
    SetCellContents(b1, q.x, q.y, t);
    assert b1.Cell(q.x, q.y) == u;
    var c, c1, c2 := Contents(b), Contents(b1), Contents(b1.SetCell(q.x, q.y, t));
    assert c1 + multiset{t} == c + multiset{Empty};
    assert c2 + multiset{u} == c1 + multiset{t};
    SetCellEffect(b1, q.x, q.y, t);
  }

  /** Two writes to two different cells: both read back, the rest stays. */
  lemma SetTwoEffect(b: Board, p: Pos, u: Kind, q: Pos, v: Kind)
    requires b.Valid() && b.InBounds(p.x, p.y) && b.InBounds(q.x, q.y) && p != q
    ensures var b' := b.SetCell(p.x, p.y, u).SetCell(q.x, q.y, v);
      && b'.Valid() && b'.width == b.width && b'.height == b.height
      && b'.Cell(p.x, p.y) == u && b'.Cell(q.x, q.y) == v
      && (forall x, y | (x, y) != (p.x, p.y) && (x, y) != (q.x, q.y) :: b'.Cell(x, y) == b.Cell(x, y))
  {
    SetCellEffect(b, p.x, p.y, u);
    SetCellEffect(b.SetCell(p.x, p.y, u), q.x, q.y, v);
  }
}
