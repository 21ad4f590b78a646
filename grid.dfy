/**
 * Grid coordinates and neighbour enumeration of the minesweeper board.
 *
 * `Neighbors` is the board's `iter_neighbors`: a column range clipped to the
 * grid, flat-mapped over a row range clipped to the grid, with the centre cell
 * filtered out. `NeighboringMines` counts the neighbours that are mines and
 * casts the count to `u8` exactly as the source does.
 */
module Grid {

  /** A cell, as (column, row); both coordinates are `usize` in the source. */
  type Position = (nat, nat)

  /** Rust's `u8`. */
  newtype u8 = x: int | 0 <= x < 256

  /** Rust's `n as u8`: keeps the low eight bits. */
  function AsU8(n: nat): (r: u8)
    ensures n < 256 ==> r as int == n
  {
    (n % 256) as u8
  }

  predicate InGrid(width: nat, height: nat, p: Position) {
    p.0 < width && p.1 < height
  }

  /** Every position of a `width` x `height` board. */
  function Cells(width: nat, height: nat): set<Position> {
    set x: nat, y: nat | x < width && y < height :: (x, y)
  }

  /** An on-board position is one of the board's cells. */
  lemma OnBoard(width: nat, height: nat, p: Position)
    requires InGrid(width, height, p)
    ensures p in Cells(width, height)
  {
    assert p == (p.0, p.1);
  }

  /** The positions of row `y` of a board `width` cells wide. */
  function Row(width: nat, y: nat): set<Position> {
    set x: nat | x < width :: (x, y)
  }

  function Dist(a: nat, b: nat): nat {
    if a <= b then b - a else a - b
  }

  function Max(a: nat, b: nat): nat { if a < b then b else a }

  /** On `int`, because its use in `Span` takes `size - 1`, and `size` may be 0 where the type alone is concerned. */
  function Min(a: int, b: int): int { if a < b then a else b }

  /** `q` is a neighbour of `p`: an on-board cell at Chebyshev distance exactly 1. */
  predicate IsNeighbor(width: nat, height: nat, p: Position, q: Position) {
    InGrid(width, height, q) && q != p && Dist(p.0, q.0) <= 1 && Dist(p.1, q.1) <= 1
  }

  predicate Distinct<T(==)>(s: seq<T>) {
    forall a, b :: 0 <= a < b < |s| ==> s[a] != s[b]
  }

  /** The inclusive range `lo..=hi`, in increasing order. */
  function Range(lo: nat, hi: int): (r: seq<nat>)
    ensures |r| == if hi < lo then 0 else hi - lo + 1
    ensures forall k :: 0 <= k < |r| ==> r[k] == lo + k
    decreases if hi < lo then 0 else hi - lo + 1
  {
    if hi < lo then [] else [lo] + Range(lo + 1, hi)
  }

  /**
   * The coordinates at distance at most 1 from `c` that lie in `0..size`:
   * `c.max(1) - 1 ..= (c + 1).min(size - 1)`.
   */
  function Span(c: nat, size: nat): (r: seq<nat>)
    requires size >= 1
    ensures forall v: nat :: v in r <==> v < size && Dist(c, v) <= 1
    ensures Distinct(r)
    ensures |r| <= 3
    ensures size <= c ==> |r| <= 1
  {
    var r := Range(Max(c, 1) - 1, Min(c + 1, size - 1));
    assert forall v: nat :: v in r <==> Max(c, 1) - 1 <= v <= Min(c + 1, size - 1) by {
      forall v: nat | Max(c, 1) - 1 <= v <= Min(c + 1, size - 1)
        ensures v in r
      {
        assert r[v - (Max(c, 1) - 1)] == v;
      }
    }
    r
  }

  /** The column `i` paired with each of `rows`. */
  function Column(i: nat, rows: seq<nat>): (r: seq<Position>)
    ensures |r| == |rows|
    ensures forall k :: 0 <= k < |r| ==> r[k] == (i, rows[k])
  {
    seq(|rows|, k requires 0 <= k < |rows| => (i, rows[k]))
  }

  /** `cols.flat_map(|i| rows.map(|j| (i, j)))`: all pairs, column by column. */
  function Product(cols: seq<nat>, rows: seq<nat>): (r: seq<Position>)
    ensures |r| == |cols| * |rows|
    ensures forall q :: q in r <==> q.0 in cols && q.1 in rows
    ensures Distinct(cols) && Distinct(rows) ==> Distinct(r)
  {
    if |cols| == 0 then []
    else
      var head, tail := Column(cols[0], rows), Product(cols[1..], rows);
      assert forall q :: q in head <==> q.0 == cols[0] && q.1 in rows by {
        forall q: Position | q.0 == cols[0] && q.1 in rows
          ensures q in head
        {
          var k :| 0 <= k < |rows| && rows[k] == q.1;
          assert head[k] == q;
        }
      }
      assert |head + tail| == |rows| + (|cols| - 1) * |rows| == |cols| * |rows|;
      assert Distinct(cols) && Distinct(rows) ==> Distinct(head + tail) by {
        if Distinct(cols) && Distinct(rows) {
          assert cols[0] !in cols[1..];
          forall a, b | 0 <= a < b < |head + tail|
            ensures (head + tail)[a] != (head + tail)[b]
          {
            if b < |head| {
              assert head[a].1 == rows[a] && head[b].1 == rows[b];
            } else if a < |head| {
              assert tail[b - |head|] in tail;
            }
          }
        }
      }
      head + tail
  }

  /** `s.filter(|q| q != p)`. */
  function Without(s: seq<Position>, p: Position): (r: seq<Position>)
    ensures forall q :: q in r <==> q in s && q != p
    ensures |r| <= |s|
    ensures p in s ==> |r| < |s|
    ensures Distinct(s) ==> Distinct(r)
  {
    if |s| == 0 then []
    else
      var tail := Without(s[1..], p);
      assert Distinct(s) ==> s[0] !in tail;
      assert p in s && s[0] != p ==> p in s[1..] by {
        if p in s && s[0] != p {
          var k :| 0 <= k < |s| && s[k] == p;
          assert s[1..][k - 1] == p;
        }
      }
      (if s[0] == p then [] else [s[0]]) + tail
  }

  /**
   * `iter_neighbors(p)`: exactly the on-board cells adjacent to `p`, each once,
   * at most eight of them.
   */
  function Neighbors(width: nat, height: nat, p: Position): (r: seq<Position>)
    requires width >= 1 && height >= 1
    ensures forall q :: q in r <==> IsNeighbor(width, height, p, q)
    ensures Distinct(r)
    ensures |r| <= 8
  {
    var columns, rows := Span(p.0, width), Span(p.1, height);
    var box := Product(columns, rows);
    ProductAtMostNine(|columns|, |rows|, InGrid(width, height, p));
    assert InGrid(width, height, p) ==> p in box;
    Without(box, p)
  }

  /** The size bound behind `Neighbors`: a box of at most 3 x 3 cells, or a strip when the centre is off the board. */
  lemma ProductAtMostNine(m: nat, n: nat, centred: bool)
    requires m <= 3 && n <= 3
    requires !centred ==> m <= 1 || n <= 1
    ensures m * n <= 9
    ensures !centred ==> m * n <= 3
  {
  }

  /** The number of elements of `s` that are in `mines`. */
  function CountMines(s: seq<Position>, mines: set<Position>): (r: nat)
    ensures r <= |s|
    ensures r == 0 <==> forall q :: q in s ==> q !in mines
    ensures Distinct(s) ==> r == |set q | q in s && q in mines|
  {
    if |s| == 0 then 0
    else
      var rest := CountMines(s[1..], mines);
      assert forall q :: q in s ==> q == s[0] || q in s[1..];
      assert Distinct(s) ==> Distinct(s[1..]) && s[0] !in s[1..];
      MinesOfCons(s, mines);
      (if s[0] in mines then 1 else 0) + rest
  }

  /** The mines among `s` are those among its tail, plus its head when that is a mine. */
  lemma MinesOfCons(s: seq<Position>, mines: set<Position>)
    requires |s| > 0
    ensures (set q | q in s && q in mines) ==
            (if s[0] in mines then {s[0]} else {}) + (set q | q in s[1..] && q in mines)
  {
    assert forall q :: q in s <==> q == s[0] || q in s[1..];
  }

  /**
   * `neighboring_mines(p)`: the number of neighbours of `p` that are mines,
   * truncated to `u8` as the source's `as u8` does. The count is at most 8,
   * so the truncation never changes it.
   */
  function NeighboringMines(width: nat, height: nat, mines: set<Position>, p: Position): (r: u8)
    requires width >= 1 && height >= 1
    ensures r as int == |set q | q in mines && IsNeighbor(width, height, p, q)|
    ensures r <= 8
    ensures r == 0 <==> forall q :: IsNeighbor(width, height, p, q) ==> q !in mines
  {
    var neighbors := Neighbors(width, height, p);
    var count := CountMines(neighbors, mines);
    assert count == |set q | q in mines && IsNeighbor(width, height, p, q)| by {
      MinesAmongNeighbors(width, height, mines, p);
    }
    AsU8(count)
  }

  lemma MinesAmongNeighbors(width: nat, height: nat, mines: set<Position>, p: Position)
    requires width >= 1 && height >= 1
    ensures (set q | q in Neighbors(width, height, p) && q in mines)
         == (set q | q in mines && IsNeighbor(width, height, p, q))
  {
  }

  lemma {:induction false} RowCardinality(width: nat, y: nat)
    ensures |Row(width, y)| == width
  {
    if width == 0 {
      assert Row(width, y) == {};
    } else {
      RowCardinality(width - 1, y);
      assert Row(width, y) == Row(width - 1, y) + {(width - 1, y)};
    }
  }

  /** A `width` x `height` board has `width * height` cells. */
  lemma {:induction false} CellsCardinality(width: nat, height: nat)
    ensures |Cells(width, height)| == width * height
  {
    if height == 0 {
      assert Cells(width, height) == {};
    } else {
      CellsCardinality(width, height - 1);
      RowCardinality(width, height - 1);
      assert Cells(width, height) == Cells(width, height - 1) + Row(width, height - 1);
      assert Cells(width, height - 1) !! Row(width, height - 1);
      assert width * height == width * (height - 1) + width;
    }
  }

  /** Any set of on-board positions has at most `width * height` members. */
  lemma OnBoardAtMostCells(width: nat, height: nat, s: set<Position>)
    requires s <= Cells(width, height)
    ensures |s| <= width * height
  {
    CellsCardinality(width, height);
    SubsetCardinality(s, Cells(width, height));
  }

  lemma {:induction false} SubsetCardinality<T>(a: set<T>, b: set<T>)
    requires a <= b
    ensures |a| <= |b|
    decreases |b|
  {
    if a != {} {
      var x :| x in a;
      SubsetCardinality(a - {x}, b - {x});
    }
  }
}
