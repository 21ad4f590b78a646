/**
 * The minesweeper board engine: a `width` x `height` grid, the mines, the
 * opened cells, the flagged cells and the `lost` flag, with the operations
 * `open` (including its recursive flood fill), `toggle_flag`, construction,
 * and the per-cell view used by the textual rendering.
 */
module Minesweeper {
  import opened Grid

  datatype Option<T> = None | Some(value: T)

  /** What `open` reports when it does open a cell. */
  datatype OpenResult = Mine | NoMine(count: u8)

  /** What the rendering shows for one cell. */
  datatype CellView = Flagged | Hidden | Bomb | Digit(count: u8)

  /** The distinct positions among `s`. */
  function Elements(s: seq<Position>): set<Position> {
    set q | q in s
  }

  /**
   * The mine-placement loop of the constructor. The random positions it draws
   * are the parameter `draws`, consumed in order; each lies on the board.
   * The loop stops at the first prefix of the draws that holds `mineCount`
   * distinct positions, so the draws must contain that many.
   */
  method PlaceMines(width: nat, height: nat, mineCount: nat, draws: seq<Position>)
    returns (mines: set<Position>)
    requires forall k :: 0 <= k < |draws| ==> InGrid(width, height, draws[k])
    requires mineCount <= |Elements(draws)|
    ensures |mines| == mineCount
    ensures mines <= Cells(width, height)
    ensures exists n :: 0 <= n <= |draws| && mines == Elements(draws[..n])
                        && forall m :: 0 <= m < n ==> |Elements(draws[..m])| < mineCount
  {
    mines := {};
    var n := 0;
    while |mines| < mineCount
      invariant 0 <= n <= |draws|
      invariant mines == Elements(draws[..n])
      invariant |mines| <= mineCount
      invariant forall m :: 0 <= m < n ==> |Elements(draws[..m])| < mineCount
      decreases |draws| - n
    {
      assert draws[..|draws|] == draws;
      assert n < |draws|;
      assert draws[..n + 1] == draws[..n] + [draws[n]];
      assert Elements(draws[..n + 1]) == mines + {draws[n]};
      mines := mines + {draws[n]};
      n := n + 1;
    }
    assert forall q :: q in mines ==> q in draws[..n];
  }

  /**
   * The construction loop can only stop when the board has room for the mines:
   * if the draws hold `mineCount` distinct on-board positions, then
   * `mineCount <= width * height`.
   */
  lemma MineCountFitsBoard(width: nat, height: nat, mineCount: nat, draws: seq<Position>)
    requires forall k :: 0 <= k < |draws| ==> InGrid(width, height, draws[k])
    requires mineCount <= |Elements(draws)|
    ensures mineCount <= width * height
  {
    OnBoardAtMostCells(width, height, Elements(draws));
  }

  /** `flagged` with the membership of `p` flipped. */
  function Toggled(flagged: set<Position>, p: Position): (r: set<Position>)
    ensures p in r <==> p !in flagged
    ensures r - {p} == flagged - {p}
  {
    if p in flagged then flagged - {p} else flagged + {p}
  }

  /** Toggling the same position twice gives back the original set. */
  lemma ToggledTwice(flagged: set<Position>, p: Position)
    ensures Toggled(Toggled(flagged, p), p) == flagged
  {
  }

  /** `q` is not a mine and none of its neighbours is: opening it floods on. */
  ghost predicate IsZero(width: nat, height: nat, mines: set<Position>, q: Position)
    requires width >= 1 && height >= 1
  {
    q !in mines && NeighboringMines(width, height, mines, q) == 0
  }

  /** The cells of the board that are not mines and have no neighbouring mine. */
  ghost function Zeros(width: nat, height: nat, mines: set<Position>): set<Position>
    requires width >= 1 && height >= 1
  {
    set q | q in Cells(width, height) && IsZero(width, height, mines, q)
  }

  /** None of the cells opened between `before` and `after` is a mine. */
  ghost predicate NoMineOpened(mines: set<Position>, before: set<Position>, after: set<Position>) {
    forall q :: q in after && q !in before ==> q !in mines
  }

  /**
   * The flood fill is closed: every neighbour of a cell opened between
   * `before` and `after` that is among `zeros`, the cells with no
   * neighbouring mine, is opened or flagged.
   */
  ghost predicate FloodClosed(width: nat, height: nat, zeros: set<Position>, flagged: set<Position>,
                              before: set<Position>, after: set<Position>)
  {
    forall q, n ::
      q in after && q !in before && q in zeros && IsNeighbor(width, height, q, n)
      ==> n in after || n in flagged
  }

  /**
   * `order` lists the cells a flood fill from `root` opens, in the order it
   * opens them: `root` first, then each cell a neighbour of an earlier cell
   * among `zeros`, the cells that have no neighbouring mine.
   */
  ghost predicate OpeningOrder(width: nat, height: nat, zeros: set<Position>, order: seq<Position>, root: Position) {
    (order != [] ==> order[0] == root) &&
    forall i :: 0 < i < |order| ==>
      exists j :: 0 <= j < i && order[j] in zeros && IsNeighbor(width, height, order[j], order[i])
  }

  /** The elements of a one-cell sequence. */
  lemma SingleElement(pos: Position)
    ensures Elements([pos]) == {pos} && Distinct([pos])
  {
    assert forall q :: q in [pos] <==> q == pos;
  }

  /** Two sequences without repeats and with no element in common concatenate to one without repeats. */
  lemma DisjointAppend(acc: seq<Position>, sub: seq<Position>)
    requires Distinct(acc) && Distinct(sub) && Elements(acc) !! Elements(sub)
    ensures Distinct(acc + sub)
    ensures Elements(acc + sub) == Elements(acc) + Elements(sub)
  {
    forall a, b | 0 <= a < b < |acc + sub|
      ensures (acc + sub)[a] != (acc + sub)[b]
    {
      if a < |acc| <= b {
        assert (acc + sub)[a] in Elements(acc) && (acc + sub)[b] in Elements(sub);
      }
    }
  }

  /**
   * An opening order from `root` whose first cell is a zero cell, followed
   * by an opening order from a neighbour `n` of that cell, is an opening
   * order from `root`.
   */
  lemma ConcatOrder(width: nat, height: nat, zeros: set<Position>, a: seq<Position>, b: seq<Position>,
                    root: Position, n: Position)
    requires a != [] && a[0] in zeros && IsNeighbor(width, height, a[0], n)
    requires OpeningOrder(width, height, zeros, a, root)
    requires OpeningOrder(width, height, zeros, b, n)
    ensures OpeningOrder(width, height, zeros, a + b, root)
  {
    var c := a + b;
    assert c[0] == a[0];
    forall i | 0 < i < |c|
      ensures exists j :: 0 <= j < i && c[j] in zeros && IsNeighbor(width, height, c[j], c[i])
    {
      if i < |a| {
        assert c[i] == a[i];
        var j :| 0 <= j < i && a[j] in zeros && IsNeighbor(width, height, a[j], a[i]);
        assert c[j] == a[j];
      } else if i == |a| {
        assert c[i] == b[0] == n;
      } else {
        var k := i - |a|;
        assert c[i] == b[k];
        var j :| 0 <= j < k && b[j] in zeros && IsNeighbor(width, height, b[j], b[k]);
        assert c[|a| + j] == b[j];
      }
    }
  }

  /**
   * The cells `sub` a flood from `n`, a neighbour of the zero cell `pos`,
   * opens extend the opening order of the flood from `pos`.
   */
  lemma OrderAppend(width: nat, height: nat, zeros: set<Position>, pos: Position, n: Position,
                    acc: seq<Position>, sub: seq<Position>)
    requires pos in zeros && IsNeighbor(width, height, pos, n)
    requires OpeningOrder(width, height, zeros, [pos] + acc, pos)
    requires OpeningOrder(width, height, zeros, sub, n)
    ensures OpeningOrder(width, height, zeros, [pos] + (acc + sub), pos)
  {
    assert [pos] + (acc + sub) == ([pos] + acc) + sub;
    ConcatOrder(width, height, zeros, [pos] + acc, sub, pos, n);
  }

  /**
   * One turn of the loop over the neighbours of the zero cell `pos`: the
   * recursive opening of its neighbour `n` took the opened cells from `mid`
   * to `after`, opening the cells `sub` in that order. Appended to the cells
   * `acc` the loop opened before, it keeps what the loop maintains since
   * `before`.
   */
  lemma FloodStep(width: nat, height: nat, mines: set<Position>, flagged: set<Position>,
                  before: set<Position>, mid: set<Position>, after: set<Position>,
                  pos: Position, n: Position, acc: seq<Position>, sub: seq<Position>)
    requires width >= 1 && height >= 1
    requires pos in Zeros(width, height, mines) && IsNeighbor(width, height, pos, n)
    requires mid == before + Elements(acc) && after == mid + Elements(sub)
    requires Distinct(acc) && Elements(acc) !! before && Distinct(sub) && Elements(sub) !! mid
    requires NoMineOpened(mines, before, mid) && NoMineOpened(mines, mid, after)
    requires FloodClosed(width, height, Zeros(width, height, mines), flagged, before, mid)
    requires FloodClosed(width, height, Zeros(width, height, mines), flagged, mid, after)
    requires OpeningOrder(width, height, Zeros(width, height, mines), [pos] + acc, pos)
    requires OpeningOrder(width, height, Zeros(width, height, mines), sub, n)
    ensures after == before + Elements(acc + sub)
    ensures Distinct(acc + sub) && Elements(acc + sub) !! before
    ensures NoMineOpened(mines, before, after)
    ensures FloodClosed(width, height, Zeros(width, height, mines), flagged, before, after)
    ensures OpeningOrder(width, height, Zeros(width, height, mines), [pos] + (acc + sub), pos)
  {
    DisjointAppend(acc, sub);
    OrderAppend(width, height, Zeros(width, height, mines), pos, n, acc, sub);
  }

  /**
   * The flood fill seen from `open`: `pos`, just opened, is a zero cell, and
   * the loop over its neighbours took the opened cells from `before + {pos}`
   * to `after`, opening the cells `sub` in that order. Then `open` opened
   * `[pos] + sub` and keeps the flood closed.
   */
  lemma FloodFromRoot(width: nat, height: nat, mines: set<Position>, flagged: set<Position>,
                      before: set<Position>, after: set<Position>, pos: Position, sub: seq<Position>)
    requires width >= 1 && height >= 1
    requires pos in Zeros(width, height, mines) && pos !in before
    requires after == (before + {pos}) + Elements(sub)
    requires Distinct(sub) && Elements(sub) !! before + {pos}
    requires forall n :: IsNeighbor(width, height, pos, n) ==> n in after || n in flagged
    requires NoMineOpened(mines, before + {pos}, after)
    requires FloodClosed(width, height, Zeros(width, height, mines), flagged, before + {pos}, after)
    ensures after == before + Elements([pos] + sub)
    ensures Distinct([pos] + sub) && Elements([pos] + sub) !! before
    ensures NoMineOpened(mines, before, after)
    ensures FloodClosed(width, height, Zeros(width, height, mines), flagged, before, after)
  {
    SingleElement(pos);
    DisjointAppend([pos], sub);
  }

  /**
   * An `open` that opens only `pos`, a mine or a cell next to a mine, opens
   * `[pos]` and keeps the flood closed.
   */
  lemma OnlyRootOpened(width: nat, height: nat, mines: set<Position>, flagged: set<Position>,
                       before: set<Position>, pos: Position)
    requires width >= 1 && height >= 1
    requires pos !in Zeros(width, height, mines) && pos !in before
    ensures before + {pos} == before + Elements([pos])
    ensures Distinct([pos]) && Elements([pos]) !! before
    ensures pos !in mines ==> NoMineOpened(mines, before, before + {pos})
    ensures FloodClosed(width, height, Zeros(width, height, mines), flagged, before, before + {pos})
    ensures OpeningOrder(width, height, Zeros(width, height, mines), [pos], pos)
  {
    SingleElement(pos);
  }

  /**
   * A closed flood fill reaches the cell at index `i` of an opening order
   * from `root`, as long as the cells the order lists were neither opened
   * nor flagged before.
   */
  lemma {:induction false} ClosedFloodHoldsCell(width: nat, height: nat, zeros: set<Position>,
                                                flagged: set<Position>, before: set<Position>,
                                                after: set<Position>, order: seq<Position>, root: Position, i: nat)
    requires OpeningOrder(width, height, zeros, order, root)
    requires Elements(order) !! before && Elements(order) !! flagged
    requires root in after
    requires FloodClosed(width, height, zeros, flagged, before, after)
    requires i < |order|
    ensures order[i] in after
    decreases i
  {
    if i > 0 {
      assert exists j :: 0 <= j < i && order[j] in zeros && IsNeighbor(width, height, order[j], order[i]);
      var j :| 0 <= j < i && order[j] in zeros && IsNeighbor(width, height, order[j], order[i]);
      ClosedFloodHoldsCell(width, height, zeros, flagged, before, after, order, root, j);
      assert order[j] in Elements(order) && order[i] in Elements(order);
    }
  }

  /** A closed flood fill reaches every cell an opening order from `root` lists. */
  lemma ClosedFloodHoldsOrder(width: nat, height: nat, zeros: set<Position>,
                              flagged: set<Position>, before: set<Position>,
                              after: set<Position>, order: seq<Position>, root: Position)
    requires OpeningOrder(width, height, zeros, order, root)
    requires Elements(order) !! before && Elements(order) !! flagged
    requires order != [] ==> root in after
    requires FloodClosed(width, height, zeros, flagged, before, after)
    ensures Elements(order) <= after
  {
    forall q | q in Elements(order)
      ensures q in after
    {
      var i :| 0 <= i < |order| && order[i] == q;
      ClosedFloodHoldsCell(width, height, zeros, flagged, before, after, order, root, i);
    }
  }

  /**
   * The flood fill of `open` is determined: two closed floods from the same
   * state that follow an opening order from the same root open the same
   * cells. So closure and an opening order together pin down the cells that
   * `open` opens.
   */
  lemma FloodDetermined(width: nat, height: nat, mines: set<Position>, flagged: set<Position>,
                        before: set<Position>, order1: seq<Position>, order2: seq<Position>, root: Position)
    requires width >= 1 && height >= 1
    requires order1 == [] <==> order2 == []
    requires OpeningOrder(width, height, Zeros(width, height, mines), order1, root)
    requires OpeningOrder(width, height, Zeros(width, height, mines), order2, root)
    requires Elements(order1) !! before && Elements(order1) !! flagged
    requires Elements(order2) !! before && Elements(order2) !! flagged
    requires FloodClosed(width, height, Zeros(width, height, mines), flagged, before, before + Elements(order1))
    requires FloodClosed(width, height, Zeros(width, height, mines), flagged, before, before + Elements(order2))
    ensures Elements(order1) == Elements(order2)
  {
    if order1 != [] {
      assert order1[0] in Elements(order1) && order2[0] in Elements(order2);
    }
    ClosedFloodHoldsOrder(width, height, Zeros(width, height, mines), flagged, before, before + Elements(order2), order1, root);
    ClosedFloodHoldsOrder(width, height, Zeros(width, height, mines), flagged, before, before + Elements(order1), order2, root);
  }

  /** One step from `a` toward `b`. */
  function Toward(a: nat, b: nat): nat {
    if a < b then a + 1 else if b < a then a - 1 else a
  }

  /**
   * A set of cells that holds `q` and every neighbour of each of its members
   * holds every cell of the board: the board is connected.
   */
  lemma {:induction false} NeighbourClosedReaches(width: nat, height: nat, s: set<Position>, q: Position, c: Position)
    requires width >= 1 && height >= 1
    requires q in s && InGrid(width, height, q) && InGrid(width, height, c)
    requires forall a, b :: a in s && IsNeighbor(width, height, a, b) ==> b in s
    ensures c in s
    decreases Dist(q.0, c.0) + Dist(q.1, c.1)
  {
    if q != c {
      var next := (Toward(q.0, c.0), Toward(q.1, c.1));
      assert IsNeighbor(width, height, q, next);
      NeighbourClosedReaches(width, height, s, next, c);
    }
  }

  /**
   * On a board without mines or flags, a flood fill that starts from
   * nothing opened and is closed opens the whole board.
   */
  lemma FloodFillsMineFreeBoard(width: nat, height: nat, after: set<Position>, pos: Position)
    requires width >= 1 && height >= 1
    requires pos in after && after <= Cells(width, height)
    requires FloodClosed(width, height, Zeros(width, height, {}), {}, {}, after)
    ensures after == Cells(width, height)
  {
    forall a, b | a in after && IsNeighbor(width, height, a, b)
      ensures b in after
    {
      assert IsZero(width, height, {}, a);
    }
    forall c | c in Cells(width, height)
      ensures c in after
    {
      NeighbourClosedReaches(width, height, after, pos, c);
    }
  }

  class Minesweeper {
    const width: nat
    const height: nat
    var openCase: set<Position>
    var mines: set<Position>
    var flagged: set<Position>
    var lost: bool

    /**
     * The board invariant: a non-empty board, every set on the board, no cell
     * both opened and flagged, and `lost` exactly when an opened cell is a mine.
     */
    ghost predicate Valid()
      reads this
    {
      width >= 1 && height >= 1 &&
      openCase <= Cells(width, height) &&
      mines <= Cells(width, height) &&
      flagged <= Cells(width, height) &&
      openCase !! flagged &&
      (lost <==> !(openCase !! mines))
    }

    /** A board with no opened or flagged cell, whose mines come from `draws`. */
    constructor (width: nat, height: nat, mineCount: nat, draws: seq<Position>)
      requires width >= 1 && height >= 1
      requires forall k :: 0 <= k < |draws| ==> InGrid(width, height, draws[k])
      requires mineCount <= |Elements(draws)|
      ensures Valid()
      ensures this.width == width && this.height == height
      ensures openCase == {} && flagged == {} && !lost
      ensures |mines| == mineCount && mines <= Elements(draws)
    {
      this.width := width;
      this.height := height;
      openCase := {};
      var placed := PlaceMines(width, height, mineCount, draws);
      mines := placed;
      flagged := {};
      lost := false;
    }

    /**
     * `open(pos)`. Nothing happens after a loss, on an opened cell or on a
     * flagged cell. A mine is opened and the game is lost. Any other cell is
     * opened, and if none of its neighbours is a mine, each of its neighbours
     * is opened in turn; the result is `NoMine(0)` whatever the count.
     * `order` lists the cells this opens, in the order it opens them.
     */
    method Open(pos: Position) returns (r: Option<OpenResult>, ghost order: seq<Position>)
      requires Valid()
      requires InGrid(width, height, pos)
      modifies this
      decreases Cells(width, height) - openCase, 0
      ensures Valid()
      ensures mines == old(mines) && flagged == old(flagged)
      ensures openCase == old(openCase) + Elements(order)
      ensures Distinct(order) && Elements(order) !! old(openCase)
      ensures old(lost || pos in openCase || pos in flagged) ==>
                r == None && order == [] && lost == old(lost)
      ensures !old(lost || pos in openCase || pos in flagged) && pos in mines ==>
                r == Some(Mine) && lost && order == [pos]
      ensures !old(lost || pos in openCase || pos in flagged) && pos !in mines ==>
                r == Some(NoMine(0)) && !lost && order != []
      ensures !old(lost || pos in openCase || pos in flagged) && !IsZero(width, height, mines, pos) ==>
                order == [pos]
      ensures pos !in mines ==> NoMineOpened(mines, old(openCase), openCase)
      ensures FloodClosed(width, height, Zeros(width, height, mines), flagged, old(openCase), openCase)
      ensures OpeningOrder(width, height, Zeros(width, height, mines), order, pos)
    {
      if lost || pos in openCase || pos in flagged {
        return None, [];
      }
      OnBoard(width, height, pos);
      openCase := openCase + {pos};
      assert openCase !! flagged;
      if pos in mines {
        lost := true;
        assert pos in openCase * mines;
        OnlyRootOpened(width, height, mines, flagged, old(openCase), pos);
        return Some(Mine), [pos];
      }
      assert openCase !! mines by {
        assert old(openCase) !! mines;
      }
      var count := NeighboringMines(width, height, mines, pos);
      if count == 0 {
        ghost var sub := OpenNeighbors(pos);
        FloodFromRoot(width, height, mines, flagged, old(openCase), openCase, pos, sub);
        order := [pos] + sub;
      } else {
        OnlyRootOpened(width, height, mines, flagged, old(openCase), pos);
        order := [pos];
      }
      return Some(NoMine(0)), order;
    }

    /**
     * The flood fill of `open` from the zero cell `pos`, just opened: each
     * neighbour of `pos`, in the order of `Neighbors`, is opened in turn;
     * `order` lists the cells this opens, in the order it opens them.
     */
    method OpenNeighbors(pos: Position) returns (ghost order: seq<Position>)
      requires Valid() && !lost
      requires pos in openCase && IsZero(width, height, mines, pos)
      modifies this
      decreases Cells(width, height) - openCase, 1
      ensures Valid() && !lost
      ensures mines == old(mines) && flagged == old(flagged)
      ensures openCase == old(openCase) + Elements(order)
      ensures Distinct(order) && Elements(order) !! old(openCase)
      ensures forall n :: IsNeighbor(width, height, pos, n) ==> n in openCase || n in flagged
      ensures NoMineOpened(mines, old(openCase), openCase)
      ensures FloodClosed(width, height, Zeros(width, height, mines), flagged, old(openCase), openCase)
      ensures OpeningOrder(width, height, Zeros(width, height, mines), [pos] + order, pos)
    {
      order := [];
      var neighbors := Neighbors(width, height, pos);
      for k := 0 to |neighbors|
        invariant Valid() && !lost
        invariant mines == old(mines) && flagged == old(flagged)
        invariant openCase == old(openCase) + Elements(order)
        invariant Distinct(order) && Elements(order) !! old(openCase)
        invariant forall j :: 0 <= j < k ==> neighbors[j] in openCase || neighbors[j] in flagged
        invariant NoMineOpened(mines, old(openCase), openCase)
        invariant FloodClosed(width, height, Zeros(width, height, mines), flagged, old(openCase), openCase)
        invariant OpeningOrder(width, height, Zeros(width, height, mines), [pos] + order, pos)
      {
        ghost var mid := openCase;
        assert neighbors[k] !in mines;
        assert pos in Zeros(width, height, mines);
        var _, sub := Open(neighbors[k]);
        FloodStep(width, height, mines, flagged, old(openCase), mid, openCase, pos, neighbors[k], order, sub);
        order := order + sub;
      }
    }

    /**
     * `toggle_flag(pos)`: nothing happens after a loss or on an opened cell;
     * otherwise the flag on `pos` is added or removed.
     */
    method ToggleFlag(pos: Position)
      requires Valid()
      requires InGrid(width, height, pos)
      modifies this
      ensures Valid()
      ensures openCase == old(openCase) && mines == old(mines) && lost == old(lost)
      ensures flagged == if old(lost || pos in openCase) then old(flagged) else Toggled(old(flagged), pos)
    {
      if lost || pos in openCase {
        return;
      }
      if pos in flagged {
        flagged := flagged - {pos};
      } else {
        flagged := flagged + {pos};
      }
    }

    /**
     * What the rendering shows at `p`. A flag is shown exactly on flagged
     * cells, a mine only once the game is lost, and a digit is the number of
     * neighbouring mines.
     */
    function View(p: Position): (v: CellView)
      reads this
      requires Valid()
      ensures v == Flagged <==> p in flagged
      ensures v == Hidden <==> p !in openCase && p !in flagged
      ensures v == Bomb <==> p in openCase && p in mines
      ensures v == Bomb ==> lost
      ensures v.Digit? ==> p in openCase && p !in mines && v.count <= 8
      ensures v.Digit? ==> v.count as int == |set q | q in mines && IsNeighbor(width, height, p, q)|
    {
      if p !in openCase then
        if p in flagged then Flagged else Hidden
      else if p in mines then
        Bomb
      else
        Digit(NeighboringMines(width, height, mines, p))
    }

    /**
     * The rendering, row by row from the top and left to right within a row:
     * `height` rows of `width` cells, the cell in row `y` and column `x` being
     * the view of position `(x, y)`.
     */
    method Render() returns (rows: seq<seq<CellView>>)
      requires Valid()
      ensures |rows| == height
      ensures forall y :: 0 <= y < height ==> |rows[y]| == width
      ensures forall y, x :: 0 <= y < height && 0 <= x < width ==> rows[y][x] == View((x, y))
    {
      rows := [];
      for y := 0 to height
        invariant |rows| == y
        invariant forall y' :: 0 <= y' < y ==> |rows[y']| == width
        invariant forall y', x :: 0 <= y' < y && 0 <= x < width ==> rows[y'][x] == View((x, y'))
      {
        var row := [];
        for x := 0 to width
          invariant |row| == x
          invariant forall x' :: 0 <= x' < x ==> row[x'] == View((x', y))
        {
          row := row + [View((x, y))];
        }
        rows := rows + [row];
      }
    }
  }

  /**
   * Opening any cell of a board without mines opens every cell, and each
   * cell then shows the digit 0.
   */
  method OpenMineFreeBoard(width: nat, height: nat, pos: Position) returns (board: Minesweeper)
    requires width >= 1 && height >= 1 && InGrid(width, height, pos)
    ensures board.Valid() && !board.lost
    ensures board.openCase == Cells(width, height)
    ensures forall x: nat, y: nat :: x < width && y < height ==> board.View((x, y)) == Digit(0)
  {
    board := new Minesweeper(width, height, 0, []);
    assert IsZero(width, height, {}, pos);
    var _, _ := board.Open(pos);
    FloodFillsMineFreeBoard(width, height, board.openCase, pos);
  }
}
