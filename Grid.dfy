/** The adjacency rule PathManager.Awake wires into the node matrix, on cell
    coordinates (row, column). A cell gets up, left, right, down, down-right and
    up-left, each only when in bounds: six directions, never up-right or down-left. */
module Grid {
  import opened Lists

  /** (row, column) */
  type Cell = (int, int)

  predicate InBounds(c: Cell, height: int, width: int) {
    0 <= c.0 < height && 0 <= c.1 < width
  }

  /** The neighbours of (i, j), in the order Awake adds them. */
  function AdjacentCells(i: int, j: int, height: int, width: int): (r: seq<Cell>)
    requires InBounds((i, j), height, width)
    ensures forall c :: c in r ==> InBounds(c, height, width)
  {
    (if i > 0 then [(i - 1, j)] else []) +
    (if j > 0 then [(i, j - 1)] else []) +
    (if j < width - 1 then [(i, j + 1)] else []) +
    (if i < height - 1 then [(i + 1, j)] else []) +
    (if i < height - 1 && j < width - 1 then [(i + 1, j + 1)] else []) +
    (if j > 0 && i > 0 then [(i - 1, j - 1)] else [])
  }

  /** The offset of the k-th direction Awake tries: up, left, right, down, down-right, up-left. */
  function NeighborCell(i: int, j: int, k: nat): Cell
    requires k < 6
  {
    if k == 0 then (i - 1, j)
    else if k == 1 then (i, j - 1)
    else if k == 2 then (i, j + 1)
    else if k == 3 then (i + 1, j)
    else if k == 4 then (i + 1, j + 1)
    else (i - 1, j - 1)
  }

  /** The condition Awake tests before the k-th addition. */
  function Guard(i: int, j: int, height: int, width: int, k: nat): (b: bool)
    requires k < 6
    requires InBounds((i, j), height, width)
    ensures b <==> InBounds(NeighborCell(i, j, k), height, width)
  {
    if k == 0 then i > 0
    else if k == 1 then j > 0
    else if k == 2 then j < width - 1
    else if k == 3 then i < height - 1
    else if k == 4 then i < height - 1 && j < width - 1
    else j > 0 && i > 0
  }

  /** The cells of the first k guarded additions. */
  function CellPrefix(i: int, j: int, height: int, width: int, k: nat): seq<Cell>
    requires InBounds((i, j), height, width) && k <= 6
  {
    if k == 0 then []
    else
      var s := CellPrefix(i, j, height, width, k - 1);
      if Guard(i, j, height, width, k - 1) then s + [NeighborCell(i, j, k - 1)] else s
  }

  lemma CellPrefixAll(i: int, j: int, height: int, width: int)
    requires InBounds((i, j), height, width)
    ensures CellPrefix(i, j, height, width, 6) == AdjacentCells(i, j, height, width)
  {
    var h, w := height, width;
    assert CellPrefix(i, j, h, w, 1) == (if i > 0 then [(i - 1, j)] else []);
    assert CellPrefix(i, j, h, w, 2) == CellPrefix(i, j, h, w, 1) + (if j > 0 then [(i, j - 1)] else []);
    assert CellPrefix(i, j, h, w, 3) == CellPrefix(i, j, h, w, 2) + (if j < w - 1 then [(i, j + 1)] else []);
    assert CellPrefix(i, j, h, w, 4) == CellPrefix(i, j, h, w, 3) + (if i < h - 1 then [(i + 1, j)] else []);
    assert CellPrefix(i, j, h, w, 5) == CellPrefix(i, j, h, w, 4) + (if i < h - 1 && j < w - 1 then [(i + 1, j + 1)] else []);
    assert CellPrefix(i, j, h, w, 6) == CellPrefix(i, j, h, w, 5) + (if j > 0 && i > 0 then [(i - 1, j - 1)] else []);
  }

  /** The cell Awake takes End from, as written: NodeMatrix[Width - 1][Height - 1], i.e. row Width - 1
      and column Height - 1 of a matrix of Height rows and Width columns. */
  function EndCellAsWritten(width: int, height: int): Cell {
    (width - 1, height - 1)
  }

  /** On any grid that is not square, that index leaves the matrix, so Awake throws before seeding. */
  lemma EndCellAsWrittenOutOfBounds(width: int, height: int)
    requires 0 < width && 0 < height && width != height
    ensures !InBounds(EndCellAsWritten(width, height), height, width)
  {
  }

  /** The bottom-right cell, the evidently intended End: every cell of the grid lies above and to the left of it. */
  function EndCell(width: int, height: int): (c: Cell)
    requires 0 < width && 0 < height
    ensures InBounds(c, height, width)
    ensures forall d :: InBounds(d, height, width) ==> d.0 <= c.0 && d.1 <= c.1
  {
    (height - 1, width - 1)
  }

  /** On square grids, the only ones on which Awake completes, the two agree. */
  lemma EndCellSquare(width: int)
    requires 0 < width
    ensures EndCell(width, width) == EndCellAsWritten(width, width)
  {
  }

  /** The six directions as (row, column) offsets, in the order they are tried. */
  const Directions: seq<Cell> := [(-1, 0), (0, -1), (0, 1), (1, 0), (1, 1), (-1, -1)]

  /** The cell at offset d from (i, j), as a one-element list when it is in bounds. */
  function Toward(i: int, j: int, d: Cell, height: int, width: int): seq<Cell> {
    var c := (i + d.0, j + d.1);
    if InBounds(c, height, width) then [c] else []
  }

  /** Reference definition: shift (i, j) by each offset in turn and keep the cells that are in bounds. */
  function Shifted(i: int, j: int, offsets: seq<Cell>, height: int, width: int): seq<Cell> {
    if offsets == [] then []
    else Toward(i, j, offsets[0], height, width) + Shifted(i, j, offsets[1..], height, width)
  }

  lemma ShiftedMember(i: int, j: int, offsets: seq<Cell>, height: int, width: int, c: Cell)
    ensures c in Shifted(i, j, offsets, height, width) <==>
            InBounds(c, height, width) && (c.0 - i, c.1 - j) in offsets
  {
  }

  /** Regrouping six concatenated lists from right-nested to left-nested. */
  lemma Assoc6<T>(a: seq<T>, b: seq<T>, c: seq<T>, d: seq<T>, e: seq<T>, f: seq<T>)
    ensures a + (b + (c + (d + (e + f)))) == ((((a + b) + c) + d) + e) + f
  {
    AppendAssoc(a, b, c + (d + (e + f)));
    AppendAssoc(a + b, c, d + (e + f));
    AppendAssoc((a + b) + c, d, e + f);
    AppendAssoc(((a + b) + c) + d, e, f);
  }

  /** Shifting by a literal list of six offsets, unfolded. */
  lemma ShiftedSix(i: int, j: int, d: seq<Cell>, height: int, width: int)
    requires |d| == 6
    ensures Shifted(i, j, d, height, width) ==
      Toward(i, j, d[0], height, width) + (Toward(i, j, d[1], height, width) + (Toward(i, j, d[2], height, width) +
      (Toward(i, j, d[3], height, width) + (Toward(i, j, d[4], height, width) + Toward(i, j, d[5], height, width)))))
  {
    var h, w := height, width;
    assert d[5..][1..] == [];
    assert Shifted(i, j, d[5..], h, w) == Toward(i, j, d[5], h, w) + [];
    assert d[4..][1..] == d[5..];
    assert Shifted(i, j, d[4..], h, w) == Toward(i, j, d[4], h, w) + Shifted(i, j, d[5..], h, w);
    assert d[3..][1..] == d[4..];
    assert Shifted(i, j, d[3..], h, w) == Toward(i, j, d[3], h, w) + Shifted(i, j, d[4..], h, w);
    assert d[2..][1..] == d[3..];
    assert Shifted(i, j, d[2..], h, w) == Toward(i, j, d[2], h, w) + Shifted(i, j, d[3..], h, w);
    assert d[1..][1..] == d[2..];
    assert Shifted(i, j, d[1..], h, w) == Toward(i, j, d[1], h, w) + Shifted(i, j, d[2..], h, w);
  }

  /** The wiring in Awake is exactly "every in-bounds cell at one of the six directions, in order". */
  lemma AdjacentCellsByDirections(i: int, j: int, height: int, width: int)
    requires InBounds((i, j), height, width)
    ensures AdjacentCells(i, j, height, width) == Shifted(i, j, Directions, height, width)
  {
    var d, h, w := Directions, height, width;
    var t0, t1, t2 := Toward(i, j, d[0], h, w), Toward(i, j, d[1], h, w), Toward(i, j, d[2], h, w);
    var t3, t4, t5 := Toward(i, j, d[3], h, w), Toward(i, j, d[4], h, w), Toward(i, j, d[5], h, w);
    TowardNeighborCell(i, j, h, w, 0);
    TowardNeighborCell(i, j, h, w, 1);
    TowardNeighborCell(i, j, h, w, 2);
    TowardNeighborCell(i, j, h, w, 3);
    TowardNeighborCell(i, j, h, w, 4);
    TowardNeighborCell(i, j, h, w, 5);
    ShiftedSix(i, j, d, h, w);
    Assoc6(t0, t1, t2, t3, t4, t5);
  }

  /** The k-th direction leads to the k-th cell Awake tries, kept exactly when Awake's guard holds. */
  lemma TowardNeighborCell(i: int, j: int, height: int, width: int, k: nat)
    requires InBounds((i, j), height, width) && k < 6
    ensures Toward(i, j, Directions[k], height, width) ==
            if Guard(i, j, height, width, k) then [NeighborCell(i, j, k)] else []
  {
    assert (i + Directions[k].0, j + Directions[k].1) == NeighborCell(i, j, k);
  }

  /** Membership, both directions: a cell is a neighbour iff it is in bounds and one of the six directions away. */
  lemma AdjacentIff(i: int, j: int, height: int, width: int, c: Cell)
    requires InBounds((i, j), height, width)
    ensures c in AdjacentCells(i, j, height, width) <==>
            InBounds(c, height, width) && (c.0 - i, c.1 - j) in Directions
  {
    AdjacentCellsByDirections(i, j, height, width);
    ShiftedMember(i, j, Directions, height, width, c);
  }

  /** The anti-diagonals (up-right and down-left) are never neighbours, and no cell is its own neighbour. */
  lemma NoAntiDiagonal(i: int, j: int, height: int, width: int)
    requires InBounds((i, j), height, width)
    ensures (i - 1, j + 1) !in AdjacentCells(i, j, height, width)
    ensures (i + 1, j - 1) !in AdjacentCells(i, j, height, width)
    ensures (i, j) !in AdjacentCells(i, j, height, width)
  {
    AdjacentIff(i, j, height, width, (i - 1, j + 1));
    AdjacentIff(i, j, height, width, (i + 1, j - 1));
    AdjacentIff(i, j, height, width, (i, j));
  }

  /** An interior cell has exactly six neighbours. */
  lemma InteriorHasSix(i: int, j: int, height: int, width: int)
    requires 0 < i < height - 1 && 0 < j < width - 1
    ensures AdjacentCells(i, j, height, width) ==
            [(i - 1, j), (i, j - 1), (i, j + 1), (i + 1, j), (i + 1, j + 1), (i - 1, j - 1)]
  {
  }

  /** The start corner (0, 0) of a grid at least 2 x 2 has right, down and down-right only. */
  lemma StartCorner(height: int, width: int)
    requires height >= 2 && width >= 2
    ensures AdjacentCells(0, 0, height, width) == [(0, 1), (1, 0), (1, 1)]
  {
  }

  /** No cell is listed twice. */
  lemma AdjacentDistinct(i: int, j: int, height: int, width: int)
    requires InBounds((i, j), height, width)
    ensures NoDup(AdjacentCells(i, j, height, width))
  {
  }

  /** The rule is symmetric: the six directions are closed under reversal (up/down, left/right, down-right/up-left). */
  lemma AdjacentSymmetric(i: int, j: int, height: int, width: int, c: Cell)
    requires InBounds((i, j), height, width) && InBounds(c, height, width)
    ensures c in AdjacentCells(i, j, height, width) <==> (i, j) in AdjacentCells(c.0, c.1, height, width)
  {
    AdjacentIff(i, j, height, width, c);
    AdjacentIff(c.0, c.1, height, width, (i, j));
  }
}
