/** The board of the N-in-a-row game: pieces, the fixed constants of the
    engine, grid coordinates and the count of empty cells.

    A board is a flat sequence of `Cells` pieces; the cell at column `x`
    and row `y` is stored at index `x * BoardWidth + y`. */
module Board {

  /** Side of the square board. */
  const BoardWidth: int := 3
  /** Length of a run that wins the game. */
  const PiecesToWin: int := 3
  /** Number of cells of the board. */
  const Cells: int := BoardWidth * BoardWidth

  /** The occupant of a cell. `Empty` is the engine's `None`. */
  datatype Piece = Empty | Cross | Circle

  /** The human plays first with crosses; the computer plays circles. */
  const PlayerPiece: Piece := Cross
  const ComputerPiece: Piece := Circle

  datatype Option<T> = None | Some(value: T)

  /** An integer 2D vector, used both for positions and for directions. */
  datatype Vec = Vec(x: int, y: int)

  predicate InBounds(p: Vec) {
    0 <= p.x < BoardWidth && 0 <= p.y < BoardWidth
  }

  /** The position of the cell stored at `index`. */
  function CellPos(index: int): (p: Vec)
    requires 0 <= index < Cells
    ensures InBounds(p) && p.x * BoardWidth + p.y == index
  {
    Vec(index / BoardWidth, index % BoardWidth)
  }

  /** True when `p` is on the board and holds `expected`. */
  predicate Matches(b: seq<Piece>, expected: Piece, p: Vec)
    requires |b| == Cells
  {
    InBounds(p) && b[p.x * BoardWidth + p.y] == expected
  }

  predicate IsFull(b: seq<Piece>) {
    forall i :: 0 <= i < |b| ==> b[i] != Empty
  }

  predicate AllEmpty(b: seq<Piece>) {
    forall i :: 0 <= i < |b| ==> b[i] == Empty
  }

  /** The number of empty cells; the placed-piece count of a board is
      `|b| - EmptyCount(b)`. */
  function EmptyCount(b: seq<Piece>): (n: nat)
    ensures n <= |b|
  {
    if b == [] then 0
    else (if b[0] == Empty then 1 else 0) + EmptyCount(b[1..])
  }

  /** No empty cell is left exactly when the count is zero, and every cell
      is empty exactly when the count is the length. */
  lemma {:induction false} EmptyCountBounds(b: seq<Piece>)
    ensures EmptyCount(b) == 0 <==> IsFull(b)
    ensures EmptyCount(b) == |b| <==> AllEmpty(b)
  {
    if b != [] {
      EmptyCountBounds(b[1..]);
      assert forall i :: 0 < i < |b| ==> b[i] == b[1..][i - 1];
    }
  }

  /** Some cell among the first `n` is empty: what a scan of the first `n`
      cells for an empty one finds. */
  predicate EmptyBefore(b: seq<Piece>, n: int)
    requires 0 <= n <= |b|
  {
    n > 0 && (b[n - 1] == Empty || EmptyBefore(b, n - 1))
  }

  /** The scan finds an empty cell exactly when there is one. */
  lemma {:induction false} EmptyBeforeMeans(b: seq<Piece>, n: int)
    requires 0 <= n <= |b|
    ensures EmptyBefore(b, n) <==> exists j :: 0 <= j < n && b[j] == Empty
  {
    if n > 0 {
      EmptyBeforeMeans(b, n - 1);
    }
  }

  /** A scan of the whole board finds no empty cell exactly when the board
      is full. */
  lemma FullMeansNoEmpty(b: seq<Piece>)
    ensures !EmptyBefore(b, |b|) <==> IsFull(b)
  {
    EmptyBeforeMeans(b, |b|);
  }

  /** Writing one cell changes the empty count by exactly what that cell
      was and what it becomes. */
  lemma {:induction false} EmptyCountUpdate(b: seq<Piece>, i: int, p: Piece)
    requires 0 <= i < |b|
    ensures EmptyCount(b[i := p])
         == EmptyCount(b) - (if b[i] == Empty then 1 else 0) + (if p == Empty then 1 else 0)
  {
    if i == 0 {
      assert b[i := p][1..] == b[1..];
    } else {
      assert b[i := p][1..] == b[1..][i - 1 := p];
      EmptyCountUpdate(b[1..], i - 1, p);
    }
  }

  /** The board after a piece is put on the empty cell `i`. */
  function Place(b: seq<Piece>, i: int, p: Piece): (r: seq<Piece>)
    requires 0 <= i < |b| && b[i] == Empty && p != Empty
  {
    b[i := p]
  }

  /** Placing a piece on an empty cell leaves one empty cell fewer: the
      measure on which the exhaustive search terminates. */
  lemma PlaceDecreases(b: seq<Piece>, i: int, p: Piece)
    requires 0 <= i < |b| && b[i] == Empty && p != Empty
    ensures EmptyCount(Place(b, i, p)) == EmptyCount(b) - 1
  {
    EmptyCountUpdate(b, i, p);
  }

  /** The larger of two integers. */
  function Max(a: int, b: int): (r: int)
    ensures a <= r && b <= r && (r == a || r == b)
  {
    if a < b then b else a
  }

  /** The smaller of two integers. */
  function Min(a: int, b: int): (r: int)
    ensures r <= a && r <= b && (r == a || r == b)
  {
    if b < a then b else a
  }
}
