/** Line scanning and win detection: counting a run of equal pieces from a
    cell along a direction, and deciding whether the piece just placed
    completed a line of `PiecesToWin`. */
module Lines {
  import opened Board

  function Add(a: Vec, b: Vec): (r: Vec) { Vec(a.x + b.x, a.y + b.y) }

  function Neg(d: Vec): (r: Vec) { Vec(-d.x, -d.y) }

  /** The cell `i` steps from `pos` along `dir`. */
  function Step(pos: Vec, dir: Vec, i: nat): (r: Vec)
    decreases i
  {
    if i == 0 then pos else Add(Step(pos, dir, i - 1), dir)
  }

  /** The cell `i` steps from `pos` along `dir` is on the board and holds
      `expected`. */
  predicate MatchesAt(b: seq<Piece>, expected: Piece, pos: Vec, dir: Vec, i: nat)
    requires |b| == Cells
  {
    Matches(b, expected, Step(pos, dir, i))
  }

  /** Walking `j` steps from the next cell is walking `j + 1` steps from
      `pos`. */
  lemma {:induction false} StepSucc(pos: Vec, dir: Vec, j: nat)
    ensures Step(Add(pos, dir), dir, j) == Step(pos, dir, j + 1)
  {
    if j > 0 {
      StepSucc(pos, dir, j - 1);
    }
  }

  /** Walking `t` steps back and then `i` steps forward. */
  lemma {:induction false} StepBackThenForward(pos: Vec, dir: Vec, t: nat, i: nat)
    ensures i <= t ==> Step(Step(pos, Neg(dir), t), dir, i) == Step(pos, Neg(dir), t - i)
    ensures t <= i ==> Step(Step(pos, Neg(dir), t), dir, i) == Step(pos, dir, i - t)
  {
    if i > 0 {
      StepBackThenForward(pos, dir, t, i - 1);
    }
  }

  /** Step 0 of a scan is its start; step `i > 0` is step `i - 1` of the
      scan that starts one cell further. */
  lemma ShiftMatches(b: seq<Piece>, expected: Piece, pos: Vec, dir: Vec)
    requires |b| == Cells
    ensures MatchesAt(b, expected, pos, dir, 0) == Matches(b, expected, pos)
    ensures forall i: nat :: 0 < i ==> MatchesAt(b, expected, pos, dir, i) == MatchesAt(b, expected, Add(pos, dir), dir, i - 1)
  {
    forall i: nat | 0 < i
      ensures MatchesAt(b, expected, pos, dir, i) == MatchesAt(b, expected, Add(pos, dir), dir, i - 1)
    {
      StepSucc(pos, dir, i - 1);
    }
  }

  /** How many steps along a non-zero `dir` stay on the board from `pos`,
      judged on one coordinate that moves: the termination measure of a
      scan. */
  function Room(pos: Vec, dir: Vec): (n: nat)
    ensures n <= BoardWidth
  {
    if !InBounds(pos) then 0
    else if dir.x > 0 then BoardWidth - pos.x
    else if dir.x < 0 then pos.x + 1
    else if dir.y > 0 then BoardWidth - pos.y
    else if dir.y < 0 then pos.y + 1
    else BoardWidth
  }

  /** The length of the run of `expected` that starts at `pos` and goes
      along `dir`; it never exceeds the room left on the board, so the
      scan stops for every non-zero direction. */
  function CheckLine(b: seq<Piece>, expected: Piece, pos: Vec, dir: Vec): (k: int)
    requires |b| == Cells
    requires dir != Vec(0, 0)
    ensures 0 <= k <= Room(pos, dir)
    decreases Room(pos, dir)
  {
    if pos.x < 0 || pos.x >= BoardWidth then 0
    else if pos.y < 0 || pos.y >= BoardWidth then 0
    else if b[pos.x * BoardWidth + pos.y] != expected then 0
    else 1 + CheckLine(b, expected, Add(pos, dir), dir)
  }

  /** What the run length means: every cell before step `k` is on the
      board and holds `expected`, and the cell at step `k` is off the board
      or differs. */
  lemma {:induction false} CheckLineRun(b: seq<Piece>, expected: Piece, pos: Vec, dir: Vec)
    requires |b| == Cells && dir != Vec(0, 0)
    ensures forall i: nat :: i < CheckLine(b, expected, pos, dir) ==> MatchesAt(b, expected, pos, dir, i)
    ensures !MatchesAt(b, expected, pos, dir, CheckLine(b, expected, pos, dir))
    decreases Room(pos, dir)
  {
    if Matches(b, expected, pos) {
      CheckLineRun(b, expected, Add(pos, dir), dir);
      ShiftMatches(b, expected, pos, dir);
    }
  }

  /** `PiecesToWin` consecutive cells from `start` along `dir` all hold `e`. */
  ghost predicate Window(b: seq<Piece>, e: Piece, start: Vec, dir: Vec)
    requires |b| == Cells
  {
    forall i: nat :: i < PiecesToWin ==> MatchesAt(b, e, start, dir, i)
  }

  /** A window that starts `t` steps before `pos`. */
  ghost predicate WindowBack(b: seq<Piece>, e: Piece, pos: Vec, dir: Vec, t: nat)
    requires |b| == Cells
  {
    Window(b, e, Step(pos, Neg(dir), t), dir)
  }

  /** Reference meaning of a win along one orientation: some window of
      `PiecesToWin` cells holding `e`, taken along `dir`, covers `pos`. */
  ghost predicate LineThrough(b: seq<Piece>, e: Piece, pos: Vec, dir: Vec)
    requires |b| == Cells
  {
    exists t: nat :: t < PiecesToWin && WindowBack(b, e, pos, dir, t)
  }

  /** A winning window reaching `t` cells behind `pos` makes the backward
      scan longer than `t`. */
  lemma BackScanCovers(b: seq<Piece>, e: Piece, pos: Vec, dir: Vec, t: nat)
    requires |b| == Cells && dir != Vec(0, 0)
    requires t < PiecesToWin && WindowBack(b, e, pos, dir, t)
    ensures CheckLine(b, e, pos, Neg(dir)) > t
  {
    CheckLineRun(b, e, pos, Neg(dir));
    forall j: nat | j <= t
      ensures MatchesAt(b, e, pos, Neg(dir), j)
    {
      StepBackThenForward(pos, dir, t, t - j);
      assert MatchesAt(b, e, Step(pos, Neg(dir), t), dir, t - j);
    }
  }

  /** A winning window reaching `PiecesToWin - 1 - t` cells ahead of `pos`
      makes the forward scan from the next cell at least that long. */
  lemma ForwardScanCovers(b: seq<Piece>, e: Piece, pos: Vec, dir: Vec, t: nat)
    requires |b| == Cells && dir != Vec(0, 0)
    requires t < PiecesToWin && WindowBack(b, e, pos, dir, t)
    ensures CheckLine(b, e, Add(pos, dir), dir) >= PiecesToWin - 1 - t
  {
    CheckLineRun(b, e, Add(pos, dir), dir);
    forall j: nat | j < PiecesToWin - 1 - t
      ensures MatchesAt(b, e, Add(pos, dir), dir, j)
    {
      StepBackThenForward(pos, dir, t, t + 1 + j);
      StepSucc(pos, dir, j);
      assert MatchesAt(b, e, Step(pos, Neg(dir), t), dir, t + 1 + j);
    }
  }

  /** Scans that together reach `PiecesToWin` exhibit a winning window:
      the one that starts as far back as the backward scan allows. */
  lemma ScansGiveWindow(b: seq<Piece>, e: Piece, pos: Vec, dir: Vec)
    requires |b| == Cells && dir != Vec(0, 0)
    requires Matches(b, e, pos)
    requires CheckLine(b, e, pos, Neg(dir)) + CheckLine(b, e, Add(pos, dir), dir) >= PiecesToWin
    ensures LineThrough(b, e, pos, dir)
  {
    var back := CheckLine(b, e, pos, Neg(dir));
    var fwd := CheckLine(b, e, Add(pos, dir), dir);
    CheckLineRun(b, e, pos, Neg(dir));
    CheckLineRun(b, e, Add(pos, dir), dir);
    assert MatchesAt(b, e, pos, Neg(dir), 0);
    var t: nat := Min(back - 1, PiecesToWin - 1);
    forall i: nat | i < PiecesToWin
      ensures MatchesAt(b, e, Step(pos, Neg(dir), t), dir, i)
    {
      StepBackThenForward(pos, dir, t, i);
      if i <= t {
        assert MatchesAt(b, e, pos, Neg(dir), t - i);
      } else {
        StepSucc(pos, dir, i - t - 1);
        assert MatchesAt(b, e, Add(pos, dir), dir, i - t - 1);
      }
    }
    assert WindowBack(b, e, pos, dir, t);
  }

  /** The backward scan from `pos` plus the forward scan from the next cell
      reach `PiecesToWin` exactly when a winning window covers `pos`: the
      placed cell is counted once, by the backward scan. */
  lemma {:induction false} ScanTotal(b: seq<Piece>, e: Piece, pos: Vec, dir: Vec)
    requires |b| == Cells && dir != Vec(0, 0)
    requires Matches(b, e, pos)
    ensures CheckLine(b, e, pos, Neg(dir)) + CheckLine(b, e, Add(pos, dir), dir) >= PiecesToWin
        <==> LineThrough(b, e, pos, dir)
  {
    if CheckLine(b, e, pos, Neg(dir)) + CheckLine(b, e, Add(pos, dir), dir) >= PiecesToWin {
      ScansGiveWindow(b, e, pos, dir);
    }
    if LineThrough(b, e, pos, dir) {
      var t: nat :| t < PiecesToWin && WindowBack(b, e, pos, dir, t);
      BackScanCovers(b, e, pos, dir, t);
      ForwardScanCovers(b, e, pos, dir, t);
    }
  }

  /** The four undirected line orientations, in the order the win check
      tries them. */
  datatype Orientation = Horizontal | Vertical | Diagonal | AntiDiagonal

  /** The backward scan direction of each orientation; it is the direction
      a reported win carries. */
  function Backward(o: Orientation): (d: Vec) {
    match o
    case Horizontal => Vec(-1, 0)
    case Vertical => Vec(0, -1)
    case Diagonal => Vec(-1, -1)
    case AntiDiagonal => Vec(-1, 1)
  }

  /** The forward scan direction of each orientation: the reverse of its
      backward direction. */
  function Forward(o: Orientation): (d: Vec)
    ensures d != Vec(0, 0)
  {
    match o
    case Horizontal => Vec(1, 0)
    case Vertical => Vec(0, 1)
    case Diagonal => Vec(1, 1)
    case AntiDiagonal => Vec(1, -1)
  }

  /** The piece at `placed` lies on a winning window along `o`. */
  ghost predicate Completes(b: seq<Piece>, placed: int, o: Orientation)
    requires |b| == Cells && 0 <= placed < Cells
  {
    LineThrough(b, b[placed], CellPos(placed), Forward(o))
  }

  /** The orientations in the order the win check tries them. */
  const Order: seq<Orientation> := [Horizontal, Vertical, Diagonal, AntiDiagonal]

  /** Where each orientation stands in `Order`. */
  function OrderIndex(o: Orientation): (k: nat)
    ensures k < |Order| && Order[k] == o
  {
    match o
    case Horizontal => 0
    case Vertical => 1
    case Diagonal => 2
    case AntiDiagonal => 3
  }

  /** The first orientation from position `i` of `Order` on along which the
      piece at `placed` lies on a winning window. */
  ghost function FirstLineFrom(b: seq<Piece>, placed: int, i: nat): (r: Option<Orientation>)
    requires |b| == Cells && 0 <= placed < Cells
    decreases |Order| - i
  {
    if i >= |Order| then None
    else if Completes(b, placed, Order[i]) then Some(Order[i])
    else FirstLineFrom(b, placed, i + 1)
  }

  /** The first orientation, in the fixed order, along which the piece at
      `placed` lies on a winning window. */
  ghost function FirstLine(b: seq<Piece>, placed: int): (r: Option<Orientation>)
    requires |b| == Cells && 0 <= placed < Cells
  {
    FirstLineFrom(b, placed, 0)
  }

  /** What the win check reports: the winning piece, the placed cell (not
      an end of the run) and the backward direction of the line. */
  datatype WinningMove = WinningMove(piece: Piece, position: Vec, direction: Vec)

  /** The length of the run of `piece` through `pos` along one
      orientation, counted as the win check counts it: the backward scan
      from `pos` plus the forward scan from the next cell. The two scans
      cover different cells of one line, so the total never exceeds the
      board width. */
  function RunThrough(b: seq<Piece>, piece: Piece, pos: Vec, forward: Vec): (n: int)
    requires |b| == Cells && forward != Vec(0, 0)
    ensures 0 <= n <= BoardWidth
  {
    CheckLine(b, piece, pos, Neg(forward)) + CheckLine(b, piece, Add(pos, forward), forward)
  }

  /** The run total the win check computes for the piece at `placed`
      along `o`. */
  function Total(b: seq<Piece>, placed: int, o: Orientation): (n: int)
    requires |b| == Cells && 0 <= placed < Cells
  {
    RunThrough(b, b[placed], CellPos(placed), Forward(o))
  }

  /** The win check for the piece at `placed`, from position `i` of
      `Order` on: the first orientation whose run total reaches
      `PiecesToWin` is reported with the placed cell and the orientation's
      backward direction. */
  function CheckWinFrom(b: seq<Piece>, placed: int, i: nat): (r: Option<WinningMove>)
    requires |b| == Cells && 0 <= placed < Cells
    ensures r.Some? ==> r.value.piece == b[placed]
    decreases |Order| - i
  {
    if i >= |Order| then None
    else if Total(b, placed, Order[i]) >= PiecesToWin then
      Some(WinningMove(b[placed], CellPos(placed), Backward(Order[i])))
    else CheckWinFrom(b, placed, i + 1)
  }

  /** The win check for the piece at `placed`. It counts runs of whatever
      that cell holds, so it is meaningful only for a cell just filled. */
  function CheckWin(b: seq<Piece>, placed: int): (r: Option<WinningMove>)
    requires |b| == Cells && 0 <= placed < Cells
    ensures r.Some? ==> r.value.piece == b[placed]
  {
    CheckWinFrom(b, placed, 0)
  }

  /** From position `i` of `Order` on, the win check reports nothing
      exactly when every remaining run total is short. */
  lemma {:induction false} CheckWinFromNone(b: seq<Piece>, placed: int, i: nat)
    requires |b| == Cells && 0 <= placed < Cells
    ensures CheckWinFrom(b, placed, i).None? <==>
      forall k :: i <= k < |Order| ==> Total(b, placed, Order[k]) < PiecesToWin
    decreases |Order| - i
  {
    if i < |Order| {
      CheckWinFromNone(b, placed, i + 1);
      if CheckWinFrom(b, placed, i).None? {
        forall k | i <= k < |Order| ensures Total(b, placed, Order[k]) < PiecesToWin {
          if k > i {
            assert i + 1 <= k;
          }
        }
      }
    }
  }

  /** From position `i` of `Order` on, a win the check reports names the
      placed cell and the backward direction of the first orientation
      whose run total reaches `PiecesToWin`. */
  lemma {:induction false} CheckWinFromFirst(b: seq<Piece>, placed: int, i: nat)
    requires |b| == Cells && 0 <= placed < Cells
    ensures CheckWinFrom(b, placed, i).Some? ==>
      exists k :: i <= k < |Order| && Total(b, placed, Order[k]) >= PiecesToWin
        && (forall m :: i <= m < k ==> Total(b, placed, Order[m]) < PiecesToWin)
        && CheckWinFrom(b, placed, i).value == WinningMove(b[placed], CellPos(placed), Backward(Order[k]))
    decreases |Order| - i
  {
    if i < |Order| && Total(b, placed, Order[i]) < PiecesToWin {
      CheckWinFromFirst(b, placed, i + 1);
      if CheckWinFrom(b, placed, i).Some? {
        var k :| i + 1 <= k < |Order| && Total(b, placed, Order[k]) >= PiecesToWin
          && (forall m :: i + 1 <= m < k ==> Total(b, placed, Order[m]) < PiecesToWin)
          && CheckWinFrom(b, placed, i + 1).value == WinningMove(b[placed], CellPos(placed), Backward(Order[k]));
        assert forall m :: i <= m < k ==> Total(b, placed, Order[m]) < PiecesToWin;
      }
    }
  }

  /** The win check tries the orientations in the fixed order and reports
      the first whose run total reaches `PiecesToWin`, with the placed cell
      and that orientation's backward direction; it reports nothing exactly
      when all four totals are short. */
  lemma CheckWinReports(b: seq<Piece>, placed: int)
    requires |b| == Cells && 0 <= placed < Cells
    ensures CheckWin(b, placed).None? <==>
      forall o :: Total(b, placed, o) < PiecesToWin
    ensures CheckWin(b, placed).Some? ==>
      exists k :: 0 <= k < |Order| && Total(b, placed, Order[k]) >= PiecesToWin
        && (forall m :: 0 <= m < k ==> Total(b, placed, Order[m]) < PiecesToWin)
        && CheckWin(b, placed).value == WinningMove(b[placed], CellPos(placed), Backward(Order[k]))
  {
    CheckWinFromNone(b, placed, 0);
    CheckWinFromFirst(b, placed, 0);
    if CheckWin(b, placed).None? {
      forall o ensures Total(b, placed, o) < PiecesToWin {
        var k := OrderIndex(o);
      }
    }
  }

  /** A run total reaches `PiecesToWin` exactly when the placed piece lies
      on a winning window along that orientation. */
  lemma TotalMeansLine(b: seq<Piece>, placed: int, o: Orientation)
    requires |b| == Cells && 0 <= placed < Cells
    ensures Total(b, placed, o) >= PiecesToWin <==> Completes(b, placed, o)
  {
    var d := Forward(o);
    var p := CellPos(placed);
    assert Matches(b, b[placed], p);
    ScanTotal(b, b[placed], p, d);
    assert Total(b, placed, o) == RunThrough(b, b[placed], p, d);
  }

  /** From any position of `Order` on, the win check reports the first
      orientation along which the placed piece lies on a winning window. */
  lemma {:induction false} CheckWinFromFindsLine(b: seq<Piece>, placed: int, i: nat)
    requires |b| == Cells && 0 <= placed < Cells
    ensures CheckWinFrom(b, placed, i).None? <==> FirstLineFrom(b, placed, i).None?
    ensures CheckWinFrom(b, placed, i).Some? ==>
      CheckWinFrom(b, placed, i).value.direction == Backward(FirstLineFrom(b, placed, i).value)
    decreases |Order| - i
  {
    if i < |Order| {
      TotalMeansLine(b, placed, Order[i]);
      CheckWinFromFindsLine(b, placed, i + 1);
    }
  }

  /** The win check against the reference meaning of a win: it reports a
      win exactly when the placed piece lies on some winning window, and
      then it names the first such orientation in the fixed order. */
  lemma CheckWinFindsLine(b: seq<Piece>, placed: int)
    requires |b| == Cells && 0 <= placed < Cells
    ensures CheckWin(b, placed).None? <==> FirstLine(b, placed).None?
    ensures CheckWin(b, placed).Some? ==> CheckWin(b, placed).value.direction == Backward(FirstLine(b, placed).value)
  {
    CheckWinFromFindsLine(b, placed, 0);
  }

  /** On an all-empty board a horizontal scan of empties runs to the edge. */
  lemma {:induction false} EmptyRowScan(b: seq<Piece>, pos: Vec, dir: Vec)
    requires |b| == Cells && AllEmpty(b)
    requires dir == Vec(1, 0) || dir == Vec(-1, 0)
    requires 0 <= pos.y < BoardWidth
    ensures CheckLine(b, Empty, pos, dir) == Room(pos, dir)
    decreases Room(pos, dir)
  {
    if InBounds(pos) {
      EmptyRowScan(b, Add(pos, dir), dir);
    }
  }

  /** The win check does not look at what the placed cell holds: on an
      all-empty board every cell "wins" horizontally for `Empty`. Callers
      therefore only ask about a cell they have just filled. */
  lemma EmptyBoardReportsWin(b: seq<Piece>, placed: int)
    requires |b| == Cells && AllEmpty(b) && 0 <= placed < Cells
    ensures CheckWin(b, placed) == Some(WinningMove(Empty, CellPos(placed), Vec(-1, 0)))
  {
    var pos := CellPos(placed);
    EmptyRowScan(b, pos, Vec(-1, 0));
    EmptyRowScan(b, Add(pos, Vec(1, 0)), Vec(1, 0));
    assert Total(b, placed, Order[0]) == PiecesToWin;
  }
}
