/** Exhaustive minimax search for the computer's move. The value of a
    position is a specification function over board values; the engine's
    search works in place on an array (place, recurse, undo) and is proved
    to compute that value and to leave the array as it found it. */
module Search {
  import opened Board
  import opened Lines

  /** The running maximum starts below every score and the running minimum
      above every score. */
  const MaxSentinel: int := -1000
  const MinSentinel: int := 1000

  /** The minimax value of the position reached by putting a piece on
      `placed`, from the computer's point of view: 1 when that move won for
      the computer, -1 when it won for anyone else, 0 for a full board, and
      otherwise the best reply for the side to move (`isMax` is the
      computer). */
  function Score(b: seq<Piece>, placed: int, isMax: bool): (v: int)
    requires |b| == Cells && 0 <= placed < Cells && b[placed] != Empty
    ensures -1 <= v <= 1
    decreases EmptyCount(b), 3, 0
  {
    match CheckWin(b, placed)
    case Some(w) => if w.piece == ComputerPiece then 1 else -1
    case None =>
      if !EmptyBefore(b, Cells) then 0
      else if isMax then BestMax(b, Cells)
      else BestMin(b, Cells)
  }

  /** The score of `piece` played on the empty cell `j`, with `isMax`
      telling whether the computer moves next. */
  function Reply(b: seq<Piece>, j: int, piece: Piece, isMax: bool): (v: int)
    requires |b| == Cells && 0 <= j < Cells && b[j] == Empty && piece != Empty
    ensures -1 <= v <= 1
    decreases EmptyCount(b), 0, 0
  {
    PlaceDecreases(b, j, piece);
    Score(Place(b, j, piece), j, isMax)
  }

  /** The score of the computer playing the empty cell `j`. */
  function MaxChild(b: seq<Piece>, j: int): (v: int)
    requires |b| == Cells && 0 <= j < Cells && b[j] == Empty
    ensures -1 <= v <= 1
    decreases EmptyCount(b), 1, 0
  {
    Reply(b, j, ComputerPiece, false)
  }

  /** The score of the player playing the empty cell `j`. */
  function MinChild(b: seq<Piece>, j: int): (v: int)
    requires |b| == Cells && 0 <= j < Cells && b[j] == Empty
    ensures -1 <= v <= 1
    decreases EmptyCount(b), 1, 0
  {
    Reply(b, j, PlayerPiece, true)
  }

  /** The running maximum after the search loop has looked at cells
      `0 .. n-1`: the sentinel when none of them is empty, otherwise a
      score (`BestMaxIsUpperBound` and `BestMaxIsAttained` show it is the
      largest one). */
  function BestMax(b: seq<Piece>, n: int): (r: int)
    requires |b| == Cells && 0 <= n <= Cells
    ensures r == MaxSentinel <==> !EmptyBefore(b, n)
    ensures r != MaxSentinel ==> -1 <= r <= 1
    decreases EmptyCount(b), 2, n
  {
    if n == 0 then MaxSentinel
    else if b[n - 1] == Empty then Max(BestMax(b, n - 1), MaxChild(b, n - 1))
    else BestMax(b, n - 1)
  }

  /** The running minimum after the search loop has looked at cells
      `0 .. n-1`: the sentinel when none of them is empty, otherwise a
      score (`BestMinIsLowerBound` and `BestMinIsAttained` show it is the
      smallest one). */
  function BestMin(b: seq<Piece>, n: int): (r: int)
    requires |b| == Cells && 0 <= n <= Cells
    ensures r == MinSentinel <==> !EmptyBefore(b, n)
    ensures r != MinSentinel ==> -1 <= r <= 1
    decreases EmptyCount(b), 2, n
  {
    if n == 0 then MinSentinel
    else if b[n - 1] == Empty then Min(BestMin(b, n - 1), MinChild(b, n - 1))
    else BestMin(b, n - 1)
  }

  /** The running maximum bounds the score of the empty cell `j` once the
      loop has looked at it. */
  lemma {:induction false} BestMaxBoundsCell(b: seq<Piece>, n: int, j: int)
    requires |b| == Cells && 0 <= j < n <= Cells && b[j] == Empty
    ensures MaxChild(b, j) <= BestMax(b, n)
    decreases n
  {
    if j < n - 1 {
      BestMaxBoundsCell(b, n - 1, j);
    }
  }

  /** The running maximum bounds the score of every empty cell looked at. */
  lemma BestMaxIsUpperBound(b: seq<Piece>, n: int)
    requires |b| == Cells && 0 <= n <= Cells
    ensures forall j {:trigger MaxChild(b, j)} :: 0 <= j < n && b[j] == Empty ==> MaxChild(b, j) <= BestMax(b, n)
  {
    forall j | 0 <= j < n && b[j] == Empty
      ensures MaxChild(b, j) <= BestMax(b, n)
    {
      BestMaxBoundsCell(b, n, j);
    }
  }

  /** Once the running maximum has left the sentinel, an empty cell looked
      at attains it. */
  lemma {:induction false} BestMaxIsAttained(b: seq<Piece>, n: int)
    requires |b| == Cells && 0 <= n <= Cells
    ensures BestMax(b, n) != MaxSentinel ==>
      exists j {:trigger MaxChild(b, j)} :: 0 <= j < n && b[j] == Empty && MaxChild(b, j) == BestMax(b, n)
    decreases n
  {
    if n > 0 {
      BestMaxIsAttained(b, n - 1);
      if b[n - 1] == Empty && BestMax(b, n - 1) < MaxChild(b, n - 1) {
        assert MaxChild(b, n - 1) == BestMax(b, n);
      }
    }
  }

  /** The running minimum bounds the score of the empty cell `j` from
      below once the loop has looked at it. */
  lemma {:induction false} BestMinBoundsCell(b: seq<Piece>, n: int, j: int)
    requires |b| == Cells && 0 <= j < n <= Cells && b[j] == Empty
    ensures BestMin(b, n) <= MinChild(b, j)
    decreases n
  {
    if j < n - 1 {
      BestMinBoundsCell(b, n - 1, j);
    }
  }

  /** The running minimum bounds the score of every empty cell looked at
      from below. */
  lemma BestMinIsLowerBound(b: seq<Piece>, n: int)
    requires |b| == Cells && 0 <= n <= Cells
    ensures forall j {:trigger MinChild(b, j)} :: 0 <= j < n && b[j] == Empty ==> BestMin(b, n) <= MinChild(b, j)
  {
    forall j | 0 <= j < n && b[j] == Empty
      ensures BestMin(b, n) <= MinChild(b, j)
    {
      BestMinBoundsCell(b, n, j);
    }
  }

  /** Once the running minimum has left the sentinel, an empty cell looked
      at attains it. */
  lemma {:induction false} BestMinIsAttained(b: seq<Piece>, n: int)
    requires |b| == Cells && 0 <= n <= Cells
    ensures BestMin(b, n) != MinSentinel ==>
      exists j {:trigger MinChild(b, j)} :: 0 <= j < n && b[j] == Empty && MinChild(b, j) == BestMin(b, n)
    decreases n
  {
    if n > 0 {
      BestMinIsAttained(b, n - 1);
      if b[n - 1] == Empty && MinChild(b, n - 1) < BestMin(b, n - 1) {
        assert MinChild(b, n - 1) == BestMin(b, n);
      }
    }
  }

  /** The score the move search gives to `piece` on the empty cell `j`. */
  function MoveScore(b: seq<Piece>, j: int, piece: Piece): (v: int)
    requires |b| == Cells && 0 <= j < Cells && b[j] == Empty && piece != Empty
    ensures -1 <= v <= 1
  {
    Reply(b, j, piece, false)
  }

  /** Whether some cell of the board is still empty; stops at the first. */
  method HasEmpty(board: array<Piece>) returns (found: bool)
    requires board.Length == Cells
    ensures found <==> EmptyBefore(board[..], Cells)
  {
    found := false;
    var i := 0;
    while i < Cells
      invariant 0 <= i <= Cells
      invariant !found && !EmptyBefore(board[..], i)
    {
      if board[i] == Empty {
        found := true;
        break;
      }
      i := i + 1;
    }
    if found {
      EmptyBeforeMeans(board[..], Cells);
    }
  }

  /** The engine's minimax: scores the position after a piece was put on
      `placed`, trying every empty cell in index order for the side to
      move. The search depth is passed along but never used. */
  method MiniMax(board: array<Piece>, depth: int, placed: int, isMax: bool) returns (score: int)
    requires board.Length == Cells && 0 <= placed < Cells && board[placed] != Empty
    modifies board
    ensures board[..] == old(board[..])
    ensures score == Score(old(board[..]), placed, isMax)
    decreases EmptyCount(board[..]), 2
  {
    var winner := CheckWin(board[..], placed);
    if winner.Some? {
      if winner.value.piece == ComputerPiece {
        return 1;
      }
      return -1;
    }
    var hasEmpty := HasEmpty(board);
    if !hasEmpty {
      return 0;
    }
    if isMax {
      score := MaxOverMoves(board, depth);
    } else {
      score := MinOverMoves(board, depth);
    }
  }

  /** One trial move of the search: writes `piece` on the empty cell `i`,
      scores the result and writes `Empty` back. */
  method TryMove(board: array<Piece>, depth: int, i: int, piece: Piece, isMax: bool) returns (score: int)
    requires board.Length == Cells && 0 <= i < Cells && board[i] == Empty && piece != Empty
    modifies board
    ensures board[..] == old(board[..])
    ensures score == Reply(old(board[..]), i, piece, isMax)
    decreases EmptyCount(board[..]), 0
  {
    ghost var b0 := board[..];
    board[i] := piece;
    assert board[..] == Place(b0, i, piece);
    PlaceDecreases(b0, i, piece);
    score := MiniMax(board, depth, i, isMax);
    board[i] := Empty;
    assert board[..] == b0;
  }

  /** The computer's turn of the search: the largest score over all empty
      cells. */
  method MaxOverMoves(board: array<Piece>, depth: int) returns (best: int)
    requires board.Length == Cells
    modifies board
    ensures board[..] == old(board[..])
    ensures best == BestMax(old(board[..]), Cells)
    decreases EmptyCount(board[..]), 1
  {
    ghost var b0 := board[..];
    best := MaxSentinel;
    var i := 0;
    while i < Cells
      invariant 0 <= i <= Cells
      invariant board[..] == b0
      invariant best == BestMax(b0, i)
    {
      if board[i] == Empty {
        var s := TryMove(board, depth + 1, i, ComputerPiece, false);
        best := Max(best, s);
      }
      i := i + 1;
    }
  }

  /** The player's turn of the search: the smallest score over all empty
      cells. */
  method MinOverMoves(board: array<Piece>, depth: int) returns (best: int)
    requires board.Length == Cells
    modifies board
    ensures board[..] == old(board[..])
    ensures best == BestMin(old(board[..]), Cells)
    decreases EmptyCount(board[..]), 1
  {
    ghost var b0 := board[..];
    best := MinSentinel;
    var i := 0;
    while i < Cells
      invariant 0 <= i <= Cells
      invariant board[..] == b0
      invariant best == BestMin(b0, i)
    {
      if board[i] == Empty {
        var s := TryMove(board, depth + 1, i, PlayerPiece, true);
        best := Min(best, s);
      }
      i := i + 1;
    }
  }

  /** The cell the move search has chosen after looking at cells
      `0 .. n-1`, where `scores[j]` is what the search gives cell `j`: -1
      while none of them is empty; then each empty cell in turn replaces
      the choice only when its score is strictly larger. */
  function FirstBest(b: seq<Piece>, scores: seq<int>, n: int): (m: int)
    requires |b| == |scores| && 0 <= n <= |b|
    ensures -1 <= m < n
    ensures m != -1 ==> b[m] == Empty
    decreases n
  {
    if n == 0 then -1
    else
      var m := FirstBest(b, scores, n - 1);
      if b[n - 1] == Empty && (m == -1 || scores[m] < scores[n - 1]) then n - 1
      else m
  }

  /** The choice is -1 exactly when no cell looked at is empty; otherwise
      no empty cell looked at scores more, and every empty cell before it
      scores strictly less (the first best cell wins ties). */
  lemma {:induction false} FirstBestIsFirstMax(b: seq<Piece>, scores: seq<int>, n: int)
    requires |b| == |scores| && 0 <= n <= |b|
    ensures FirstBest(b, scores, n) == -1 <==> !EmptyBefore(b, n)
    ensures FirstBest(b, scores, n) != -1 ==>
      forall j :: 0 <= j < n && b[j] == Empty ==> scores[j] <= scores[FirstBest(b, scores, n)]
    ensures FirstBest(b, scores, n) != -1 ==>
      forall j :: 0 <= j < FirstBest(b, scores, n) && b[j] == Empty ==> scores[j] < scores[FirstBest(b, scores, n)]
    decreases n
  {
    if n > 0 {
      FirstBestIsFirstMax(b, scores, n - 1);
      EmptyBeforeMeans(b, n - 1);
    }
  }

  /** The scores the move search gives cells `0 .. n-1`: that of `piece`
      played there for an empty cell, 0 for a taken one. */
  function ScoresUpTo(b: seq<Piece>, piece: Piece, n: int): (s: seq<int>)
    requires |b| == Cells && piece != Empty && 0 <= n <= Cells
    ensures |s| == n
    decreases n
  {
    if n == 0 then []
    else ScoresUpTo(b, piece, n - 1) + [if b[n - 1] == Empty then MoveScore(b, n - 1, piece) else 0]
  }

  /** The score the move search gives each cell. */
  function MoveScores(b: seq<Piece>, piece: Piece): (s: seq<int>)
    requires |b| == Cells && piece != Empty
    ensures |s| == Cells
  {
    ScoresUpTo(b, piece, Cells)
  }

  /** Each empty cell's entry among the first `n` scores is the score of
      `piece` played there. */
  lemma {:induction false} ScoresUpToAt(b: seq<Piece>, piece: Piece, n: int, j: int)
    requires |b| == Cells && piece != Empty && 0 <= j < n <= Cells && b[j] == Empty
    ensures ScoresUpTo(b, piece, n)[j] == MoveScore(b, j, piece)
    decreases n
  {
    if j < n - 1 {
      ScoresUpToAt(b, piece, n - 1, j);
    }
  }

  /** Each empty cell's score is that of `piece` played there. */
  lemma MoveScoresAt(b: seq<Piece>, piece: Piece, j: int)
    requires |b| == Cells && piece != Empty && 0 <= j < Cells && b[j] == Empty
    ensures MoveScores(b, piece)[j] == MoveScore(b, j, piece)
  {
    ScoresUpToAt(b, piece, Cells, j);
  }

  /** What the search's choice `m` over its own scores means: -1 exactly
      when the board is full, and otherwise an empty cell whose score no
      empty cell beats and that every earlier empty cell scores strictly
      less than. */
  lemma FirstBestMove(board: seq<Piece>, piece: Piece, m: int)
    requires |board| == Cells && piece != Empty
    requires m == FirstBest(board, MoveScores(board, piece), Cells)
    ensures m == -1 <==> IsFull(board)
    ensures m != -1 ==> 0 <= m < Cells && board[m] == Empty
    ensures m != -1 ==>
      forall j {:trigger MoveScore(board, j, piece)} :: 0 <= j < Cells && board[j] == Empty ==>
        MoveScore(board, j, piece) <= MoveScore(board, m, piece)
    ensures m != -1 ==>
      forall j {:trigger MoveScore(board, j, piece)} :: 0 <= j < m && board[j] == Empty ==>
        MoveScore(board, j, piece) < MoveScore(board, m, piece)
  {
    var scores := MoveScores(board, piece);
    FirstBestIsFirstMax(board, scores, Cells);
    FullMeansNoEmpty(board);
    if m != -1 {
      forall j | 0 <= j < Cells && board[j] == Empty
        ensures MoveScore(board, j, piece) <= MoveScore(board, m, piece)
      {
        MoveScoresAt(board, piece, j);
        MoveScoresAt(board, piece, m);
        assert scores[j] <= scores[m];
      }
      forall j | 0 <= j < m && board[j] == Empty
        ensures MoveScore(board, j, piece) < MoveScore(board, m, piece)
      {
        MoveScoresAt(board, piece, j);
        MoveScoresAt(board, piece, m);
        assert scores[j] < scores[m];
      }
    }
  }

  /** The computer's choice: the first empty cell, in index order, whose
      minimax score is the largest; -1 when the board is full. The board is
      taken by value and searched on a private copy. */
  method FindBestMove(board: seq<Piece>, piece: Piece) returns (bestMove: int)
    requires |board| == Cells && piece != Empty
    ensures bestMove == FirstBest(board, MoveScores(board, piece), Cells)
    ensures bestMove == -1 <==> IsFull(board)
    ensures bestMove != -1 ==> 0 <= bestMove < Cells && board[bestMove] == Empty
    ensures bestMove != -1 ==>
      forall j {:trigger MoveScore(board, j, piece)} :: 0 <= j < Cells && board[j] == Empty ==>
        MoveScore(board, j, piece) <= MoveScore(board, bestMove, piece)
    ensures bestMove != -1 ==>
      forall j {:trigger MoveScore(board, j, piece)} :: 0 <= j < bestMove && board[j] == Empty ==>
        MoveScore(board, j, piece) < MoveScore(board, bestMove, piece)
  {
    ghost var scores := MoveScores(board, piece);
    var a := new Piece[Cells](i requires 0 <= i < Cells => board[i]);
    assert a[..] == board;
    var bestVal := MaxSentinel;
    bestMove := -1;
    var i := 0;
    while i < Cells
      invariant 0 <= i <= Cells
      invariant a[..] == board
      invariant bestMove == FirstBest(board, scores, i)
      invariant bestVal == if bestMove == -1 then MaxSentinel else scores[bestMove]
    {
      if a[i] == Empty {
        var moveVal := TryMove(a, 0, i, piece, false);
        MoveScoresAt(board, piece, i);
        assert moveVal == scores[i];
        if moveVal > bestVal {
          bestMove := i;
          bestVal := moveVal;
        }
      }
      i := i + 1;
    }
    FirstBestMove(board, piece, bestMove);
  }

  /** When the computer has a cell that wins at once, the move search
      chooses a cell that scores 1. Every cell worth 1 ties and the first
      one is kept, so the choice need not be the winning cell itself. */
  lemma ImmediateWinMeansWinningChoice(b: seq<Piece>, j: int)
    requires |b| == Cells && 0 <= j < Cells && b[j] == Empty
    requires CheckWin(Place(b, j, ComputerPiece), j).Some?
    ensures var m := FirstBest(b, MoveScores(b, ComputerPiece), Cells);
      0 <= m < Cells && b[m] == Empty && MoveScore(b, m, ComputerPiece) == 1
  {
    var m := FirstBest(b, MoveScores(b, ComputerPiece), Cells);
    FirstBestMove(b, ComputerPiece, m);
    var c := Place(b, j, ComputerPiece);
    assert CheckWin(c, j).value.piece == ComputerPiece;
    assert Score(c, j, false) == 1;
    assert MoveScore(b, j, ComputerPiece) == Score(c, j, false);
  }

  /** With the computer to move, a cell that wins on the spot makes the
      position worth 1: minimax takes an immediate win. */
  lemma WinningReplyScoresOne(b: seq<Piece>, placed: int, j: int)
    requires |b| == Cells && 0 <= placed < Cells && b[placed] != Empty
    requires CheckWin(b, placed).None?
    requires 0 <= j < Cells && b[j] == Empty
    requires CheckWin(Place(b, j, ComputerPiece), j).Some?
    ensures Score(b, placed, true) == 1
  {
    EmptyBeforeMeans(b, Cells);
    var c := Place(b, j, ComputerPiece);
    assert CheckWin(c, j).value.piece == ComputerPiece;
    assert MaxChild(b, j) == Score(c, j, false) == 1;
    BestMaxIsUpperBound(b, Cells);
    assert Score(b, placed, true) == BestMax(b, Cells);
  }

  /** With the player to move, a cell that wins for the player on the spot
      makes the position worth -1: minimax assumes the player takes it. */
  lemma LosingReplyScoresMinusOne(b: seq<Piece>, placed: int, j: int)
    requires |b| == Cells && 0 <= placed < Cells && b[placed] != Empty
    requires CheckWin(b, placed).None?
    requires 0 <= j < Cells && b[j] == Empty
    requires CheckWin(Place(b, j, PlayerPiece), j).Some?
    ensures Score(b, placed, false) == -1
  {
    EmptyBeforeMeans(b, Cells);
    var c := Place(b, j, PlayerPiece);
    assert CheckWin(c, j).value.piece == PlayerPiece;
    assert MinChild(b, j) == Score(c, j, true) == -1;
    BestMinIsLowerBound(b, Cells);
    assert Score(b, placed, false) == BestMin(b, Cells);
  }
}
