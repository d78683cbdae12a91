/** The game state of the application: the board, how many pieces are on
    it, whose turn it is and the last win found, updated in place by the
    player's placement, the computer's placement and the reset between
    games, plus the end-of-game classification. */
module Game {
  import opened Board
  import opened Lines
  import opened Search

  /** The side to move after `t` has moved. */
  function Toggle(t: Piece): (r: Piece)
    ensures r != Empty
    ensures t != Empty ==> r != t
  {
    if t == Cross then Circle else Cross
  }

  /** How a game stands once a move has been handled. */
  datatype Outcome = Ongoing | Winner(piece: Piece) | Draw

  /** The count part of the state invariant, on plain values: the piece
      count matches the board, and crosses move on even counts and circles
      on odd ones. */
  ghost predicate Counted(b: seq<Piece>, placed: int, turn: Piece) {
    && |b| == Cells
    && placed == Cells - EmptyCount(b)
    && turn == (if placed % 2 == 0 then Cross else Circle)
  }

  /** The whole state invariant: the counts agree, and a recorded win
      belongs to the side that moved last. */
  ghost predicate Consistent(b: seq<Piece>, placed: int, turn: Piece, win: Option<WinningMove>) {
    Counted(b, placed, turn) && (win.Some? ==> win.value.piece == Toggle(turn))
  }

  /** A fresh game is consistent. */
  lemma StartIsConsistent(b: seq<Piece>)
    requires |b| == Cells && AllEmpty(b)
    ensures Consistent(b, 0, Cross, None)
  {
    EmptyCountBounds(b);
  }

  /** Putting the side to move on an empty cell and passing the turn keeps
      the counts in step, and leaves the piece of the side that moved last
      on that cell. */
  lemma PlaceKeepsCounted(b: seq<Piece>, placed: int, turn: Piece, idx: int)
    requires Counted(b, placed, turn)
    requires 0 <= idx < Cells && b[idx] == Empty
    ensures Counted(b[idx := turn], placed + 1, Toggle(turn))
    ensures b[idx := turn][idx] == Toggle(Toggle(turn))
  {
    EmptyCountUpdate(b, idx, turn);
  }

  class App {
    const board: array<Piece>
    var placedPieces: int
    var currentTurn: Piece
    var winningMove: Option<WinningMove>
    var gameEnded: bool

    ghost predicate Valid()
      reads this, board
    {
      board.Length == Cells && Consistent(board[..], placedPieces, currentTurn, winningMove)
    }

    /** Creating the application starts a game. */
    constructor ()
      ensures Valid() && fresh(board)
      ensures AllEmpty(board[..]) && placedPieces == 0
      ensures currentTurn == Cross && winningMove == None && !gameEnded
    {
      board := new Piece[Cells];
      new;
      Reset();
    }

    /** Empties the board and hands the first move to crosses. */
    method Reset()
      modifies this, board
      requires board.Length == Cells
      ensures Valid()
      ensures AllEmpty(board[..]) && placedPieces == 0
      ensures currentTurn == Cross && winningMove == None && !gameEnded
    {
      winningMove := None;
      gameEnded := false;
      currentTurn := Cross;
      forall i | 0 <= i < board.Length {
        board[i] := Empty;
      }
      placedPieces := 0;
      StartIsConsistent(board[..]);
    }

    /** The placement both sides share: `piece`, the side to move, goes on
        the empty cell `idx`, the count goes up and the turn passes. */
    method PutPiece(idx: int, piece: Piece)
      modifies this, board
      requires Valid() && 0 <= idx < Cells && board[idx] == Empty && piece == currentTurn
      ensures Counted(board[..], placedPieces, currentTurn)
      ensures board[idx] == Toggle(currentTurn)
      ensures board[..] == old(board[..])[idx := piece]
      ensures placedPieces == old(placedPieces) + 1
      ensures currentTurn == Toggle(old(currentTurn))
      ensures winningMove == old(winningMove) && gameEnded == old(gameEnded)
    {
      PlaceKeepsCounted(board[..], placedPieces, currentTurn, idx);
      ghost var after := board[..][idx := piece];
      placedPieces := placedPieces + 1;
      board[idx] := piece;
      assert board[..] == after;
      currentTurn := Toggle(currentTurn);
    }

    /** The win check that follows every placement, on the cell just
        taken; it restores the whole invariant. */
    method RecordWin(idx: int)
      modifies this
      requires board.Length == Cells && 0 <= idx < Cells
      requires Counted(board[..], placedPieces, currentTurn) && board[idx] == Toggle(currentTurn)
      ensures Valid()
      ensures winningMove == CheckWin(board[..], idx)
      ensures placedPieces == old(placedPieces) && currentTurn == old(currentTurn)
      ensures gameEnded == old(gameEnded)
    {
      winningMove := CheckWin(board[..], idx);
    }

    /** The player's click on cell `idx`: when the cell is empty, the side
        to move takes it, the turn passes and the win check runs on it;
        otherwise nothing changes. */
    method PlacePlayer(idx: int) returns (placed: bool)
      modifies this, board
      requires Valid() && 0 <= idx < Cells
      ensures Valid()
      ensures placed <==> old(board[idx]) == Empty
      ensures placed ==> (board[..] == old(board[..])[idx := old(currentTurn)]
                          && placedPieces == old(placedPieces) + 1
                          && currentTurn == Toggle(old(currentTurn))
                          && winningMove == CheckWin(board[..], idx))
      ensures !placed ==> (board[..] == old(board[..])
                           && placedPieces == old(placedPieces)
                           && currentTurn == old(currentTurn)
                           && winningMove == old(winningMove))
      ensures gameEnded == old(gameEnded)
    {
      placed := false;
      if board[idx] == Empty {
        PutPiece(idx, currentTurn);
        RecordWin(idx);
        placed := true;
      }
    }

    /** The computer's move once its search has finished: -1 (a full
        board) is ignored, and so is a cell that is no longer empty;
        otherwise the computer's piece goes on the cell, the turn passes
        and the win check runs on it. */
    method ApplyComputerMove(move: int) returns (placed: bool)
      modifies this, board
      requires Valid() && currentTurn == ComputerPiece
      requires move == -1 || 0 <= move < Cells
      ensures Valid()
      ensures placed <==> move != -1 && old(board[move]) == Empty
      ensures placed ==> (board[..] == old(board[..])[move := ComputerPiece]
                          && placedPieces == old(placedPieces) + 1
                          && currentTurn == Toggle(old(currentTurn))
                          && winningMove == CheckWin(board[..], move))
      ensures !placed ==> (board[..] == old(board[..])
                           && placedPieces == old(placedPieces)
                           && currentTurn == old(currentTurn)
                           && winningMove == old(winningMove))
      ensures gameEnded == old(gameEnded)
    {
      placed := false;
      if move != -1 {
        if board[move] == Empty {
          PutPiece(move, ComputerPiece);
          RecordWin(move);
          placed := true;
        }
      }
    }

    /** The computer's whole turn: search the current board for the best
        cell and play it. A move is made exactly when the board has an
        empty cell, and it is the cell the search chose. */
    method ComputerTurn() returns (placed: bool)
      modifies this, board
      requires Valid() && currentTurn == ComputerPiece
      ensures Valid()
      ensures placed <==> !IsFull(old(board[..]))
      ensures placed ==>
        var m := FirstBest(old(board[..]), MoveScores(old(board[..]), ComputerPiece), Cells);
        0 <= m < Cells && board[..] == old(board[..])[m := ComputerPiece] && winningMove == CheckWin(board[..], m)
      ensures !placed ==> board[..] == old(board[..]) && winningMove == old(winningMove)
      ensures gameEnded == old(gameEnded)
    {
      var move := FindBestMove(board[..], ComputerPiece);
      placed := ApplyComputerMove(move);
    }

    /** How the game stands: won when a win was recorded, drawn when every
        cell has been filled without one, and going on otherwise. */
    function Classify(): (o: Outcome)
      reads this
      ensures o.Winner? <==> winningMove.Some?
      ensures o.Draw? <==> winningMove.None? && placedPieces >= Cells
    {
      if winningMove.Some? then Winner(winningMove.value.piece)
      else if placedPieces >= Cells then Draw
      else Ongoing
    }

    /** After a move has been handled the game ends on a win or a draw. */
    method CheckGameEnd() returns (o: Outcome)
      modifies this
      ensures o == Classify()
      ensures gameEnded == (old(gameEnded) || !o.Ongoing?)
      ensures placedPieces == old(placedPieces) && currentTurn == old(currentTurn)
      ensures winningMove == old(winningMove)
    {
      o := Classify();
      if !o.Ongoing? {
        gameEnded := true;
      }
    }

    /** On a consistent state the classification reads off the board: a
        win names the side that moved last, which is a real piece; a draw
        is a full board without a win; a game goes on exactly while no win
        is recorded and some cell is still empty. */
    lemma ClassifyMeans()
      requires Valid()
      ensures Classify().Winner? ==> Classify().piece != Empty && Classify().piece == Toggle(currentTurn)
      ensures Classify().Draw? <==> winningMove.None? && IsFull(board[..])
      ensures Classify().Ongoing? <==> winningMove.None? && !IsFull(board[..])
    {
      EmptyCountBounds(board[..]);
    }
  }
}
