/**
 * The "Frogs and Toads" puzzle engine: a board of n+1 cells (n even) holding
 * n frogs and one gap.  Right-facing frogs start on the left half, left-facing
 * frogs on the right half; a frog may step or jump in its own direction into
 * the gap, and the game is won when the two groups have swapped halves.
 */
module JumpingFrogs {

  datatype Option<T> = None | Some(value: T)

  datatype Direction = Left | Right

  /** A board cell: the gap, or a frog with a stable id and a fixed facing. */
  datatype Cell = Gap | Frog(id: int, dir: Direction)

  /** Result of the end-of-turn evaluation (win banner, lose banner, or play on). */
  datatype Outcome = Win | Lose | Continue

  /** Distances of the two kinds of move. */
  const Step := 1
  const Jump := 2

  // ---------------------------------------------------------------- Board layer

  /**
   * The validation the start form applies to the frog count.  An accepted
   * count gives an odd-length board with at least one frog on each side of
   * the middle cell.
   */
  predicate PositiveEven(numberOfFrogs: int): (accepted: bool)
    ensures accepted ==> (numberOfFrogs + 1) % 2 == 1 && 1 <= numberOfFrogs / 2 < numberOfFrogs
  {
    numberOfFrogs > 0 && numberOfFrogs % 2 == 0
  }

  predicate HoldsFrog(c: Cell, frogId: int)
  {
    c.Frog? && c.id == frogId
  }

  /** Cell i of the starting board for n frogs: ids equal to the cell index. */
  function InitialCell(n: int, i: int): Cell
  {
    if i < n / 2 then Frog(i, Right)
    else if i == n / 2 then Gap
    else Frog(i, Left)
  }

  function InitialBoard(n: nat): seq<Cell>
  {
    seq(n + 1, i => InitialCell(n, i))
  }

  /** `e` is the one and only gap of `b`. */
  predicate GapAt(b: seq<Cell>, e: int)
  {
    0 <= e < |b| && b[e] == Gap && forall i :: 0 <= i < |b| && i != e ==> b[i].Frog?
  }

  ghost predicate OneGap(b: seq<Cell>)
  {
    exists e :: GapAt(b, e)
  }

  ghost function GapIndex(b: seq<Cell>): (e: nat)
    requires OneGap(b)
    ensures GapAt(b, e)
  {
    var e :| GapAt(b, e); e
  }

  ghost predicate DistinctIds(b: seq<Cell>)
  {
    forall i, j :: 0 <= i < j < |b| && b[i].Frog? && b[j].Frog? ==> b[i].id != b[j].id
  }

  /**
   * The board invariant: n+1 cells with n positive and even, exactly one gap,
   * distinct frog ids, and the same cells (frogs with their facings) as the
   * starting board, only rearranged.
   */
  ghost predicate WellFormed(b: seq<Cell>)
  {
    PositiveEven(|b| - 1)
    && OneGap(b)
    && DistinctIds(b)
    && multiset(b) == multiset(InitialBoard(|b| - 1))
  }

  /**
   * The move rule: the frog at `pos` may move into the gap at `emptyPos`
   * when the gap is one or two cells away in the direction the frog faces.
   * Every board cell other than the gap holds a frog, so `pos` is one here
   * whenever it is on the board and not the gap.
   */
  function IsMoveable(board: seq<Cell>, pos: int, emptyPos: int): (moveable: bool)
    requires GapAt(board, emptyPos)
    ensures moveable <==>
      0 <= pos < |board| && board[pos].Frog? &&
      ((board[pos].dir == Right && pos < emptyPos <= pos + 2) ||
       (board[pos].dir == Left && pos - 2 <= emptyPos < pos))
  {
    if 0 <= pos < |board| && pos != emptyPos then
      var possibleMoves :=
        if board[pos].dir == Left then [pos - Step, pos - Jump]
        else [pos + Step, pos + Jump];
      assert emptyPos in possibleMoves <==> emptyPos == possibleMoves[0] || emptyPos == possibleMoves[1];
      assert board[pos].dir == Left ==> possibleMoves[0] == pos - Step;
      emptyPos in possibleMoves
    else
      false
  }

  /** Some frog anywhere on the board can move into the gap. */
  ghost predicate CanMove(b: seq<Cell>)
    requires OneGap(b)
  {
    exists p :: 0 <= p < |b| && IsMoveable(b, p, GapIndex(b))
  }

  /** Left-facing frogs fill the lower half and right-facing frogs the upper half. */
  predicate Winning(b: seq<Cell>)
  {
    var half := (|b| - 1) / 2;
    (forall i :: 0 <= i < half ==> b[i].Frog? && b[i].dir == Left) &&
    (forall i :: half < i < |b| ==> b[i].Frog? && b[i].dir == Right)
  }

  /** The board after the frog at `from` has moved into the gap at `to`. */
  function Moved(b: seq<Cell>, from: int, to: int): (r: seq<Cell>)
    requires 0 <= from < |b| && 0 <= to < |b|
    ensures |r| == |b|
  {
    b[to := b[from]][from := Gap]
  }

  // --------------------------------------------------------- Board properties

  lemma InitialBoardWellFormed(n: int)
    requires PositiveEven(n)
    ensures WellFormed(InitialBoard(n))
    ensures GapAt(InitialBoard(n), n / 2)
  {
    var b := InitialBoard(n);
    assert GapAt(b, n / 2);
  }

  /** The only positions from which a frog can reach the gap are the four the engine tries. */
  lemma MoveableNearGap(b: seq<Cell>, p: int, e: int)
    requires GapAt(b, e) && IsMoveable(b, p, e)
    ensures p in [e - Step, e - Jump, e + Step, e + Jump]
  {
  }

  /**
   * A legal two-cell move always passes over a frog: with one gap on the board
   * the cell jumped over is never empty, although the rule does not check it.
   */
  lemma JumpPassesOverFrog(b: seq<Cell>, p: int, e: int)
    requires GapAt(b, e) && IsMoveable(b, p, e)
    requires p - e == Jump || e - p == Jump
    ensures b[(p + e) / 2].Frog?
  {
  }

  /** Moving any frog into the gap keeps the board invariant; the vacated cell is the new gap. */
  lemma MovePreservesWellFormed(b: seq<Cell>, p: int, e: int)
    requires WellFormed(b) && GapAt(b, e)
    requires 0 <= p < |b| && p != e
    ensures GapAt(Moved(b, p, e), p)
    ensures multiset(Moved(b, p, e)) == multiset(b)
    ensures WellFormed(Moved(b, p, e))
  {
    var m := Moved(b, p, e);
    assert GapAt(m, p);
    assert m == b[e := b[p]][p := b[e]];
    forall i, j | 0 <= i < j < |m| && m[i].Frog? && m[j].Frog?
      ensures m[i].id != m[j].id
    {
      var i' := if i == e then p else i;
      var j' := if j == e then p else j;
      assert m[i] == b[i'] && m[j] == b[j'];
      assert i' != j';
      if i' < j' { assert b[i'].id != b[j'].id; } else { assert b[j'].id != b[i'].id; }
    }
  }

  /**
   * Frogs keep their facing: on any well-formed board, the frog with id x is
   * right-facing exactly when x lies in the lower half, where it started, and
   * x is one of the starting ids.
   */
  lemma FacingFixed(b: seq<Cell>, i: int)
    requires WellFormed(b) && 0 <= i < |b| && b[i].Frog?
    ensures var n := |b| - 1;
      0 <= b[i].id <= n && b[i].id != n / 2 &&
      b[i].dir == (if b[i].id < n / 2 then Right else Left)
  {
    var n := |b| - 1;
    var init := InitialBoard(n);
    assert b[i] in multiset(b);
    assert b[i] in multiset(init);
    var k :| 0 <= k < |init| && init[k] == b[i];
    assert init[k] == InitialCell(n, k);
  }

  /** No frog is ever lost: every starting id is on every well-formed board. */
  lemma EveryFrogPresent(b: seq<Cell>, frogId: int)
    requires WellFormed(b)
    requires 0 <= frogId < |b| && frogId != (|b| - 1) / 2
    ensures exists i :: 0 <= i < |b| && HoldsFrog(b[i], frogId)
  {
    var n := |b| - 1;
    var init := InitialBoard(n);
    assert init[frogId] == InitialCell(n, frogId);
    assert init[frogId] in multiset(init);
    assert init[frogId] in multiset(b);
    var i :| 0 <= i < |b| && b[i] == init[frogId];
    assert HoldsFrog(b[i], frogId);
  }

  /** A winning layout leaves the gap in the middle and no move to make. */
  lemma WinningHasNoMoves(b: seq<Cell>)
    requires WellFormed(b) && Winning(b)
    ensures GapIndex(b) == (|b| - 1) / 2
    ensures !CanMove(b)
  {
  }

  /** A fresh game is never over: the last right-facing frog can step into the gap. */
  lemma InitialBoardCanMove(n: int)
    requires PositiveEven(n)
    ensures WellFormed(InitialBoard(n))
    ensures CanMove(InitialBoard(n)) && !Winning(InitialBoard(n))
  {
    var b := InitialBoard(n);
    InitialBoardWellFormed(n);
    assert GapIndex(b) == n / 2;
    assert b[n / 2 - 1] == Frog(n / 2 - 1, Right);
    assert IsMoveable(b, n / 2 - 1, n / 2);
    assert b[0] == Frog(0, Right);
  }

  /** Two frogs: stepping, jumping and stepping again reaches the winning layout. */
  lemma TwoFrogsWin()
    ensures InitialBoard(2) == [Frog(0, Right), Gap, Frog(2, Left)]
    ensures IsMoveable([Frog(0, Right), Gap, Frog(2, Left)], 0, 1)
    ensures Moved([Frog(0, Right), Gap, Frog(2, Left)], 0, 1) == [Gap, Frog(0, Right), Frog(2, Left)]
    ensures IsMoveable([Gap, Frog(0, Right), Frog(2, Left)], 2, 0)
    ensures Moved([Gap, Frog(0, Right), Frog(2, Left)], 2, 0) == [Frog(2, Left), Frog(0, Right), Gap]
    ensures IsMoveable([Frog(2, Left), Frog(0, Right), Gap], 1, 2)
    ensures Moved([Frog(2, Left), Frog(0, Right), Gap], 1, 2) == [Frog(2, Left), Gap, Frog(0, Right)]
    ensures Winning([Frog(2, Left), Gap, Frog(0, Right)])
  {
  }

  /**
   * The boards a two-frog game can reach: from the start either outer frog
   * steps first, the other jumps over it, and the first steps again.
   */
  ghost predicate TwoFrogBoard(b: seq<Cell>)
  {
    b == [Frog(0, Right), Gap, Frog(2, Left)] ||
    b == [Gap, Frog(0, Right), Frog(2, Left)] ||
    b == [Frog(2, Left), Frog(0, Right), Gap] ||
    b == [Frog(0, Right), Frog(2, Left), Gap] ||
    b == [Gap, Frog(2, Left), Frog(0, Right)] ||
    b == [Frog(2, Left), Gap, Frog(0, Right)]
  }

  /**
   * A two-frog game cannot be lost: the starting board is one of the boards
   * above, every legal move from one of them leads to another, and the only
   * one without a legal move is the winning layout.
   */
  lemma TwoFrogsCannotLose(b: seq<Cell>, p: int)
    requires TwoFrogBoard(b)
    ensures TwoFrogBoard(InitialBoard(2))
    ensures OneGap(b)
    ensures 0 <= p < |b| && IsMoveable(b, p, GapIndex(b)) ==> TwoFrogBoard(Moved(b, p, GapIndex(b)))
    ensures !CanMove(b) ==> Winning(b)
  {
    var init := InitialBoard(2);
    assert init[0] == InitialCell(2, 0) && init[1] == InitialCell(2, 1) && init[2] == InitialCell(2, 2);
    assert init == [Frog(0, Right), Gap, Frog(2, Left)];
    var e := if b[0] == Gap then 0 else if b[1] == Gap then 1 else 2;
    assert GapAt(b, e);
    assert GapIndex(b) == e;
    if e == 1 {
      assert IsMoveable(b, 0, 1) || Winning(b);
    } else if e == 0 {
      assert IsMoveable(b, 1, 0) || IsMoveable(b, 2, 0);
    } else {
      assert IsMoveable(b, 0, 2) || IsMoveable(b, 1, 2);
    }
  }

  /** Four frogs: moving both right-facing frogs first strands the game, a loss. */
  lemma FourFrogsDeadEnd()
    ensures InitialBoard(4) == [Frog(0, Right), Frog(1, Right), Gap, Frog(3, Left), Frog(4, Left)]
    ensures IsMoveable(InitialBoard(4), 1, 2)
    ensures Moved(InitialBoard(4), 1, 2) == [Frog(0, Right), Gap, Frog(1, Right), Frog(3, Left), Frog(4, Left)]
    ensures IsMoveable([Frog(0, Right), Gap, Frog(1, Right), Frog(3, Left), Frog(4, Left)], 0, 1)
    ensures var b := [Gap, Frog(0, Right), Frog(1, Right), Frog(3, Left), Frog(4, Left)];
      Moved([Frog(0, Right), Gap, Frog(1, Right), Frog(3, Left), Frog(4, Left)], 0, 1) == b &&
      OneGap(b) && !CanMove(b) && !Winning(b)
  {
    var init := InitialBoard(4);
    assert init[0] == InitialCell(4, 0) && init[1] == InitialCell(4, 1) && init[2] == InitialCell(4, 2);
    assert init[3] == InitialCell(4, 3) && init[4] == InitialCell(4, 4);
    assert GapAt(init, 2);
    assert GapAt([Frog(0, Right), Gap, Frog(1, Right), Frog(3, Left), Frog(4, Left)], 1);
    var b := [Gap, Frog(0, Right), Frog(1, Right), Frog(3, Left), Frog(4, Left)];
    assert GapAt(b, 0);
    assert GapIndex(b) == 0;
    forall p | 0 <= p < |b| ensures !IsMoveable(b, p, 0) {
    }
  }

  // ------------------------------------------------------------- Game session

  /** One game in progress: the board array the engine updates in place. */
  class Game {
    var gameBoard: array<Cell>

    ghost predicate Valid()
      reads this, gameBoard
    {
      WellFormed(gameBoard[..])
    }

    /**
     * Builds the starting board for a frog count the start form accepted.
     * The gap cell is the one neither filling loop writes.
     */
    constructor (numberOfFrogs: int)
      requires PositiveEven(numberOfFrogs)
      ensures Valid() && fresh(gameBoard)
      ensures gameBoard.Length == numberOfFrogs + 1
      ensures forall i :: 0 <= i < numberOfFrogs / 2 ==> gameBoard[i] == Frog(i, Right)
      ensures gameBoard[numberOfFrogs / 2] == Gap
      ensures forall i :: numberOfFrogs / 2 < i <= numberOfFrogs ==> gameBoard[i] == Frog(i, Left)
    {
      var n := numberOfFrogs;
      var board := new Cell[n + 1](_ => Gap);
      var i := 0;
      while i < n / 2
        invariant 0 <= i <= n / 2
        invariant forall k :: 0 <= k < i ==> board[k] == Frog(k, Right)
        invariant forall k :: i <= k < board.Length ==> board[k] == Gap
      {
        board[i] := Frog(i, Right);
        i := i + 1;
      }
      i := n / 2 + 1;
      while i <= n
        invariant n / 2 + 1 <= i <= n + 1
        invariant forall k :: 0 <= k < n / 2 ==> board[k] == Frog(k, Right)
        invariant board[n / 2] == Gap
        invariant forall k :: n / 2 < k < i ==> board[k] == Frog(k, Left)
      {
        board[i] := Frog(i, Left);
        i := i + 1;
      }
      assert board[..] == InitialBoard(n);
      InitialBoardWellFormed(n);
      gameBoard := board;
    }

    /** The first cell holding the frog with this id, or None when there is none. */
    method FrogPosition(frogId: int) returns (pos: Option<nat>)
      ensures pos.Some? ==> pos.value < gameBoard.Length && HoldsFrog(gameBoard[pos.value], frogId)
      ensures pos.Some? ==> forall i :: 0 <= i < pos.value ==> !HoldsFrog(gameBoard[i], frogId)
      ensures pos.None? ==> forall i :: 0 <= i < gameBoard.Length ==> !HoldsFrog(gameBoard[i], frogId)
    {
      var i := 0;
      while i < gameBoard.Length
        invariant 0 <= i <= gameBoard.Length
        invariant forall k :: 0 <= k < i ==> !HoldsFrog(gameBoard[k], frogId)
      {
        var currentFrog := gameBoard[i];
        if currentFrog.Frog? && currentFrog.id == frogId {
          return Some(i);
        }
        i := i + 1;
      }
      return None;
    }

    /** The first empty cell, or None when the board has no gap. */
    method EmptyPosition() returns (pos: Option<nat>)
      ensures pos.Some? ==> pos.value < gameBoard.Length && gameBoard[pos.value] == Gap
      ensures pos.Some? ==> forall i :: 0 <= i < pos.value ==> gameBoard[i].Frog?
      ensures pos.None? ==> forall i :: 0 <= i < gameBoard.Length ==> gameBoard[i].Frog?
    {
      var i := 0;
      while i < gameBoard.Length
        invariant 0 <= i <= gameBoard.Length
        invariant forall k :: 0 <= k < i ==> gameBoard[k].Frog?
      {
        var currentFrog := gameBoard[i];
        if currentFrog == Gap {
          return Some(i);
        }
        i := i + 1;
      }
      return None;
    }

    /** Tries the four cells one and two away from the gap on either side. */
    method HasValidMoves() returns (hasMoves: bool)
      requires Valid()
      ensures hasMoves <==> CanMove(gameBoard[..])
    {
      hasMoves := false;
      var gap := EmptyPosition();
      var emptyPos := gap.value;
      assert GapAt(gameBoard[..], emptyPos);
      assert GapIndex(gameBoard[..]) == emptyPos;
      var possibleMoves := [emptyPos - Step, emptyPos - Jump, emptyPos + Step, emptyPos + Jump];
      var i := 0;
      while i < |possibleMoves| && !hasMoves
        invariant 0 <= i <= |possibleMoves|
        invariant hasMoves <==> exists k :: 0 <= k < i && IsMoveable(gameBoard[..], possibleMoves[k], emptyPos)
      {
        if IsMoveable(gameBoard[..], possibleMoves[i], emptyPos) {
          hasMoves := true;
        }
        i := i + 1;
      }
      if !hasMoves {
        assert forall k :: 0 <= k < 4 ==> !IsMoveable(gameBoard[..], possibleMoves[k], emptyPos);
        forall p | 0 <= p < gameBoard.Length ensures !IsMoveable(gameBoard[..], p, emptyPos) {
          assert p !in possibleMoves ==> !IsMoveable(gameBoard[..], p, emptyPos);
        }
      }
    }

    /** Scans the lower half, then (if still winning) the upper half, stopping at the first misfit. */
    method HasReachedWinningPosition() returns (winning: bool)
      requires gameBoard.Length % 2 == 1
      ensures winning <==> Winning(gameBoard[..])
    {
      winning := true;
      var numberOfFrogs := gameBoard.Length - 1;
      var i := 0;
      while i < numberOfFrogs / 2
        invariant 0 <= i <= numberOfFrogs / 2
        invariant forall k :: 0 <= k < i ==> gameBoard[k].Frog? && gameBoard[k].dir == Left
      {
        if gameBoard[i] == Gap || gameBoard[i].dir == Right {
          winning := false;
          break;
        }
        i := i + 1;
      }
      if winning {
        i := numberOfFrogs / 2 + 1;
        while i <= numberOfFrogs
          invariant numberOfFrogs / 2 + 1 <= i <= numberOfFrogs + 1
          invariant forall k :: numberOfFrogs / 2 < k < i ==> gameBoard[k].Frog? && gameBoard[k].dir == Right
        {
          if gameBoard[i] == Gap || gameBoard[i].dir == Left {
            winning := false;
            break;
          }
          i := i + 1;
        }
      }
    }

    /**
     * The end-of-turn verdict: play continues while a move exists; otherwise
     * the game is won or lost by the layout.  A winning layout is always
     * reported as a win.
     */
    method HasGameReachedAnEndState() returns (outcome: Outcome)
      requires Valid()
      ensures outcome == Continue <==> CanMove(gameBoard[..])
      ensures outcome == Win <==> !CanMove(gameBoard[..]) && Winning(gameBoard[..])
      ensures outcome == Lose <==> !CanMove(gameBoard[..]) && !Winning(gameBoard[..])
      ensures outcome == Win <==> Winning(gameBoard[..])
    {
      var validMoves := HasValidMoves();
      if !validMoves {
        var won := HasReachedWinningPosition();
        outcome := if won then Win else Lose;
      } else {
        outcome := Continue;
        assert !Winning(gameBoard[..]) by {
          if Winning(gameBoard[..]) {
            WinningHasNoMoves(gameBoard[..]);
          }
        }
      }
    }

    /**
     * Moves the frog with this id into the gap if the move rule allows it and
     * leaves the board alone otherwise.  Either way it reports the frog's old
     * position and the old gap position (the two cells to redraw) and the
     * end-of-turn verdict on the resulting board.
     */
    method MoveFrog(frogId: int) returns (frogPos: Option<nat>, emptyPos: nat, outcome: Outcome)
      requires Valid()
      modifies gameBoard
      ensures Valid()
      ensures GapAt(old(gameBoard[..]), emptyPos)
      ensures frogPos.Some? ==> frogPos.value < gameBoard.Length && HoldsFrog(old(gameBoard[frogPos.value]), frogId)
      ensures frogPos.None? ==> forall i :: 0 <= i < gameBoard.Length ==> !HoldsFrog(old(gameBoard[i]), frogId)
      ensures frogPos.Some? && IsMoveable(old(gameBoard[..]), frogPos.value, emptyPos) ==>
        gameBoard[emptyPos] == old(gameBoard[frogPos.value]) &&
        gameBoard[frogPos.value] == Gap &&
        forall i :: 0 <= i < gameBoard.Length && i != emptyPos && i != frogPos.value ==>
          gameBoard[i] == old(gameBoard[i])
      ensures !(frogPos.Some? && IsMoveable(old(gameBoard[..]), frogPos.value, emptyPos)) ==>
        gameBoard[..] == old(gameBoard[..])
      ensures outcome == Continue <==> CanMove(gameBoard[..])
      ensures outcome == Win <==> Winning(gameBoard[..])
    {
      frogPos := FrogPosition(frogId);
      var gap := EmptyPosition();
      emptyPos := gap.value;
      ghost var before := gameBoard[..];
      assert GapAt(before, emptyPos);
      var validMove := frogPos.Some? && IsMoveable(gameBoard[..], frogPos.value, emptyPos);
      if validMove {
        var frog := gameBoard[frogPos.value];
        gameBoard[emptyPos] := frog;
        gameBoard[frogPos.value] := Gap;
        assert gameBoard[..] == Moved(before, frogPos.value, emptyPos);
        MovePreservesWellFormed(before, frogPos.value, emptyPos);
      }
      outcome := HasGameReachedAnEndState();
    }
  }
}
