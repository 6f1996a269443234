/** Tic-tac-toe on a 3x3 board: cells hold "X", "O" or the blank " ". */
module TicTacToe {
  import opened Common

  const BLANK := " "
  const DRAW := "empate"

  /** The eight winning lines in the order `winner` tries them: rows, columns, diagonals. */
  const LINES: seq<(nat, nat, nat)> := [
    (0, 1, 2), (3, 4, 5), (6, 7, 8),
    (0, 3, 6), (1, 4, 7), (2, 5, 8),
    (0, 4, 8), (2, 4, 6)]

  /** `"O" if current == "X" else "X"`. */
  function Other(mark: string): string {
    if mark == "X" then "O" else "X"
  }

  lemma {:induction false} CountUpdate(b: seq<string>, i: nat, v: string, w: string)
    requires i < |b|
    ensures Count(b[i := v], w) == Count(b, w) - (if b[i] == w then 1 else 0) + (if v == w then 1 else 0)
  {
    if i > 0 {
      assert b[i := v][1..] == b[1..][i - 1 := v];
      CountUpdate(b[1..], i - 1, v, w);
    } else {
      assert b[i := v][1..] == b[1..];
    }
  }

  /**
   * The boards play can reach: only marks and blanks, X moves first, and the players alternate, so X
   * has as many marks as O when X is to play and one more when O is.
   */
  predicate Reachable(b: seq<string>, current: string) {
    && |b| == 9
    && (forall i :: 0 <= i < 9 ==> b[i] == "X" || b[i] == "O" || b[i] == BLANK)
    && ((current == "X" && Count(b, "X") == Count(b, "O")) ||
        (current == "O" && Count(b, "X") == Count(b, "O") + 1))
  }

  predicate LineWon(b: seq<string>, l: (nat, nat, nat))
    requires |b| == 9 && l.0 < 9 && l.1 < 9 && l.2 < 9
  {
    b[l.0] != BLANK && b[l.0] == b[l.1] && b[l.1] == b[l.2]
  }

  /** The first line, from the `k`-th on, that one player has completed; -1 if none. */
  function FirstWon(b: seq<string>, k: nat): (r: int)
    requires |b| == 9 && k <= |LINES|
    ensures r == -1 || k <= r < |LINES|
    ensures r >= 0 ==> LineWon(b, LINES[r]) && forall j :: k <= j < r ==> !LineWon(b, LINES[j])
    ensures r == -1 ==> forall j :: k <= j < |LINES| ==> !LineWon(b, LINES[j])
    decreases |LINES| - k
  {
    if k == |LINES| then -1
    else if LineWon(b, LINES[k]) then k
    else FirstWon(b, k + 1)
  }

  /** `winner`: the mark of the first completed line, else the draw when no cell is blank, else no result yet. */
  function Winner(b: seq<string>): (r: Option<string>)
    requires |b| == 9
    ensures forall k :: 0 <= k < |LINES| && LineWon(b, LINES[k]) && (forall j :: 0 <= j < k ==> !LineWon(b, LINES[j])) ==>
      r == Some(b[LINES[k].0])
    ensures (forall k :: 0 <= k < |LINES| ==> !LineWon(b, LINES[k])) ==>
      r == if BLANK in b then None else Some(DRAW)
  {
    var k := FirstWon(b, 0);
    if k >= 0 then Some(b[LINES[k].0])
    else if BLANK !in b then Some(DRAW)
    else None
  }

  /** On a board play can reach, `winner` names a player, the draw, or nothing. */
  lemma WinnerOnReachable(b: seq<string>, current: string)
    requires Reachable(b, current)
    ensures Winner(b) == None || Winner(b) == Some("X") || Winner(b) == Some("O") || Winner(b) == Some(DRAW)
  {
  }

  /** The empty board has no result yet. */
  lemma NoWinnerAtStart()
    ensures Winner(seq(9, _ => BLANK)) == None
  {
    var b := seq(9, _ => BLANK);
    assert b[0] == BLANK;
    assert FirstWon(b, 0) == -1;
  }

  class Game {
    const board: array<string>
    var current: string

    ghost predicate Valid()
      reads this, board
    {
      board.Length == 9 && Reachable(board[..], current)
    }

    /** An empty board with X to play. */
    constructor()
      ensures fresh(board) && board[..] == seq(9, _ => BLANK) && current == "X"
      ensures Valid()
    {
      board := new string[9](_ => BLANK);
      current := "X";
      new;
      assert Count(board[..], "X") == 0 by {
        BlankCount(board[..], "X");
      }
      assert Count(board[..], "O") == 0 by {
        BlankCount(board[..], "O");
      }
    }

    /** `move`: a blank cell in range takes the current mark and the turn passes; anything else changes nothing. */
    method Move(pos: int) returns (ok: bool)
      requires board.Length == 9
      modifies this, board
      ensures ok <==> 0 <= pos <= 8 && old(board[..])[pos] == BLANK
      ensures ok ==> board[..] == old(board[..])[pos := old(current)] && current == Other(old(current))
      ensures !ok ==> board[..] == old(board[..]) && current == old(current)
      ensures old(Valid()) ==> Valid()
    {
      if 0 <= pos <= 8 && board[pos] == BLANK {
        ghost var b := board[..];
        board[pos] := current;
        assert board[..] == b[pos := current];
        CountUpdate(b, pos, current, "X");
        CountUpdate(b, pos, current, "O");
        current := Other(current);
        return true;
      }
      return false;
    }

    /** `winner` of the current board. */
    function WinnerNow(): (r: Option<string>)
      requires board.Length == 9
      reads this, board
      ensures r == Winner(board[..])
    {
      Winner(board[..])
    }
  }

  lemma {:induction false} BlankCount(b: seq<string>, v: string)
    requires v != BLANK && forall i :: 0 <= i < |b| ==> b[i] == BLANK
    ensures Count(b, v) == 0
  {
    if b != [] {
      BlankCount(b[1..], v);
    }
  }
}
