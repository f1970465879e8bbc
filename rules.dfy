/**
 * The game's rules that do not depend on the board: the end-of-move
 * bookkeeping of `processMove` (src/Main.tsx:151-169) and the queue of the
 * three colours the first source clicks assign (src/Main.tsx:72, 173-180).
 */
module Rules {
  import opened Types

  /** Which confirmation dialog, if any, a move opens. */
  datatype Prompt = NoPrompt | WinPrompt | LossPrompt

  /**
   * The game state a move leaves behind: the won flag, the moves left, the
   * dialog opened, and whether the player asked to start a new game.
   */
  datatype Turn = Turn(won: bool, moves: int, prompt: Prompt, restart: bool)

  /**
   * End-of-move logic. `closeEnough` is `delta(newClosest) < 10`; the two
   * `accept` flags are the answers the player would give to the win and loss
   * dialogs. Once won, a move changes nothing here (not even the budget).
   * Otherwise the game is won iff moves remain and the closest tile is close
   * enough, the loss dialog opens iff it is not won and this was the last
   * move, and a remaining budget drops by one, on the winning move too.
   */
  function EndTurn(won: bool, moves: int, closeEnough: bool, acceptWin: bool, acceptLoss: bool): (t: Turn)
    ensures won ==> t == Turn(true, moves, NoPrompt, false)
    ensures !won ==> (t.won <==> moves > 0 && closeEnough)
    ensures !won ==> (t.prompt == WinPrompt <==> t.won)
    ensures !won ==> (t.prompt == LossPrompt <==> !t.won && moves == 1)
    ensures !won ==> t.moves == (if moves > 0 then moves - 1 else moves)
    ensures t.restart <==> (t.prompt == WinPrompt && acceptWin) || (t.prompt == LossPrompt && acceptLoss)
    ensures moves >= 0 ==> t.moves >= 0
  {
    if won then
      Turn(won, moves, NoPrompt, false)
    else
      var wins := moves > 0 && closeEnough;
      var prompt := if wins then WinPrompt else if moves - 1 == 0 then LossPrompt else NoPrompt;
      var restart := if wins then acceptWin else if moves - 1 == 0 then acceptLoss else false;
      Turn(wins, if moves > 0 then moves - 1 else moves, prompt, restart)
  }

  /**
   * A run of moves in one session whose dialogs are all declined; `closes[k]`
   * says whether the k-th move ends with a close-enough tile. Gives the final
   * won flag and budget.
   */
  function RunTurns(won: bool, moves: int, closes: seq<bool>): (bool, int)
    decreases |closes|
  {
    if closes == [] then (won, moves)
    else
      var t := EndTurn(won, moves, closes[0], false, false);
      RunTurns(t.won, t.moves, closes[1..])
  }

  /** A budget that starts nonnegative never goes below 0, however many moves follow. */
  lemma {:induction false} RunNeverNegative(won: bool, moves: int, closes: seq<bool>)
    requires moves >= 0
    ensures RunTurns(won, moves, closes).1 >= 0
    ensures RunTurns(won, moves, closes).1 <= moves
    decreases |closes|
  {
    if closes != [] {
      var t := EndTurn(won, moves, closes[0], false, false);
      RunNeverNegative(t.won, t.moves, closes[1..]);
    }
  }

  /** A won game stays won and its budget stays frozen. */
  lemma {:induction false} WonIsSticky(moves: int, closes: seq<bool>)
    ensures RunTurns(true, moves, closes) == (true, moves)
    decreases |closes|
  {
    if closes != [] {
      WonIsSticky(moves, closes[1..]);
    }
  }

  function Max0(x: int): nat
  {
    if x > 0 then x else 0
  }

  /**
   * Without a close-enough move the game is never won and each move spends
   * one unit of the budget until none is left.
   */
  lemma {:induction false} BudgetRunsOut(moves: nat, closes: seq<bool>)
    requires forall k :: 0 <= k < |closes| ==> !closes[k]
    ensures RunTurns(false, moves, closes) == (false, Max0(moves - |closes|))
    decreases |closes|
  {
    if closes != [] {
      var t := EndTurn(false, moves, closes[0], false, false);
      assert t.moves == Max0(moves - 1);
      BudgetRunsOut(t.moves, closes[1..]);
    }
  }

  /** The initial colour queue, reversed so that popping gives red, green, blue. */
  const InitialQueue: seq<RGB> := [Blue, Green, Red]

  /** `Array.prototype.pop`: the last element and the rest, or nothing when empty. */
  function Pop(q: seq<RGB>): (r: (Option<RGB>, seq<RGB>))
    ensures q == [] ==> r == (None, [])
    ensures q != [] ==> r.0 == Some(q[|q| - 1]) && r.1 + [q[|q| - 1]] == q
  {
    if q == [] then (None, []) else (Some(q[|q| - 1]), q[..|q| - 1])
  }

  /** Successive pops of the initial queue give red, then green, then blue, then nothing. */
  lemma InitialQueueOrder()
    ensures Pop(InitialQueue).0 == Some(Red)
    ensures Pop(Pop(InitialQueue).1).0 == Some(Green)
    ensures Pop(Pop(Pop(InitialQueue).1).1).0 == Some(Blue)
    ensures Pop(Pop(Pop(InitialQueue).1).1).1 == []
  {
    assert Pop(InitialQueue).1 == [Blue, Green];
    assert Pop([Blue, Green]).1 == [Blue];
  }
}
