/**
  The lap record of the workshop game and its best-laps board.

  The struct `Lap` is declared in a header that is not part of this model; its
  uses in workshop-game/game.cpp show a lap time in milliseconds, a penalty
  count and an `operator<` that `std::sort` uses to rank the board. The
  ordering below is therefore an assumption, kept in the one predicate
  `Before` so that every property that rests on it is visible.
 */
module Leaderboard {

  /** A lap: its time in milliseconds and the wall penalties collected on it. */
  datatype Lap = Lap(lapTime_ms: nat, penalties: nat)

  /** The value `Lap()` produces: no time, no penalties. */
  const FreshLap: Lap := Lap(0, 0)

  /** What one penalty adds to a lap's score, in milliseconds (assumed). */
  const PENALTY_WEIGHT_MS: nat := 1000

  /** The board keeps at most this many laps. */
  const BOARD_SIZE: nat := 5

  /** The ranking key of a lap; lower is better (assumed). */
  function Score(lap: Lap): nat {
    lap.lapTime_ms + PENALTY_WEIGHT_MS * lap.penalties
  }

  /** `a < b` in the game's sense: `a` ranks strictly better than `b` (assumed). */
  predicate Before(a: Lap, b: Lap) {
    Score(a) < Score(b)
  }

  /** What `std::sort` with `Before` guarantees: no lap ranks better than one placed ahead of it. */
  predicate Sorted(s: seq<Lap>) {
    forall i, j :: 0 <= i < j < |s| ==> !Before(s[j], s[i])
  }

  /** The board invariant: sorted, and never more than BOARD_SIZE laps. */
  predicate BoardOk(board: seq<Lap>) {
    Sorted(board) && |board| <= BOARD_SIZE
  }

  /**
    The order `std::sort` gives after `lap` has been pushed at the back of
    `board`: the pushed lap moves left past every lap it ranks strictly
    better than, and stays behind laps of equal score.
   */
  function Insert(board: seq<Lap>, lap: Lap): (r: seq<Lap>)
    ensures |r| == |board| + 1
    ensures multiset(r) == multiset(board) + multiset{lap}
  {
    if board == [] || !Before(lap, board[|board| - 1]) then
      board + [lap]
    else
      var front, worst := board[..|board| - 1], board[|board| - 1];
      assert board == front + [worst];
      Insert(front, lap) + [worst]
  }

  /** Finishing a lap: push, sort, and drop the last entry when the board overflows. */
  function Record(board: seq<Lap>, lap: Lap): seq<Lap> {
    var all := Insert(board, lap);
    if |all| > BOARD_SIZE then all[..|all| - 1] else all
  }

  /** One step of the insertion pass: the pushed lap moves left past a lap it ranks better than. */
  lemma InsertStep(front: seq<Lap>, lap: Lap, j: nat)
    requires 0 < j <= |front| && Before(lap, front[j - 1])
    ensures Insert(front[..j], lap) + front[j..] == Insert(front[..j - 1], lap) + front[j - 1..]
  {
    assert front[..j][..j - 1] == front[..j - 1];
    assert front[j - 1..] == [front[j - 1]] + front[j..];
  }

  /** Where the insertion pass stops: at the front, or behind a lap the pushed one does not beat. */
  lemma InsertStop(front: seq<Lap>, lap: Lap, j: nat)
    requires j <= |front| && (j == 0 || !Before(lap, front[j - 1]))
    ensures Insert(front[..j], lap) + front[j..] == front[..j] + [lap] + front[j..]
  {
  }

  /** Every lap that `Insert` returns is the pushed lap or one already on the board. */
  lemma InsertMembers(board: seq<Lap>, lap: Lap, y: Lap)
    requires y in Insert(board, lap)
    ensures y == lap || y in board
  {
  }

  /** Inserting into a sorted board gives a sorted board. */
  lemma {:induction false} InsertKeepsSorted(board: seq<Lap>, lap: Lap)
    requires Sorted(board)
    ensures Sorted(Insert(board, lap))
  {
    if board == [] || !Before(lap, board[|board| - 1]) {
      var r := board + [lap];
      forall i, j | 0 <= i < j < |r| ensures !Before(r[j], r[i]) {
        if j == |board| {
          assert !Before(board[|board| - 1], board[i]) || i == |board| - 1;
        }
      }
    } else {
      var front, worst := board[..|board| - 1], board[|board| - 1];
      InsertKeepsSorted(front, lap);
      var head := Insert(front, lap);
      var r := head + [worst];
      forall i, j | 0 <= i < j < |r| ensures !Before(r[j], r[i]) {
        if j == |head| {
          InsertMembers(front, lap, head[i]);
          if head[i] != lap {
            var k :| 0 <= k < |front| && front[k] == head[i];
            assert board[k] == head[i];
          }
        } else {
          assert r[i] == head[i] && r[j] == head[j];
        }
      }
    }
  }

  /**
    Finishing a lap keeps the board invariant, and the board then holds
    min(BOARD_SIZE, |board| + 1) laps.
   */
  lemma RecordKeepsBoard(board: seq<Lap>, lap: Lap)
    requires BoardOk(board)
    ensures BoardOk(Record(board, lap))
    ensures |Record(board, lap)| == if |board| < BOARD_SIZE then |board| + 1 else BOARD_SIZE
  {
    var all := Insert(board, lap);
    InsertKeepsSorted(board, lap);
    if |all| > BOARD_SIZE {
      var r := all[..|all| - 1];
      assert forall i, j :: 0 <= i < j < |r| ==> r[i] == all[i] && r[j] == all[j];
    }
  }

  /**
    The board after finishing a lap holds the best of the old board and the
    finished lap: it is drawn from them, and no lap left out ranks better
    than a lap kept.
   */
  lemma RecordKeepsBest(board: seq<Lap>, lap: Lap)
    requires BoardOk(board)
    ensures multiset(Record(board, lap)) <= multiset(board) + multiset{lap}
    ensures forall y, z :: y in Record(board, lap) && z in (multiset(board) + multiset{lap}) - multiset(Record(board, lap))
              ==> !Before(z, y)
  {
    var all := Insert(board, lap);
    var r := Record(board, lap);
    InsertKeepsSorted(board, lap);
    if |all| > BOARD_SIZE {
      var last := all[|all| - 1];
      assert all == r + [last];
      assert multiset(all) == multiset(r) + multiset{last};
      assert (multiset(board) + multiset{lap}) - multiset(r) == multiset{last};
      forall y | y in r ensures !Before(last, y) {
        var i :| 0 <= i < |r| && r[i] == y;
        assert all[i] == y;
      }
    } else {
      assert (multiset(board) + multiset{lap}) - multiset(r) == multiset{};
    }
  }

  /**
    Whether the finished lap gets onto the board: always while the board has
    room; on a full board exactly when it ranks strictly better than the
    last entry, which it then replaces; otherwise the board is unchanged.
   */
  lemma RecordAdmission(board: seq<Lap>, lap: Lap)
    requires BoardOk(board)
    ensures |board| < BOARD_SIZE ==> multiset(Record(board, lap)) == multiset(board) + multiset{lap}
    ensures |board| == BOARD_SIZE && Before(lap, board[|board| - 1]) ==>
              multiset(Record(board, lap)) == multiset(board[..|board| - 1]) + multiset{lap}
    ensures |board| == BOARD_SIZE && !Before(lap, board[|board| - 1]) ==> Record(board, lap) == board
  {
  }

  /** On a full board, a lap that ranks worse than every entry leaves the board as it was. */
  lemma {:induction false} RecordRejectsWorseThanAll(board: seq<Lap>, lap: Lap)
    requires BoardOk(board) && |board| == BOARD_SIZE
    requires forall y :: y in board ==> Before(y, lap)
    ensures Record(board, lap) == board
  {
    assert board[|board| - 1] in board;
    RecordAdmission(board, lap);
  }
}
