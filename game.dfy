/**
  The lap timer of the workshop game (workshop-game/game.cpp): the part of
  `Game` that reacts to contacts between the vehicle and the goal sensor or
  the walls, keeps the current lap and the best-laps board, and records key
  presses. The physics world, the window and the overlay are not part of
  this model; the steady clock becomes the explicit argument `now`, in
  milliseconds.
 */
module WorkshopGame {
  import opened Leaderboard

  /** A body of the physics world; only its identity (the pointer) matters here. */
  class Body {}

  /** A wall contact earns a penalty only this long after the previous one (ms). */
  const DEBOUNCE_MS: nat := 1000

  /** GLFW 3.3 action and key codes. */
  const GLFW_RELEASE: int := 0
  const GLFW_KEY_UNKNOWN: int := -1
  const GLFW_KEY_SPACE: int := 32
  const GLFW_KEY_MENU: int := 348
  const GLFW_KEY_LAST: int := GLFW_KEY_MENU

  /**
    A superset of the key codes GLFW hands to a key callback: "unknown", or any
    code from GLFW_KEY_SPACE to GLFW_KEY_LAST, named or not.
   */
  predicate DeliveredKey(key: int) {
    key == GLFW_KEY_UNKNOWN || GLFW_KEY_SPACE <= key <= GLFW_KEY_LAST
  }

  /** Slots of the key array as the header declares it: GLFW_KEY_LAST of them, so codes 0..GLFW_KEY_LAST - 1. */
  const DECLARED_KEY_SLOTS: nat := GLFW_KEY_LAST

  /** Slots the key array needs to hold every named key code 0..GLFW_KEY_LAST. */
  const KEY_SLOTS: nat := GLFW_KEY_LAST + 1

  /** The declared key array is too short: GLFW delivers key codes that index outside it. */
  lemma DeclaredKeyArrayOverrun()
    ensures DeliveredKey(GLFW_KEY_MENU) && !(0 <= GLFW_KEY_MENU < DECLARED_KEY_SLOTS)
    ensures DeliveredKey(GLFW_KEY_UNKNOWN) && !(0 <= GLFW_KEY_UNKNOWN < DECLARED_KEY_SLOTS)
  {
  }

  class Game {
    const triangle: Body
    const goal: Body
    /** m_keyPressed, one slot per key code. */
    const keyPressed: array<bool>

    /** m_lapTimerStarted */
    var running: bool
    /** m_lapTimer: the instant the current lap started. */
    var lapStart: nat
    /** m_lastPenalty: the instant of the last penalty; the clock epoch until one is given. */
    var lastPenalty: nat
    /** m_currentLap */
    var currentLap: Lap
    /** m_laps: the best laps, best first. */
    var laps: seq<Lap>

    ghost predicate Valid()
      reads this
    {
      BoardOk(laps) && keyPressed.Length == KEY_SLOTS
    }

    /** `now` is a steady-clock reading: no earlier than any instant the game has stored. */
    ghost predicate ClockAt(now: nat)
      reads this
    {
      lapStart <= now && lastPenalty <= now
    }

    /** A game with no lap running, an empty board and no key pressed. */
    constructor (triangle: Body, goal: Body)
      ensures Valid() && fresh(keyPressed)
      ensures this.triangle == triangle && this.goal == goal
      ensures !running && lapStart == 0 && lastPenalty == 0
      ensures currentLap == FreshLap && laps == []
      ensures forall i :: 0 <= i < keyPressed.Length ==> !keyPressed[i]
    {
      this.triangle := triangle;
      this.goal := goal;
      keyPressed := new bool[KEY_SLOTS](_ => false);
      running := false;
      lapStart := 0;
      lastPenalty := 0;
      currentLap := FreshLap;
      laps := [];
    }

    /** Whether a contact is between the vehicle and the goal sensor, in either order. */
    function IsGoal(bodyA: Body, bodyB: Body): (r: bool)
      ensures r <==> {bodyA, bodyB} == {triangle, goal}
    {
      (bodyA == triangle && bodyB == goal) || (bodyA == goal && bodyB == triangle)
    }

    /** Records a key event in the key's slot; key codes outside the array are ignored. */
    method KeyCallback(key: int, scancode: int, action: int, mods: int)
      requires Valid()
      modifies keyPressed
      ensures forall i :: 0 <= i < keyPressed.Length ==>
                keyPressed[i] == if i == key then action != GLFW_RELEASE else old(keyPressed[i])
      ensures DeliveredKey(key) && key != GLFW_KEY_UNKNOWN ==>
                0 <= key < keyPressed.Length && keyPressed[key] == (action != GLFW_RELEASE)
    {
      if 0 <= key < keyPressed.Length {
        keyPressed[key] := action != GLFW_RELEASE;
      }
    }

    /** The vehicle is put back at the start: the running lap is abandoned, the board kept. */
    method ResetTriangle()
      requires Valid()
      modifies this
      ensures Valid()
      ensures !running && currentLap == FreshLap
      ensures laps == old(laps) && lapStart == old(lapStart) && lastPenalty == old(lastPenalty)
    {
      running := false;
      currentLap := FreshLap;
    }

    /** Routes a contact beginning (`hasContact`) or ending between two bodies. */
    method CollisionCallback(bodyA: Body, bodyB: Body, hasContact: bool, now: nat)
      requires Valid() && ClockAt(now)
      modifies this
      ensures Valid() && ClockAt(now)
      // Leaving the goal closes the running lap, if any, and starts the next.
      ensures IsGoal(bodyA, bodyB) && !hasContact ==>
                && running && lapStart == now && lastPenalty == old(lastPenalty)
                && (old(running) ==>
                      && laps == Record(old(laps), old(currentLap).(lapTime_ms := now - old(lapStart)))
                      && currentLap == FreshLap)
                && (!old(running) ==> laps == old(laps) && currentLap == old(currentLap))
      // Touching the goal, and any other contact ending, change nothing.
      ensures IsGoal(bodyA, bodyB) && hasContact ==> unchanged(this)
      ensures !IsGoal(bodyA, bodyB) && !hasContact ==> unchanged(this)
      // Touching a wall costs one penalty, at most one per DEBOUNCE_MS, running or not.
      ensures !IsGoal(bodyA, bodyB) && hasContact ==>
                && running == old(running) && lapStart == old(lapStart) && laps == old(laps)
                && if now - old(lastPenalty) > DEBOUNCE_MS then
                     && lastPenalty == now
                     && currentLap == old(currentLap).(penalties := old(currentLap).penalties + 1)
                   else
                     lastPenalty == old(lastPenalty) && currentLap == old(currentLap)
    {
      if IsGoal(bodyA, bodyB) {
        if !hasContact {
          RestartLapTimer(now);
        }
      } else {
        if hasContact {
          var duration := now - lastPenalty;
          if duration > DEBOUNCE_MS {
            lastPenalty := now;
            currentLap := currentLap.(penalties := currentLap.penalties + 1);
          }
        }
      }
    }

    /** The vehicle left the goal: finish the running lap onto the board, then start a new one. */
    method RestartLapTimer(now: nat)
      requires Valid() && ClockAt(now)
      modifies this
      ensures Valid() && ClockAt(now)
      ensures running && lapStart == now && lastPenalty == old(lastPenalty)
      ensures old(running) ==>
                && laps == Record(old(laps), old(currentLap).(lapTime_ms := now - old(lapStart)))
                && currentLap == FreshLap
      ensures !old(running) ==> laps == old(laps) && currentLap == old(currentLap)
    {
      if running {
        var duration := now - lapStart;
        currentLap := currentLap.(lapTime_ms := duration);
        ghost var board := laps;
        laps := laps + [currentLap];
        assert laps[..|laps| - 1] == board;
        SortPushedLap();
        if |laps| > BOARD_SIZE {
          laps := laps[..|laps| - 1];
        }
        RecordKeepsBoard(board, currentLap);
        currentLap := FreshLap;
      }
      lapStart := now;
      running := true;
    }

    /**
      `std::sort` of the board right after one lap was pushed at its back:
      the pushed lap moves left past every lap it ranks strictly better than.
     */
    method SortPushedLap()
      requires |laps| > 0
      modifies this`laps
      ensures laps == Insert(old(laps[..|laps| - 1]), old(laps[|laps| - 1]))
      ensures Sorted(old(laps[..|laps| - 1])) ==> Sorted(laps)
    {
      ghost var front, lap := laps[..|laps| - 1], laps[|laps| - 1];
      assert front[..|front|] == front && front[|front|..] == [];
      var j := |laps| - 1;
      while j > 0 && Before(laps[j], laps[j - 1])
        invariant 0 <= j <= |front|
        invariant laps == front[..j] + [lap] + front[j..]
        invariant Insert(front, lap) == Insert(front[..j], lap) + front[j..]
      {
        InsertStep(front, lap, j);
        SwapLeftward(front, lap, j);
        laps := laps[j - 1 := laps[j]][j := laps[j - 1]];
        j := j - 1;
      }
      InsertStop(front, lap, j);
      if Sorted(front) {
        InsertKeepsSorted(front, lap);
      }
    }
  }

  /** Swapping the pushed lap with its left neighbour moves it one place left. */
  lemma SwapLeftward(front: seq<Lap>, lap: Lap, j: nat)
    requires 0 < j <= |front|
    ensures var s := front[..j] + [lap] + front[j..];
            s[j - 1 := s[j]][j := s[j - 1]] == front[..j - 1] + [lap] + front[j - 1..]
  {
  }

  /**
    A client run: leave the goal to start a lap, hit a wall three times
    (the second hit falls inside the debounce window), and leave the goal
    again five seconds after the start.
   */
  method LapScenario() {
    var t := new Body;
    var g := new Body;
    var wall := new Body;
    var game := new Game(t, g);
    game.CollisionCallback(t, g, true, 10000);
    game.CollisionCallback(g, t, false, 10000);
    assert game.running && game.lapStart == 10000 && game.laps == [];
    assert game.currentLap == FreshLap;
    game.CollisionCallback(t, wall, true, 10000);
    game.CollisionCallback(wall, t, false, 10100);
    game.CollisionCallback(t, wall, true, 10900);
    assert game.currentLap.penalties == 1;
    game.CollisionCallback(wall, t, true, 11200);
    assert game.currentLap.penalties == 2;
    game.CollisionCallback(t, g, true, 15000);
    game.CollisionCallback(t, g, false, 15000);
    assert game.laps == [Lap(5000, 2)];
    assert Score(game.laps[0]) == 7000;
    assert game.currentLap == FreshLap;
  }
}
