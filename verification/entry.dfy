/** The part of `main` in hanoi.py that sets up the game and starts the solver:
    the initial board, the game state and the call `move_stack(board, H, 0, 2, ...)`,
    together with the frames the run hands to `print_board`. */
module Entry {
  import opened Pegs
  import opened MoveGenerator
  import opened Renderer

  /** `[n - i for i in range(n)]`: the discs n, n - 1, ..., 1, none when n <= 0. */
  function Tower(n: int): (t: seq<int>)
    ensures |t| == if n > 0 then n else 0
    ensures forall i :: 0 <= i < |t| ==> t[i] == n - i
  {
    if n <= 0 then [] else seq(n, i => n - i)
  }

  /** The tower obeys the stacking rule and holds each disc from 1 to n once. */
  lemma TowerShape(n: int)
    ensures Decreasing(Tower(n))
    ensures forall k :: k in Tower(n) <==> 1 <= k <= n
  {
    var t := Tower(n);
    forall k | 1 <= k <= n
      ensures k in t
    {
      assert t[n - k] == k;
    }
  }

  /** The top h discs of the tower of n are the tower of h. */
  lemma TowerTop(n: int, h: int)
    requires 0 <= h <= n
    ensures Tower(n)[n - h..] == Tower(h)
  {
  }

  /** The board main builds: all n discs on peg 0, largest at the bottom, pegs 1 and
      2 empty. */
  function InitialBoard(n: int): (b: Board)
    ensures WellFormed(b)
    ensures |b[0]| == (if n > 0 then n else 0) && b[1] == [] && b[2] == []
    ensures forall k :: k in b[0] <==> 1 <= k <= n
    ensures Discs(b) == multiset(Tower(n))
  {
    TowerShape(n);
    [Tower(n), [], []]
  }

  /** A whole run of the program with `n` discs, `toMove` discs to move and printing
      on or off: the outcome of `move_stack(board, toMove, 0, 2, state, print_flag)`
      on the initial board, with the initial frame that main draws before it when
      printing. With `toMove < 1` the height never reaches 1: nothing ever sits on
      pegs 1 and 2, so every assertion passes and the recursion only ends at
      Python's recursion limit. */
  function Run(n: int, toMove: int, printFlag: bool): Outcome
  {
    var b := InitialBoard(n);
    if toMove < 1 then Crashed(RecursionLimit)
    else
      var r := MoveStack(b, toMove, 0, 2, GameState(n, 0), printFlag);
      if r.Done? && printFlag then Done(r.board, r.state, [b] + r.frames) else r
  }

  /** On the initial board any 1 <= h <= n discs may be moved from peg 0 to peg 2:
      pegs 1 and 2 are empty. */
  lemma InitialMovable(n: int, h: int)
    requires 1 <= h <= n
    ensures Movable(InitialBoard(n), h, 0, 2)
  {
  }

  /** Transferring the top h discs of the initial tower to peg 2 leaves the
      bottom n - h on peg 0 and the tower of h on peg 2. */
  lemma InitialTransfer(n: int, h: int)
    requires 1 <= h <= n
    ensures Transfer(InitialBoard(n), h, 0, 2) == [Tower(n)[..n - h], [], Tower(h)]
  {
    var b := InitialBoard(n);
    var t := Transfer(b, h, 0, 2);
    assert t[1] == b[OtherPeg(0, 2)];
    TowerTop(n, h);
    assert t[2] == t[2][|b[2]|..];
  }

  /** Moving 1 <= h <= n discs from the initial board leaves the top h discs of the
      tower on peg 2 in the same order and the rest on peg 0, counts 2^h - 1
      moves, and draws one frame per move when printing, each frame obeying the
      stacking rule and showing all n discs. */
  lemma SolveFromInitial(n: int, h: int, printFlag: bool)
    requires 1 <= h <= n
    ensures var r := MoveStack(InitialBoard(n), h, 0, 2, GameState(n, 0), printFlag);
      && r.Done?
      && r.board == [Tower(n)[..n - h], [], Tower(h)]
      && r.state == GameState(n, Pow2(h) - 1)
      && |r.frames| == (if printFlag then Pow2(h) - 1 else 0)
      && SafeFrames(r.frames, multiset(Tower(n)))
  {
    var b := InitialBoard(n);
    var s := GameState(n, 0);
    var r := MoveStack(b, h, 0, 2, s, printFlag);
    assert r.Done? && r.board == Transfer(b, h, 0, 2) && SafeFrames(r.frames, Discs(b)) by {
      InitialMovable(n, h);
      MoveStackSafe(b, h, 0, 2, s, printFlag);
    }
    assert r.state == GameState(n, Pow2(h) - 1) && |r.frames| == (if printFlag then Pow2(h) - 1 else 0) by {
      MoveStackEffect(b, h, 0, 2, s, printFlag);
    }
    assert r.board == [Tower(n)[..n - h], [], Tower(h)] by {
      InitialTransfer(n, h);
    }
  }

  /** Asking to move more discs than the tower holds is not caught by the
      invalid-move assertion: the run ends on popping the empty peg 0. */
  lemma TooManyFails(n: int, h: int, printFlag: bool)
    requires h >= 1
    requires h > n
    ensures MoveStack(InitialBoard(n), h, 0, 2, GameState(n, 0), printFlag) == Crashed(PopFromEmpty)
  {
    TooTallPops(InitialBoard(n), h, 0, 2, GameState(n, 0), printFlag);
  }

  /** A run completes exactly when 1 <= toMove <= n. Then the top toMove discs of
      the tower stand on peg 2 in the same order, the rest stay on peg 0, peg 1 is
      empty, the counter reads 2^toMove - 1, and with printing on 2^toMove frames
      are drawn (the initial one and one per move), each obeying the stacking rule
      and showing all n discs. A run of more discs than the tower holds ends on
      popping the empty peg 0; one of fewer than one disc never reaches the base
      case. */
  lemma RunOutcome(n: int, toMove: int, printFlag: bool)
    ensures var r := Run(n, toMove, printFlag);
      && (r.Done? <==> 1 <= toMove <= n)
      && (toMove < 1 ==> r == Crashed(RecursionLimit))
      && (toMove >= 1 && toMove > n ==> r == Crashed(PopFromEmpty))
      && (r.Done? ==>
            && r.board == [Tower(n)[..n - toMove], [], Tower(toMove)]
            && r.state == GameState(n, Pow2(toMove) - 1)
            && |r.frames| == (if printFlag then Pow2(toMove) else 0)
            && SafeFrames(r.frames, multiset(Tower(n))))
  {
    if toMove >= 1 {
      var b := InitialBoard(n);
      var r := MoveStack(b, toMove, 0, 2, GameState(n, 0), printFlag);
      if toMove <= n {
        SolveFromInitial(n, toMove, printFlag);
        if printFlag {
          assert ([b] + r.frames)[0] == b && ([b] + r.frames)[1..] == r.frames;
        }
      } else {
        TooManyFails(n, toMove, printFlag);
      }
    }
  }

  /** Every disc on a board that holds exactly the tower of n has size 1 to n. */
  lemma TowerDiscsWithin(b: Board, n: int)
    requires Discs(b) == multiset(Tower(n))
    ensures DiscsWithin(b, n)
  {
    TowerShape(n);
    forall p: Peg, i | 0 <= i < |b[p]|
      ensures 1 <= b[p][i] <= n
    {
      assert b[p][i] in multiset(b[p]);
      assert b[p][i] in Discs(b);
    }
  }

  /** Whenever a run of up to 99 discs completes with printing on, every frame it
      draws is n + 2 lines: n rows and the base line, all 6n + 8 columns wide, and
      the blank line, so each frame exactly covers the one before it. */
  lemma AnimationRectangular(n: int, toMove: int)
    requires n <= 99
    ensures var r := Run(n, toMove, true);
      r.Done? ==>
        forall i :: 0 <= i < |r.frames| ==>
          var lines := Render(r.frames[i], n);
          && |lines| == n + 2
          && forall k :: 0 <= k < n + 1 ==> |lines[k]| == 6 * n + 8
  {
    var r := Run(n, toMove, true);
    RunOutcome(n, toMove, true);
    if r.Done? {
      SafeFramesAt(r.frames, multiset(Tower(n)));
      forall i | 0 <= i < |r.frames|
        ensures var lines := Render(r.frames[i], n);
          && |lines| == n + 2
          && forall k :: 0 <= k < n + 1 ==> |lines[k]| == 6 * n + 8
      {
        TowerDiscsWithin(r.frames[i], n);
        RenderHeight(r.frames[i], n);
        RenderRectangular(r.frames[i], n);
      }
    }
  }

  /** Three discs moved in full: seven moves leave [3, 2, 1] on peg 2. */
  lemma ThreeDiscs()
    ensures Run(3, 3, false) == Done([[], [], [3, 2, 1]], GameState(3, 7), [])
  {
    RunOutcome(3, 3, false);
    assert Tower(3) == [3, 2, 1];
  }

  /** Two of four discs moved: three moves leave [4, 3] on peg 0 and [2, 1] on peg 2. */
  lemma TwoOfFourDiscs()
    ensures Run(4, 2, false) == Done([[4, 3], [], [2, 1]], GameState(4, 3), [])
  {
    RunOutcome(4, 2, false);
    assert Tower(4)[..2] == [4, 3];
    assert Tower(2) == [2, 1];
    assert Pow2(2) == 4;
  }

  /** Asking to move two discs of a one-disc tower is not caught by the invalid-move
      assertion: disc 1 goes to peg 1, and the next single-disc move pops the empty
      peg 0. */
  lemma OneDiscTooMany()
    ensures Run(1, 2, false) == Crashed(PopFromEmpty)
  {
  }

  /** With printing on, a completed run first draws the initial tower and then the
      board after the smallest disc left peg 0: for peg 2 when an odd number of
      discs is moved, for peg 1 when an even number is. */
  lemma RunFirstFrames(n: int, toMove: int)
    requires 1 <= toMove <= n
    ensures var r := Run(n, toMove, true);
      && r.Done?
      && |r.frames| >= 2
      && r.frames[0] == InitialBoard(n)
      && r.frames[1] == Transfer(InitialBoard(n), 1, 0, if toMove % 2 == 1 then 2 else 1)
  {
    var b := InitialBoard(n);
    var s := GameState(n, 0);
    var m := MoveStack(b, toMove, 0, 2, s, true);
    SolveFromInitial(n, toMove, true);
    FirstMove(b, toMove, 0, 2, s);
    assert Run(n, toMove, true) == Done(m.board, m.state, [b] + m.frames);
  }
}
