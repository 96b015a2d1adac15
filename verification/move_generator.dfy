/** The recursive Hanoi solver `move_stack` of hanoi.py, with the run state it
    threads through the recursion. */
module MoveGenerator {
  import opened Pegs

  /** The game state: the total number of discs and the move counter.
      The frame delay is a float only read by the renderer's pause and is not modelled. */
  datatype GameState = GameState(numDiscs: int, movesCount: int)

  /** Why a run aborts: the "Invalid move detected." assertion, Python's IndexError
      on `board[origin][-h]` when the origin holds fewer than h discs, its
      IndexError on popping an empty origin, or its RecursionError when the
      height never reaches 1. */
  datatype Failure = InvalidMove | IndexOutOfRange | PopFromEmpty | RecursionLimit

  /** What the invalid-move assertion evaluates to. */
  datatype Check = Passes | Fails(failure: Failure)

  /** The result of a call: the board and state it leaves, with the boards handed to
      the renderer in order (one per single-disc move when printing is on), or the
      failure that aborts the run. */
  datatype Outcome =
    | Done(board: Board, state: GameState, frames: seq<Board>)
    | Crashed(failure: Failure)

  /** 2 to the power n. */
  function Pow2(n: nat): (r: nat)
    ensures r >= 1
  {
    if n == 0 then 1 else 2 * Pow2(n - 1)
  }

  /** The assertion guarding every call: the destination is empty, or its top disc
      is larger than `board[origin][-h]`; that index fails when the origin holds
      fewer than h discs, but Python only evaluates it when the destination is non-empty.
      A block that exists but is too large for the destination's top is the invalid move. */
  function CheckMove(b: Board, h: int, o: Peg, d: Peg): (r: Check)
    requires h >= 1
    ensures r.Passes? <==> |b[d]| == 0 || (h <= |b[o]| && Fits(b, h, o, d))
    ensures r == Fails(IndexOutOfRange) <==> |b[d]| > 0 && h > |b[o]|
    ensures r == Fails(InvalidMove) <==> |b[d]| > 0 && h <= |b[o]| && !Fits(b, h, o, d)
  {
    if |b[d]| == 0 then Passes
    else if h > |b[o]| then Fails(IndexOutOfRange)
    else if Top(b[d]) > b[o][|b[o]| - h] then Passes
    else Fails(InvalidMove)
  }

  /** The base case: pop the top disc of the origin, append it to the destination,
      count the move and, when printing, hand the new board to the renderer. */
  function MoveOne(b: Board, o: Peg, d: Peg, s: GameState, printFlag: bool): Outcome
    requires o != d
  {
    if |b[o]| == 0 then Crashed(PopFromEmpty)
    else
      var b' := b[o := b[o][..|b[o]| - 1]][d := b[d] + [Top(b[o])]];
      Done(b', s.(movesCount := s.movesCount + 1), if printFlag then [b'] else [])
  }

  /** `move_stack(board, h, o, d, state, print_flag)`: move the top h discs of peg o
      to peg d through the third peg. */
  function MoveStack(b: Board, h: int, o: Peg, d: Peg, s: GameState, printFlag: bool): Outcome
    requires h >= 1
    requires o != d
    decreases h, 1
  {
    var check := CheckMove(b, h, o, d);
    if check.Fails? then Crashed(check.failure)
    else if h == 1 then MoveOne(b, o, d, s, printFlag)
    else ViaOther(b, h, o, d, s, printFlag)
  }

  /** The recursive case of `move_stack`: h - 1 discs to the third peg, one disc to
      the destination, the h - 1 discs from the third peg to the destination; the
      first failure aborts the rest. */
  function ViaOther(b: Board, h: int, o: Peg, d: Peg, s: GameState, printFlag: bool): Outcome
    requires h > 1
    requires o != d
    decreases h, 0
  {
    var x := OtherPeg(o, d);
    var r1 := MoveStack(b, h - 1, o, x, s, printFlag);
    if r1.Crashed? then r1
    else
      var r2 := MoveStack(r1.board, 1, o, d, r1.state, printFlag);
      if r2.Crashed? then r2
      else
        var r3 := MoveStack(r2.board, h - 1, x, d, r2.state, printFlag);
        if r3.Crashed? then r3
        else Done(r3.board, r3.state, r1.frames + r2.frames + r3.frames)
  }

  /** With h = 1 the call is one guarded pop-and-append and nothing else: it completes
      exactly when the origin is non-empty and its top disc fits on the destination,
      and then the disc moves, the counter rises by one and at most one frame is drawn.
      Otherwise the failure says which check stopped it. */
  lemma SingleDisc(b: Board, o: Peg, d: Peg, s: GameState, printFlag: bool)
    requires o != d
    ensures var r := MoveStack(b, 1, o, d, s, printFlag);
      && (r.Done? <==> |b[o]| > 0 && Fits(b, 1, o, d))
      && (r.Done? ==>
            && r.board == Transfer(b, 1, o, d)
            && r.state == s.(movesCount := s.movesCount + 1)
            && r.frames == (if printFlag then [r.board] else []))
      && (r.Crashed? ==>
            r.failure == (if |b[o]| == 0 && |b[d]| == 0 then PopFromEmpty
                          else if |b[o]| == 0 then IndexOutOfRange
                          else InvalidMove))
  {
    if |b[o]| > 0 {
      assert TopBlock(b, 1, o) == [Top(b[o])];
    }
  }

  /** The outcome with the frames dropped: what a run with printing off can observe. */
  function Silent(r: Outcome): Outcome
  {
    if r.Done? then Done(r.board, r.state, []) else r
  }

  /** The print flag only decides whether frames are drawn: with printing off the
      call ends on the same board with the same counter, or fails the same way,
      and draws nothing. */
  lemma {:induction false} PrintFlagIrrelevant(b: Board, h: int, o: Peg, d: Peg, s: GameState)
    requires h >= 1
    requires o != d
    decreases h
    ensures MoveStack(b, h, o, d, s, false) == Silent(MoveStack(b, h, o, d, s, true))
  {
    if h > 1 && CheckMove(b, h, o, d).Passes? {
      var x := OtherPeg(o, d);
      var q1, r1 := MoveStack(b, h - 1, o, x, s, false), MoveStack(b, h - 1, o, x, s, true);
      PrintFlagIrrelevant(b, h - 1, o, x, s);
      if r1.Done? {
        var q2, r2 := MoveStack(q1.board, 1, o, d, q1.state, false), MoveStack(r1.board, 1, o, d, r1.state, true);
        PrintFlagIrrelevant(r1.board, 1, o, d, r1.state);
        if r2.Done? {
          PrintFlagIrrelevant(r2.board, h - 1, x, d, r2.state);
        }
      }
    }
  }

  /** The first frame drawn shows the smallest moved disc gone from the origin to
      the destination when h is odd and to the third peg when h is even. */
  lemma {:induction false} FirstMove(b: Board, h: int, o: Peg, d: Peg, s: GameState)
    requires h >= 1
    requires o != d
    requires MoveStack(b, h, o, d, s, true).Done?
    decreases h, 1
    ensures var r := MoveStack(b, h, o, d, s, true);
      && |r.frames| > 0
      && 1 <= |b[o]|
      && r.frames[0] == Transfer(b, 1, o, if h % 2 == 1 then d else OtherPeg(o, d))
  {
    if h == 1 {
      SingleDisc(b, o, d, s, true);
    } else {
      ViaOtherFirstMove(b, h, o, d, s);
    }
  }

  /** The recursive case of FirstMove: the first frame is the first frame of the
      first sub-move, whose destination is the third peg. */
  lemma {:induction false} ViaOtherFirstMove(b: Board, h: int, o: Peg, d: Peg, s: GameState)
    requires h > 1
    requires o != d
    requires ViaOther(b, h, o, d, s, true).Done?
    decreases h, 0
    ensures var r := ViaOther(b, h, o, d, s, true);
      && |r.frames| > 0
      && 1 <= |b[o]|
      && r.frames[0] == Transfer(b, 1, o, if h % 2 == 1 then d else OtherPeg(o, d))
  {
    var x := OtherPeg(o, d);
    FirstMove(b, h - 1, o, x, s);
    assert OtherPeg(o, x) == d;
  }

  /** `r` is what moving the top h discs of peg o onto peg d from board b and state s
      must leave: the origin held at least h discs, the board is the direct
      `Transfer` of that block, the counter rose by exactly 2^h - 1, and one frame
      was drawn per move when printing. */
  ghost predicate MovedTop(b: Board, h: int, o: Peg, d: Peg, s: GameState, printFlag: bool, r: Outcome)
    requires h >= 1
    requires o != d
  {
    && r.Done?
    && h <= |b[o]|
    && r.board == Transfer(b, h, o, d)
    && r.state == s.(movesCount := s.movesCount + Pow2(h) - 1)
    && |r.frames| == (if printFlag then Pow2(h) - 1 else 0)
  }

  /** Lifting h - 1 discs to the third peg, one disc to the destination and the
      h - 1 discs back onto it is the same as lifting all h discs at once. */
  lemma TransferComposes(b: Board, h: int, o: Peg, d: Peg)
    requires 1 < h <= |b[o]|
    requires o != d
    ensures var x := OtherPeg(o, d);
      var b1 := Transfer(b, h - 1, o, x);
      var b2 := Transfer(b1, 1, o, d);
      && h - 1 <= |b2[x]|
      && Transfer(b2, h - 1, x, d) == Transfer(b, h, o, d)
  {
    var x := OtherPeg(o, d);
    var n := |b[o]|;
    var b1 := Transfer(b, h - 1, o, x);
    var b2 := Transfer(b1, 1, o, d);
    var b3 := Transfer(b2, h - 1, x, d);
    var t := Transfer(b, h, o, d);
    assert OtherPeg(o, x) == d && OtherPeg(x, d) == o;
    assert b1[o] == b[o][..n - h + 1];
    assert b2[o] == b[o][..n - h];
    assert b2[d] == b[d] + [b[o][n - h]];
    assert b2[x] == b[x] + b[o][n - h + 1..];
    assert b3[o] == t[o];
    assert b3[x] == t[x];
    assert b3[d] == b[d] + [b[o][n - h]] + b[o][n - h + 1..];
    assert [b[o][n - h]] + b[o][n - h + 1..] == b[o][n - h..];
    assert b3[d] == t[d];
  }

  /** Three completed sub-moves, h - 1 discs to the third peg, one disc to the
      destination and h - 1 discs back onto it, together move the top h discs. */
  lemma ComposeMoves(b: Board, h: int, o: Peg, d: Peg, s: GameState, printFlag: bool, r1: Outcome, r2: Outcome, r3: Outcome, r: Outcome)
    requires h > 1
    requires o != d
    requires MovedTop(b, h - 1, o, OtherPeg(o, d), s, printFlag, r1)
    requires MovedTop(r1.board, 1, o, d, r1.state, printFlag, r2)
    requires MovedTop(r2.board, h - 1, OtherPeg(o, d), d, r2.state, printFlag, r3)
    requires r == Done(r3.board, r3.state, r1.frames + r2.frames + r3.frames)
    ensures MovedTop(b, h, o, d, s, printFlag, r)
  {
    assert h <= |b[o]| by {
      assert |r1.board[o]| == |b[o]| - (h - 1);
    }
    TransferComposes(b, h, o, d);
    assert Pow2(h) == 2 * Pow2(h - 1);
  }

  /** A single-disc move that completes has moved the top disc as `MovedTop` describes. */
  lemma SingleMoved(b: Board, o: Peg, d: Peg, s: GameState, printFlag: bool)
    requires o != d
    ensures var r := MoveStack(b, 1, o, d, s, printFlag);
      r.Done? ==> MovedTop(b, 1, o, d, s, printFlag, r)
  {
    SingleDisc(b, o, d, s, printFlag);
  }

  /** Whenever `move_stack` completes, it has moved the top h discs of the origin
      onto the destination as `MovedTop` describes. */
  lemma {:induction false} MoveStackEffect(b: Board, h: int, o: Peg, d: Peg, s: GameState, printFlag: bool)
    requires h >= 1
    requires o != d
    decreases h, 1
    ensures var r := MoveStack(b, h, o, d, s, printFlag);
      r.Done? ==> MovedTop(b, h, o, d, s, printFlag, r)
  {
    if h == 1 {
      SingleMoved(b, o, d, s, printFlag);
    } else {
      ViaOtherMoved(b, h, o, d, s, printFlag);
    }
  }

  /** The recursive case of MoveStackEffect: three completed sub-moves compose. */
  lemma {:induction false} ViaOtherMoved(b: Board, h: int, o: Peg, d: Peg, s: GameState, printFlag: bool)
    requires h > 1
    requires o != d
    decreases h, 0
    ensures var r := ViaOther(b, h, o, d, s, printFlag);
      r.Done? ==> MovedTop(b, h, o, d, s, printFlag, r)
  {
    var r := ViaOther(b, h, o, d, s, printFlag);
    if r.Done? {
      var x := OtherPeg(o, d);
      var r1 := MoveStack(b, h - 1, o, x, s, printFlag);
      var r2 := MoveStack(r1.board, 1, o, d, r1.state, printFlag);
      var r3 := MoveStack(r2.board, h - 1, x, d, r2.state, printFlag);
      assert MovedTop(b, h - 1, o, x, s, printFlag, r1) by {
        MoveStackEffect(b, h - 1, o, x, s, printFlag);
      }
      assert MovedTop(r1.board, 1, o, d, r1.state, printFlag, r2) by {
        MoveStackEffect(r1.board, 1, o, d, r1.state, printFlag);
      }
      assert MovedTop(r2.board, h - 1, x, d, r2.state, printFlag, r3) by {
        MoveStackEffect(r2.board, h - 1, x, d, r2.state, printFlag);
      }
      ComposeMoves(b, h, o, d, s, printFlag, r1, r2, r3, r);
    }
  }

  /** Every frame obeys the stacking rule, stated frame by frame from the first. */
  ghost predicate OrderedFrames(frames: seq<Board>)
    decreases |frames|
  {
    |frames| == 0 || (WellFormed(frames[0]) && OrderedFrames(frames[1..]))
  }

  /** Every frame shows exactly the discs `discs`, stated frame by frame from the first. */
  ghost predicate SameDiscFrames(frames: seq<Board>, discs: multiset<int>)
    decreases |frames|
  {
    |frames| == 0 || (Discs(frames[0]) == discs && SameDiscFrames(frames[1..], discs))
  }

  /** Every frame obeys the stacking rule and shows exactly the discs `discs`. */
  ghost predicate SafeFrames(frames: seq<Board>, discs: multiset<int>)
  {
    OrderedFrames(frames) && SameDiscFrames(frames, discs)
  }

  /** OrderedFrames says of each frame, at every index, what it says of the first. */
  lemma {:induction false} OrderedFramesAt(frames: seq<Board>)
    decreases |frames|
    ensures OrderedFrames(frames) <==> forall i :: 0 <= i < |frames| ==> WellFormed(frames[i])
  {
    if |frames| > 0 {
      OrderedFramesAt(frames[1..]);
      assert forall i :: 0 < i < |frames| ==> frames[i] == frames[1..][i - 1];
    }
  }

  /** SameDiscFrames says of each frame, at every index, what it says of the first. */
  lemma {:induction false} SameDiscFramesAt(frames: seq<Board>, discs: multiset<int>)
    decreases |frames|
    ensures SameDiscFrames(frames, discs) <==> forall i :: 0 <= i < |frames| ==> Discs(frames[i]) == discs
  {
    if |frames| > 0 {
      SameDiscFramesAt(frames[1..], discs);
      assert forall i :: 0 < i < |frames| ==> frames[i] == frames[1..][i - 1];
    }
  }

  /** SafeFrames read frame by frame: every frame obeys the stacking rule and
      holds exactly `discs`. */
  lemma SafeFramesAt(frames: seq<Board>, discs: multiset<int>)
    ensures SafeFrames(frames, discs) <==>
      forall i :: 0 <= i < |frames| ==> WellFormed(frames[i]) && Discs(frames[i]) == discs
  {
    OrderedFramesAt(frames);
    SameDiscFramesAt(frames, discs);
  }

  /** Frames that obey the stacking rule followed by more such frames obey it. */
  lemma {:induction false} OrderedAppend(f1: seq<Board>, f2: seq<Board>)
    requires OrderedFrames(f1) && OrderedFrames(f2)
    decreases |f1|
    ensures OrderedFrames(f1 + f2)
  {
    if |f1| == 0 {
      assert f1 + f2 == f2;
    } else {
      assert (f1 + f2)[0] == f1[0];
      assert (f1 + f2)[1..] == f1[1..] + f2;
      OrderedAppend(f1[1..], f2);
    }
  }

  /** Frames holding `discs` followed by more such frames hold `discs`. */
  lemma {:induction false} SameDiscAppend(f1: seq<Board>, f2: seq<Board>, discs: multiset<int>)
    requires SameDiscFrames(f1, discs) && SameDiscFrames(f2, discs)
    decreases |f1|
    ensures SameDiscFrames(f1 + f2, discs)
  {
    if |f1| == 0 {
      assert f1 + f2 == f2;
    } else {
      assert (f1 + f2)[0] == f1[0];
      assert (f1 + f2)[1..] == f1[1..] + f2;
      SameDiscAppend(f1[1..], f2, discs);
    }
  }

  /** When the top h discs fit on both other pegs, the first sub-move's block of
      h - 1 discs fits on both of its other pegs, and after it the middle disc fits
      on the destination. */
  lemma FirstSubMovesFit(b: Board, h: int, o: Peg, d: Peg)
    requires WellFormed(b)
    requires o != d
    requires 1 < h <= |b[o]|
    requires Fits(b, h, o, d) && Fits(b, h, o, OtherPeg(o, d))
    ensures var x := OtherPeg(o, d);
      var b1 := Transfer(b, h - 1, o, x);
      && Fits(b, h - 1, o, x) && Fits(b, h - 1, o, d)
      && |b1[o]| > 0 && Fits(b1, 1, o, d)
  {
    var x := OtherPeg(o, d);
    var n := |b[o]|;
    var b1 := Transfer(b, h - 1, o, x);
    assert b[o][n - h] > b[o][n - h + 1] by {
      WellFormedByPegs(b, o, d);
    }
    assert b1[o] == b[o][..n - h + 1] && b1[d] == b[d];
    assert Top(b1[o]) == b[o][n - h];
  }

  /** When the top h discs fit on the destination, then once the first two
      sub-moves are done the block of h - 1 discs on the third peg fits on both of
      its other pegs. */
  lemma LastSubMoveFits(b: Board, h: int, o: Peg, d: Peg)
    requires WellFormed(b)
    requires o != d
    requires 1 < h <= |b[o]|
    requires Fits(b, h, o, d)
    ensures var x := OtherPeg(o, d);
      var b1 := Transfer(b, h - 1, o, x);
      var b2 := Transfer(b1, 1, o, d);
      && h - 1 <= |b2[x]| && Fits(b2, h - 1, x, d) && Fits(b2, h - 1, x, o)
  {
    var x := OtherPeg(o, d);
    var n := |b[o]|;
    var b1 := Transfer(b, h - 1, o, x);
    var b2 := Transfer(b1, 1, o, d);
    WellFormedByPegs(b, o, d);
    assert b[o][n - h] > b[o][n - h + 1];
    assert b2[o] == b[o][..n - h];
    assert Top(b2[d]) == b[o][n - h] by {
      assert b1[o] == b[o][..n - h + 1];
      assert b2[d][|b1[d]|..] == TopBlock(b1, 1, o);
    }
    assert b2[x] == b1[x];
    assert b2[x][|b2[x]| - (h - 1)] == b[o][n - h + 1] by {
      assert b1[x][|b[x]|..] == TopBlock(b, h - 1, o);
      assert b1[x][|b[x]|..][0] == b1[x][|b[x]|];
    }
    if |b2[o]| > 0 {
      assert Top(b2[o]) == b[o][n - h - 1];
    }
  }

  /** If the call completed, its final board and every frame drawn on the way
      obey the stacking rule. */
  ghost predicate KeepsOrder(r: Outcome)
  {
    r.Done? ==> WellFormed(r.board) && OrderedFrames(r.frames)
  }

  /** If the call completed, its final board and every frame drawn on the way
      hold exactly the discs `m`. */
  ghost predicate KeepsDiscs(m: multiset<int>, r: Outcome)
  {
    r.Done? ==> Discs(r.board) == m && SameDiscFrames(r.frames, m)
  }

  /** A single-disc move that passes the assertion keeps the stacking rule. */
  lemma SingleKeepsOrder(b: Board, o: Peg, d: Peg, s: GameState, printFlag: bool)
    requires o != d
    requires WellFormed(b)
    ensures KeepsOrder(MoveStack(b, 1, o, d, s, printFlag))
  {
    SingleDisc(b, o, d, s, printFlag);
    if |b[o]| > 0 && Fits(b, 1, o, d) {
      TransferWellFormed(b, 1, o, d);
    }
  }

  /** A single-disc move neither loses nor gains a disc. */
  lemma SingleKeepsDiscs(b: Board, o: Peg, d: Peg, s: GameState, printFlag: bool, m: multiset<int>)
    requires o != d
    requires Discs(b) == m
    ensures KeepsDiscs(m, MoveStack(b, 1, o, d, s, printFlag))
  {
    SingleDisc(b, o, d, s, printFlag);
    if |b[o]| > 0 {
      TransferKeepsDiscs(b, 1, o, d);
    }
  }

  /** The invalid-move assertion is what guards the stacking rule: starting from a
      board that obeys it, a call that completes has obeyed it after every
      single-disc move. */
  lemma {:induction false} DoneKeepsOrder(b: Board, h: int, o: Peg, d: Peg, s: GameState, printFlag: bool)
    requires h >= 1
    requires o != d
    requires WellFormed(b)
    decreases h, 1
    ensures KeepsOrder(MoveStack(b, h, o, d, s, printFlag))
  {
    if h == 1 {
      SingleKeepsOrder(b, o, d, s, printFlag);
    } else {
      ViaOtherKeepsOrder(b, h, o, d, s, printFlag);
    }
  }

  /** The recursive case of DoneKeepsOrder. */
  lemma {:induction false} ViaOtherKeepsOrder(b: Board, h: int, o: Peg, d: Peg, s: GameState, printFlag: bool)
    requires h > 1
    requires o != d
    requires WellFormed(b)
    decreases h, 0
    ensures KeepsOrder(ViaOther(b, h, o, d, s, printFlag))
  {
    var r := ViaOther(b, h, o, d, s, printFlag);
    if r.Done? {
      var x := OtherPeg(o, d);
      var r1 := MoveStack(b, h - 1, o, x, s, printFlag);
      var r2 := MoveStack(r1.board, 1, o, d, r1.state, printFlag);
      var r3 := MoveStack(r2.board, h - 1, x, d, r2.state, printFlag);
      assert KeepsOrder(r1) by {
        DoneKeepsOrder(b, h - 1, o, x, s, printFlag);
      }
      assert KeepsOrder(r2) by {
        DoneKeepsOrder(r1.board, 1, o, d, r1.state, printFlag);
      }
      assert KeepsOrder(r3) by {
        DoneKeepsOrder(r2.board, h - 1, x, d, r2.state, printFlag);
      }
      OrderedAppend(r1.frames, r2.frames);
      OrderedAppend(r1.frames + r2.frames, r3.frames);
    }
  }

  /** A call that completes has neither lost nor gained a disc, on its final
      board or on any frame drawn on the way. */
  lemma {:induction false} DoneKeepsDiscs(b: Board, h: int, o: Peg, d: Peg, s: GameState, printFlag: bool, m: multiset<int>)
    requires h >= 1
    requires o != d
    requires Discs(b) == m
    decreases h, 1
    ensures KeepsDiscs(m, MoveStack(b, h, o, d, s, printFlag))
  {
    if h == 1 {
      SingleKeepsDiscs(b, o, d, s, printFlag, m);
    } else {
      ViaOtherKeepsDiscs(b, h, o, d, s, printFlag, m);
    }
  }

  /** The recursive case of DoneKeepsDiscs. */
  lemma {:induction false} ViaOtherKeepsDiscs(b: Board, h: int, o: Peg, d: Peg, s: GameState, printFlag: bool, m: multiset<int>)
    requires h > 1
    requires o != d
    requires Discs(b) == m
    decreases h, 0
    ensures KeepsDiscs(m, ViaOther(b, h, o, d, s, printFlag))
  {
    var r := ViaOther(b, h, o, d, s, printFlag);
    if r.Done? {
      var x := OtherPeg(o, d);
      var r1 := MoveStack(b, h - 1, o, x, s, printFlag);
      var r2 := MoveStack(r1.board, 1, o, d, r1.state, printFlag);
      var r3 := MoveStack(r2.board, h - 1, x, d, r2.state, printFlag);
      assert KeepsDiscs(m, r1) by {
        DoneKeepsDiscs(b, h - 1, o, x, s, printFlag, m);
      }
      assert KeepsDiscs(m, r2) by {
        DoneKeepsDiscs(r1.board, 1, o, d, r1.state, printFlag, m);
      }
      assert KeepsDiscs(m, r3) by {
        DoneKeepsDiscs(r2.board, h - 1, x, d, r2.state, printFlag, m);
      }
      SameDiscAppend(r1.frames, r2.frames, m);
      SameDiscAppend(r1.frames + r2.frames, r3.frames, m);
    }
  }

  /** The caller's obligations for moving the top h discs of peg o to peg d: the
      stacking rule holds, the origin holds at least h discs, and the block fits on
      both other pegs. */
  predicate Movable(b: Board, h: int, o: Peg, d: Peg)
    requires o != d
  {
    WellFormed(b) && 1 <= h <= |b[o]| && Fits(b, h, o, d) && Fits(b, h, o, OtherPeg(o, d))
  }

  /** Under the caller's obligations for a block of h > 1 discs, each of the three
      sub-moves meets its own obligations on the board the previous one leaves. */
  lemma SubMovesMovable(b: Board, h: int, o: Peg, d: Peg)
    requires o != d
    requires Movable(b, h, o, d)
    requires h > 1
    ensures var x := OtherPeg(o, d);
      var b1 := Transfer(b, h - 1, o, x);
      var b2 := Transfer(b1, 1, o, d);
      && Movable(b, h - 1, o, x)
      && |b1[o]| > 0 && WellFormed(b1) && Fits(b1, 1, o, d)
      && Movable(b2, h - 1, x, d)
  {
    var x := OtherPeg(o, d);
    var b1 := Transfer(b, h - 1, o, x);
    FirstSubMovesFit(b, h, o, d);
    LastSubMoveFits(b, h, o, d);
    assert OtherPeg(o, x) == d && OtherPeg(x, d) == o;
    TransferWellFormed(b, h - 1, o, x);
    TransferWellFormed(b1, 1, o, d);
  }

  /** Under the caller's obligations the invalid-move assertion never fails and no
      index is out of range, on the call itself or on any recursive call. */
  lemma {:induction false} MoveStackSucceeds(b: Board, h: int, o: Peg, d: Peg, s: GameState, printFlag: bool)
    requires o != d
    requires Movable(b, h, o, d)
    decreases h, 1
    ensures MoveStack(b, h, o, d, s, printFlag).Done?
  {
    if h == 1 {
      SingleDisc(b, o, d, s, printFlag);
    } else {
      ViaOtherSucceeds(b, h, o, d, s, printFlag);
    }
  }

  /** The recursive case of MoveStackSucceeds: each of the three sub-moves meets
      its obligations in turn, so none of them fails. */
  lemma {:induction false} ViaOtherSucceeds(b: Board, h: int, o: Peg, d: Peg, s: GameState, printFlag: bool)
    requires o != d
    requires h > 1
    requires Movable(b, h, o, d)
    decreases h, 0
    ensures ViaOther(b, h, o, d, s, printFlag).Done?
  {
    var x := OtherPeg(o, d);
    var r1 := MoveStack(b, h - 1, o, x, s, printFlag);
    FirstSubMove(b, h, o, d, s, printFlag);
    var r2 := MoveStack(r1.board, 1, o, d, r1.state, printFlag);
    SingleDisc(r1.board, o, d, r1.state, printFlag);
    MoveStackSucceeds(r2.board, h - 1, x, d, r2.state, printFlag);
  }

  /** The first sub-move of the recursive case completes, and leaves a board from
      which the middle single-disc move and the last sub-move can go ahead. */
  lemma {:induction false} FirstSubMove(b: Board, h: int, o: Peg, d: Peg, s: GameState, printFlag: bool)
    requires o != d
    requires h > 1
    requires Movable(b, h, o, d)
    decreases h - 1, 2
    ensures var x := OtherPeg(o, d);
      var r1 := MoveStack(b, h - 1, o, x, s, printFlag);
      && r1.Done?
      && |r1.board[o]| > 0 && WellFormed(r1.board) && Fits(r1.board, 1, o, d)
      && Movable(Transfer(r1.board, 1, o, d), h - 1, x, d)
  {
    var x := OtherPeg(o, d);
    SubMovesMovable(b, h, o, d);
    MoveStackSucceeds(b, h - 1, o, x, s, printFlag);
    MoveStackEffect(b, h - 1, o, x, s, printFlag);
  }

  /** Under the caller's obligations the call completes: the invalid-move assertion
      never fails and no index is out of range on any recursive call; the final
      board is the direct transfer of the block, obeys the stacking rule and holds
      the same discs, and so does every frame drawn on the way. */
  lemma MoveStackSafe(b: Board, h: int, o: Peg, d: Peg, s: GameState, printFlag: bool)
    requires o != d
    requires Movable(b, h, o, d)
    ensures var r := MoveStack(b, h, o, d, s, printFlag);
      && r.Done?
      && r.board == Transfer(b, h, o, d)
      && WellFormed(r.board)
      && Discs(r.board) == Discs(b)
      && SafeFrames(r.frames, Discs(b))
  {
    MoveStackSucceeds(b, h, o, d, s, printFlag);
    MoveStackEffect(b, h, o, d, s, printFlag);
    DoneKeepsOrder(b, h, o, d, s, printFlag);
    DoneKeepsDiscs(b, h, o, d, s, printFlag, Discs(b));
  }

  /** Asking for more discs than the origin holds, with the other two pegs empty,
      is never caught by the assertion (the destination is always empty when it is
      evaluated): the recursion parks every disc of the origin on one of the other
      pegs and the next single-disc move pops the empty origin. */
  lemma {:induction false} TooTallPops(b: Board, h: int, o: Peg, d: Peg, s: GameState, printFlag: bool)
    requires o != d
    requires WellFormed(b)
    requires 1 <= h && |b[o]| < h
    requires b[d] == [] && b[OtherPeg(o, d)] == []
    decreases h, 1
    ensures MoveStack(b, h, o, d, s, printFlag) == Crashed(PopFromEmpty)
  {
    if h > 1 {
      ViaOtherPops(b, h, o, d, s, printFlag);
    }
  }

  /** The recursive case of `TooTallPops`: the first sub-call either fails the same
      way or moves all of the origin's discs to the third peg, and the middle
      single-disc move then pops the empty origin. */
  lemma {:induction false} ViaOtherPops(b: Board, h: int, o: Peg, d: Peg, s: GameState, printFlag: bool)
    requires o != d
    requires WellFormed(b)
    requires 1 < h && |b[o]| < h
    requires b[d] == [] && b[OtherPeg(o, d)] == []
    decreases h, 0
    ensures ViaOther(b, h, o, d, s, printFlag) == Crashed(PopFromEmpty)
  {
    var x := OtherPeg(o, d);
    assert OtherPeg(o, x) == d;
    if |b[o]| < h - 1 {
      TooTallPops(b, h - 1, o, x, s, printFlag);
    } else {
      MoveStackSafe(b, h - 1, o, x, s, printFlag);
      var r1 := MoveStack(b, h - 1, o, x, s, printFlag);
      assert r1.board[o] == [] && r1.board[d] == [];
      SingleDisc(r1.board, o, d, r1.state, printFlag);
    }
  }
}
