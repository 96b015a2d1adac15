/** The board of the Tower of Hanoi: three pegs, each holding a stack of discs
    read bottom to top, discs being named by their size. */
module Pegs {

  /** One of the three peg labels 0, 1, 2. */
  type Peg = p: int | 0 <= p < 3

  /** Three stacks of disc sizes, indexed by peg, each read bottom to top. */
  type Board = b: seq<seq<int>> | |b| == 3 witness [[], [], []]

  /** The top disc of a non-empty stack (Python's `stack[-1]`). */
  function Top(stack: seq<int>): int
    requires |stack| > 0
  {
    stack[|stack| - 1]
  }

  /** Read bottom to top, the disc sizes strictly decrease: no disc rests on a smaller one. */
  predicate Decreasing(stack: seq<int>)
  {
    forall i, j :: 0 <= i < j < |stack| ==> stack[i] > stack[j]
  }

  /** The stacking rule holds on all three pegs. */
  predicate WellFormed(b: Board)
  {
    Decreasing(b[0]) && Decreasing(b[1]) && Decreasing(b[2])
  }

  /** Every disc on the board, whichever peg it sits on. */
  function Discs(b: Board): multiset<int>
  {
    multiset(b[0]) + multiset(b[1]) + multiset(b[2])
  }

  /** The discs of `b[o]` from the h-th from the top upwards (`board[o][-h:]`). */
  function TopBlock(b: Board, h: int, o: Peg): (block: seq<int>)
    requires 0 <= h <= |b[o]|
    ensures |block| == h
  {
    b[o][|b[o]| - h..]
  }

  /** The peg that is neither origin nor destination, `3 - origin - destination`. */
  function OtherPeg(o: Peg, d: Peg): (x: Peg)
    requires o != d
    ensures x != o && x != d
  {
    3 - o - d
  }

  /** The board after lifting the top h discs of peg o as one block and setting
      it down, in the same order, on peg d: the reference for what moving a
      stack of height h achieves, whatever single-disc moves get it there. */
  function Transfer(b: Board, h: int, o: Peg, d: Peg): (r: Board)
    requires 0 <= h <= |b[o]|
    requires o != d
    ensures r[o] == b[o][..|b[o]| - h]
    ensures |r[d]| == |b[d]| + h && r[d][..|b[d]|] == b[d] && r[d][|b[d]|..] == TopBlock(b, h, o)
    ensures r[OtherPeg(o, d)] == b[OtherPeg(o, d)]
  {
    b[o := b[o][..|b[o]| - h]][d := b[d] + TopBlock(b, h, o)]
  }

  /** The block of the top h discs of `b[o]` could be set down on peg p:
      p is empty or its top disc is larger than the block's bottom disc
      (`board[o][-h]`). */
  predicate Fits(b: Board, h: int, o: Peg, p: Peg)
    requires 1 <= h <= |b[o]|
  {
    |b[p]| == 0 || Top(b[p]) > b[o][|b[o]| - h]
  }

  /** Any run of consecutive discs of a decreasing stack is decreasing. */
  lemma DecreasingSlice(stack: seq<int>, lo: int, hi: int)
    requires Decreasing(stack)
    requires 0 <= lo <= hi <= |stack|
    ensures Decreasing(stack[lo..hi])
  {
    var t := stack[lo..hi];
    forall i, j | 0 <= i < j < |t|
      ensures t[i] > t[j]
    {
      assert t[i] == stack[lo + i] && t[j] == stack[lo + j];
    }
  }

  /** A stack stays decreasing when one decreasing block whose bottom disc is
      smaller than its top is put on it. */
  lemma DecreasingAppend(stack: seq<int>, block: seq<int>)
    requires Decreasing(stack) && Decreasing(block)
    requires |stack| == 0 || |block| == 0 || Top(stack) > block[0]
    ensures Decreasing(stack + block)
  {
    var s := stack + block;
    forall i, j | 0 <= i < j < |s|
      ensures s[i] > s[j]
    {
      if i < |stack| <= j {
        assert stack[i] >= Top(stack);
        assert block[0] >= block[j - |stack|];
      }
    }
  }

  /** The stacking rule read peg by peg, with the pegs named origin, destination
      and third peg in any order. */
  lemma WellFormedByPegs(b: Board, o: Peg, d: Peg)
    requires o != d
    ensures WellFormed(b) <==> Decreasing(b[o]) && Decreasing(b[d]) && Decreasing(b[OtherPeg(o, d)])
  {
  }

  /** The discs of the board counted peg by peg, in any order of the pegs. */
  lemma DiscsByPegs(b: Board, o: Peg, d: Peg)
    requires o != d
    ensures Discs(b) == multiset(b[o]) + multiset(b[d]) + multiset(b[OtherPeg(o, d)])
  {
  }

  /** What is left on the origin and what lands on the destination both keep the
      stacking rule when the block fits. */
  lemma TransferDecreasing(b: Board, h: int, o: Peg, d: Peg)
    requires o != d
    requires Decreasing(b[o]) && Decreasing(b[d])
    requires 1 <= h <= |b[o]|
    requires Fits(b, h, o, d)
    ensures Decreasing(Transfer(b, h, o, d)[o]) && Decreasing(Transfer(b, h, o, d)[d])
  {
    var r := Transfer(b, h, o, d);
    var block := TopBlock(b, h, o);
    assert r[d] == b[d] + block by {
      assert r[d] == r[d][..|b[d]|] + r[d][|b[d]|..];
    }
    assert r[o] == b[o][..|b[o]| - h];
    DecreasingSlice(b[o], 0, |b[o]| - h);
    DecreasingSlice(b[o], |b[o]| - h, |b[o]|);
    DecreasingAppend(b[d], block);
  }

  /** Setting down a block that fits keeps the stacking rule on every peg. */
  lemma TransferWellFormed(b: Board, h: int, o: Peg, d: Peg)
    requires WellFormed(b)
    requires o != d
    requires 1 <= h <= |b[o]|
    requires Fits(b, h, o, d)
    ensures WellFormed(Transfer(b, h, o, d))
  {
    WellFormedByPegs(b, o, d);
    TransferDecreasing(b, h, o, d);
    WellFormedByPegs(Transfer(b, h, o, d), o, d);
  }

  /** Moving a block takes no disc off the board and puts none on it. */
  lemma TransferKeepsDiscs(b: Board, h: int, o: Peg, d: Peg)
    requires o != d
    requires 0 <= h <= |b[o]|
    ensures Discs(Transfer(b, h, o, d)) == Discs(b)
  {
    var r := Transfer(b, h, o, d);
    var block := TopBlock(b, h, o);
    assert r[d] == b[d] + block by {
      assert r[d] == r[d][..|b[d]|] + r[d][|b[d]|..];
    }
    assert b[o] == r[o] + block;
    DiscsByPegs(b, o, d);
    DiscsByPegs(r, o, d);
  }
}
