# Tower of Hanoi animator: a Dafny model

hanoi.py solves the Tower of Hanoi for `N` discs and can move only the top `H`
of them. Pegs 0, 1 and 2 each hold a list of disc sizes, read bottom to top.
The recursive `move_stack` moves `H` discs from peg 0 to peg 2 through the third
peg. Each call starts with an assertion that no disc lands on a smaller one. A
move counter is threaded through the recursion, and a terminal frame is drawn
after every single-disc move when printing is on.

This project models that core as pure functions and proves what it does.

- `Pegs` (pegs.dfy): the board, the stacking rule, the multiset of discs, and the
  third peg `3 - o - d`. `Transfer` is the reference definition of lifting the
  top `h` discs of one peg as a block and setting them down, in the same order,
  on another.
- `MoveGenerator` (move_generator.dfy): `move_stack` as `MoveStack`, with its
  recursive case as `ViaOther`. A call returns `Done(board, state, frames)`,
  where `frames` are the boards handed to `print_board`, or `Crashed(failure)`.
  The failures are:
  - the assertion's "Invalid move detected.";
  - the IndexError of `board[origin][-h]`;
  - the IndexError of popping an empty peg.
- `Renderer` (renderer.dfy): the text lines `print_board` writes for one board,
  that is the level rows, the base line and the blank line.
- `Entry` (entry.dfy): the initial board `main` builds, and a whole run
  `move_stack(board, H, 0, 2, ...)` together with the frame drawn before it.
  A run with `H < 1` never reaches height 1 and ends in Python's RecursionError.

An out-of-range height is not what trips the invalid-move assertion:
- a height above `N` ends in the IndexError of popping the empty peg 0, as `Entry.TooManyFails` proves, as long as H stays below Python's recursion limit (1000 frames by default). A larger H raises RecursionError during the first descent, before any disc moves;
- a height below 1 ends in a RecursionError;
- the line-59 assertion never checks that the origin holds `h` discs when the
  destination is empty, because Python skips `board[origin][-h]` in that case.

## Model

| member | source | states |
|---|---|---|
| Pegs.OtherPeg | hanoi.py:69 | `3 - origin - destination` is a peg, and it differs from both the origin and the destination |
| Pegs.TransferWellFormed | hanoi.py:59-63 | setting down a block whose bottom disc is smaller than the destination's top keeps every peg strictly decreasing |
| Pegs.TransferKeepsDiscs | hanoi.py:63 | moving discs between pegs neither loses nor gains a disc: the multiset of all discs is unchanged |
| MoveGenerator.CheckMove | hanoi.py:59 | the assertion passes iff the destination is empty or the block's bottom disc `board[o][-h]` exists and is smaller than the destination's top. It raises IndexError exactly when the destination is non-empty and the origin holds fewer than h discs, and fails with "Invalid move detected." exactly when the destination is non-empty, the block exists and its bottom disc is not smaller than the destination's top |
| MoveGenerator.SingleDisc | hanoi.py:59-66 | with h = 1 the call completes iff the origin is non-empty and its top disc fits. It then moves exactly that disc, adds one to the counter, and draws one frame iff printing. Otherwise it names the failure: pop from empty, IndexError or invalid move |
| MoveGenerator.MoveStackEffect | hanoi.py:55-72 | whenever the call completes, the origin held at least h discs and lost its top h. The destination gained them in the same order and the third peg is unchanged. The counter rose by exactly 2^h - 1, and 2^h - 1 frames were drawn when printing, none otherwise |
| MoveGenerator.TransferComposes | hanoi.py:69-72 | h - 1 discs to the third peg, one disc to the destination and h - 1 discs back onto it give the same board as moving the whole block of h at once |
| MoveGenerator.ComposeMoves | hanoi.py:68-72 | three completed sub-moves of h - 1, 1 and h - 1 discs add up to moving h discs. The counts (2^(h-1) - 1) + 1 + (2^(h-1) - 1) add up to 2^h - 1, and the frames are concatenated in order |
| MoveGenerator.PrintFlagIrrelevant | hanoi.py:65-66 | the print flag only decides whether frames are drawn. With it off, the call ends on the same board with the same counter, or fails the same way |
| MoveGenerator.FirstMove | hanoi.py:61-72 | the first frame drawn shows the top disc of the origin moved to the destination when h is odd, and to the third peg when h is even |
| MoveGenerator.FirstSubMovesFit | hanoi.py:59-71 | when the top h discs fit on both other pegs, the first recursive call's block of h - 1 fits on both of its other pegs, and afterwards the middle disc fits on the destination |
| MoveGenerator.LastSubMoveFits | hanoi.py:59-72 | after the first two sub-moves, the h - 1 discs on the third peg fit on both of their other pegs |
| MoveGenerator.MoveStackSucceeds | hanoi.py:59-72 | from a board obeying the stacking rule, with at least h discs on the origin and the block fitting on both other pegs, the assertion never fails and no IndexError is raised on any recursive call |
| MoveGenerator.DoneKeepsOrder | hanoi.py:59-72 | starting from a board that obeys the stacking rule, a completed call leaves a board that obeys it, and so does every frame drawn on the way |
| MoveGenerator.DoneKeepsDiscs | hanoi.py:63-72 | a completed call's final board and every frame drawn on the way hold exactly the discs of the starting board |
| MoveGenerator.SafeFramesAt | hanoi.py:65-66 | the recursive frame-by-frame statement of safety is equivalent to the statement at every index of the frame sequence, in both directions |
| MoveGenerator.MoveStackSafe | hanoi.py:55-72 | under the caller's obligations the call completes and ends on the direct transfer of the block. The final board and every frame obey the stacking rule and hold the same discs |
| Entry.TowerShape | hanoi.py:99 | the initial stack `[n - i for i in range(n)]` is strictly decreasing and holds each disc 1..n, and nothing else |
| Entry.InitialBoard | hanoi.py:99 | the initial board obeys the stacking rule, has n discs on peg 0 and pegs 1 and 2 empty, and its discs are exactly 1..n |
| Entry.SolveFromInitial | hanoi.py:99-108 | moving 1 <= h <= n discs from the initial board completes. The top h discs end on peg 2 in order, the bottom n - h stay on peg 0, and the counter reads 2^h - 1. Every frame obeys the stacking rule and shows all n discs |
| MoveGenerator.TooTallPops | hanoi.py:59-72 | with the other two pegs empty, asking for more discs than a well-formed origin holds always passes the assertion and ends on the IndexError of popping the empty origin |
| MoveGenerator.ViaOtherPops | hanoi.py:68-72 | in the recursive case, the first sub-call either fails the same way or parks every disc of the origin on the third peg, and the middle single-disc move then pops the empty origin |
| Entry.TooManyFails | hanoi.py:99-108 | asking to move more discs than the tower holds ends on the IndexError of popping the empty peg 0, never on the invalid-move assertion |
| Entry.RunOutcome | hanoi.py:94-108 | a run completes iff 1 <= H <= N. A run with H > N ends on popping the empty peg 0. A run with H < 1 is mapped, by construction of `Run`, to the recursion limit. A completed run ends as described for `SolveFromInitial`, and with printing on it draws 2^H frames, the initial one and one per move, each safe |
| Entry.RunFirstFrames | hanoi.py:102-108 | with printing on, the first frame is the initial tower, and the second shows disc 1 on peg 2 when H is odd and on peg 1 when H is even |
| Entry.ThreeDiscs | hanoi.py:99-112 | three discs, all moved: the board ends as `[[], [], [3, 2, 1]]` after 7 moves |
| Entry.TwoOfFourDiscs | hanoi.py:99-112 | two of four discs: the board ends as `[[4, 3], [], [2, 1]]` after 3 moves |
| Entry.OneDiscTooMany | hanoi.py:59-63 | two discs of a one-disc tower: the assertion passes and the run stops on popping an empty peg |
| Entry.AnimationRectangular | hanoi.py:21-50 | for N <= 99, every frame of a completed run is N + 2 lines tall, and each of its first N + 1 lines is 6N + 8 columns wide |
| Renderer.Repeat | hanoi.py:39-49 | `c * k` is k copies of c, and empty when k <= 0 |
| Renderer.DecimalRoundTrip | hanoi.py:37 | reading back the decimal numeral of a level gives the level |
| Renderer.LabelShape | hanoi.py:37 | `f"{level:2d}   "` is 5 columns for levels up to 99: a space and the digit below 10, both digits from 10 on, then three spaces |
| Renderer.EmptyCellShape | hanoi.py:39-41 | where the stack is lower than the level, the cell is 2n + 1 columns with the peg character at the centre and spaces elsewhere |
| Renderer.DiscCellShape | hanoi.py:42-45 | a disc of size k draws a cell of width 2n + 1 iff 1 <= k <= n + 1. Then `=` fills the columns within k - 1 of the centre and spaces the rest |
| Renderer.CellPicture | hanoi.py:39-45 | with disc sizes 1..n, column j of a peg's cell is the bare peg at the centre when the stack is lower than the level. Otherwise it is `=` within k - 1 columns of the centre for the disc of size k at that level, and a space elsewhere |
| Renderer.BaseLine | hanoi.py:49 | the base is five spaces and then 6n + 3 dashes, or none when that count is not positive |
| Renderer.RenderHeight | hanoi.py:27-50 | a frame is `board_height` = (number of levels) + 2 lines, ending with the base line and a blank line |
| Renderer.RowPicture | hanoi.py:36-46 | in peg p's columns of the row at a level, the bare peg is drawn at the centre when the stack is lower than the level. Otherwise the disc `stack[level-1]` is drawn as `=` around the centre |
| Renderer.RenderRectangular | hanoi.py:36-49 | with discs of sizes 1..n and n <= 99, every row is exactly as wide as the base line, 6n + 8 columns |

The definitions that are the model itself carry no contract of their own: `MoveGenerator.MoveStack`, `MoveGenerator.ViaOther`, `MoveGenerator.MoveOne`, `Entry.Run`, `Renderer.Render`, `Renderer.Cell`, `Renderer.Row` and `Renderer.Label`. The rows above state their behaviour.

## Left out

- ANSI cursor movement and screen clearing (lines 32-33), the `print` calls themselves, and the blank lines reserved at line 103. `Renderer.Render` gives the text lines only.
- `sleep`, `time` and the elapsed-time report (lines 52, 107-113). Waiting and reading the clock are outside a pure model. `sleep` can also fail: a negative or NaN delay makes it raise ValueError, and inf or a delay beyond its 64-bit nanosecond clock (about 9.2e9 seconds) makes it raise OverflowError. The model's renderer never fails, so every claim below about printing runs assumes a finite delay from 0 up to about 9.2e9 seconds.
- The float `delay` (lines 17, 88-91). `float(delay_str)` returns any float, including negative values, NaN and inf; a string that is not a number makes it raise ValueError. The delay is used only by `sleep` at line 52.
- MoveGenerator.PrintFlagIrrelevant: holds for a finite delay from 0 up to about 9.2e9 seconds. A negative or NaN delay makes line 52 raise ValueError, and inf or a larger delay makes it raise OverflowError on the first frame drawn, so with printing on the call crashes while with printing off it does not.
- Entry.RunOutcome: holds for a finite delay from 0 up to about 9.2e9 seconds. A negative or NaN delay makes line 52 raise ValueError, and inf or a larger delay makes it raise OverflowError on the first frame drawn, at line 104, so a printing run never completes. It also holds only while H stays below Python's recursion limit (1000 frames by default). A larger H raises RecursionError during the first descent, before any disc moves.
- Entry.RunFirstFrames: holds for a finite delay from 0 up to about 9.2e9 seconds. A negative or NaN delay makes line 52 raise ValueError, and inf or a larger delay makes it raise OverflowError on the first frame drawn, so the run stops after the initial frame and draws no second one.
- MoveGenerator.SingleDisc: with printing on, completion holds for a finite delay from 0 up to about 9.2e9 seconds. A negative or NaN delay makes line 52 raise ValueError, and inf or a larger delay makes it raise OverflowError on the frame drawn.
- MoveGenerator.MoveStackSucceeds: with printing on, completion holds for a finite delay from 0 up to about 9.2e9 seconds. A negative or NaN delay makes line 52 raise ValueError, and inf or a larger delay makes it raise OverflowError on the first frame drawn. It also holds only while H stays below Python's recursion limit (1000 frames by default). A larger H raises RecursionError during the first descent, before any disc moves.
- MoveGenerator.MoveStackSafe: with printing on, completion holds for a finite delay from 0 up to about 9.2e9 seconds. A negative or NaN delay makes line 52 raise ValueError, and inf or a larger delay makes it raise OverflowError on the first frame drawn. It also holds only while H stays below Python's recursion limit (1000 frames by default). A larger H raises RecursionError during the first descent, before any disc moves.
- MoveGenerator.FirstMove: holds for a finite delay from 0 up to about 9.2e9 seconds. A negative or NaN delay makes line 52 raise ValueError, and inf or a larger delay makes it raise OverflowError on the first frame drawn, after which nothing more is drawn.
- Entry.SolveFromInitial: with printing on, completion holds for a finite delay from 0 up to about 9.2e9 seconds. A negative or NaN delay makes line 52 raise ValueError, and inf or a larger delay makes it raise OverflowError on the first frame drawn. It also holds only while H stays below Python's recursion limit (1000 frames by default). A larger H raises RecursionError during the first descent, before any disc moves.
- Entry.TooManyFails: the pop from the empty peg 0 is reached only while H stays below Python's recursion limit (1000 frames by default). A larger H raises RecursionError during the first descent, before any disc moves.
- MoveGenerator.TooTallPops: the pop from the empty origin is reached only while h stays below Python's recursion limit (1000 frames by default). A larger h raises RecursionError during the first descent, before any disc moves.
- MoveGenerator.ViaOtherPops: the same recursion-limit bound as for `TooTallPops`. Past it, the first sub-call ends in RecursionError, not in the pop.
- Argument parsing, the usage message and `sys.exit` (lines 80-85, 96). `Entry.Run` takes `N`, `H` and the print flag as parameters.
- Running Python with `-O`, which removes the assertion at line 59. The model always evaluates it.
- MoveGenerator.MoveStack: requires a height of at least 1. A direct call with h <= 0 is not modelled, but `Entry.Run` maps it to the RecursionError the program reaches. Python's recursion limit for very large positive heights is not modelled either.
- The frames drawn before a crash: a `Crashed` outcome does not record them.
- Renderer.RenderRectangular: only covers n <= 99. From level 100 up, the label is wider than five columns, which is also what Python prints.
