# seikichi/sandbox: the Brainfuck tools, the Game of Life, the shell parser and the SICP Lisp, in Dafny

This project models the algorithmic core of several small Rust programs from
one sandbox repository and proves properties of each.

- **bf-jit optimizer** (`rust/bf-jit/src/optimizer.rs`, `frontend.rs`).
  The intermediate representation is a tree of `Expr` nodes. Its reference
  semantics has an unbounded tape of 32-bit cells, because the code
  generator loads and stores `I32` (`jit.rs:134-137`). The optimizer does
  two rewrites:
  - *lazy-move coalescing* folds the pointer moves of each loop-free run
    into the offsets of the cell operations, leaves one trailing `Move` and
    pads with `Nop`;
  - the rewrite of *multiply loops* into a `Block` of `Mul`s and a `Clear`.

  Both rewrites are first defined as functions on sequences and proved to
  preserve meaning. Then `optimize` itself is written as a method that
  works in place on an `array<Expr>`, as the Rust code does on its `Vec`.
  That method is proved to compute the functions.
- **bf-optimize interpreter** (`rust/bf-optimize/src/interpreter.rs`). A
  class with a 65535-byte `array` tape, an address and byte-sequence input
  and output. `eval` walks the tree, and each of its loops is a `while`
  loop. Every method is proved to end as the functional semantics
  `ExecSeq` says.
- **bf-simple** (`rust/bf-simple/src/main.rs`). The source filter, and the
  byte-code loop that matches brackets at run time by scanning with a
  nesting counter. The forward and backward scans are proved to find each
  other's brackets. The imperative `Interpret` is proved to agree with the
  functional `Program`.
- **wasm-3d-game-of-life** (`rust/wasm-3d-game-of-life/src/lib.rs`). The
  `Universe` class has two fixed 8192-cell buffers. `tick` writes the next
  generation into the other buffer and flips `index`. The torus
  neighbourhood count and Conway's rule are given as functions, and the
  methods are proved to compute them.
- **shell parser** (`rust/shell/src/main.rs`). `parse_redirect`, and the
  PEG grammar (`command`, `execute`, `pipe`, `token`, `sep`) as
  recursive-descent functions with the PEG's ordered choice. The five unit
  tests of the file are proved as lemmas.
- **SICP Lisp** (`rust/sicp-lisp/src/environment.rs`, `eval.rs`,
  `value.rs`). Environments are `Rc<Environment>` frames with a
  `RefCell<HashMap>`, shared and mutated in place. Here they are an arena:
  a sequence of frames, each naming its base by index. The evaluator is
  given twice:
  - as fuel-bounded functions of the state (`LispEval`);
  - as methods of an `Interpreter` class that mutates the arena in place
    and walks lists with `while` loops, as `eval.rs` does (`LispMachine`).

  Each method is proved to end as its function says. Every primitive of
  `Environment::new` is modelled, with its panics as `None`.

Non-termination is modelled with fuel: a run that needs more loop
iterations (or, in the Lisp, more nested evaluations) than its fuel allows
ends in `OutOfFuel` (`Exhausted`). A Rust `panic!`, or an index outside a
slice, ends in `Panic` (`Panicked`, `None`).

## Model

| member | source | states |
|---|---|---|
| BfCommon.WrapByte | rust/bf-optimize/src/interpreter.rs:36-43 | `u8::wrapping_add`/`wrapping_sub`: the result is a byte, equal to the argument when in range and congruent to it modulo 256 |
| BfJitIr.Wrap | rust/bf-jit/src/jit.rs:131-137 | a stored cell is a 32-bit word: the result is in range and in-range values are unchanged |
| BfJitIr.ExecSeqAppend | rust/bf-jit/src/frontend.rs:15-16 | running `a + b` is running `a` and then `b` from where `a` stopped (or stopping when `a` runs out of fuel) |
| BfJitIr.ExecOne | rust/bf-jit/src/frontend.rs:2-30 | definition: the effect of one node as the comments of `Expr` describe it, on 32-bit cells, with `In` at end of input storing `EndOfInput`; `None` when a loop runs out of fuel |
| BfJitIr.ExecLoop | rust/bf-jit/src/frontend.rs:15-16 | definition: `while (data[ptr] != 0) { commands }`, one unit of fuel per iteration, `None` when fuel runs out with the counter non-zero |
| BfJitIr.SameOne | rust/bf-jit/src/frontend.rs:2-30 | a node run on two machines with the same pointer, I/O and cell values stops on both or on neither, and the results again agree |
| BfJitIr.SameSeq | rust/bf-jit/src/frontend.rs:15-16 | the same for a sequence of nodes |
| BfJitIr.ValidSeq | rust/bf-jit/src/frontend.rs:2-30 | running nodes keeps every cell a 32-bit word |
| BfJitOptimizer.Nops | rust/bf-jit/src/optimizer.rs:102-104 | the padding is exactly `n` `Nop`s |
| BfJitOptimizer.Coalesced | rust/bf-jit/src/optimizer.rs:97-104 | the coalesced run keeps the length of the slice it overwrites |
| BfJitOptimizer.WriteCursorBound | rust/bf-jit/src/optimizer.rs:71-95 | the write cursor `j` counts the kept cell operations, never passes the read cursor, and stays strictly behind it when the displacement is non-zero (so the trailing `Move` fits) |
| BfJitOptimizer.RelocatedCellOps | rust/bf-jit/src/optimizer.rs:76-91 | every relocated node is an `Add`, `Out`, `In` or `Clear` |
| BfJitOptimizer.RelocatedAt | rust/bf-jit/src/optimizer.rs:76-91 | the cell operation at `i` lands at write position "operations before `i`", shifted by the displacement accumulated before it |
| BfJitOptimizer.LazyMoveLength | rust/bf-jit/src/optimizer.rs:67-105 | coalescing a slice that holds only coalescible nodes succeeds and keeps its length |
| BfJitOptimizer.LazyMove | rust/bf-jit/src/optimizer.rs:67-105 | definition: the loop-free run with each cell operation moved to the offset of the cursor it ran at, one `Move` by the total displacement (if non-zero) and `Nop` padding to the original length; `None` for a node the pass rejects |
| BfJitOptimizer.RunRejects | rust/bf-jit/src/optimizer.rs:91-94 | a run holding a `Block` or a `Mul` is rejected by the coalescing pass |
| BfJitOptimizer.LazyMoveShape | rust/bf-jit/src/optimizer.rs:67-105 | the result is the relocated cell operations, then `Move(total)` when the total displacement is non-zero, then only `Nop`s; no other `Move` remains |
| BfJitOptimizer.NopsRun | rust/bf-jit/src/frontend.rs:28-29 | running `Nop`s changes nothing |
| BfJitOptimizer.ShiftedStep | rust/bf-jit/src/optimizer.rs:72-92 | one node run at pointer `p + d` does what its relocated form does at pointer `p`, apart from the pointer |
| BfJitOptimizer.RelocatedAgrees | rust/bf-jit/src/optimizer.rs:71-95 | a coalescible run always completes, moves the pointer by its displacement, and the relocated operations leave the same tape and I/O without moving it |
| BfJitOptimizer.LazyMoveSound | rust/bf-jit/src/optimizer.rs:67-105 | coalescing preserves meaning: the rewritten run ends in exactly the state the original run ends in |
| BfJitOptimizer.SnocNops | rust/bf-jit/src/optimizer.rs:92 | trailing `Nop`s relocate to nothing and move nothing |
| BfJitOptimizer.RelocatedOfCellOps | rust/bf-jit/src/optimizer.rs:76-91 | a run of cell operations with no `Move` is its own relocation, with displacement 0 |
| BfJitOptimizer.CoalescedFacts | rust/bf-jit/src/optimizer.rs:97-104 | the coalesced output relocates back to its operations and has the original displacement |
| BfJitOptimizer.LazyMoveIdempotent | rust/bf-jit/src/optimizer.rs:67-105 | coalescing an already coalesced run changes nothing |
| BfJitOptimizer.OptimizeMultiplication | rust/bf-jit/src/optimizer.rs:53-65 | the result is a `Block` of `Mul`s at non-zero offsets followed by `Clear(0)` |
| BfJitOptimizer.MultiplicationsAreMuls | rust/bf-jit/src/optimizer.rs:55-62 | every node pushed is a `Mul` with a non-zero offset |
| BfJitOptimizer.ZeroOffsetAddsAppend | rust/bf-jit/src/optimizer.rs:39-42 | the zero-offset filter distributes over concatenation |
| BfJitOptimizer.ZeroOffsetAddsEmpty | rust/bf-jit/src/optimizer.rs:39-48 | the filter is empty exactly when no node is an `Add(_, 0)` |
| BfJitOptimizer.ZeroOffsetAddsFirst | rust/bf-jit/src/optimizer.rs:39-46 | the first filtered node is the first `Add(_, 0)` of the body, and the rest of the filter comes from after it |
| BfJitOptimizer.CanConvertCharacterization | rust/bf-jit/src/optimizer.rs:28-51 | a body converts exactly when it holds only `Add`/`Nop` and exactly one `Add(_, 0)`, and that one is `Add(-1, 0)` |
| BfJitOptimizer.CanConvertToMultiplication | rust/bf-jit/src/optimizer.rs:28-51 | definition: the body holds only `Add` and `Nop`, its first offset-0 `Add` is `Add(-1, 0)` and there is no other |
| BfJitOptimizer.WeightOfZeroOffsetAdds | rust/bf-jit/src/optimizer.rs:39-42 | on an `Add`/`Nop` body the counter cell's net change is the sum of its zero-offset `Add`s |
| BfJitOptimizer.CounterWeight | rust/bf-jit/src/optimizer.rs:28-51 | a convertible body decrements the counter cell by exactly 1 per pass |
| BfJitOptimizer.MultiplicationsWeight | rust/bf-jit/src/optimizer.rs:53-65 | the `Mul`s add to each other cell what one pass of the body adds, and nothing to the counter |
| BfJitOptimizer.AddsEffect | rust/bf-jit/src/frontend.rs:3-4 | an `Add`/`Nop` body adds its per-offset weight to every cell and leaves the pointer and I/O alone |
| BfJitOptimizer.MulsEffect | rust/bf-jit/src/optimizer.rs:57-59 | a `Mul` sequence adds `counter * weight` to every cell and leaves the counter, pointer and I/O alone |
| BfJitOptimizer.MultiplyLoopRuns | rust/bf-jit/src/frontend.rs:15-16 | a loop whose body decrements the counter by one runs `counter` times and adds `counter * weight` to every cell |
| BfJitOptimizer.MultiplyLoopSound | rust/bf-jit/src/optimizer.rs:18-22 | replacing a convertible loop by `optimize_multiplication`'s block preserves meaning (given enough fuel for the loop) |
| BfJitOptimizer.MulAsCommentedBreaksRewrite | rust/bf-jit/src/frontend.rs:25-26 | under the assignment that comment describes, the rewrite changes the result of a convertible loop (see Findings) |
| BfJitOptimizer.FirstLoop | rust/bf-jit/src/optimizer.rs:12-16 | the index of the first `Loop` (or the length): nothing before it is a `Loop` |
| BfJitOptimizer.OptimizeSplit | rust/bf-jit/src/optimizer.rs:10-26 | optimizing a sequence split just after a `Loop` is optimizing the two parts |
| BfJitOptimizer.FirstLoopAfterRun | rust/bf-jit/src/optimizer.rs:12-16 | the first loop after a loop-free prefix is found past the prefix |
| BfJitOptimizer.OptimizeRunThenLoop | rust/bf-jit/src/optimizer.rs:12-23 | a run followed by a loop becomes the coalesced run followed by the optimized loop |
| BfJitOptimizer.OptimizePreservesLength | rust/bf-jit/src/optimizer.rs:10-26 | `optimize` rewrites in place: the length of the sequence is kept |
| BfJitOptimizer.Optimize | rust/bf-jit/src/optimizer.rs:10-26 | definition: each loop-free run coalesced, each loop body optimized recursively and put back in the loop's slot; `None` when any part is rejected |
| BfJitOptimizer.OptimizeLoop | rust/bf-jit/src/optimizer.rs:18-23 | definition: the slot of `Loop(body)` after optimizing: the multiplication block when the optimized body converts, the loop over the optimized body otherwise |
| BfJitOptimizer.OptimizeSound | rust/bf-jit/src/optimizer.rs:10-26 | whenever `optimize` succeeds, the optimized program run with the same fuel on a tape of 32-bit cells also finishes, with the same pointer, input, output and cell values |
| BfJitOptimizer.LoopSound | rust/bf-jit/src/optimizer.rs:18-23 | the node left in a loop's slot behaves like the loop, whether it became a multiplication block or a loop over the optimized body |
| BfJitOptimizer.OptimizedBodySound | rust/bf-jit/src/optimizer.rs:18-19 | a loop over the optimized body behaves like the loop over the original body, iteration by iteration |
| BfJitOptimizer.LoopFuelBound | rust/bf-jit/src/optimizer.rs:53-65 | a convertible loop that finishes needed at least as many iterations as its counter's value, so the multiplication block needs no more fuel |
| BfJitOptimizer.OptimizeRejectsBlock | rust/bf-jit/src/optimizer.rs:91-94 | a program holding a `Block` or a `Mul` anywhere outside loop bodies is rejected, so `optimize` cannot be applied twice to its own output |
| BfJitOptimizer.PutHTwice | rust/bf-jit/src/optimizer.rs:108-135 | optimizing the optimized "put H" program a second time is rejected |
| BfJitOptimizer.PutHScenario | rust/bf-jit/src/optimizer.rs:108-135 | the `test_put_h_optimize` program optimizes to the expected sequence |
| BfJitOptimizer.PutHLoop | rust/bf-jit/src/optimizer.rs:113-118 | the test's loop becomes `Block([Mul(8, -1), Clear(0)])` |
| BfJitOptimizer.PutHHead | rust/bf-jit/src/optimizer.rs:110-118 | the test's first run and loop optimize to `Add(9, 1), Move(1), Block(...)` |
| BfJitOptimizer.PutHTailRun | rust/bf-jit/src/optimizer.rs:119-120 | the test's last run becomes `Out(-1), Move(-1)` |
| BfJitOptimizer.CompactRun | rust/bf-jit/src/optimizer.rs:68-95 | the `for` loop of `optimize_lazy_move` succeeds exactly when every node is coalescible; it then leaves the relocated operations at the front of the slice with the cursor `j` and the accumulated offset, touching nothing outside the slice |
| BfJitOptimizer.FillNops | rust/bf-jit/src/optimizer.rs:102-104 | the slice becomes `Nop`s and nothing else changes |
| BfJitOptimizer.WriteMove | rust/bf-jit/src/optimizer.rs:97-100 | appends `Move(current_offset)` after the operations exactly when the offset is non-zero |
| BfJitOptimizer.OptimizeLazyMove | rust/bf-jit/src/optimizer.rs:67-105 | in place on a slice of the array: succeeds exactly when the slice is coalescible, and then the slice holds `LazyMove` of its old contents and the rest of the array is unchanged |
| BfJitOptimizer.FinishRun | rust/bf-jit/src/optimizer.rs:97-104 | the tail of `optimize_lazy_move` leaves the slice equal to the coalesced form |
| BfJitOptimizer.CoalesceBeforeLoop | rust/bf-jit/src/optimizer.rs:13-16 | coalesces the run before the loop at `i`, or reports that `optimize` panics |
| BfJitOptimizer.WriteLoop | rust/bf-jit/src/optimizer.rs:18-23 | writes the optimized loop (or its multiplication block) at `i`, keeping the scan invariant |
| BfJitOptimizer.OptimizeInPlace | rust/bf-jit/src/optimizer.rs:10-26 | `optimize` on a vector: reports success exactly when the functional `Optimize` succeeds, and then the array holds its result |
| BfOptimizeInterpreter.Initial | rust/bf-optimize/src/interpreter.rs:14-21 | a new interpreter has address 0, a zeroed 65535-byte tape, the given input and no output |
| BfOptimizeInterpreter.AddressRoundTrip | rust/bf-optimize/src/interpreter.rs:23-29 | going `offset` one way and back returns to the address |
| BfOptimizeInterpreter.Target | rust/bf-optimize/src/interpreter.rs:23-29 | the addressed cell exists exactly when `address ± offset` is on the tape |
| BfOptimizeInterpreter.ExecSeqEvolves | rust/bf-optimize/src/interpreter.rs:31-75 | evaluation keeps the tape length, only consumes input and only appends output |
| BfOptimizeInterpreter.ExecOne | rust/bf-optimize/src/interpreter.rs:33-72 | definition: one arm of `eval`, with byte wrap-around on `Add`/`Sub`, a panic on an address off the tape, `In` reading its byte before the tape is indexed, and scans that panic when they leave the tape |
| BfOptimizeInterpreter.ExecLoop | rust/bf-optimize/src/interpreter.rs:54-58 | definition: the `while` over the current cell, panicking when the pointer is off the tape, one unit of fuel per iteration |
| BfOptimizeInterpreter.ExecOneEvolves | rust/bf-optimize/src/interpreter.rs:33-72 | the same for one node |
| BfOptimizeInterpreter.ExecLoopEvolves | rust/bf-optimize/src/interpreter.rs:54-58 | the same for a loop |
| BfOptimizeInterpreter.ExecSeqAppend | rust/bf-optimize/src/interpreter.rs:32 | evaluating `a + b` evaluates `a`, then `b` from where `a` stopped; a panic or exhaustion in `a` ends the whole |
| BfOptimizeInterpreter.LoopExitsOnZero | rust/bf-optimize/src/interpreter.rs:54-58 | a loop that finishes leaves the current cell on the tape and zero |
| BfOptimizeInterpreter.LoopOnZero | rust/bf-optimize/src/interpreter.rs:55 | a loop entered on a zero cell does nothing |
| BfOptimizeInterpreter.RightLeft | rust/bf-optimize/src/interpreter.rs:34-35 | `Right(n)` then `Left(n)` restores the machine |
| BfOptimizeInterpreter.LeftRight | rust/bf-optimize/src/interpreter.rs:34-35 | `Left(n)` then `Right(n)` restores the machine |
| BfOptimizeInterpreter.AddCell | rust/bf-optimize/src/interpreter.rs:36-39 | `Add` changes only the addressed cell, by `count` modulo 256 |
| BfOptimizeInterpreter.AddSub | rust/bf-optimize/src/interpreter.rs:36-43 | `Add` off the tape panics; on the tape `Sub` undoes it |
| BfOptimizeInterpreter.OutAppends | rust/bf-optimize/src/interpreter.rs:44-47 | `Out` succeeds exactly on the tape and appends the addressed byte to the output, changing nothing else |
| BfOptimizeInterpreter.InStores | rust/bf-optimize/src/interpreter.rs:48-53 | `In` succeeds exactly on the tape, stores the next input byte (0 at end of input) and changes no other cell |
| BfOptimizeInterpreter.ClearTwice | rust/bf-optimize/src/interpreter.rs:59-62 | `Clear` zeroes the addressed cell, and clearing twice is clearing once |
| BfOptimizeInterpreter.ScanRightStops | rust/bf-optimize/src/interpreter.rs:63-67 | the scan stops at the first zero at or right of the address, and panics exactly when there is none on the tape |
| BfOptimizeInterpreter.ScanLeftStops | rust/bf-optimize/src/interpreter.rs:68-72 | the scan stops at the first zero at or left of the address, and panics exactly when there is none |
| BfOptimizeInterpreter.ScanRightIsLoop | rust/bf-optimize/src/interpreter.rs:63-67 | `ScanRight` is `[>]` |
| BfOptimizeInterpreter.ScanLeftIsLoop | rust/bf-optimize/src/interpreter.rs:68-72 | `ScanLeft` is `[<]` |
| BfOptimizeInterpreter.ClearIsLoop | rust/bf-optimize/src/interpreter.rs:59-62 | `Clear(0)` is `[-]` |
| BfOptimizeInterpreter.Interpreter.constructor | rust/bf-optimize/src/interpreter.rs:14-21 | the new interpreter's state is `Initial(input)` |
| BfOptimizeInterpreter.Interpreter.Eval | rust/bf-optimize/src/interpreter.rs:31-75 | `eval` ends in the state, and with the status, that `ExecSeq` gives for the old state |
| BfOptimizeInterpreter.Interpreter.Step | rust/bf-optimize/src/interpreter.rs:33-72 | one arm of the `match` ends as `ExecOne` says |
| BfOptimizeInterpreter.Interpreter.UpdateCell | rust/bf-optimize/src/interpreter.rs:36-43 | the `Add`, `Sub` and `Clear` arms end as `ExecOne` says |
| BfOptimizeInterpreter.Interpreter.Transfer | rust/bf-optimize/src/interpreter.rs:44-53 | the `Out` and `In` arms end as `ExecOne` says |
| BfOptimizeInterpreter.Interpreter.RunLoop | rust/bf-optimize/src/interpreter.rs:54-58 | the `while` loop of `Loop` ends as `ExecLoop` says |
| BfOptimizeInterpreter.Interpreter.ScanRightLoop | rust/bf-optimize/src/interpreter.rs:63-67 | the `while` loop of `ScanRight` ends as `ExecOne(ScanRight)` says |
| BfOptimizeInterpreter.Interpreter.ScanLeftLoop | rust/bf-optimize/src/interpreter.rs:68-72 | the `while` loop of `ScanLeft` ends as `ExecOne(ScanLeft)` says |
| BfSimple.Filter | rust/bf-simple/src/main.rs:22-25 | `retain` keeps only the eight command bytes and never lengthens the code |
| BfSimple.FilterAppend | rust/bf-simple/src/main.rs:22-25 | filtering distributes over concatenation |
| BfSimple.FilterOfCommands | rust/bf-simple/src/main.rs:22-25 | code made only of commands is kept whole |
| BfSimple.FilterIdempotent | rust/bf-simple/src/main.rs:22-25 | filtering twice is filtering once |
| BfSimple.FilterCount | rust/bf-simple/src/main.rs:22-25 | every command byte is kept as often as it occurs, and every other byte is dropped |
| BfSimple.ScanForwardDepth | rust/bf-simple/src/main.rs:44-55 | the forward scan stops on a `]` that closes the nesting it started at, never dipping below it |
| BfSimple.ScanBackwardDepth | rust/bf-simple/src/main.rs:57-68 | the backward scan stops on a `[` that opens the nesting it started at |
| BfSimple.MatchingForward | rust/bf-simple/src/main.rs:44-68 | from the `]` the forward scan finds, the backward scan finds the `[` it started from |
| BfSimple.MatchingBackward | rust/bf-simple/src/main.rs:44-68 | from the `[` the backward scan finds, the forward scan finds the `]` it started from |
| BfSimple.Initial | rust/bf-simple/src/main.rs:28-30 | counter 0, address 0, a zeroed 65535-byte tape |
| BfSimple.OpenSkips | rust/bf-simple/src/main.rs:44-56 | `[` on a non-zero cell falls through; on zero it moves just past a `]` whose enclosed code is balanced |
| BfSimple.Step | rust/bf-simple/src/main.rs:33-72 | definition: one iteration of the main loop: `>`/`<` move the address, `[`/`]` jump, `+ - . ,` work on the current byte with wrap-around, any other byte and an address off the tape panic |
| BfSimple.Open | rust/bf-simple/src/main.rs:44-56 | definition: `[` falls through on a non-zero cell, otherwise jumps past the matching `]` found by the forward scan, panicking when there is none |
| BfSimple.Close | rust/bf-simple/src/main.rs:57-69 | definition: `]` jumps back to the matching `[` found by the backward scan, panicking when there is none |
| BfSimple.CloseJumpsBack | rust/bf-simple/src/main.rs:57-69 | `]` moves the counter back to the matching `[`, whose forward scan leads back here |
| BfSimple.RightLeft | rust/bf-simple/src/main.rs:34-35 | `><` changes nothing but the counter |
| BfSimple.IncDec | rust/bf-simple/src/main.rs:36-37 | `+` and `-` change only the current cell, by ±1 modulo 256 |
| BfSimple.OutIn | rust/bf-simple/src/main.rs:38-43 | `.` appends the current cell to the output; `,` stores the next input byte (0 at end of input) |
| BfSimple.OffTapePanics | rust/bf-simple/src/main.rs:36-44 | every command that indexes the tape panics when the address is off it |
| BfSimple.SkipForward | rust/bf-simple/src/main.rs:45-54 | the forward `while` loop finds what `ScanForward` finds, or panics off the end |
| BfSimple.SkipBackward | rust/bf-simple/src/main.rs:58-67 | the backward `while` loop finds what `ScanBackward` finds |
| BfSimple.OpenCommand | rust/bf-simple/src/main.rs:44-56 | the `[` arms end as `Open` says |
| BfSimple.CloseCommand | rust/bf-simple/src/main.rs:57-69 | the `]` arm ends as `Close` says |
| BfSimple.CellCommand | rust/bf-simple/src/main.rs:36-43 | the `+ - . ,` arms end as `CellOp` says |
| BfSimple.ExecStep | rust/bf-simple/src/main.rs:33-72 | one iteration of the main loop ends as `Step` says |
| BfSimple.RunStep | rust/bf-simple/src/main.rs:32-73 | the main loop is `Step` repeated |
| BfSimple.Interpret | rust/bf-simple/src/main.rs:18-76 | the whole program returns the status and output of `Program` |
| BfSimple.Program | rust/bf-simple/src/main.rs:18-76 | definition: the filtered source run from the initial state: all-zero tape, address and counter 0 |
| GameOfLife.GetIndexInRange | rust/wasm-3d-game-of-life/src/lib.rs:93-95 | every position of the grid has an index below `width * height` |
| GameOfLife.GetIndex | rust/wasm-3d-game-of-life/src/lib.rs:93-95 | definition: the row-major index `row * width + column` |
| GameOfLife.GetIndexInverse | rust/wasm-3d-game-of-life/src/lib.rs:93-95 | row and column are recovered from an index by `/` and `%` |
| GameOfLife.PositionOf | rust/wasm-3d-game-of-life/src/lib.rs:93-95 | every index below `width * height` is the index of a position |
| GameOfLife.NeighborIndex | rust/wasm-3d-game-of-life/src/lib.rs:84-86 | every wrapped neighbour position is inside the grid |
| GameOfLife.LiveNeighbors | rust/wasm-3d-game-of-life/src/lib.rs:76-91 | the count is at most 8 |
| GameOfLife.NeighborsDistinct | rust/wasm-3d-game-of-life/src/lib.rs:78-86 | on a grid at least 3 by 3 the eight neighbours are eight different cells |
| GameOfLife.OffsetTarget | rust/wasm-3d-game-of-life/src/lib.rs:78-85 | adding `n - 1`, `0` or `1` modulo `n` steps left, stays, or steps right on the torus |
| GameOfLife.FullGridCountsEight | rust/wasm-3d-game-of-life/src/lib.rs:76-91 | in a full grid every cell counts 8 live neighbours, even on a 2 by 2 grid where a neighbour is counted twice |
| GameOfLife.SmallGridCountsTwice | rust/wasm-3d-game-of-life/src/lib.rs:78-86 | on a full 2 by 2 grid the count is 8 though only 3 other cells exist |
| GameOfLife.NoNeighbors | rust/wasm-3d-game-of-life/src/lib.rs:76-91 | in an empty grid every count is 0 |
| GameOfLife.LiveNeighborsExpanded | rust/wasm-3d-game-of-life/src/lib.rs:78-88 | the count is the sum over the eight `(delta_row, delta_col)` pairs other than `(0, 0)` |
| GameOfLife.NextCellRule | rust/wasm-3d-game-of-life/src/lib.rs:61-67 | a cell lives next exactly when it has 3 live neighbours, or is alive with 2 |
| GameOfLife.NextCell | rust/wasm-3d-game-of-life/src/lib.rs:61-67 | definition: the four arms of `tick`'s `match (cell, live_neighbors)`, keeping the cell otherwise |
| GameOfLife.NextGeneration | rust/wasm-3d-game-of-life/src/lib.rs:52-74 | the buffer keeps its size, and cells past `width * height` stay dead |
| GameOfLife.EmptyStaysEmpty | rust/wasm-3d-game-of-life/src/lib.rs:52-74 | an empty universe stays empty |
| GameOfLife.InitialCells | rust/wasm-3d-game-of-life/src/lib.rs:28-38 | the initial buffer has 8192 cells |
| GameOfLife.Universe.Cells | rust/wasm-3d-game-of-life/src/lib.rs:48-50 | the current buffer has 8192 cells, dead past `width * height` |
| GameOfLife.Universe.constructor | rust/wasm-3d-game-of-life/src/lib.rs:28-46 | `new`: buffer 0 holds the pattern "alive when `i % 2 == 0` or `i % 7 == 0`" below `width * height`, buffer 1 is dead, `index` is 0 |
| GameOfLife.Universe.LiveNeighborCount | rust/wasm-3d-game-of-life/src/lib.rs:76-91 | the nested loops compute `LiveNeighbors` of the current buffer |
| GameOfLife.Universe.TickRow | rust/wasm-3d-game-of-life/src/lib.rs:56-70 | the inner loop writes one row of the next generation and nothing else |
| GameOfLife.Universe.Tick | rust/wasm-3d-game-of-life/src/lib.rs:52-74 | `tick` flips `index`, the current buffer becomes the next generation of the old one, and the other buffer keeps the old generation |
| Shell.FindRedirect | rust/shell/src/main.rs:44 | `position` finds the first `<` or `>` token, or none when there is none |
| Shell.FirstRedirect | rust/shell/src/main.rs:44 | the first redirect token is the one found |
| Shell.NoRedirectIsExecute | rust/shell/src/main.rs:49-51 | tokens with no redirect parse to `Execute` of all of them |
| Shell.ScanArguments | rust/shell/src/main.rs:41-52 | leading argument tokens go to the argument list in order, after all removals |
| Shell.ParseRedirectIsScan | rust/shell/src/main.rs:41-52 | `parse_redirect` equals a left-to-right scan that collects arguments and (operator, file) pairs and nests the redirects, first outermost; it panics exactly when an operator has no file after it |
| Shell.ParseRedirect | rust/shell/src/main.rs:41-52 | definition: the first `<` or `>` and the token after it become the outermost redirection of what the other tokens parse to; `None` when the operator is the last token |
| Shell.OneRedirect | rust/shell/src/main.rs:41-52 | with one operator that has a file after it, the result is that redirect around `Execute` of the other tokens |
| Shell.SepRule | rust/shell/src/main.rs:73 | `sep` consumes leading blanks only |
| Shell.TokenRule | rust/shell/src/main.rs:68-71 | a token is a prefix of the input and always consumes something |
| Shell.ExecuteRule | rust/shell/src/main.rs:60-61 | `execute` consumes input when it matches |
| Shell.PipeRule | rust/shell/src/main.rs:63-66 | `pipe` consumes input when it matches |
| Shell.CommandRule | rust/shell/src/main.rs:56-58 | `command` consumes input when it matches |
| Shell.TokenOf | rust/shell/src/main.rs:68-71 | a lexeme followed by a non-word character is read as one token |
| Shell.TokensOfUnwords | rust/shell/src/main.rs:60-61 | `(sep() token())+` reads back the tokens of a space-separated line |
| Shell.TokensAroundOperator | rust/shell/src/main.rs:68-71 | `<` and `>` split a word with no blank around them |
| Shell.ExecuteOf | rust/shell/src/main.rs:60-61 | `execute` is `parse_redirect` of the tokens read, no match on none |
| Shell.PipeOf | rust/shell/src/main.rs:56-66 | an `execute` followed by `\|` and a command is a `Pipe` of the two |
| Shell.ExecuteAlone | rust/shell/src/main.rs:56-58 | when no `\|` follows, `command` falls back to `execute` |
| Shell.ParseUnwords | rust/shell/src/main.rs:54-75 | a line of space-separated lexemes parses to `parse_redirect` of its tokens: a syntax error when empty, a panic when an operator has no file |
| Shell.TrailingSpaceRejected | rust/shell/src/main.rs:73 | a trailing blank is left unconsumed, so the whole-input parse fails |
| Shell.ParsePipeline | rust/shell/src/main.rs:56-66 | stages joined by ` \| ` parse to the right-nested `Pipe` of their commands |
| Shell.ParsePipelineLine | rust/shell/src/main.rs:54-75 | the same for a whole line |
| Shell.ExecuteExample | rust/shell/src/main.rs:81-90 | `test_execute` |
| Shell.PipeExample | rust/shell/src/main.rs:92-106 | `test_pipe` |
| Shell.RedirectExample | rust/shell/src/main.rs:108-121 | `test_redirect` |
| Shell.ComplexRedirectExample | rust/shell/src/main.rs:123-136 | `test_complex_redirect`: the file after `>` is taken out of the middle of the arguments |
| Shell.ComplexExample | rust/shell/src/main.rs:138-167 | `test_complex` |
| LispValue.Ok | rust/sicp-lisp/src/value.rs:33-35 | `ok` is the symbol `ok` |
| LispValue.True | rust/sicp-lisp/src/value.rs:37-39 | `t` is the symbol `true` |
| LispValue.False | rust/sicp-lisp/src/value.rs:41-43 | `f` is the symbol `false` |
| LispValue.Natural | rust/sicp-lisp/src/value.rs:24 | a natural number prints as digits without a leading zero |
| LispValue.DecimalRoundTrip | rust/sicp-lisp/src/value.rs:24 | an integer prints so that it reads back as itself |
| LispValue.DecimalInjective | rust/sicp-lisp/src/value.rs:24 | different integers print differently |
| LispValue.PrintPairBracket | rust/sicp-lisp/src/value.rs:19-30 | every value prints as something, and only a pair prints with `(` |
| LispValue.Print | rust/sicp-lisp/src/value.rs:19-30 | definition: `nil`, the symbol's name, the decimal integer, `(car . cdr)` for a pair and fixed texts for procedures |
| LispValue.PrintPairExample | rust/sicp-lisp/src/value.rs:25 | `(cons 1 nil)` prints as `(1 . nil)` |
| LispPrimitives.Primitives | rust/sicp-lisp/src/environment.rs:69-220 | every primitive is installed under its own name, and every installed name is a primitive of that name |
| LispPrimitives.InstallHas | rust/sicp-lisp/src/environment.rs:222-224 | each `define_primitive_procedure` binds its name |
| LispPrimitives.NamesDistinct | rust/sicp-lisp/src/environment.rs:72-208 | no two primitives share a name |
| LispPrimitives.ArithmeticLoop | rust/sicp-lisp/src/environment.rs:72-127 | the `for arg in args` loops of `+ - * /` compute `Arithmetic` |
| LispPrimitives.Arithmetic | rust/sicp-lisp/src/environment.rs:72-127 | definition: `+` folds the integer arguments from 0; `-`, `*`, `/` fold from the first argument; a missing first argument, a non-integer or a division by zero is a panic |
| LispPrimitives.ApplyPrimitive | rust/sicp-lisp/src/environment.rs:72-217 | definition: the closure installed under each primitive name, with `None` for each of its panics |
| LispPrimitives.SumFold | rust/sicp-lisp/src/environment.rs:72-97 | folding `+` or `-` over integers adds or subtracts their sum |
| LispPrimitives.ProductFold | rust/sicp-lisp/src/environment.rs:99-112 | folding `*` multiplies by their product |
| LispPrimitives.AddIsSum | rust/sicp-lisp/src/environment.rs:72-82 | `+` of integers is their sum (0 for none) |
| LispPrimitives.SubtractMultiply | rust/sicp-lisp/src/environment.rs:84-112 | `-` is the first minus the sum of the rest; `*` is the first times the product of the rest |
| LispPrimitives.NoArgumentsPanic | rust/sicp-lisp/src/environment.rs:84-117 | `-`, `*` and `/` panic with no arguments |
| LispPrimitives.NonIntegerPanics | rust/sicp-lisp/src/environment.rs:72-127 | an arithmetic primitive panics on any non-integer argument |
| LispPrimitives.DivideByZeroPanics | rust/sicp-lisp/src/environment.rs:114-127 | `/` panics when a divisor is 0 |
| LispPrimitives.TruncDivRemainder | rust/sicp-lisp/src/environment.rs:120 | Rust's `/` truncates: the remainder is smaller than the divisor and has the dividend's sign |
| LispPrimitives.TruncDivTwice | rust/sicp-lisp/src/environment.rs:118-125 | dividing by `b` then `c` is dividing by `b * c` |
| LispPrimitives.DivideIsQuotient | rust/sicp-lisp/src/environment.rs:118-125 | `/` of integers divides the first by the product of the rest, truncating |
| LispPrimitives.CompareAnswers | rust/sicp-lisp/src/environment.rs:158-206 | a comparison answers exactly on two integers, with `true` or `false` |
| LispPrimitives.LessAnswers | rust/sicp-lisp/src/environment.rs:158-166 | `<` answers `true` exactly when the first is smaller |
| LispPrimitives.PairParts | rust/sicp-lisp/src/environment.rs:129-148 | `cons` needs two arguments, `car`/`cdr` a pair; `car` and `cdr` of a `cons` give back its parts |
| LispPrimitives.NullAnswers | rust/sicp-lisp/src/environment.rs:208-217 | `null?` needs one argument and answers `true` exactly on `nil` |
| LispPrimitives.DisplayWrites | rust/sicp-lisp/src/environment.rs:150-156 | `display` needs one argument, prints it and answers `nil` |
| LispPrimitives.OnlyDisplayShows | rust/sicp-lisp/src/environment.rs:72-217 | no other primitive writes output |
| LispEnvironment.Chain | rust/sicp-lisp/src/environment.rs:58-67 | the chain of bases starts at the environment and only reaches older frames |
| LispEnvironment.FirstBinding | rust/sicp-lisp/src/environment.rs:58-67 | the first frame of a chain that binds the name, and none before it does |
| LispEnvironment.Binder | rust/sicp-lisp/src/environment.rs:58-67 | the frame that binds a name is on the chain and binds it |
| LispEnvironment.AfterEmpty | rust/sicp-lisp/src/environment.rs:14-19 | `empty` adds one frame with no bindings and no base, keeping the others |
| LispEnvironment.AfterDefine | rust/sicp-lisp/src/environment.rs:21-25 | `define` keeps the number of frames |
| LispEnvironment.AfterSet | rust/sicp-lisp/src/environment.rs:27-37 | `set` keeps the number of frames |
| LispEnvironment.AfterExtend | rust/sicp-lisp/src/environment.rs:39-56 | `extend` panics exactly when the arities differ, and otherwise adds one frame keeping the others |
| LispEnvironment.LookupNearest | rust/sicp-lisp/src/environment.rs:58-67 | `lookup` returns the binding of the nearest frame that binds the name, and panics when none does |
| LispEnvironment.Lookup | rust/sicp-lisp/src/environment.rs:58-67 | definition: the binding in the frame itself, else in its base frame, else the "Unbound variable" panic |
| LispEnvironment.ChainStep | rust/sicp-lisp/src/environment.rs:63-65 | a frame that does not bind the name defers to its base |
| LispEnvironment.LookupIn | rust/sicp-lisp/src/environment.rs:58-67 | a looked-up value only refers to existing frames |
| LispEnvironment.SetUnbound | rust/sicp-lisp/src/environment.rs:27-37 | `set` panics exactly when `lookup` would |
| LispEnvironment.SetNearest | rust/sicp-lisp/src/environment.rs:27-37 | `set` overwrites the binding in the nearest frame that has one, and only there |
| LispEnvironment.DefineBinds | rust/sicp-lisp/src/environment.rs:21-25 | after `define` the name looks up to the value, other names look up as before, and other frames are unchanged |
| LispEnvironment.SetBinds | rust/sicp-lisp/src/environment.rs:27-37 | after `set` the name looks up to the new value |
| LispEnvironment.BindingsLastWins | rust/sicp-lisp/src/environment.rs:47-50 | with a repeated parameter, the last argument is the one bound |
| LispEnvironment.BindingsKeys | rust/sicp-lisp/src/environment.rs:47-50 | the new frame binds exactly the parameters |
| LispEnvironment.ExtendLookup | rust/sicp-lisp/src/environment.rs:39-56 | in the extended environment a parameter looks up to its argument and any other name as in the base |
| LispEnvironment.UnchangedPrefix | rust/sicp-lisp/src/environment.rs:14-19 | adding frames changes no lookup in the old ones |
| LispEnvironment.DefineValid | rust/sicp-lisp/src/environment.rs:21-25 | `define` keeps the arena valid |
| LispEnvironment.SetValid | rust/sicp-lisp/src/environment.rs:27-37 | `set` keeps the arena valid |
| LispEnvironment.ExtendValid | rust/sicp-lisp/src/environment.rs:39-56 | `extend` keeps the arena valid |
| LispEnvironment.Global | rust/sicp-lisp/src/environment.rs:69-220 | the global environment is a valid arena |
| LispEnvironment.GlobalBindings | rust/sicp-lisp/src/environment.rs:69-220 | in the global environment each primitive's name looks up to it, and any name bound there is a primitive of that name |
| LispEnvironment.Arena.constructor | rust/sicp-lisp/src/environment.rs:69-220 | `Environment::new` builds the global environment |
| LispEnvironment.Arena.Empty | rust/sicp-lisp/src/environment.rs:14-19 | `empty` in place: the new frames are `AfterEmpty` of the old |
| LispEnvironment.Arena.Define | rust/sicp-lisp/src/environment.rs:21-25 | `define` in place, answering `ok` |
| LispEnvironment.Arena.Set | rust/sicp-lisp/src/environment.rs:27-37 | `set` in place: answers `ok` after `AfterSet`, or reports the panic and leaves the frames alone |
| LispEnvironment.Arena.Extend | rust/sicp-lisp/src/environment.rs:39-56 | `extend` in place: the new frame, or the arity panic with nothing changed |
| LispEval.Eval | rust/sicp-lisp/src/eval.rs:7-59 | evaluation keeps the arena valid, only adds frames, only appends output, and returns a value that refers to existing frames |
| LispEval.Classify | rust/sicp-lisp/src/eval.rs:8-59 | definition: the arm of `eval` an expression takes, in the order of the `match`, a keyword form of the wrong shape falling through to application |
| LispEval.EvalAssignment | rust/sicp-lisp/src/eval.rs:12-18 | the same for `set!` |
| LispEval.EvalDefinition | rust/sicp-lisp/src/eval.rs:19-25 | the same for `define` |
| LispEval.EvalIf | rust/sicp-lisp/src/eval.rs:26-29 | the same for `if` |
| LispEval.EvalSequence | rust/sicp-lisp/src/eval.rs:73-81 | the same for `eval_sequence` |
| LispEval.ListOfValues | rust/sicp-lisp/src/eval.rs:83-91 | the same for `list_of_values`, with one value per operand |
| LispEval.Apply | rust/sicp-lisp/src/eval.rs:93-110 | the same for `apply` |
| LispEval.EvalApplication | rust/sicp-lisp/src/eval.rs:55-57 | the same for an application |
| LispEval.ListElements | rust/sicp-lisp/src/eval.rs:42-47 | the body loop reads back the elements a list was built from |
| LispEval.SymbolsSkip | rust/sicp-lisp/src/eval.rs:34-40 | the parameter loop keeps exactly the symbols, in order, and skips anything else |
| LispEval.SelfEvaluation | rust/sicp-lisp/src/eval.rs:9-11 | `nil` and integers evaluate to themselves; a symbol to its binding, or a panic when unbound |
| LispEval.AssignmentSets | rust/sicp-lisp/src/eval.rs:12-18 | `(set! x e)` evaluates `e`, then panics exactly when `x` is unbound, and otherwise answers `ok` with `x` bound to the value |
| LispEval.DefinitionBinds | rust/sicp-lisp/src/eval.rs:19-25 | `(define x e)` evaluates `e`, answers `ok`, binds `x` in the current frame and changes no other lookup or frame |
| LispEval.OnlyFalseIsFalse | rust/sicp-lisp/src/eval.rs:61-71 | only the symbol `false` is false |
| LispEval.IfChoosesOneBranch | rust/sicp-lisp/src/eval.rs:26-29 | `if` evaluates the test, then exactly one branch: the alternative when the test gave `false`, the consequent otherwise |
| LispEval.BeginRunsForms | rust/sicp-lisp/src/eval.rs:30 | `(begin ...)` is `eval_sequence` of its forms; an empty one gives `nil` |
| LispEval.SequenceLast | rust/sicp-lisp/src/eval.rs:73-81 | a sequence's value is the value of its last form, after the others ran |
| LispEval.LambdaCaptures | rust/sicp-lisp/src/eval.rs:31-54 | `lambda` builds a procedure of its body, its symbol parameters and the current environment, changing nothing |
| LispEval.OperandsInOrder | rust/sicp-lisp/src/eval.rs:83-91 | operands are evaluated left to right, each in the state the previous one left |
| LispEval.ApplicationOrder | rust/sicp-lisp/src/eval.rs:55-57 | an application evaluates the operator, then the operands, then applies |
| LispEval.ApplyNonProcedure | rust/sicp-lisp/src/eval.rs:108 | applying a non-procedure panics |
| LispEval.ApplyArity | rust/sicp-lisp/src/environment.rs:40-45 | a compound procedure applied to the wrong number of arguments panics |
| LispEval.ApplyBindsParameter | rust/sicp-lisp/src/eval.rs:96-106 | a body that names a parameter returns that parameter's argument |
| LispEval.DoubleExample | rust/sicp-lisp/src/eval.rs:7-110 | `((lambda (x) (* x 2)) 21)` evaluates to 42 and prints nothing |
| LispEval.GrowsTransitive | rust/sicp-lisp/src/eval.rs:7-59 | what evaluation keeps is kept across consecutive evaluations |
| LispMachine.Parameters | rust/sicp-lisp/src/eval.rs:32-40 | the `while let` loop collects the symbol parameters |
| LispMachine.Body | rust/sicp-lisp/src/eval.rs:42-47 | the `while let` loop collects the body forms |
| LispMachine.Interpreter.constructor | rust/sicp-lisp/src/environment.rs:69-70 | an interpreter starts with the global environment and no output |
| LispMachine.Interpreter.Eval | rust/sicp-lisp/src/eval.rs:7-59 | `eval` in place ends in the state, with the value or panic, that `LispEval.Eval` gives |
| LispMachine.Interpreter.EvalAssignment | rust/sicp-lisp/src/eval.rs:12-18 | the `set!` arm ends as its function says |
| LispMachine.Interpreter.EvalDefinition | rust/sicp-lisp/src/eval.rs:19-25 | the `define` arm ends as its function says |
| LispMachine.Interpreter.EvalIf | rust/sicp-lisp/src/eval.rs:26-29 | the `if` arm ends as its function says |
| LispMachine.Interpreter.EvalSequence | rust/sicp-lisp/src/eval.rs:73-81 | the `while let` loop of `eval_sequence` ends as its function says |
| LispMachine.Interpreter.ListOfValues | rust/sicp-lisp/src/eval.rs:83-91 | the `while let` loop of `list_of_values` pushes what its function computes |
| LispMachine.Interpreter.Apply | rust/sicp-lisp/src/eval.rs:93-110 | `apply` ends as its function says |
| LispMachine.Interpreter.RunBody | rust/sicp-lisp/src/eval.rs:102-105 | the `for b in body` loop ends as `EvalSequence` says |
| LispMachine.Interpreter.EvalApplication | rust/sicp-lisp/src/eval.rs:55-57 | the application arm ends as its function says |

## Left out

- Machine integers are unbounded `int`s except where the source's wrap is the point. Those exceptions are the `u8` cells (`WrapByte`) and the 32-bit cells of bf-jit (`Wrap`). The `i64` of the Lisp, the `i32`/`isize` counts and offsets of bf-jit, and the `u32` arithmetic of the Game of Life are not bounded.
- LispPrimitives.TruncDivRemainder: `i64::MIN / -1`, which overflows and panics in Rust, is not modelled, since integers are unbounded.
- Non-termination is bounded by fuel: `OutOfFuel`/`Exhausted` stands for a run that does not end within it. Each contract speaks of what happens within the fuel given.
- A panic ends a run as `Panic` (`None` for the environment functions). The state the program had reached before panicking is not modelled.
- The `usize` address and counter of bf-optimize and bf-simple follow a release build. Arithmetic that leaves the range wraps, which an unbounded `int` mimics because only indexing panics. A debug build would panic on the underflow itself (for example `<` at address 0).
- `Read` and `Write` become byte sequences. A read at end of input stores 0 (the buffer's initial byte); read and write errors (`unwrap`, `?`) are not modelled.
- bf-jit input follows C `getchar`, whose end of input is -1, stored modulo 2^32.
- bf-jit `Expr`: `frontend.rs` declares `Mul` with three fields and no `Block`, while `optimizer.rs` builds `Mul(count, offset)` and `Block`. The model follows the optimizer, which is the code that runs.
- `jit.rs` is not part of this model beyond the cell width: the code generator matches an older `Expr` (`Right`, `Left`, `Sub`). The parsers of bf-jit and bf-optimize, and each program's `main`, are not part of this model.
- GameOfLife.Universe.constructor requires `width * height <= 8192`. The source indexes past its buffer otherwise, which would panic.
- The `cells()` pointer and the wasm-bindgen glue of the Game of Life are left out; `Cells()` stands for the buffer the pointer exposes.
- The shell's `peg` grammar is modelled as recursive descent with ordered choice and no memoisation. `ParseLine` requires the whole line to be consumed, as `shell::command` does. A `parse_redirect` panic (an operator with no file after it) is `Panicked`.
- Shell.ComplexExample: the test's line is written as a concatenation of its three stages, which is the same string.
- The Lisp reader (`sexp.rs`), the REPL and `main.rs` are not part of this model. Programs are given as `Sexp` trees.
- `Rc` sharing and reference counting are modelled by the arena: frames are never freed, and aliasing of environments is indexing into the arena.
- `println!` in `display` is modelled as appending the printed line to the state's output.
- The contents of `HashMap` are a Dafny `map`; iteration order is not observable in the source and is not modelled.

## Findings

| source | as written | input that shows it | evidently intended | confidence | as-written member | corrected member |
|---|---|---|---|---|---|---|
| rust/bf-jit/src/frontend.rs:25-26 | the comment gives `Mul` the meaning `data[ptr + index + offset] = count * data[ptr + offset]`, an assignment | the loop `[-, >+<]` (body `[Add(-1, 0), Add(1, 1)]`) on cells `{0: 1, 1: 5}`: the loop leaves cell 1 at 6, the assignment leaves it at 1 | `+=`: the rewrite in `optimize_multiplication` is only sound when `Mul` adds to the target cell | not executed | BfJitOptimizer.MulAsCommentedBreaksRewrite | BfJitOptimizer.MultiplyLoopSound |
