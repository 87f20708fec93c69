# A verified model of a small Brainfuck interpreter

This project models the core of a C interpreter for Brainfuck. The core is
`src/brainfuck.c` together with the data types and constants of
`src/brainfuck.h`. It has two halves:

- **The compiler** (`bf_compile`). It reads the source once, left to right,
  and skips every character outside the eight tokens `> < + - . , [ ]`. It
  folds each run of identical instructions into one node carrying a `repeat`
  count. A `[` gets a node whose `child` is the recursively compiled loop
  body. A `]` ends the current level.
- **The executor** (`_execute` / `bf_execute`). It walks that tree against a
  tape of `slot_size` `char` cells and an `unsigned long` cursor.
  `bf_create_state` creates the tape zeroed.

The Dafny modules follow that structure:

| module | file | contents |
|---|---|---|
| `Tokens` | `tokens.dfy` | The token characters and the six run-compressible instruction kinds. The `char` cell as `Byte` and `unsigned long` as `U64`. `DEFAULT_BF_SLOTS`, the two cursor error codes and the byte `(char)EOF`. |
| `Code` | `code.dfy` | The compiled tree `Node = Op(kind, repeat) \| Loop(body)`. Its invariant `WellFormed`. `Text`, the token text a tree stands for. |
| `Compiler` | `compiler.dfy` | `CompileLevel` (one level of `bf_compile`), `Compile` (its top level) and the compiler's properties. |
| `Executor` | `executor.dfy` | The tape `State`, `CreateState`, the per-node step `StepOp`, `Run` / `RunLoop` (`_execute`) and `BfExecute`. |
| `ExecutorLemmas` | `executor_lemmas.dfy` | What each instruction does to the state, loop exit, sequencing, and fuel monotonicity. |
| `Scenarios` | `scenarios.dfy` | Whole programs compiled and run, mostly on the 4096-cell tape that `src/main.c` creates, plus a few edge cases on tapes of other sizes. |

How the C behaviour is represented:

- **Source and I/O.** The source is a `seq<char>`. Standard input becomes an
  input byte sequence that `,` consumes from the front. Standard output
  becomes an output byte sequence that `.` extends.
- **Cursor faults.** The `exit(1)` after a cursor overflow or underflow
  becomes the outcome `Failed(SlotsOverflow, _)` or
  `Failed(SlotsUnderflow, _)`. The driver's process status is then 1, and
  `BfExecute` reports `Exited(1)`. A completed run reports `Exited(0)`.
- **Fuel.** A loop may not terminate, so `Run` takes a fuel bound and each
  loop iteration costs one unit. `OutOfFuel` (`Diverged` at the driver) means
  only that the bound was reached. `ExecutorLemmas.RunFuelMonotone` shows
  that more fuel never changes a run that finished.
- **The cursor.** It is an `unsigned long`. `>` adds `repeat` modulo 2^64
  and then checks the result against `slot_size`. `<` checks only whether
  the cursor is 0 and then subtracts `repeat` modulo 2^64. So `<<` from
  cursor 1 wraps the cursor to 2^64 - 1 without raising any fault
  (`src/brainfuck.c:104-111`).
- **Cells off the tape.** A cell access while the cursor is wrapped is
  outside the tape, which C leaves undefined. (A later `>` can wrap the
  cursor back onto the tape, as in `><<>+`.) The model stops at the first
  such access with `Failed(OutOfBounds, _)`, and `BfExecute` reports
  `Undefined`. `bf_create_state` also accepts a size of 0, and on such a
  tape the first cell access or loop test is off the tape as well.
  `Scenarios.WrappedCursorEscapesChecks` exhibits this with `><<+`.
- **Cell arithmetic.** Cells hold the bit pattern of a `char`, so `+` and `-`
  work modulo 256. At end of input, `,` stores `(char)getchar()`, which is
  `(char)EOF`, bit pattern 255.
- **Run absorption.** The compiler's inner loop (`src/brainfuck.c:52-54`)
  greedily absorbs further copies of the current character. Each absorbed
  character would pass the same `tail->type == chr` test at line 40, so the
  model merges one character at a time (`Compiler.Merge`). Characters
  outside the alphabet never reset `tail`. Runs therefore continue across
  them: `+ +` compiles to one node with `repeat == 2`.
- **The tree.** Only `Loop` nodes own a body, so the C convention that a
  non-loop node has a null `child` holds by construction.
- **No bracket errors.** The compiler reports none. An unmatched top-level
  `]` ends compilation and the rest of the source is dropped. An unclosed
  `[` takes the rest of the source as its body.

`Compiler.Merge`, `Executor.StepOp`, `Executor.Run` and `Executor.ReadChars`
have no contract of their own, and `Compiler.CompileLevel` states only that
its remainder is no longer than its input. The lemmas listed after them in
the table characterise them. `Code.Text` is the independent reference the
compiler is checked against.

## Model

| member | source | states |
|---|---|---|
| `Tokens.AlphabetShape` | src/brainfuck.h:9-16 | The alphabet has exactly eight distinct characters. A character is a token iff it is in the alphabet. The brackets are not run-compressible instructions. |
| `Tokens.KindOf` | src/brainfuck.h:9-14 | Every instruction token maps to a kind whose token is that same character. |
| `Tokens.TokenOfInjective` | src/brainfuck.h:9-14 | Distinct kinds have distinct tokens. Each kind's token maps back to that kind. |
| `Compiler.MergeShape` | src/brainfuck.c:40-51 | Adding an instruction either lengthens the last run by one, when it has the same kind, or appends a new run of length 1. Nothing earlier changes. |
| `Compiler.MergeText` | src/brainfuck.c:40-51 | Adding an instruction adds exactly its token to the level's text. |
| `Compiler.MergeWellFormed` | src/brainfuck.c:40-51 | Adding an instruction keeps every run at least 1 long and keeps adjacent runs of different kinds. |
| `Compiler.CompileLevel` | src/brainfuck.c:32-71 | One level hands its caller back only what follows the `]` that closed it, so the remainder is never longer than the source it was given. The lemmas below give the rest of its behaviour. |
| `Compiler.Compile` | src/brainfuck.c:32-71 | Compiled code is well-formed at every depth. Every `repeat` is at least 1 and no two adjacent nodes are runs of the same kind. |
| `Compiler.CompileLevelWellFormed` | src/brainfuck.c:36-69 | Each compiled level, including every loop body, extends a well-formed prefix to a well-formed level. |
| `Compiler.CompileIgnoresNonTokens` | src/brainfuck.c:36-68 | Compiling the source gives the same tree as compiling it with all non-token characters removed. Foreign characters neither split nor end a run. |
| `Compiler.CompileLevelIgnoresNonTokens` | src/brainfuck.c:36-68 | The same for one level and for the input left after its closing `]`. |
| `Compiler.CompileRoundTrip` | src/brainfuck.c:32-71 | For a balanced source, expanding every node back into `repeat` tokens, and every loop into `[` body `]`, gives exactly the source's tokens. |
| `Compiler.CompileLevelText` | src/brainfuck.c:36-69 | At depth 0 a level consumes all of a balanced input and spells its tokens. At depth d > 0 it stops at its closing `]`, and the level, that `]` and the balanced remainder spell the input's tokens. |
| `Compiler.CompileLevelConcat` | src/brainfuck.c:55-65 | A balanced prefix compiles the same whatever follows it. |
| `Compiler.LoopCompilesBody` | src/brainfuck.c:55-63 | `[`, then a balanced text, then `]` yields one loop node whose body is the compiled text. Compilation resumes after the `]`. |
| `Compiler.UnmatchedCloseStops` | src/brainfuck.c:64-70 | An unmatched top-level `]` silently discards everything after it. |
| `Compiler.NoStrayCloseRest` | src/brainfuck.c:36-69 | When every `]` closes an open `[`, the top level reads the whole source, and a level nested `d` deep hands back a remainder in which every `]` closes one of the `d - 1` outer loops or a later `[`. |
| `Compiler.UnclosedLoopRunsToEnd` | src/brainfuck.c:55-69 | An unclosed `[` followed by text in which every `]` closes a later `[` takes all of that text as its body, inner unclosed loops included, and signals nothing. |
| `Compiler.RunExtends` | src/brainfuck.c:40-54 | `n` copies of a token read right after a run of its kind, whatever nodes precede that run and whatever text follows, lengthen that run by `n` and leave the rest of the compilation as if the run had been that long already. |
| `Compiler.RunCompilesToOneNode` | src/brainfuck.c:40-54 | A run of `n >= 1` identical instruction tokens compiles to one node with `repeat == n`. |
| `Executor.CreateState` | src/brainfuck.c:4-10 | A fresh state has `size` cells, all zero, and cursor 0. It has the given input and an empty output. |
| `Executor.RunLoop` | src/brainfuck.c:124-126 | A loop that finishes leaves the cursor on the tape over a zero cell. |
| `Executor.BfExecute` | src/brainfuck.c:136-145 | The status is 0 iff the run completed and 1 iff it stopped at a cursor fault. A cell access off the tape is undefined. Running out of fuel gives no status. |
| `Executor.ErrorCode` | src/brainfuck.h:21-22 | A cursor fault's error code is never 0, the value that means success. |
| `ExecutorLemmas.ErrorCodesDistinct` | src/brainfuck.h:21-22 | Overflow and underflow have different error codes. |
| `ExecutorLemmas.NextMovesRight` | src/brainfuck.c:96-103 | `>` adds `repeat` to the cursor modulo 2^64 and faults with overflow iff the result is not below the tape size. Every successful `>` leaves the cursor on the tape. |
| `ExecutorLemmas.PreviousMovesLeft` | src/brainfuck.c:104-111 | `<` faults with underflow iff the cursor is 0, leaving the state alone. Otherwise it subtracts `repeat` modulo 2^64. The result stays on the tape when the cursor is at least `repeat` and wraps when it is smaller. |
| `ExecutorLemmas.AddChangesOnlyCurrentCell` | src/brainfuck.c:112-115 | `+` and `-` change only the current cell, by plus or minus `repeat` modulo 256. Cursor, other cells, input and output are unchanged. |
| `ExecutorLemmas.ReadCharsKeepsLast` | src/brainfuck.c:117-119 | `n` reads leave the `n`-th input byte, or `(char)EOF` with the input exhausted when there are fewer than `n` bytes. |
| `ExecutorLemmas.InputKeepsLastByte` | src/brainfuck.c:116-119 | `,` consumes `repeat` bytes and only the last stays in the current cell. Everything else is unchanged. |
| `ExecutorLemmas.OutputAppendsCell` | src/brainfuck.c:120-123 | `.` appends the current cell `repeat` times to the output and changes nothing else. |
| `ExecutorLemmas.LoopEndsOnZero` | src/brainfuck.c:124-126 | A loop over a zero cell is skipped. A loop that finishes stands on a zero cell. |
| `ExecutorLemmas.EmptyLoopDiverges` | src/brainfuck.c:124-126 | `[]` over a non-zero cell never finishes, whatever the fuel. |
| `ExecutorLemmas.RunConcat` | src/brainfuck.c:94-132 | Running `a + b` runs `a` and then `b` from where `a` stopped. A fault in `a` ends the whole run. |
| `ExecutorLemmas.RunEvolves` | src/brainfuck.c:91-134 | Every run that does not run out of fuel keeps the tape size, only appends to the output and only consumes input from the front. |
| `ExecutorLemmas.RunLoopEvolves` | src/brainfuck.c:124-126 | The same for a loop node. |
| `ExecutorLemmas.RunFuelMonotone` | src/brainfuck.c:124-126 | More fuel never changes the outcome of a run that finished. |
| `ExecutorLemmas.ExitStable` | src/brainfuck.c:136-145 | Once a fuel bound yields an exit status or undefined behaviour, every larger bound yields the same verdict, so the status does not depend on the fuel chosen. |
| `ExecutorLemmas.EmptyProgramOnFreshTape` | src/brainfuck.c:136-145 | The empty program on a fresh tape completes with status 0, no output and all cells zero. |
| `Scenarios.IncrementAndPrint` | src/main.c:9-14 | `+++.` compiles to two nodes. On the default tape it prints the byte 3 and exits with status 0. |
| `Scenarios.DoublingProgram` | src/main.c:9-14 | `++[>++<-]>.` compiles to a run, a loop and two runs. With two units of fuel it prints 4. |
| `Scenarios.DoublingLoopRuns` | src/brainfuck.c:124-126 | With at least two units of fuel, the loop of that program finishes on the first cell with 4 in the second cell and the output unchanged. |
| `Scenarios.UnderflowAtStart` | src/brainfuck.c:104-110 | `<` on a fresh tape is an underflow with status 1 and no output. |
| `Scenarios.OverflowAfterCapacityMoves` | src/brainfuck.c:96-103 | As many `>` as the tape has cells overflow it. |
| `Scenarios.EmptyTapeAccess` | src/brainfuck.c:112-123 | On a tape of size 0, which `bf_create_state` accepts, the first `+`, `-`, `,` or `.` is an off-tape access, so the run is undefined, without any `<`. |
| `Scenarios.ReadAtEndOfInput` | src/brainfuck.c:116-123 | `,.` with empty input prints the byte 255. |
| `Scenarios.WrappedCursorEscapesChecks` | src/brainfuck.c:104-115 | `><<+` passes both cursor checks, wraps the cursor to 2^64 - 1 and then touches a cell off the tape. |
| `Scenarios.NestedUnclosedLoops` | src/brainfuck.c:55-69 | `[[+` compiles to a loop holding a loop holding one `+`. |
| `Scenarios.CompileQuirks` | src/brainfuck.c:36-69 | Foreign characters do not split a run. `+` and `-` stay separate. A stray `]` ends the program. An unclosed `[` swallows the rest. |

## Left out

- `bf_compile_file` and `bf_compile_str` (`src/brainfuck.c:73-89`) only wrap `bf_compile` around a `FILE*` or `fmemopen` stream. The model compiles a `seq<char>` directly.
- `src/main.c` calls the file-static `bf_compile` and passes its `BFInstruction*` result where a `BFCode*` is expected. The model takes the evident intent: compile the file, then run it on a 4096-cell tape.
- Allocation failure is not modelled. That covers the "Out of Memory" and `exit(1)` paths at `src/brainfuck.c:21-25` and 76-80. It also covers the unchecked `calloc` in `bf_create_state` (`src/brainfuck.c:7-8`), whose NULL result would be dereferenced. Nodes are values, and `CreateState` always succeeds.
- The `calloc` flexible-array layout of `BFState` is not modelled. The tape is a sequence whose length is `slot_size`.
- `bf_free_state`, `bf_free_code` and `bf_dump_code` are memory management and a debug printer.
- The `stderr` diagnostics are not modelled.
- The error codes the code never uses are left out: `ERR_READ`, `ERR_UNBALANCED_BRACKET`, `ERR_MEMORY` and `ERR_SYNTAX_*`. So are the `BFCode` fields `tail`, `errpos` and `error`, which are never set.
- The `error` field of `BFState` is not carried in the state. `_execute` sets it only immediately before `exit(1)`, so the read in `bf_execute` (`src/brainfuck.c:140`) always sees the 0 that `calloc` left there. `Executor.ErrorCode` gives the value it would hold.
- The "Wtf" branch of `_execute` (`src/brainfuck.c:127-130`) is unreachable in the model, because a `Node` can only hold the seven instruction types the compiler creates.
- `unsigned long` is taken to be 64 bits wide, as on LP64 targets. On LLP64 and 32-bit targets, the cursor wrap at `src/brainfuck.c:97` and 111 would be modulo 2^32, not 2^64 (`Tokens.U64_LIMIT`).
- `repeat` is an `int` in C. It would overflow after 2^31 - 1 identical characters in a row. The model's `repeat` is unbounded.
- Loops are bounded by fuel. A program that does not finish within the given fuel is reported as `OutOfFuel`, and nothing is claimed about what it does afterwards.
- `ExecutorLemmas.AddChangesOnlyCurrentCell` states the new cell value modulo 256, which is how a `char` stores the sum on the usual two's-complement targets. The C conversion of an out-of-range value to a signed `char` is implementation-defined.
