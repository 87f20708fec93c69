/** Properties of the executor: what each instruction does to the state,
    how loops end, how a node list splits, and why more fuel never changes
    a finished run. */
module ExecutorLemmas {
  import opened Tokens
  import opened Code
  import opened Executor

  /** A one-node program does exactly what its node does. */
  lemma RunSingle(n: Node, st: State, fuel: nat)
    requires n.Op?
    ensures Run([n], st, fuel) == StepOp(n.kind, n.repeat, st)
  {
    assert [n][0] == n && [n][1..] == [];
  }

  /** `>` moves the cursor right by `repeat` (modulo the width of
      `unsigned long`) and faults with `SlotsOverflow` exactly when the new
      cursor is not below the tape size; a successful `>` leaves the cursor
      on the tape and changes nothing else. */
  lemma NextMovesRight(n: nat, st: State, fuel: nat)
    ensures var o := Run([Op(Next, n)], st, fuel);
      && !o.OutOfFuel?
      && (o.Failed? <==> (st.index + n) % U64_LIMIT >= |st.slots|)
      && (o.Failed? ==> o.fault == SlotsOverflow)
      && (o.Done? ==> o.st.index < |o.st.slots|)
      && o.st == st.(index := (st.index + n) % U64_LIMIT)
    ensures st.index + n < U64_LIMIT ==>
      var o := Run([Op(Next, n)], st, fuel);
      && (o.Done? <==> st.index + n < |st.slots|)
      && o.st.index == st.index + n
  {
    RunSingle(Op(Next, n), st, fuel);
  }

  /** `<` faults with `SlotsUnderflow` exactly when the cursor is 0, leaving
      the state alone; otherwise it subtracts `repeat` from the cursor modulo
      the width of `unsigned long`. When the cursor is at least `repeat` the
      result is the plain difference and stays on the tape; when it is
      smaller the cursor wraps around to a huge value. */
  lemma PreviousMovesLeft(n: nat, st: State, fuel: nat)
    ensures var o := Run([Op(Previous, n)], st, fuel);
      && !o.OutOfFuel?
      && (o.Failed? <==> st.index == 0)
      && (o.Failed? ==> o == Failed(SlotsUnderflow, st))
      && (o.Done? ==> o.st == st.(index := (st.index - n) % U64_LIMIT))
    ensures 0 < st.index && n <= st.index ==>
      var o := Run([Op(Previous, n)], st, fuel);
      && o == Done(st.(index := st.index - n))
      && (st.index < |st.slots| ==> 0 <= o.st.index < |o.st.slots|)
    ensures 0 < st.index < n <= U64_LIMIT ==>
      Run([Op(Previous, n)], st, fuel) == Done(st.(index := U64_LIMIT + st.index - n))
  {
    RunSingle(Op(Previous, n), st, fuel);
  }

  /** `+` and `-` change only the current cell, by plus or minus `repeat`
      modulo 256 (by exactly that much when the cell does not wrap); the cursor, the other cells, the input and the output stay
      as they were. */
  lemma AddChangesOnlyCurrentCell(k: Kind, n: nat, st: State, fuel: nat)
    requires k == Plus || k == Minus
    requires st.index < |st.slots|
    ensures var o := Run([Op(k, n)], st, fuel);
      && o.Done?
      && o.st.index == st.index && o.st.input == st.input && o.st.output == st.output
      && |o.st.slots| == |st.slots|
      && (forall j :: 0 <= j < |st.slots| && j != st.index ==> o.st.slots[j] == st.slots[j])
      && (k == Plus ==> (o.st.slots[st.index] - st.slots[st.index] - n) % 256 == 0)
      && (k == Minus ==> (o.st.slots[st.index] - st.slots[st.index] + n) % 256 == 0)
    ensures k == Plus && st.slots[st.index] + n < 256 ==>
      Run([Op(k, n)], st, fuel).st.slots[st.index] == st.slots[st.index] + n
    ensures k == Minus && n <= st.slots[st.index] ==>
      Run([Op(k, n)], st, fuel).st.slots[st.index] == st.slots[st.index] - n
  {
    RunSingle(Op(k, n), st, fuel);
  }

  /** `.` appends the current cell `repeat` times to the output and changes
      nothing else. */
  lemma OutputAppendsCell(n: nat, st: State, fuel: nat)
    requires st.index < |st.slots|
    ensures var o := Run([Op(Output, n)], st, fuel);
      && o.Done?
      && o.st.slots == st.slots && o.st.index == st.index && o.st.input == st.input
      && |o.st.output| == |st.output| + n
      && o.st.output[..|st.output|] == st.output
      && (forall j :: |st.output| <= j < |o.st.output| ==> o.st.output[j] == st.slots[st.index])
  {
    RunSingle(Op(Output, n), st, fuel);
  }

  /** `n` successive reads leave the last byte read: the `n`-th input byte
      when there are that many, otherwise `(char)EOF`, with the input
      exhausted. */
  lemma {:induction false} ReadCharsKeepsLast(cell: Byte, input: seq<Byte>, n: nat)
    requires n >= 1
    ensures ReadChars(cell, input, n)
         == if n <= |input| then (input[n - 1], input[n..]) else (EOF_BYTE, [])
    decreases n
  {
    if n > 1 {
      if |input| == 0 {
        ReadCharsKeepsLast(EOF_BYTE, [], n - 1);
      } else {
        ReadCharsKeepsLast(input[0], input[1..], n - 1);
        if n <= |input| {
          assert input[1..][n - 2] == input[n - 1];
          assert input[1..][n - 1..] == input[n..];
        }
      }
    }
  }

  /** `,` consumes `repeat` input bytes and only the last stays in the
      current cell (or `(char)EOF` once the input is exhausted); the cursor,
      the other cells and the output stay as they were. */
  lemma InputKeepsLastByte(n: nat, st: State, fuel: nat)
    requires n >= 1
    requires st.index < |st.slots|
    ensures var o := Run([Op(Input, n)], st, fuel);
      && o.Done?
      && o.st.index == st.index && o.st.output == st.output
      && |o.st.slots| == |st.slots|
      && (forall j :: 0 <= j < |st.slots| && j != st.index ==> o.st.slots[j] == st.slots[j])
      && o.st.slots[st.index] == (if n <= |st.input| then st.input[n - 1] else EOF_BYTE)
      && o.st.input == (if n <= |st.input| then st.input[n..] else [])
  {
    RunSingle(Op(Input, n), st, fuel);
    ReadCharsKeepsLast(st.slots[st.index], st.input, n);
  }

  /** A loop whose current cell is zero is skipped; a loop that finishes
      leaves the cursor on the tape over a zero cell. */
  lemma LoopEndsOnZero(body: seq<Node>, st: State, fuel: nat)
    ensures st.index < |st.slots| && st.slots[st.index] == 0 ==>
      Run([Loop(body)], st, fuel) == Done(st)
    ensures var o := Run([Loop(body)], st, fuel);
      o.Done? ==> o.st.index < |o.st.slots| && o.st.slots[o.st.index] == 0
  {
    assert [Loop(body)][0] == Loop(body) && [Loop(body)][1..] == [];
  }

  /** Running `a + b` runs `a`, then `b` on the state `a` left; a fault or
      running out of fuel in `a` is the result of the whole. */
  lemma {:induction false} RunConcat(a: seq<Node>, b: seq<Node>, st: State, fuel: nat)
    ensures Run(a + b, st, fuel)
         == match Run(a, st, fuel)
            case Done(st') => Run(b, st', fuel)
            case o => o
    decreases |a|
  {
    if |a| == 0 {
      assert a + b == b;
    } else {
      assert (a + b)[0] == a[0] && (a + b)[1..] == a[1..] + b;
      var first := match a[0]
        case Op(k, n) => StepOp(k, n, st)
        case Loop(body) => RunLoop(body, st, fuel);
      if first.Done? {
        RunConcat(a[1..], b, first.st, fuel);
      }
    }
  }

  /** Every execution that does not run out of fuel keeps the tape size,
      only extends the output and only consumes input from the front, both
      for a node list and for a loop. */
  lemma {:induction false} RunEvolves(code: seq<Node>, st: State, fuel: nat)
    ensures var o := Run(code, st, fuel); !o.OutOfFuel? ==> Evolves(st, o.st)
    decreases fuel, |code| + 1
  {
    if |code| > 0 {
      var first := match code[0]
        case Op(k, n) => StepOp(k, n, st)
        case Loop(body) => RunLoop(body, st, fuel);
      if code[0].Op? {
        StepOpEvolves(code[0], st);
      } else {
        RunLoopEvolves(code[0].body, st, fuel);
      }
      if first.Done? {
        RunEvolves(code[1..], first.st, fuel);
        EvolvesTrans(st, first.st, Run(code[1..], first.st, fuel));
      }
    }
  }

  lemma {:induction false} RunLoopEvolves(body: seq<Node>, st: State, fuel: nat)
    ensures var o := RunLoop(body, st, fuel); !o.OutOfFuel? ==> Evolves(st, o.st)
    decreases fuel, 0
  {
    if st.index < |st.slots| && st.slots[st.index] != 0 && fuel > 0 {
      var o := Run(body, st, fuel - 1);
      RunEvolves(body, st, fuel - 1);
      if o.Done? {
        RunLoopEvolves(body, o.st, fuel - 1);
        EvolvesTrans(st, o.st, RunLoop(body, o.st, fuel - 1));
      }
    }
  }

  /** Fuel only bounds loops: once a run finishes with some fuel, any larger
      fuel gives the same outcome. */
  lemma {:induction false} RunFuelMonotone(code: seq<Node>, st: State, fuel: nat, more: nat)
    requires fuel <= more
    requires !Run(code, st, fuel).OutOfFuel?
    ensures Run(code, st, more) == Run(code, st, fuel)
    decreases fuel, |code| + 1
  {
    if |code| > 0 {
      var first := match code[0]
        case Op(k, n) => StepOp(k, n, st)
        case Loop(body) => RunLoop(body, st, fuel);
      if code[0].Loop? {
        RunLoopFuelMonotone(code[0].body, st, fuel, more);
      }
      if first.Done? {
        RunFuelMonotone(code[1..], first.st, fuel, more);
      }
    }
  }

  lemma {:induction false} RunLoopFuelMonotone(body: seq<Node>, st: State, fuel: nat, more: nat)
    requires fuel <= more
    requires !RunLoop(body, st, fuel).OutOfFuel?
    ensures RunLoop(body, st, more) == RunLoop(body, st, fuel)
    decreases fuel, 1
  {
    if st.index < |st.slots| && st.slots[st.index] != 0 {
      LoopIterationFuelMonotone(body, st, fuel, more);
    } else {
      RunLoopStops(body, st, fuel);
      RunLoopStops(body, st, more);
    }
  }

  /** The iterating case of `RunLoopFuelMonotone`: the first pass of the
      body agrees under both fuels, and so does the rest of the loop. */
  lemma {:induction false} LoopIterationFuelMonotone(body: seq<Node>, st: State, fuel: nat, more: nat)
    requires st.index < |st.slots| && st.slots[st.index] != 0
    requires fuel <= more
    requires !RunLoop(body, st, fuel).OutOfFuel?
    ensures RunLoop(body, st, more) == RunLoop(body, st, fuel)
    decreases fuel, 0
  {
    if fuel == 0 {
      RunLoopOutOfFuel(body, st);
    } else {
      var o := Run(body, st, fuel - 1);
      RunLoopIteration(body, st, fuel);
      RunFuelMonotone(body, st, fuel - 1, more - 1);
      RunLoopIteration(body, st, more);
      if o.Done? {
        RunLoopFuelMonotone(body, o.st, fuel - 1, more - 1);
      }
    }
  }

  /** The driver's verdict is stable: once a fuel bound yields an exit
      status (or undefined behaviour), every larger bound yields the same. */
  lemma ExitStable(code: seq<Node>, st: State, fuel: nat, more: nat)
    requires fuel <= more
    requires BfExecute(code, st, fuel) != Diverged
    ensures BfExecute(code, st, more) == BfExecute(code, st, fuel)
  {
    RunFuelMonotone(code, st, fuel, more);
  }

  /** A loop over a non-zero cell with no fuel left reports `OutOfFuel`. */
  lemma RunLoopOutOfFuel(body: seq<Node>, st: State)
    requires st.index < |st.slots| && st.slots[st.index] != 0
    ensures RunLoop(body, st, 0) == OutOfFuel
  {
  }

  /** A loop whose cursor is off the tape, or whose current cell is zero,
      stops at once without using fuel. */
  lemma RunLoopStops(body: seq<Node>, st: State, fuel: nat)
    requires !(st.index < |st.slots| && st.slots[st.index] != 0)
    ensures RunLoop(body, st, fuel)
         == if st.index >= |st.slots| then Failed(OutOfBounds, st) else Done(st)
  {
  }

  /** One iteration of a loop whose current cell is non-zero: run the body
      with one unit of fuel less, then test again. */
  lemma RunLoopIteration(body: seq<Node>, st: State, fuel: nat)
    requires st.index < |st.slots| && st.slots[st.index] != 0 && fuel > 0
    ensures RunLoop(body, st, fuel)
         == match Run(body, st, fuel - 1)
            case Done(st') => RunLoop(body, st', fuel - 1)
            case o => o
  {
  }

  /** The empty program on a fresh tape finishes at once, writes nothing and
      leaves every cell zero. */
  lemma EmptyProgramOnFreshTape(size: U64, input: seq<Byte>, fuel: nat)
    ensures var o := Run([], CreateState(size, input), fuel);
      && o.Done? && o.st.output == [] && o.st.index == 0
      && |o.st.slots| == size && (forall i :: 0 <= i < size ==> o.st.slots[i] == 0)
    ensures BfExecute([], CreateState(size, input), fuel) == Exited(0)
  {
  }

  /** The two cursor faults carry distinct error codes. */
  lemma ErrorCodesDistinct(f: Fault, g: Fault)
    requires f != OutOfBounds && g != OutOfBounds
    ensures ErrorCode(f) == ErrorCode(g) <==> f == g
  {
  }

  /** `[]` over a non-zero cell never finishes: the empty body leaves the
      cell as it is, so every amount of fuel runs out. */
  lemma {:induction false} EmptyLoopDiverges(st: State, fuel: nat)
    requires st.index < |st.slots| && st.slots[st.index] != 0
    ensures RunLoop([], st, fuel) == OutOfFuel
    decreases fuel
  {
    if fuel > 0 {
      EmptyLoopDiverges(st, fuel - 1);
    }
  }
}
