/** The executor `_execute` / `bf_execute` (src/brainfuck.c) and the tape
    state `BFState` it mutates. The ambient standard input and output become
    an input byte sequence consumed by `,` and an output byte sequence
    extended by `.`; the `exit(1)` on a cursor fault becomes a returned fault;
    and since a loop need not terminate, execution takes a fuel bound. */
module Executor {
  import opened Tokens
  import opened Code

  /** The tape (`slots`, whose length is `slot_size`), the cursor
      `slot_index`, the unread input and the output written so far. */
  datatype State = State(slots: seq<Byte>, index: U64, input: seq<Byte>, output: seq<Byte>)

  /** Why execution stopped early. `SlotsOverflow` and `SlotsUnderflow` are
      the two checked cursor faults. `OutOfBounds` marks a cell access with the
      cursor outside the tape, which the C code performs unchecked (undefined
      behaviour); it is reachable whenever the cursor is not below the tape
      size: after a `<` has wrapped it, or on a tape of size 0. */
  datatype Fault = SlotsOverflow | SlotsUnderflow | OutOfBounds

  /** `OutOfFuel` means the fuel ran out inside a loop: the program may
      diverge, and the model does not decide what it would do. */
  datatype Outcome = Done(st: State) | Failed(fault: Fault, st: State) | OutOfFuel

  /** What the driver's process ends with: an exit status, behaviour the C
      standard leaves undefined (a cell access outside the tape), or no
      verdict when the fuel ran out. */
  datatype Exit = Exited(status: int) | Undefined | Diverged

  /** `bf_create_state`: a zeroed tape of `size` cells, cursor at 0. */
  function CreateState(size: U64, input: seq<Byte>): (st: State)
    ensures |st.slots| == size && st.index == 0
    ensures forall i :: 0 <= i < size ==> st.slots[i] == 0
    ensures st.input == input && st.output == []
  {
    State(seq(size, _ => 0), 0, input, [])
  }

  /** `unsigned long` arithmetic. */
  function Wrap64(x: int): U64 {
    x % U64_LIMIT
  }

  /** Storing an `int` into a `char` cell keeps its low eight bits. */
  function Wrap8(x: int): Byte {
    x % 256
  }

  /** The `,` loop: `n` calls of `getchar`, each stored into the cell; at end
      of input every call yields `(char)EOF`. Returns the cell and the
      unread input. */
  function ReadChars(cell: Byte, input: seq<Byte>, n: nat): (Byte, seq<Byte>)
    decreases n
  {
    if n == 0 then (cell, input)
    else if |input| == 0 then ReadChars(EOF_BYTE, [], n - 1)
    else ReadChars(input[0], input[1..], n - 1)
  }

  /** One run node `Op(k, n)`. The cursor moves are checked as the C code
      checks them; the four cell instructions read or write the current cell,
      which is outside the tape after a wrapped `<` or on a tape of size 0. */
  function StepOp(k: Kind, n: nat, st: State): Outcome {
    match k
    case Next =>
      var i := Wrap64(st.index + n);
      if i >= |st.slots| then Failed(SlotsOverflow, st.(index := i))
      else Done(st.(index := i))
    case Previous =>
      if st.index == 0 then Failed(SlotsUnderflow, st)
      else Done(st.(index := Wrap64(st.index - n)))
    case Plus =>
      if st.index >= |st.slots| then Failed(OutOfBounds, st)
      else Done(st.(slots := st.slots[st.index := Wrap8(st.slots[st.index] + n)]))
    case Minus =>
      if st.index >= |st.slots| then Failed(OutOfBounds, st)
      else Done(st.(slots := st.slots[st.index := Wrap8(st.slots[st.index] - n)]))
    case Input =>
      if st.index >= |st.slots| then Failed(OutOfBounds, st)
      else
        var (c, rest) := ReadChars(st.slots[st.index], st.input, n);
        Done(st.(slots := st.slots[st.index := c], input := rest))
    case Output =>
      if st.index >= |st.slots| then Failed(OutOfBounds, st)
      else Done(st.(output := st.output + Repeat(st.slots[st.index], n)))
  }

  /** What every completed (or faulted) execution keeps: the tape size, an
      output that only grows, and an input that is only consumed from the front. */
  predicate Evolves(before: State, after: State) {
    && |after.slots| == |before.slots|
    && before.output <= after.output
    && |after.input| <= |before.input|
    && after.input == before.input[|before.input| - |after.input|..]
  }

  /** `_execute` over a node list, one node after another; the first fault
      ends the whole execution. */
  function Run(code: seq<Node>, st: State, fuel: nat): Outcome
    decreases fuel, |code|
  {
    if |code| == 0 then Done(st)
    else
      var first := (
        match code[0]
        case Op(k, n) => StepOp(k, n, st)
        case Loop(body) => RunLoop(body, st, fuel));
      match first
      case Done(st') => Run(code[1..], st', fuel)
      case _ => first
  }

  /** The `[` node: runs the body while the current cell is non-zero. Each
      iteration costs one unit of fuel. */
  function RunLoop(body: seq<Node>, st: State, fuel: nat): (o: Outcome)
    ensures o.Done? ==> o.st.index < |o.st.slots| && o.st.slots[o.st.index] == 0
    decreases fuel, 0
  {
    if st.index >= |st.slots| then Failed(OutOfBounds, st)
    else if st.slots[st.index] == 0 then Done(st)
    else if fuel == 0 then OutOfFuel
    else
      match Run(body, st, fuel - 1)
      case Done(st') => RunLoop(body, st', fuel - 1)
      case o => o
  }

  /** `bf_execute` together with the `exit(1)` of `_execute`: status 0 when
      the program ran to completion, status 1 after a cursor fault. */
  function BfExecute(code: seq<Node>, st: State, fuel: nat): (e: Exit)
    ensures e == Exited(0) <==> Run(code, st, fuel).Done?
    ensures e == Exited(1) <==> Run(code, st, fuel).Failed? && Run(code, st, fuel).fault != OutOfBounds
    ensures e == Undefined <==> Run(code, st, fuel).Failed? && Run(code, st, fuel).fault == OutOfBounds
    ensures e == Diverged <==> Run(code, st, fuel).OutOfFuel?
  {
    match Run(code, st, fuel)
    case Done(_) => Exited(0)
    case Failed(OutOfBounds, _) => Undefined
    case Failed(_, _) => Exited(1)
    case OutOfFuel => Diverged
  }

  /** The code `_execute` stores in `error` before exiting on a cursor
      fault; 0 is reserved for success. */
  function ErrorCode(f: Fault): (code: int)
    requires f != OutOfBounds
    ensures code != 0
  {
    if f == SlotsOverflow then ERR_SLOTS_OVERFLOW else ERR_SLOTS_UNDERFLOW
  }

  lemma EvolvesTrans(a: State, b: State, o: Outcome)
    requires Evolves(a, b)
    ensures !o.OutOfFuel? && Evolves(b, o.st) ==> Evolves(a, o.st)
  {
    if !o.OutOfFuel? && Evolves(b, o.st) {
      var c := o.st;
      assert c.input == a.input[|a.input| - |c.input|..] by {
        assert b.input[|b.input| - |c.input|..] == a.input[|a.input| - |c.input|..];
      }
    }
  }

  lemma StepOpEvolves(n: Node, st: State)
    requires n.Op?
    ensures var o := StepOp(n.kind, n.repeat, st); !o.OutOfFuel? && Evolves(st, o.st)
  {
    var o := StepOp(n.kind, n.repeat, st);
    assert st.input[|st.input| - |st.input|..] == st.input;
    if st.index < |st.slots| {
      match n.kind
      case Input =>
        ReadCharsSuffix(st.slots[st.index], st.input, n.repeat);
      case Output =>
        assert o.st.output == st.output + Repeat(st.slots[st.index], n.repeat);
      case _ =>
    }
  }

  lemma {:induction false} ReadCharsSuffix(cell: Byte, input: seq<Byte>, n: nat)
    ensures var rest := ReadChars(cell, input, n).1;
      |rest| <= |input| && rest == input[|input| - |rest|..]
    decreases n
  {
    if n > 0 {
      if |input| == 0 {
        ReadCharsSuffix(EOF_BYTE, [], n - 1);
      } else {
        ReadCharsSuffix(input[0], input[1..], n - 1);
      }
    }
  }
}
