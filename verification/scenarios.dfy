/** Whole programs, compiled and then executed on a fresh tape, as the
    command-line driver runs them (src/main.c: default tape of 4096 cells). */
module Scenarios {
  import opened Tokens
  import opened Code
  import opened Compiler
  import opened Executor
  import opened ExecutorLemmas

  function Fresh(input: seq<Byte>): State {
    CreateState(DEFAULT_BF_SLOTS, input)
  }

  /** `+++.` compiles to one run of three `+` and one `.`; on a fresh tape
      it prints one byte of value 3 and exits with status 0. */
  lemma IncrementAndPrint(fuel: nat)
    ensures Compile("+++.") == [Op(Plus, 3), Op(Output, 1)]
    ensures var o := Run(Compile("+++."), Fresh([]), fuel);
      o.Done? && o.st.output == [3]
    ensures BfExecute(Compile("+++."), Fresh([]), fuel) == Exited(0)
  {
    IncrementAndPrintCompiles("+++.");
    IncrementAndPrintRuns(Fresh([]), fuel);
  }

  lemma IncrementAndPrintCompiles(s: seq<char>)
    requires s == "+++."
    ensures Compile(s) == [Op(Plus, 3), Op(Output, 1)]
  {
    NewRunStep(s, []);
    assert [] + [Op(Plus, 1)] == [Op(Plus, 1)];
    GrowRunStep(s[1..], [], 1);
    assert [] + [Op(Plus, 2)] == [Op(Plus, 2)];
    GrowRunStep(s[2..], [], 2);
    assert [] + [Op(Plus, 3)] == [Op(Plus, 3)];
    assert s[1..][1..] == s[2..] && s[2..][1..] == s[3..];
    NewRunStep(s[3..], [Op(Plus, 3)]);
    assert s[3..][1..] == [];
    assert [Op(Plus, 3)] + [Op(Output, 1)] == [Op(Plus, 3), Op(Output, 1)];
  }

  /** On a tape whose current cell is zero, `+++.` appends 3 to the output. */
  lemma IncrementAndPrintRuns(st: State, fuel: nat)
    requires st.index < |st.slots| && st.slots[st.index] == 0
    ensures var o := Run([Op(Plus, 3), Op(Output, 1)], st, fuel);
      o.Done? && o.st.output == st.output + [3]
  {
    var code := [Op(Plus, 3), Op(Output, 1)];
    RunConcat([code[0]], [code[1]], st, fuel);
    assert [code[0]] + [code[1]] == code;
    AddChangesOnlyCurrentCell(Plus, 3, st, fuel);
    var st1 := Run([code[0]], st, fuel).st;
    assert st1.slots[st.index] == 3;
    OutputAppendsCell(1, st1, fuel);
  }

  /** The loop body `>++<-`. */
  function DoublingBody(): seq<Node> {
    [Op(Next, 1), Op(Plus, 2), Op(Previous, 1), Op(Minus, 1)]
  }

  /** The compiled form of `++[>++<-]>.`. */
  function DoublingCode(): seq<Node> {
    [Op(Plus, 2), Loop(DoublingBody()), Op(Next, 1), Op(Output, 1)]
  }

  /** `++[>++<-]>.` compiles to a run of two `+`, a loop, a `>` and a `.`;
      on a fresh tape it doubles 2 into the second cell and prints 4, using
      two units of fuel for the two passes of the loop. */
  lemma DoublingProgram(fuel: nat)
    requires fuel >= 2
    ensures Compile("++[>++<-]>.") == DoublingCode()
    ensures var o := Run(Compile("++[>++<-]>."), Fresh([]), fuel);
      o.Done? && o.st.output == [4]
  {
    DoublingCompiles("++[>++<-]>.");
    DoublingRuns(Fresh([]), fuel);
  }

  lemma DoublingCompiles(s: seq<char>)
    requires s == "++[>++<-]>."
    ensures Compile(s) == DoublingCode()
  {
    NewRunStep(s, []);
    assert [] + [Op(Plus, 1)] == [Op(Plus, 1)];
    GrowRunStep(s[1..], [], 1);
    assert [] + [Op(Plus, 2)] == [Op(Plus, 2)];
    assert s[1..][1..] == s[2..];
    DoublingTailCompiles(s[2..]);
  }

  lemma DoublingTailCompiles(u: seq<char>)
    requires u == "[>++<-]>."
    ensures CompileLevel(u, [Op(Plus, 2)]) == (DoublingCode(), [])
  {
    var t := ">++<-";
    var v := ">.";
    var body := DoublingBody();
    assert u == [LOOP_START] + t + [LOOP_END] + v;
    DoublingBodyCompiles(t);
    LoopCompilesBody(t, v, [Op(Plus, 2)]);
    var acc := [Op(Plus, 2), Loop(body)];
    assert [Op(Plus, 2)] + [Loop(body)] == acc;
    NewRunStep(v, acc);
    NewRunStep(v[1..], acc + [Op(Next, 1)]);
    assert v[1..][1..] == [];
    assert acc + [Op(Next, 1)] + [Op(Output, 1)] == DoublingCode();
  }

  lemma DoublingBodyCompiles(t: seq<char>)
    requires t == ">++<-"
    ensures Balanced(t, 0)
    ensures Compile(t) == DoublingBody()
  {
    var n1 := [Op(Next, 1)];
    var n2 := [Op(Next, 1), Op(Plus, 2)];
    var n3 := [Op(Next, 1), Op(Plus, 2), Op(Previous, 1)];
    NewRunStep(t, []);
    assert [] + [Op(Next, 1)] == n1;
    NewRunStep(t[1..], n1);
    assert t[1..][1..] == t[2..];
    GrowRunStep(t[2..], n1, 1);
    assert t[2..][1..] == t[3..];
    NewRunStep(t[3..], n2);
    assert t[3..][1..] == t[4..];
    NewRunStep(t[4..], n3);
    assert t[4..][1..] == [];
    assert n1 + [Op(Plus, 1)] == [Op(Next, 1), Op(Plus, 1)];
    assert n1 + [Op(Plus, 2)] == n2;
    assert n2 + [Op(Previous, 1)] == n3;
    assert n3 + [Op(Minus, 1)] == DoublingBody();
    assert Balanced(t[4..], 0);
    assert Balanced(t[2..], 0);
  }

  /** The compiled doubling program, on any tape of at least two cells whose
      first two cells are zero and whose cursor is at 0, appends 4 to the
      output. */
  lemma DoublingRuns(st: State, fuel: nat)
    requires fuel >= 2
    requires |st.slots| >= 2 && st.index == 0 && st.slots[0] == 0 && st.slots[1] == 0
    ensures var o := Run(DoublingCode(), st, fuel);
      o.Done? && o.st.output == st.output + [4]
  {
    var body := DoublingBody();
    var tail := [Op(Next, 1), Op(Output, 1)];
    var rest := [Loop(body)] + tail;
    assert DoublingCode() == [Op(Plus, 2)] + rest;
    RunConcat([Op(Plus, 2)], rest, st, fuel);
    AddChangesOnlyCurrentCell(Plus, 2, st, fuel);
    var st1 := Run([Op(Plus, 2)], st, fuel).st;
    DoublingLoopRuns(st1, fuel);
    RunConcat([Loop(body)], tail, st1, fuel);
    assert [Loop(body)][0] == Loop(body) && [Loop(body)][1..] == [];
    NextAndPrint(RunLoop(body, st1, fuel).st, fuel);
  }

  /** `>.` from cell 0 prints the second cell. */
  lemma NextAndPrint(st: State, fuel: nat)
    requires |st.slots| >= 2 && st.index == 0
    ensures var o := Run([Op(Next, 1), Op(Output, 1)], st, fuel);
      o.Done? && o.st.output == st.output + [st.slots[1]]
  {
    assert [Op(Next, 1), Op(Output, 1)] == [Op(Next, 1)] + [Op(Output, 1)];
    RunConcat([Op(Next, 1)], [Op(Output, 1)], st, fuel);
    StepRight(st, fuel);
    PrintOne(st.(index := 1), fuel);
  }

  /** A single `>` from a cell that is not the last one (on a tape
      no longer than an `unsigned long` can count). */
  lemma StepRight(st: State, fuel: nat)
    requires st.index + 1 < |st.slots| && st.index + 1 < U64_LIMIT
    ensures Run([Op(Next, 1)], st, fuel) == Done(st.(index := st.index + 1))
  {
    NextMovesRight(1, st, fuel);
  }

  /** A single `.` appends the current cell to the output. */
  lemma PrintOne(st: State, fuel: nat)
    requires st.index < |st.slots|
    ensures var o := Run([Op(Output, 1)], st, fuel);
      o.Done? && o.st.output == st.output + [st.slots[st.index]]
  {
    OutputAppendsCell(1, st, fuel);
    var out := Run([Op(Output, 1)], st, fuel).st.output;
    assert out == out[..|st.output|] + [out[|st.output|]];
  }

  /** The loop of `++[>++<-]>.` runs its body twice, using 2 units of fuel,
      and leaves 0 in the first cell and 4 in the second. */
  lemma DoublingLoopRuns(st: State, fuel: nat)
    requires fuel >= 2
    requires |st.slots| >= 2 && st.index == 0 && st.slots[0] == 2 && st.slots[1] == 0
    ensures var o := RunLoop(DoublingBody(), st, fuel);
      && o.Done? && o.st.index == 0 && |o.st.slots| == |st.slots|
      && o.st.slots[1] == 4 && o.st.output == st.output
  {
    var body := DoublingBody();
    BodyPass(st, fuel - 1);
    var st2 := Run(body, st, fuel - 1).st;
    BodyPass(st2, fuel - 2);
    var st3 := Run(body, st2, fuel - 2).st;
    RunLoopStops(body, st3, fuel - 2);
    RunLoopIteration(body, st2, fuel - 1);
    RunLoopIteration(body, st, fuel);
  }

  /** One pass of the body `>++<-`: the first cell drops by one, the second
      grows by two, the cursor returns to the first cell. */
  lemma BodyPass(st: State, fuel: nat)
    requires |st.slots| >= 2 && st.index == 0 && 0 < st.slots[0] && st.slots[1] < 254
    ensures var o := Run(DoublingBody(), st, fuel);
      && o.Done? && o.st.index == 0 && |o.st.slots| == |st.slots|
      && o.st.slots[0] == st.slots[0] - 1 && o.st.slots[1] == st.slots[1] + 2
      && o.st.output == st.output
  {
    var body := DoublingBody();
    assert body == [body[0], body[1]] + [body[2], body[3]];
    RunConcat([body[0], body[1]], [body[2], body[3]], st, fuel);
    RightAndAdd(st, fuel);
    LeftAndSubtract(Run([body[0], body[1]], st, fuel).st, fuel);
  }

  /** `>++` from cell 0: the cursor moves to cell 1, which grows by two. */
  lemma RightAndAdd(st: State, fuel: nat)
    requires |st.slots| >= 2 && st.index == 0 && st.slots[1] < 254
    ensures var o := Run([Op(Next, 1), Op(Plus, 2)], st, fuel);
      && o.Done? && o.st.index == 1 && |o.st.slots| == |st.slots|
      && o.st.slots[0] == st.slots[0] && o.st.slots[1] == st.slots[1] + 2
      && o.st.output == st.output
  {
    assert [Op(Next, 1), Op(Plus, 2)] == [Op(Next, 1)] + [Op(Plus, 2)];
    RunConcat([Op(Next, 1)], [Op(Plus, 2)], st, fuel);
    NextMovesRight(1, st, fuel);
    var a := Run([Op(Next, 1)], st, fuel).st;
    assert a == st.(index := 1);
    AddChangesOnlyCurrentCell(Plus, 2, a, fuel);
  }

  /** `<-` from cell 1: the cursor returns to cell 0, which drops by one. */
  lemma LeftAndSubtract(st: State, fuel: nat)
    requires |st.slots| >= 2 && st.index == 1 && 0 < st.slots[0]
    ensures var o := Run([Op(Previous, 1), Op(Minus, 1)], st, fuel);
      && o.Done? && o.st.index == 0 && |o.st.slots| == |st.slots|
      && o.st.slots[0] == st.slots[0] - 1 && o.st.slots[1] == st.slots[1]
      && o.st.output == st.output
  {
    assert [Op(Previous, 1), Op(Minus, 1)] == [Op(Previous, 1)] + [Op(Minus, 1)];
    RunConcat([Op(Previous, 1)], [Op(Minus, 1)], st, fuel);
    PreviousMovesLeft(1, st, fuel);
    var a := Run([Op(Previous, 1)], st, fuel).st;
    assert a == st.(index := 0);
    AddChangesOnlyCurrentCell(Minus, 1, a, fuel);
  }

  /** `<` on a fresh tape is an underflow: status 1, nothing printed. */
  lemma UnderflowAtStart(fuel: nat)
    ensures Compile("<") == [Op(Previous, 1)]
    ensures Run(Compile("<"), Fresh([]), fuel) == Failed(SlotsUnderflow, Fresh([]))
    ensures BfExecute(Compile("<"), Fresh([]), fuel) == Exited(1)
  {
    UnderflowCompiles("<");
    PreviousMovesLeft(1, Fresh([]), fuel);
  }

  lemma UnderflowCompiles(s: seq<char>)
    requires s == "<"
    ensures Compile(s) == [Op(Previous, 1)]
  {
    NewRunStep(s, []);
    assert [] + [Op(Previous, 1)] == [Op(Previous, 1)];
    assert s[1..] == [];
  }

  /** `capacity` copies of `>` on a tape of `capacity` cells overflow. */
  lemma OverflowAfterCapacityMoves(capacity: U64, fuel: nat)
    requires capacity >= 1
    ensures var o := Run(Compile(Repeat(NEXT, capacity)), CreateState(capacity, []), fuel);
      o.Failed? && o.fault == SlotsOverflow && o.st.output == []
  {
    RunCompilesToOneNode(NEXT, capacity);
    NextMovesRight(capacity, CreateState(capacity, []), fuel);
  }

  /** On a tape of size 0, which `bf_create_state` accepts, the first
      cell instruction touches a cell off the tape without any `<`. */
  lemma EmptyTapeAccess(k: Kind, n: nat, input: seq<Byte>, fuel: nat)
    requires k != Next && k != Previous
    ensures Run([Op(k, n)], CreateState(0, input), fuel) == Failed(OutOfBounds, CreateState(0, input))
    ensures BfExecute([Op(k, n)], CreateState(0, input), fuel) == Undefined
  {
    RunSingle(Op(k, n), CreateState(0, input), fuel);
  }

  /** `,.` with no input stores `(char)EOF` and prints the byte 255. */
  lemma ReadAtEndOfInput(fuel: nat)
    ensures Compile(",.") == [Op(Input, 1), Op(Output, 1)]
    ensures var o := Run(Compile(",."), Fresh([]), fuel);
      o.Done? && o.st.output == [EOF_BYTE]
  {
    ReadAtEndCompiles(",.");
    var code := [Op(Input, 1), Op(Output, 1)];
    assert [Op(Input, 1)] + [Op(Output, 1)] == code;
    var st := Fresh([]);
    RunConcat([code[0]], [code[1]], st, fuel);
    InputKeepsLastByte(1, st, fuel);
    var st1 := Run([code[0]], st, fuel).st;
    OutputAppendsCell(1, st1, fuel);
  }

  lemma ReadAtEndCompiles(s: seq<char>)
    requires s == ",."
    ensures Compile(s) == [Op(Input, 1), Op(Output, 1)]
  {
    NewRunStep(s, []);
    assert [] + [Op(Input, 1)] == [Op(Input, 1)];
    NewRunStep(s[1..], [Op(Input, 1)]);
    assert s[1..][1..] == [];
    assert [Op(Input, 1)] + [Op(Output, 1)] == [Op(Input, 1), Op(Output, 1)];
  }

  /** `><<+`: the `<` run of length 2 starts from cursor 1, so the zero test
      lets it through and the cursor wraps to 2^64 - 1; the following `+`
      then addresses a cell outside the tape although neither cursor check
      fired. */
  lemma WrappedCursorEscapesChecks(fuel: nat)
    ensures Compile("><<+") == [Op(Next, 1), Op(Previous, 2), Op(Plus, 1)]
    ensures var o := Run(Compile("><<+"), Fresh([]), fuel);
      o.Failed? && o.fault == OutOfBounds && o.st.index == U64_LIMIT - 1
    ensures BfExecute(Compile("><<+"), Fresh([]), fuel) == Undefined
  {
    WrappedCursorCompiles("><<+");
    WrappedCursorRuns(Fresh([]), fuel);
  }

  lemma WrappedCursorCompiles(s: seq<char>)
    requires s == "><<+"
    ensures Compile(s) == [Op(Next, 1), Op(Previous, 2), Op(Plus, 1)]
  {
    var n2 := [Op(Next, 1), Op(Previous, 2)];
    NewRunStep(s, []);
    assert [] + [Op(Next, 1)] == [Op(Next, 1)];
    NewRunStep(s[1..], [Op(Next, 1)]);
    assert s[1..][1..] == s[2..];
    GrowRunStep(s[2..], [Op(Next, 1)], 1);
    assert s[2..][1..] == s[3..];
    NewRunStep(s[3..], n2);
    assert s[3..][1..] == [];
    assert [Op(Next, 1)] + [Op(Previous, 1)] == [Op(Next, 1), Op(Previous, 1)];
    assert [Op(Next, 1)] + [Op(Previous, 2)] == n2;
    assert n2 + [Op(Plus, 1)] == [Op(Next, 1), Op(Previous, 2), Op(Plus, 1)];
  }

  /** On any tape of at least two cells (and, as `slot_size` is an
      `unsigned long`, fewer than 2^64) with the cursor at 0, `><<+` ends
      with the cursor wrapped to 2^64 - 1 and a cell access outside the tape. */
  lemma WrappedCursorRuns(st: State, fuel: nat)
    requires 2 <= |st.slots| < U64_LIMIT && st.index == 0
    ensures var o := Run([Op(Next, 1), Op(Previous, 2), Op(Plus, 1)], st, fuel);
      o.Failed? && o.fault == OutOfBounds && o.st.index == U64_LIMIT - 1
  {
    var code := [Op(Next, 1), Op(Previous, 2), Op(Plus, 1)];
    assert code == [code[0]] + ([code[1]] + [code[2]]);
    RunConcat([code[0]], [code[1]] + [code[2]], st, fuel);
    NextMovesRight(1, st, fuel);
    var st1 := st.(index := 1);
    RunConcat([code[1]], [code[2]], st1, fuel);
    PreviousMovesLeft(2, st1, fuel);
    var st2 := st1.(index := U64_LIMIT - 1);
    RunSingle(code[2], st2, fuel);
  }

  /** Compilation quirks: foreign characters do not split a run, an
      unmatched `]` silently ends the program, and an unclosed `[` takes
      the rest of the source as its body. */
  lemma CompileQuirks()
    ensures Compile("+ +\n+") == [Op(Plus, 3)]
    ensures Compile("+-") == [Op(Plus, 1), Op(Minus, 1)]
    ensures Compile("+]+++") == [Op(Plus, 1)]
    ensures Compile("[+") == [Loop([Op(Plus, 1)])]
  {
    assert Balanced("+", 0);
    UnmatchedCloseStops("+", "+++");
    assert "+" + [LOOP_END] + "+++" == "+]+++";
    UnclosedLoopRunsToEnd("+", []);
    assert [LOOP_START] + "+" == "[+";
  }

  /** Unclosed loops nest: in `[[+` each `[` takes the rest of the source
      as its body. */
  lemma NestedUnclosedLoops()
    ensures Compile("[[+") == [Loop([Loop([Op(Plus, 1)])])]
  {
    CompileQuirks();
    assert NoStrayClose("[+", 0);
    UnclosedLoopRunsToEnd("[+", []);
    assert [LOOP_START] + "[+" == "[[+";
  }
}
