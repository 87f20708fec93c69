/** The compiler `bf_compile` (src/brainfuck.c): one left-to-right pass over
    the source that skips foreign characters, compresses runs of identical
    instructions into one node, compiles each `[` body recursively and ends
    the current level at `]` or at end of input. */
module Compiler {
  import opened Tokens
  import opened Code

  /** The source with every character outside the eight tokens removed. */
  function TokensOnly(s: seq<char>): seq<char> {
    if |s| == 0 then []
    else if IsToken(s[0]) then [s[0]] + TokensOnly(s[1..])
    else TokensOnly(s[1..])
  }

  /** Appends one instruction of kind `k` to a level: the last node grows by
      one when it is a run of the same kind, otherwise a new run of length 1
      is added. */
  function Merge(code: seq<Node>, k: Kind): seq<Node> {
    if |code| > 0 && code[|code| - 1].Op? && code[|code| - 1].kind == k then
      code[|code| - 1 := Op(k, code[|code| - 1].repeat + 1)]
    else
      code + [Op(k, 1)]
  }

  /** Merging only touches the end of a level: the result ends with a run of
      kind `k`, which either extends the old last run by one or follows all
      old nodes as a new run of length 1. */
  lemma MergeShape(code: seq<Node>, k: Kind)
    ensures var r := Merge(code, k);
      && |r| > 0 && r[|r| - 1].Op? && r[|r| - 1].kind == k
      && (|code| > 0 && SameRun(code[|code| - 1], Op(k, 1)) ==>
            |r| == |code| && r[..|r| - 1] == code[..|code| - 1]
            && r[|r| - 1].repeat == code[|code| - 1].repeat + 1)
      && (!(|code| > 0 && SameRun(code[|code| - 1], Op(k, 1))) ==>
            r == code + [Op(k, 1)])
  {
    var r := Merge(code, k);
    if |code| > 0 && SameRun(code[|code| - 1], Op(k, 1)) {
      assert r[..|r| - 1] == code[..|code| - 1];
    }
  }

  /** Merging adds exactly one token to the text of a level. */
  lemma MergeText(code: seq<Node>, k: Kind)
    ensures Text(Merge(code, k)) == Text(code) + [TokenOf(k)]
  {
    var r := Merge(code, k);
    if |code| > 0 && code[|code| - 1].Op? && code[|code| - 1].kind == k {
      var front := code[..|code| - 1];
      var n := code[|code| - 1].repeat;
      assert r[..|r| - 1] == front;
      assert Repeat(TokenOf(k), n + 1) == Repeat(TokenOf(k), n) + [TokenOf(k)];
    } else {
      assert r[..|r| - 1] == code;
      assert Repeat(TokenOf(k), 1) == [TokenOf(k)];
    }
  }

  /** Merging keeps a level well-formed: a same-kind run grows, and a new
      run never follows a run of its own kind. */
  lemma MergeWellFormed(code: seq<Node>, k: Kind)
    requires WellFormed(code)
    ensures WellFormed(Merge(code, k))
  {
    var r := Merge(code, k);
    if |code| > 0 && code[|code| - 1].Op? && code[|code| - 1].kind == k {
      var front := code[..|code| - 1];
      assert WellFormed(front) by {
        forall i, j | 0 <= i < j < |front| && j == i + 1 ensures !SameRun(front[i], front[j]) {
          assert front[i] == code[i] && front[j] == code[j];
        }
      }
      WellFormedSnoc(front, Op(k, code[|code| - 1].repeat + 1));
    } else {
      WellFormedSnoc(code, Op(k, 1));
    }
  }

  /** The two ways `Merge` can go, as equations. */
  lemma MergeCases(front: seq<Node>, k: Kind, m: nat, code: seq<Node>)
    ensures Merge(front + [Op(k, m)], k) == front + [Op(k, m + 1)]
    ensures !(|code| > 0 && SameRun(code[|code| - 1], Op(k, 1))) ==>
      Merge(code, k) == code + [Op(k, 1)]
  {
    var c := front + [Op(k, m)];
    assert c[|c| - 1 := Op(k, m + 1)] == front + [Op(k, m + 1)];
  }

  /** One level of `bf_compile`: compiles `s` onto the nodes `acc` already
      built at this level and returns the level's nodes together with the
      input left after the `]` that closed the level (empty when the level
      ran to end of input). */
  function CompileLevel(s: seq<char>, acc: seq<Node>): (r: (seq<Node>, seq<char>))
    ensures |r.1| <= |s|
    decreases |s|
  {
    if |s| == 0 then (acc, [])
    else
      var c := s[0];
      if IsOpToken(c) then CompileLevel(s[1..], Merge(acc, KindOf(c)))
      else if c == LOOP_START then
        var inner := CompileLevel(s[1..], []);
        CompileLevel(inner.1, acc + [Loop(inner.0)])
      else if c == LOOP_END then (acc, s[1..])
      else CompileLevel(s[1..], acc)
  }

  /** Every level the compiler builds is well-formed: runs have length at
      least 1 and no two adjacent runs share a kind, at every depth. */
  lemma {:induction false} CompileLevelWellFormed(s: seq<char>, acc: seq<Node>)
    requires WellFormed(acc)
    ensures WellFormed(CompileLevel(s, acc).0)
    decreases |s|
  {
    if |s| > 0 {
      var c := s[0];
      if IsOpToken(c) {
        MergeWellFormed(acc, KindOf(c));
        CompileLevelWellFormed(s[1..], Merge(acc, KindOf(c)));
      } else if c == LOOP_START {
        var inner := CompileLevel(s[1..], []);
        CompileLevelWellFormed(s[1..], []);
        WellFormedSnoc(acc, Loop(inner.0));
        CompileLevelWellFormed(inner.1, acc + [Loop(inner.0)]);
        LoopStartStep(s, acc);
      } else if c != LOOP_END {
        CompileLevelWellFormed(s[1..], acc);
      }
    }
  }

  /** One unfolding of `CompileLevel` at an instruction token. */
  lemma OpStep(s: seq<char>, acc: seq<Node>)
    requires |s| > 0 && IsOpToken(s[0])
    ensures CompileLevel(s, acc) == CompileLevel(s[1..], Merge(acc, KindOf(s[0])))
  {
  }

  /** An instruction token that differs from the last run starts a new run. */
  lemma NewRunStep(s: seq<char>, acc: seq<Node>)
    requires |s| > 0 && IsOpToken(s[0])
    requires |acc| == 0 || !SameRun(acc[|acc| - 1], Op(KindOf(s[0]), 1))
    ensures CompileLevel(s, acc) == CompileLevel(s[1..], acc + [Op(KindOf(s[0]), 1)])
  {
    OpStep(s, acc);
    MergeCases([], KindOf(s[0]), 0, acc);
  }

  /** An instruction token equal to the last run lengthens it by one. */
  lemma GrowRunStep(s: seq<char>, front: seq<Node>, m: nat)
    requires |s| > 0 && IsOpToken(s[0])
    ensures CompileLevel(s, front + [Op(KindOf(s[0]), m)])
         == CompileLevel(s[1..], front + [Op(KindOf(s[0]), m + 1)])
  {
    OpStep(s, front + [Op(KindOf(s[0]), m)]);
    MergeCases(front, KindOf(s[0]), m, []);
  }

  /** One unfolding of `CompileLevel` at a `[`. */
  lemma LoopStartStep(s: seq<char>, acc: seq<Node>)
    requires |s| > 0 && s[0] == LOOP_START
    ensures var inner := CompileLevel(s[1..], []);
      CompileLevel(s, acc) == CompileLevel(inner.1, acc + [Loop(inner.0)])
  {
  }

  /** The compiled program: the top level of `bf_compile`. Whatever follows
      an unmatched top-level `]` is discarded and no error is recorded. */
  function Compile(s: seq<char>): (code: seq<Node>)
    ensures WellFormed(code)
  {
    CompileLevelWellFormed(s, []);
    CompileLevel(s, []).0
  }

  /** `Balanced(s, depth)`: scanning `s` with `depth` brackets already open
      never closes a bracket that is not open and ends with all of them
      closed. `Balanced(s, 0)` is ordinary bracket balance. */
  predicate Balanced(s: seq<char>, depth: nat)
    decreases |s|
  {
    if |s| == 0 then depth == 0
    else if s[0] == LOOP_START then Balanced(s[1..], depth + 1)
    else if s[0] == LOOP_END then depth > 0 && Balanced(s[1..], depth - 1)
    else Balanced(s[1..], depth)
  }

  /** Characters outside the alphabet are invisible to the compiler: they
      neither split a run nor end one. */
  lemma {:induction false} CompileLevelIgnoresNonTokens(s: seq<char>, acc: seq<Node>)
    ensures CompileLevel(TokensOnly(s), acc)
         == (CompileLevel(s, acc).0, TokensOnly(CompileLevel(s, acc).1))
    decreases |s|
  {
    if |s| > 0 {
      var c := s[0];
      if IsToken(c) {
        assert TokensOnly(s)[0] == c && TokensOnly(s)[1..] == TokensOnly(s[1..]);
      } else {
        assert TokensOnly(s) == TokensOnly(s[1..]);
      }
      if IsOpToken(c) {
        CompileLevelIgnoresNonTokens(s[1..], Merge(acc, KindOf(c)));
      } else if c == LOOP_START {
        var inner := CompileLevel(s[1..], []);
        CompileLevelIgnoresNonTokens(s[1..], []);
        CompileLevelIgnoresNonTokens(inner.1, acc + [Loop(inner.0)]);
      } else if c == LOOP_END {
      } else {
        CompileLevelIgnoresNonTokens(s[1..], acc);
      }
    }
  }

  lemma CompileIgnoresNonTokens(s: seq<char>)
    ensures Compile(TokensOnly(s)) == Compile(s)
  {
    CompileLevelIgnoresNonTokens(s, []);
  }

  /** Text of one level. At depth 0 the level consumes all of a balanced
      input and its nodes spell the input's tokens; at depth `d > 0` it stops
      at the `]` that closes it, and its nodes, that `]` and the remaining
      tokens spell the input's tokens, the remainder being balanced at
      depth `d - 1`. */
  lemma {:induction false} CompileLevelText(s: seq<char>, acc: seq<Node>, depth: nat)
    requires Balanced(s, depth)
    ensures depth == 0 ==>
      && CompileLevel(s, acc).1 == []
      && Text(CompileLevel(s, acc).0) == Text(acc) + TokensOnly(s)
    ensures depth > 0 ==>
      && Balanced(CompileLevel(s, acc).1, depth - 1)
      && Text(CompileLevel(s, acc).0) + [LOOP_END] + TokensOnly(CompileLevel(s, acc).1)
         == Text(acc) + TokensOnly(s)
    decreases |s|
  {
    if |s| > 0 {
      var c := s[0];
      var r := CompileLevel(s, acc);
      if IsOpToken(c) {
        var acc' := Merge(acc, KindOf(c));
        assert r == CompileLevel(s[1..], acc');
        CompileLevelText(s[1..], acc', depth);
        assert TokensOnly(s) == [c] + TokensOnly(s[1..]);
        MergeText(acc, KindOf(c));
      } else if c == LOOP_START {
        var inner := CompileLevel(s[1..], []);
        LoopStartText(s, acc, depth);
      } else if c == LOOP_END {
        assert TokensOnly(s) == [c] + TokensOnly(s[1..]);
      } else {
        assert r == CompileLevel(s[1..], acc);
        CompileLevelText(s[1..], acc, depth);
      }
    }
  }

  /** The `[` case of `CompileLevelText`. */
  lemma {:induction false} LoopStartText(s: seq<char>, acc: seq<Node>, depth: nat)
    requires |s| > 0 && s[0] == LOOP_START && Balanced(s, depth)
    ensures depth == 0 ==>
      && CompileLevel(s, acc).1 == []
      && Text(CompileLevel(s, acc).0) == Text(acc) + TokensOnly(s)
    ensures depth > 0 ==>
      && Balanced(CompileLevel(s, acc).1, depth - 1)
      && Text(CompileLevel(s, acc).0) + [LOOP_END] + TokensOnly(CompileLevel(s, acc).1)
         == Text(acc) + TokensOnly(s)
    decreases |s|, 0
  {
    var inner := CompileLevel(s[1..], []);
    var body, r1 := inner.0, inner.1;
    var acc' := acc + [Loop(body)];
    LoopStartStep(s, acc);
    CompileLevelText(s[1..], [], depth + 1);
    assert Text([]) == [];
    CompileLevelText(r1, acc', depth);
    LoopNodeText(acc, body);
    assert TokensOnly(s) == [LOOP_START] + TokensOnly(s[1..]);
    TextJoin(Text(acc), Text(body), TokensOnly(r1), TokensOnly(s[1..]));
  }

  /** Appending a loop node appends its bracketed body text. */
  lemma LoopNodeText(acc: seq<Node>, body: seq<Node>)
    ensures Text(acc + [Loop(body)]) == Text(acc) + ([LOOP_START] + Text(body) + [LOOP_END])
  {
    TextAppend(acc, [Loop(body)]);
    assert Text([Loop(body)]) == Text([]) + NodeText(Loop(body));
  }

  /** The text bookkeeping of the `[` case, on plain sequences. */
  lemma TextJoin(a: seq<char>, b: seq<char>, r: seq<char>, t: seq<char>)
    requires b + [LOOP_END] + r == t
    ensures a + ([LOOP_START] + b + [LOOP_END]) + r == a + ([LOOP_START] + t)
  {
  }

  /** Round trip: expanding every node of a balanced source's compiled code
      back into tokens gives the source's tokens. */
  lemma CompileRoundTrip(s: seq<char>)
    requires Balanced(s, 0)
    ensures Text(Compile(s)) == TokensOnly(s)
  {
    CompileLevelText(s, [], 0);
  }

  /** A balanced prefix is compiled the same whatever follows it: at depth
      0 the level simply continues with the suffix; at depth `d > 0` the
      level closes inside the prefix and the suffix is left unread. */
  lemma {:induction false} CompileLevelConcat(t: seq<char>, u: seq<char>, acc: seq<Node>, depth: nat)
    requires Balanced(t, depth)
    ensures depth == 0 ==>
      CompileLevel(t + u, acc) == CompileLevel(u, CompileLevel(t, acc).0)
    ensures depth > 0 ==>
      CompileLevel(t + u, acc) == (CompileLevel(t, acc).0, CompileLevel(t, acc).1 + u)
    decreases |t|
  {
    if |t| == 0 {
      assert t + u == u;
    } else {
      var c := t[0];
      assert (t + u)[0] == c && (t + u)[1..] == t[1..] + u;
      if IsOpToken(c) {
        CompileLevelConcat(t[1..], u, Merge(acc, KindOf(c)), depth);
      } else if c == LOOP_START {
        var inner := CompileLevel(t[1..], []);
        CompileLevelConcat(t[1..], u, [], depth + 1);
        CompileLevelText(t[1..], [], depth + 1);
        CompileLevelConcat(inner.1, u, acc + [Loop(inner.0)], depth);
      } else if c == LOOP_END {
      } else {
        CompileLevelConcat(t[1..], u, acc, depth);
      }
    }
  }

  /** A `[` yields a loop node whose body is the compiled text up to its
      matching `]`; compilation of the level then resumes after that `]`. */
  lemma LoopCompilesBody(t: seq<char>, v: seq<char>, acc: seq<Node>)
    requires Balanced(t, 0)
    ensures CompileLevel([LOOP_START] + t + [LOOP_END] + v, acc)
         == CompileLevel(v, acc + [Loop(Compile(t))])
  {
    var s := [LOOP_START] + t + [LOOP_END] + v;
    var tail := [LOOP_END] + v;
    assert s[0] == LOOP_START;
    assert s[1..] == t + tail;
    CompileLevelConcat(t, tail, [], 0);
    assert tail[0] == LOOP_END && tail[1..] == v;
    assert CompileLevel(tail, Compile(t)) == (Compile(t), v);
    assert CompileLevel(s[1..], []) == (Compile(t), v);
    LoopStartStep(s, acc);
  }

  /** An unmatched `]` at the top level stops compilation: everything after
      it is discarded, and nothing signals an error. */
  lemma UnmatchedCloseStops(t: seq<char>, v: seq<char>)
    requires Balanced(t, 0)
    ensures Compile(t + [LOOP_END] + v) == Compile(t)
  {
    CompileLevelConcat(t, [LOOP_END] + v, [], 0);
    assert t + [LOOP_END] + v == t + ([LOOP_END] + v);
    assert ([LOOP_END] + v)[1..] == v;
  }

  /** `NoStrayClose(s, depth)`: scanning `s` with `depth` brackets already
      open never meets a `]` without an open `[`; brackets may stay open at
      the end. */
  predicate NoStrayClose(s: seq<char>, depth: nat)
    decreases |s|
  {
    if |s| == 0 then true
    else if s[0] == LOOP_START then NoStrayClose(s[1..], depth + 1)
    else if s[0] == LOOP_END then depth > 0 && NoStrayClose(s[1..], depth - 1)
    else NoStrayClose(s[1..], depth)
  }

  /** Without a stray `]`, a level at depth 0 reads to the end of the input,
      and a level at depth `d > 0` leaves a remainder without a stray `]`
      at depth `d - 1`. */
  lemma {:induction false} NoStrayCloseRest(s: seq<char>, acc: seq<Node>, depth: nat)
    requires NoStrayClose(s, depth)
    ensures depth == 0 ==> CompileLevel(s, acc).1 == []
    ensures depth > 0 ==> NoStrayClose(CompileLevel(s, acc).1, depth - 1)
    decreases |s|
  {
    if |s| > 0 {
      var c := s[0];
      if IsOpToken(c) {
        NoStrayCloseRest(s[1..], Merge(acc, KindOf(c)), depth);
      } else if c == LOOP_START {
        var inner := CompileLevel(s[1..], []);
        NoStrayCloseRest(s[1..], [], depth + 1);
        NoStrayCloseRest(inner.1, acc + [Loop(inner.0)], depth);
        LoopStartStep(s, acc);
      } else if c != LOOP_END {
        NoStrayCloseRest(s[1..], acc, depth);
      }
    }
  }

  /** An unclosed `[` runs to the end of the input: when no `]` follows
      without an open `[`, its body is the whole rest of the source (inner
      loops may be unclosed too), and no error is signalled. */
  lemma UnclosedLoopRunsToEnd(t: seq<char>, acc: seq<Node>)
    requires NoStrayClose(t, 0)
    ensures CompileLevel([LOOP_START] + t, acc) == (acc + [Loop(Compile(t))], [])
  {
    assert ([LOOP_START] + t)[1..] == t;
    NoStrayCloseRest(t, [], 0);
  }

  /** Run-length compression: `n` consecutive copies of an instruction
      token, read after a run of the same kind, lengthen that run by `n`;
      whatever follows is compiled onto the lengthened run. */
  lemma {:induction false} RunExtends(c: char, n: nat, front: seq<Node>, m: nat, rest: seq<char>)
    requires IsOpToken(c)
    ensures CompileLevel(Repeat(c, n) + rest, front + [Op(KindOf(c), m)])
         == CompileLevel(rest, front + [Op(KindOf(c), m + n)])
    decreases n
  {
    if n == 0 {
      assert Repeat(c, n) + rest == rest;
    } else {
      var s := Repeat(c, n) + rest;
      RepeatCons(c, n);
      assert s == [c] + (Repeat(c, n - 1) + rest);
      assert s[0] == c && s[1..] == Repeat(c, n - 1) + rest;
      GrowRunStep(s, front, m);
      RunExtends(c, n - 1, front, m + 1, rest);
    }
  }

  /** A maximal run of `n >= 1` identical instruction tokens compiles to a
      single node with `repeat == n`. */
  lemma RunCompilesToOneNode(c: char, n: nat)
    requires IsOpToken(c) && n >= 1
    ensures Compile(Repeat(c, n)) == [Op(KindOf(c), n)]
  {
    var s := Repeat(c, n);
    RepeatCons(c, n);
    assert s[0] == c && s[1..] == Repeat(c, n - 1) + [];
    NewRunStep(s, []);
    assert [] + [Op(KindOf(c), 1)] == [Op(KindOf(c), 1)];
    RunExtends(c, n - 1, [], 1, []);
    assert [] + [Op(KindOf(c), n)] == [Op(KindOf(c), n)];
  }

  lemma {:induction false} RepeatCons<T>(x: T, n: nat)
    requires n >= 1
    ensures Repeat(x, n) == [x] + Repeat(x, n - 1)
    decreases n
  {
    if n > 1 {
      RepeatCons(x, n - 1);
    }
  }
}
