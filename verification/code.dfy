/** The compiled program: a tree of instruction nodes (`BFInstruction` with its
    `next` list and `child` body), its structural invariant, and the token
    text a tree stands for. */
module Code {
  import opened Tokens

  /** `Op(kind, repeat)` is a run of `repeat` identical instructions;
      `Loop(body)` is a `[` node whose child list is `body`. Only loop nodes
      own a body, so a non-loop node has no child by construction. */
  datatype Node = Op(kind: Kind, repeat: nat) | Loop(body: seq<Node>)

  /** The structural invariant of compiled code: every run has length at
      least 1, no two adjacent nodes are runs of the same kind, and the same
      holds inside every loop body. */
  ghost predicate WellFormed(code: seq<Node>)
    decreases code
  {
    && (forall i :: 0 <= i < |code| ==> NodeWellFormed(code[i]))
    && (forall i, j :: 0 <= i < j < |code| && j == i + 1 ==> !SameRun(code[i], code[j]))
  }

  ghost predicate NodeWellFormed(n: Node)
    decreases n
  {
    match n
    case Op(_, repeat) => repeat >= 1
    case Loop(body) => WellFormed(body)
  }

  /** Two nodes that the compiler would have merged into one. */
  predicate SameRun(a: Node, b: Node) {
    a.Op? && b.Op? && a.kind == b.kind
  }

  /** Appending a well-formed node that does not continue the last run keeps
      a sequence well-formed. */
  lemma WellFormedSnoc(code: seq<Node>, n: Node)
    requires WellFormed(code) && NodeWellFormed(n)
    requires |code| == 0 || !SameRun(code[|code| - 1], n)
    ensures WellFormed(code + [n])
  {
    var r := code + [n];
    forall i, j | 0 <= i < j < |r| && j == i + 1 ensures !SameRun(r[i], r[j]) {
      if j < |code| {
        assert r[i] == code[i] && r[j] == code[j];
      }
    }
  }

  function Repeat<T>(x: T, n: nat): (r: seq<T>)
    ensures |r| == n
    ensures forall i :: 0 <= i < n ==> r[i] == x
  {
    if n == 0 then [] else Repeat(x, n - 1) + [x]
  }

  /** The token text a code sequence stands for: each run expands to `repeat`
      copies of its token, each loop to its body between brackets. */
  function Text(code: seq<Node>): seq<char>
    decreases code
  {
    if |code| == 0 then []
    else Text(code[..|code| - 1]) + NodeText(code[|code| - 1])
  }

  function NodeText(n: Node): seq<char>
    decreases n
  {
    match n
    case Op(k, repeat) => Repeat(TokenOf(k), repeat)
    case Loop(body) => [LOOP_START] + Text(body) + [LOOP_END]
  }

  lemma {:induction false} TextAppend(a: seq<Node>, b: seq<Node>)
    ensures Text(a + b) == Text(a) + Text(b)
    decreases |b|
  {
    if |b| == 0 {
      assert a + b == a;
    } else {
      var b' := b[..|b| - 1];
      assert (a + b)[..|a + b| - 1] == a + b';
      assert (a + b)[|a + b| - 1] == b[|b| - 1];
      TextAppend(a, b');
    }
  }
}
