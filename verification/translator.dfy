/**
 The translator (`Program::load_it_up`): one left-to-right pass over the source
 text that drops comments, keeps a stack of the positions of open loops, and
 patches each `StartLoop` placeholder when its `]` arrives.
 */
module Translator {
  import opened Operations
  import opened Brackets

  /** A `]` with no open `[` before it; `position` indexes the source text.
      The program panics here (`pop().unwrap()` on an empty stack). */
  datatype Error = UnmatchedEndLoop(position: nat)

  datatype Result = Ok(ops: seq<Operation>) | Err(error: Error)

  /** `op` is the operation the command character `c` becomes, jump targets aside. */
  predicate Agrees(op: Operation, c: char) {
    match op
    case IncrementPtr => c == '>'
    case DecrementPtr => c == '<'
    case IncrementData => c == '+'
    case DecrementData => c == '-'
    case PrintData => c == '.'
    case StartLoop(_) => c == '['
    case EndLoop(_) => c == ']'
  }

  /** The operation for one of the five commands without a jump target
      (src/main.rs:28-32). */
  function SimpleOperation(c: char): (op: Operation)
    requires IsCommand(c) && c != '[' && c != ']'
    ensures Agrees(op, c) && !op.StartLoop? && !op.EndLoop?
  {
    match c
    case '>' => IncrementPtr
    case '<' => DecrementPtr
    case '+' => IncrementData
    case '-' => DecrementData
    case '.' => PrintData
  }

  /** `ops` is the translation of the command sequence `cmds`: one operation per
      command, in order, every `EndLoop` naming the `[` it closes, and every
      `StartLoop` naming the `]` that closes it, or keeping the placeholder 0
      when nothing closes it. */
  predicate Translates(cmds: string, ops: seq<Operation>) {
    && |ops| == |cmds|
    && (forall i :: 0 <= i < |ops| ==> Agrees(ops[i], cmds[i]))
    && (forall e :: 0 <= e < |ops| && ops[e].EndLoop? ==> Closes(cmds, ops[e].start, e))
    && (forall s :: 0 <= s < |ops| && ops[s].StartLoop? ==>
          Closes(cmds, s, ops[s].end) || (Unclosed(cmds, s) && ops[s].end == 0))
  }

  /** No prefix of the first `n` commands closes more loops than it opens. */
  predicate NonNegative(cmds: string, n: nat)
    requires n <= |cmds|
  {
    forall k :: 0 <= k <= n ==> Level(cmds, k) >= 0
  }

  /** The operations translated so far match their command characters. */
  predicate AgreesSoFar(cmds: string, ops: seq<Operation>)
    requires |ops| <= |cmds|
  {
    forall i :: 0 <= i < |ops| ==> Agrees(ops[i], cmds[i])
  }

  /** `stack` lists, innermost last, the positions of the `[` still open after
      `|ops|` commands; each still holds the placeholder `StartLoop(0)`. */
  predicate StackOk(cmds: string, ops: seq<Operation>, stack: seq<nat>)
    requires |ops| <= |cmds|
  {
    && Level(cmds, |ops|) == |stack|
    && forall j :: 0 <= j < |stack| ==>
         && stack[j] < |ops|
         && ops[stack[j]] == StartLoop(0)
         && Level(cmds, stack[j]) == j
  }

  /** Every `EndLoop` translated so far names the `[` it closes. */
  predicate EndsOk(cmds: string, ops: seq<Operation>)
    requires |ops| <= |cmds|
  {
    forall e :: 0 <= e < |ops| && ops[e].EndLoop? ==> Closes(cmds, ops[e].start, e)
  }

  /** The `[` at `s` has not been closed within the first `n` commands. */
  predicate OpenSoFar(cmds: string, n: nat, s: nat)
    requires s <= n <= |cmds|
  {
    forall k :: s < k <= n ==> Level(cmds, k) > Level(cmds, s)
  }

  /** Every `StartLoop` translated so far names the `]` that closes it, or keeps
      the placeholder while it is still open. */
  predicate StartsOk(cmds: string, ops: seq<Operation>)
    requires |ops| <= |cmds|
  {
    forall s: nat :: s < |ops| && ops[s].StartLoop? ==>
      Closes(cmds, s, ops[s].end) || (ops[s].end == 0 && OpenSoFar(cmds, |ops|, s))
  }

  /** The state of the scan after the first `|ops|` commands of `cmds`. */
  predicate Pending(cmds: string, ops: seq<Operation>, stack: seq<nat>) {
    && |ops| <= |cmds|
    && NonNegative(cmds, |ops|)
    && AgreesSoFar(cmds, ops)
    && StackOk(cmds, ops, stack)
    && EndsOk(cmds, ops)
    && StartsOk(cmds, ops)
  }

  /** A command that does not lower the level keeps every open `[` open. */
  lemma StartsOkNotLower(cmds: string, ops: seq<Operation>, op: Operation)
    requires |ops| < |cmds| && StartsOk(cmds, ops)
    requires Level(cmds, |ops| + 1) >= Level(cmds, |ops|)
    requires !op.StartLoop? || (op == StartLoop(0) && Level(cmds, |ops| + 1) > Level(cmds, |ops|))
    ensures StartsOk(cmds, ops + [op])
  {
    var n := |ops|;
    var ops' := ops + [op];
    forall s: nat | s < n + 1 && ops'[s].StartLoop?
      ensures Closes(cmds, s, ops'[s].end) || (ops'[s].end == 0 && OpenSoFar(cmds, n + 1, s))
    {
      if s < n {
        assert ops'[s] == ops[s];
        if !Closes(cmds, s, ops[s].end) {
          assert OpenSoFar(cmds, n, s);
          assert Level(cmds, n) > Level(cmds, s);
        }
      }
    }
  }

  /** Appending an operation that is not an `EndLoop` keeps every `EndLoop` closed. */
  lemma EndsOkAppend(cmds: string, ops: seq<Operation>, op: Operation)
    requires |ops| < |cmds| && EndsOk(cmds, ops) && !op.EndLoop?
    ensures EndsOk(cmds, ops + [op])
  {
    var ops' := ops + [op];
    forall e | 0 <= e < |ops'| && ops'[e].EndLoop?
      ensures Closes(cmds, ops'[e].start, e)
    {
      assert ops'[e] == ops[e];
    }
  }

  lemma NonNegativeNext(cmds: string, n: nat)
    requires n < |cmds| && NonNegative(cmds, n) && Level(cmds, n + 1) >= 0
    ensures NonNegative(cmds, n + 1)
  {}

  lemma AgreesAppend(cmds: string, ops: seq<Operation>, op: Operation)
    requires |ops| < |cmds| && AgreesSoFar(cmds, ops) && Agrees(op, cmds[|ops|])
    ensures AgreesSoFar(cmds, ops + [op])
  {
    var ops' := ops + [op];
    forall i | 0 <= i < |ops'|
      ensures Agrees(ops'[i], cmds[i])
    {
      if i < |ops| {
        assert ops'[i] == ops[i];
      }
    }
  }

  /** A command that leaves the level alone leaves the stack alone. */
  lemma StackOkAppend(cmds: string, ops: seq<Operation>, stack: seq<nat>, op: Operation)
    requires |ops| < |cmds| && StackOk(cmds, ops, stack)
    requires Level(cmds, |ops| + 1) == Level(cmds, |ops|)
    ensures StackOk(cmds, ops + [op], stack)
  {
    var ops' := ops + [op];
    forall j | 0 <= j < |stack|
      ensures stack[j] < |ops'| && ops'[stack[j]] == StartLoop(0)
    {
      assert ops'[stack[j]] == ops[stack[j]];
    }
  }

  /** A `[` pushes its own position. */
  lemma StackOkPush(cmds: string, ops: seq<Operation>, stack: seq<nat>)
    requires |ops| < |cmds| && StackOk(cmds, ops, stack)
    requires Level(cmds, |ops| + 1) == Level(cmds, |ops|) + 1
    ensures StackOk(cmds, ops + [StartLoop(0)], stack + [|ops|])
  {
    var ops' := ops + [StartLoop(0)];
    var stack' := stack + [|ops|];
    forall j | 0 <= j < |stack'|
      ensures stack'[j] < |ops'| && ops'[stack'[j]] == StartLoop(0) && Level(cmds, stack'[j]) == j
    {
      if j < |stack| {
        assert stack'[j] == stack[j];
        assert ops'[stack[j]] == ops[stack[j]];
      }
    }
  }

  /** One of the five simple commands is appended as is (src/main.rs:28-32). */
  lemma AppendSimple(cmds: string, ops: seq<Operation>, stack: seq<nat>, op: Operation)
    requires Pending(cmds, ops, stack)
    requires |ops| < |cmds| && !op.StartLoop? && !op.EndLoop? && Agrees(op, cmds[|ops|])
    ensures Pending(cmds, ops + [op], stack)
  {
    var n := |ops|;
    assert Level(cmds, n + 1) == Level(cmds, n);
    NonNegativeNext(cmds, n);
    AgreesAppend(cmds, ops, op);
    StackOkAppend(cmds, ops, stack, op);
    EndsOkAppend(cmds, ops, op);
    StartsOkNotLower(cmds, ops, op);
  }

  /** `[` pushes its own position and appends the placeholder (src/main.rs:33-38). */
  lemma AppendOpen(cmds: string, ops: seq<Operation>, stack: seq<nat>)
    requires Pending(cmds, ops, stack)
    requires |ops| < |cmds| && cmds[|ops|] == '['
    ensures Pending(cmds, ops + [StartLoop(0)], stack + [|ops|])
  {
    var n := |ops|;
    assert Level(cmds, n + 1) == Level(cmds, n) + 1;
    NonNegativeNext(cmds, n);
    AgreesAppend(cmds, ops, StartLoop(0));
    StackOkPush(cmds, ops, stack);
    EndsOkAppend(cmds, ops, StartLoop(0));
    StartsOkNotLower(cmds, ops, StartLoop(0));
  }

  /** The innermost open `[` is the last open one: any other `[` still open
      comes before it, so it stays open once the innermost one is closed. */
  lemma InnermostIsLast(cmds: string, n: nat, s: nat, t: nat)
    requires s < n < |cmds| && t < n && t != s
    requires OpenSoFar(cmds, n, s) && OpenSoFar(cmds, n, t)
    requires Level(cmds, n) == Level(cmds, s) + 1
    requires Level(cmds, n + 1) == Level(cmds, s)
    ensures OpenSoFar(cmds, n + 1, t)
  {
    if t < s {
      assert Level(cmds, s) > Level(cmds, t);
    }
  }

  /** Closing the innermost `[` at `s` with the `]` at `n` keeps the other
      brackets' facts. */
  lemma StartsOkClose(cmds: string, ops: seq<Operation>, s: nat)
    requires |ops| < |cmds| && StartsOk(cmds, ops)
    requires s < |ops| && ops[s] == StartLoop(0) && Closes(cmds, s, |ops|)
    requires Level(cmds, |ops|) == Level(cmds, s) + 1
    ensures StartsOk(cmds, ops[s := StartLoop(|ops|)] + [EndLoop(s)])
  {
    var n := |ops|;
    var ops' := ops[s := StartLoop(n)] + [EndLoop(s)];
    forall t: nat | t < n + 1 && ops'[t].StartLoop?
      ensures Closes(cmds, t, ops'[t].end) || (ops'[t].end == 0 && OpenSoFar(cmds, n + 1, t))
    {
      if t != s {
        assert ops'[t] == ops[t];
        if !Closes(cmds, t, ops[t].end) {
          assert OpenSoFar(cmds, n, s);
          InnermostIsLast(cmds, n, s, t);
        }
      }
    }
  }

  /** `]` pops the innermost open `[`, which it closes, patches that placeholder
      and appends the back jump (src/main.rs:40-48). */
  lemma AppendClose(cmds: string, ops: seq<Operation>, stack: seq<nat>)
    requires Pending(cmds, ops, stack)
    requires |ops| < |cmds| && cmds[|ops|] == ']' && |stack| > 0
    ensures var s := stack[|stack| - 1];
            && Closes(cmds, s, |ops|)
            && Pending(cmds, ops[s := StartLoop(|ops|)] + [EndLoop(s)], stack[..|stack| - 1])
  {
    var n := |ops|;
    var s := stack[|stack| - 1];
    var ops' := ops[s := StartLoop(n)] + [EndLoop(s)];
    var stack' := stack[..|stack| - 1];
    assert Level(cmds, n + 1) == Level(cmds, s);
    assert ops[s] == StartLoop(0) && Agrees(ops[s], cmds[s]);
    assert OpenSoFar(cmds, n, s);
    assert Closes(cmds, s, n);
    assert NonNegative(cmds, n + 1);
    assert AgreesSoFar(cmds, ops');
    forall j | 0 <= j < |stack'|
      ensures stack'[j] < n && ops'[stack'[j]] == StartLoop(0) && Level(cmds, stack'[j]) == j
    {
      assert Level(cmds, stack[j]) == j;
    }
    assert StackOk(cmds, ops', stack');
    forall e | 0 <= e < n + 1 && ops'[e].EndLoop?
      ensures Closes(cmds, ops'[e].start, e)
    {
      if e < n {
        assert ops'[e] == ops[e];
      }
    }
    assert EndsOk(cmds, ops');
    StartsOkClose(cmds, ops, s);
  }

  /** `]` with nothing open: the prefix up to it is well nested, and with it the
      commands underflow (src/main.rs:42). */
  lemma CloseUnderflows(cmds: string, ops: seq<Operation>, stack: seq<nat>)
    requires Pending(cmds, ops, stack)
    requires |ops| < |cmds| && cmds[|ops|] == ']' && |stack| == 0
    ensures Underflows(cmds)
    ensures WellNested(cmds[..|ops|])
  {
    var n := |ops|;
    assert Level(cmds, n + 1) < 0;
    forall k | 0 <= k <= n
      ensures Level(cmds[..n], k) == Level(cmds, k)
    {
      LevelOfPrefix(cmds, n, k);
    }
  }

  /** After the last command the scan state is the whole translation. */
  lemma Finish(cmds: string, ops: seq<Operation>, stack: seq<nat>)
    requires Pending(cmds, ops, stack) && |ops| == |cmds|
    ensures !Underflows(cmds)
    ensures Translates(cmds, ops)
  {
    forall s: nat | s < |ops| && ops[s].StartLoop? && !Closes(cmds, s, ops[s].end)
      ensures Unclosed(cmds, s) && ops[s].end == 0
    {
      assert Agrees(ops[s], cmds[s]);
    }
  }

  /** The scan after one more character: the operations and the stack of open
      loops, or `Unmatched` for a `]` with nothing open. */
  datatype Fed = Next(ops: seq<Operation>, stack: seq<nat>) | Unmatched

  /** One arm of the `match` in the scan (src/main.rs:27-55). A `[` pushes the
      position it is about to occupy and appends the placeholder; a `]` pops
      the innermost open position, patches it to point here and appends the
      back jump; other characters are skipped. */
  function Feed(ops: seq<Operation>, stack: seq<nat>, c: char): Fed
    requires forall j :: 0 <= j < |stack| ==> stack[j] < |ops|
  {
    if c == '[' then
      Next(ops + [StartLoop(0)], stack + [|ops|])
    else if c == ']' then
      if |stack| == 0 then Unmatched
      else
        var s := stack[|stack| - 1];
        Next(ops[s := StartLoop(|ops|)] + [EndLoop(s)], stack[..|stack| - 1])
    else if IsCommand(c) then
      Next(ops + [SimpleOperation(c)], stack)
    else
      Next(ops, stack)
  }

  /** Feeding the next command keeps the scan invariant, or fails exactly on a
      `]` whose prefix is well nested. */
  lemma FeedKeepsPending(cmds: string, ops: seq<Operation>, stack: seq<nat>, c: char)
    requires Pending(cmds, ops, stack)
    requires IsCommand(c) ==> |ops| < |cmds| && cmds[|ops|] == c
    ensures var r := Feed(ops, stack, c);
            && (r.Next? ==> Pending(cmds, r.ops, r.stack) && |r.ops| == |ops| + |Keep(c)|)
            && (r.Unmatched? <==> c == ']' && |stack| == 0)
            && (r.Unmatched? ==> Underflows(cmds) && WellNested(cmds[..|ops|]))
  {
    if c == '[' {
      AppendOpen(cmds, ops, stack);
    } else if c == ']' {
      if |stack| == 0 {
        CloseUnderflows(cmds, ops, stack);
      } else {
        AppendClose(cmds, ops, stack);
      }
    } else if IsCommand(c) {
      AppendSimple(cmds, ops, stack, SimpleOperation(c));
    }
  }

  /** Translates `input` into operations (`Program::load_it_up`). Fails exactly
      when some prefix of the commands has more `]` than `[`, reporting the
      first such `]`; an unclosed `[` is not an error. */
  method Translate(input: string) returns (r: Result)
    ensures r.Err? <==> Underflows(Commands(input))
    ensures r.Ok? ==> Translates(Commands(input), r.ops)
    ensures r.Err? ==>
              && r.error.position < |input|
              && input[r.error.position] == ']'
              && WellNested(Commands(input[..r.error.position]))
  {
    ghost var cmds := Commands(input);
    var ops: seq<Operation> := [];
    var stack: seq<nat> := [];
    var i := 0;
    while i < |input|
      invariant 0 <= i <= |input|
      invariant |ops| <= |cmds|
      invariant CommandsUpTo(input, i) == cmds[..|ops|]
      invariant Pending(cmds, ops, stack)
    {
      NextCommand(input, i, |ops|);
      FeedKeepsPending(cmds, ops, stack, input[i]);
      match Feed(ops, stack, input[i])
      case Unmatched =>
        CommandsOfPrefix(input, i);
        return Err(UnmatchedEndLoop(i));
      case Next(ops', stack') =>
        ops, stack := ops', stack';
      i := i + 1;
    }
    Finish(cmds, ops, stack);
    return Ok(ops);
  }

  /** Resolved brackets point at each other: a `StartLoop(e)` other than the
      placeholder is matched by `EndLoop(s)` at `e`, and every `EndLoop(s)` at
      `e` by `StartLoop(e)` at `s`. The placeholder marks exactly the `[` that
      nothing closes. */
  lemma Pairing(cmds: string, ops: seq<Operation>)
    requires Translates(cmds, ops)
    ensures forall s :: 0 <= s < |ops| && ops[s].StartLoop? && ops[s].end != 0 ==>
              s < ops[s].end < |ops| && ops[ops[s].end] == EndLoop(s)
    ensures forall e :: 0 <= e < |ops| && ops[e].EndLoop? ==>
              ops[e].start < e && ops[ops[e].start] == StartLoop(e)
    ensures forall s :: 0 <= s < |ops| && ops[s].StartLoop? ==>
              (ops[s].end == 0 <==> Unclosed(cmds, s))
  {
    forall s | 0 <= s < |ops| && ops[s].StartLoop?
      ensures ops[s].end == 0 <==> Unclosed(cmds, s)
      ensures ops[s].end != 0 ==> s < ops[s].end < |ops| && ops[ops[s].end] == EndLoop(s)
    {
      if Closes(cmds, s, ops[s].end) {
        var e := ops[s].end;
        ClosesUnique(cmds, s, e);
        assert Agrees(ops[e], cmds[e]);
        assert Closes(cmds, ops[e].start, e);
      }
    }
    forall e | 0 <= e < |ops| && ops[e].EndLoop?
      ensures ops[e].start < e && ops[ops[e].start] == StartLoop(e)
    {
      var s := ops[e].start;
      ClosesUnique(cmds, s, e);
      assert Agrees(ops[s], cmds[s]);
    }
  }

  /** For well-nested commands every bracket is resolved and paired. */
  lemma WellNestedPaired(cmds: string, ops: seq<Operation>)
    requires Translates(cmds, ops) && WellNested(cmds)
    ensures Paired(ops)
  {
    Pairing(cmds, ops);
    forall s | 0 <= s < |ops| && ops[s].StartLoop?
      ensures ops[s].end != 0
    {
      WellNestedClosesAll(cmds, s);
    }
  }

  /** Every jump target of a translation lies inside it, placeholders included. */
  lemma TranslationJumpsInRange(cmds: string, ops: seq<Operation>)
    requires Translates(cmds, ops)
    ensures JumpsInRange(ops)
  {}

  /** `Translates` leaves no freedom: a command sequence has one translation. */
  lemma TranslationUnique(cmds: string, ops1: seq<Operation>, ops2: seq<Operation>)
    requires Translates(cmds, ops1) && Translates(cmds, ops2)
    ensures ops1 == ops2
  {
    forall i | 0 <= i < |ops1|
      ensures ops1[i] == ops2[i]
    {
      assert Agrees(ops1[i], cmds[i]) && Agrees(ops2[i], cmds[i]);
      if ops1[i].StartLoop? {
        if Closes(cmds, i, ops1[i].end) {
          ClosesUnique(cmds, i, ops1[i].end);
        } else if Closes(cmds, i, ops2[i].end) {
          ClosesUnique(cmds, i, ops2[i].end);
        }
      } else if ops1[i].EndLoop? {
        ClosesUnique(cmds, ops1[i].start, i);
      }
    }
  }
}
