/**
 The execution loop of `Program::run`: an instruction pointer into the
 operation list, a data pointer into a tape that grows one zero cell at a time,
 and the characters printed so far.
 */
module Executor {
  import opened Operations
  import opened Cells

  /** `ip` is the instruction pointer, `pointer` the data pointer; `output`
      holds the code of every character printed so far. */
  datatype State = State(ip: nat, pointer: nat, memory: seq<Word>, output: seq<Byte>)

  /** The tape invariant: the data pointer addresses an existing cell. */
  predicate Valid(st: State) {
    st.pointer < |st.memory|
  }

  /** The state on entry to the loop: one zero cell, both pointers at 0. */
  const Initial: State := State(0, 0, [0], [])

  /** `DecrementPtr` at cell 0 makes the `usize` data pointer underflow. */
  datatype Fault = PointerUnderflow

  datatype Outcome =
    | Running(state: State)
    | Halted(state: State)
    | Failed(fault: Fault, state: State)

  /** The cell under the data pointer. */
  function Current(st: State): Word
    requires Valid(st)
  {
    st.memory[st.pointer]
  }

  /** From `st` to `st'` the tape gains at most one cell, a zero one at the end,
      no cell but the current one changes, and at most one character is
      printed after those already printed. */
  predicate Grows(st: State, st': State) {
    && |st.memory| <= |st'.memory| <= |st.memory| + 1
    && (forall i :: |st.memory| <= i < |st'.memory| ==> st'.memory[i] == 0)
    && (forall i :: 0 <= i < |st.memory| && i != st.pointer ==> st'.memory[i] == st.memory[i])
    && st.output <= st'.output
    && |st'.output| <= |st.output| + 1
  }

  /** Where a loop instruction may send the instruction pointer. */
  function JumpTarget(op: Operation): int {
    match op
    case StartLoop(end) => end
    case EndLoop(start) => start
    case _ => -1
  }

  /** One pass of the `while` loop. A taken jump sets the instruction pointer
      without the final `+= 1`, because the source leaves the pass with
      `continue`. */
  function Step(ops: seq<Operation>, st: State): (r: Outcome)
    requires Valid(st)
    ensures r.Halted? <==> st.ip >= |ops|
    ensures r.Failed? <==> st.ip < |ops| && ops[st.ip] == DecrementPtr && st.pointer == 0
    ensures !r.Running? ==> r.state == st
    ensures r.Running? ==> Valid(r.state) && Grows(st, r.state)
    ensures r.Running? ==> r.state.ip == st.ip + 1 || r.state.ip == JumpTarget(ops[st.ip])
  {
    if st.ip >= |ops| then Halted(st)
    else
      var next := st.(ip := st.ip + 1);
      match ops[st.ip]
      case IncrementPtr =>
        var p := st.pointer + 1;
        Running(next.(pointer := p, memory := if p == |st.memory| then st.memory + [0] else st.memory))
      case DecrementPtr =>
        if st.pointer == 0 then Failed(PointerUnderflow, st)
        else Running(next.(pointer := st.pointer - 1))
      case IncrementData =>
        Running(next.(memory := st.memory[st.pointer := WrappingInc(Current(st))]))
      case DecrementData =>
        Running(next.(memory := st.memory[st.pointer := WrappingDec(Current(st))]))
      case PrintData =>
        Running(next.(output := st.output + [LowByte(Current(st))]))
      case StartLoop(end) =>
        if Current(st) == 0 then Running(st.(ip := end)) else Running(next)
      case EndLoop(start) =>
        if Current(st) != 0 then Running(st.(ip := start)) else Running(next)
  }

  /** At most `fuel` passes of the loop from `st`; `Running` means the fuel ran
      out first. */
  function Run(ops: seq<Operation>, st: State, fuel: nat): (r: Outcome)
    requires Valid(st)
    ensures Valid(r.state)
    ensures r.Halted? <==> r.state.ip >= |ops|
    ensures r.Failed? ==> ops[r.state.ip] == DecrementPtr && r.state.pointer == 0
    ensures |st.memory| <= |r.state.memory| <= |st.memory| + fuel
    ensures st.output <= r.state.output
    ensures |r.state.output| <= |st.output| + fuel
    decreases fuel
  {
    if st.ip >= |ops| then Halted(st)
    else if fuel == 0 then Running(st)
    else
      match Step(ops, st)
      case Running(next) => Run(ops, next, fuel - 1)
      case other => other
  }

  /** A whole run of a translated program (`Program::run`). */
  function Execute(ops: seq<Operation>, fuel: nat): (r: Outcome)
    ensures Valid(r.state)
    ensures |r.state.memory| >= 1
  {
    Run(ops, Initial, fuel)
  }

  /** `>` moves the data pointer right, appending a zero cell exactly when it
      steps past the end of the tape (src/main.rs:76-82). */
  lemma IncrementPtrStep(ops: seq<Operation>, st: State)
    requires Valid(st) && st.ip < |ops| && ops[st.ip] == IncrementPtr
    ensures var r := Step(ops, st);
            && r.Running?
            && r.state.ip == st.ip + 1
            && r.state.pointer == st.pointer + 1
            && r.state.output == st.output
            && r.state.memory[..|st.memory|] == st.memory
            && (|r.state.memory| == |st.memory| + 1 <==> st.pointer + 1 == |st.memory|)
  {}

  /** `<` fails at cell 0 and otherwise only moves the data pointer left
      (src/main.rs:83). */
  lemma DecrementPtrStep(ops: seq<Operation>, st: State)
    requires Valid(st) && st.ip < |ops| && ops[st.ip] == DecrementPtr
    ensures st.pointer == 0 ==> Step(ops, st) == Failed(PointerUnderflow, st)
    ensures st.pointer > 0 ==>
              Step(ops, st) == Running(st.(ip := st.ip + 1, pointer := st.pointer - 1))
  {}

  /** `+` and `-` change only the current cell, by one modulo 2^64
      (src/main.rs:84-93). */
  lemma DataStep(ops: seq<Operation>, st: State)
    requires Valid(st) && st.ip < |ops| && (ops[st.ip] == IncrementData || ops[st.ip] == DecrementData)
    ensures var r := Step(ops, st);
            var delta := if ops[st.ip] == IncrementData then 1 else -1;
            && r.Running?
            && r.state.ip == st.ip + 1
            && r.state.pointer == st.pointer
            && r.state.output == st.output
            && |r.state.memory| == |st.memory|
            && (r.state.memory[st.pointer] as int - Current(st) as int - delta) % WORD_MODULUS == 0
            && (forall i :: 0 <= i < |st.memory| && i != st.pointer ==> r.state.memory[i] == st.memory[i])
  {}

  /** `.` appends the low byte of the current cell to the output and changes
      nothing else (src/main.rs:94-96). */
  lemma PrintStep(ops: seq<Operation>, st: State)
    requires Valid(st) && st.ip < |ops| && ops[st.ip] == PrintData
    ensures var r := Step(ops, st);
            && r.Running?
            && r.state.ip == st.ip + 1
            && r.state.pointer == st.pointer
            && r.state.memory == st.memory
            && |r.state.output| == |st.output| + 1
            && r.state.output[..|st.output|] == st.output
            && (r.state.output[|st.output|] as int - Current(st) as int) % 256 == 0
  {}

  /** The loop instructions move only the instruction pointer: to the target
      when the jump is taken, otherwise to the next instruction
      (src/main.rs:97-111). */
  lemma LoopStep(ops: seq<Operation>, st: State)
    requires Valid(st) && st.ip < |ops| && (ops[st.ip].StartLoop? || ops[st.ip].EndLoop?)
    ensures var r := Step(ops, st);
            var taken := if ops[st.ip].StartLoop? then Current(st) == 0 else Current(st) != 0;
            && r == Running(st.(ip := if taken then JumpTarget(ops[st.ip]) else st.ip + 1))
  {}

  /** An increment followed by a decrement leaves the state as it was, apart
      from the instruction pointer, even across the wrap boundary. */
  lemma IncrementThenDecrement(ops: seq<Operation>, st: State)
    requires Valid(st) && st.ip + 1 < |ops|
    requires ops[st.ip] == IncrementData && ops[st.ip + 1] == DecrementData
    ensures Run(ops, st, 2) == Run(ops, st.(ip := st.ip + 2), 0)
  {
    var mid := Step(ops, st).state;
    DecUndoesInc(Current(st));
    assert Step(ops, mid).state.memory == st.memory;
  }

  /** A decrement followed by an increment leaves the state as it was, apart
      from the instruction pointer, even across the wrap boundary. */
  lemma DecrementThenIncrement(ops: seq<Operation>, st: State)
    requires Valid(st) && st.ip + 1 < |ops|
    requires ops[st.ip] == DecrementData && ops[st.ip + 1] == IncrementData
    ensures Run(ops, st, 2) == Run(ops, st.(ip := st.ip + 2), 0)
  {
    var mid := Step(ops, st).state;
    IncUndoesDec(Current(st));
    assert Step(ops, mid).state.memory == st.memory;
  }

  /** A loop entered on a zero cell is skipped: `StartLoop` lands on its
      `EndLoop`, which sees the same zero and falls through to the
      instruction after it. */
  lemma SkipLoop(ops: seq<Operation>, st: State)
    requires Valid(st) && st.ip < |ops| && Paired(ops)
    requires ops[st.ip].StartLoop? && Current(st) == 0
    ensures Run(ops, st, 2) == Run(ops, st.(ip := ops[st.ip].end + 1), 0)
  {
    var mid := Step(ops, st).state;
    assert mid == st.(ip := ops[st.ip].end);
    assert ops[mid.ip] == EndLoop(st.ip);
  }

  /** A loop left on a nonzero cell repeats: `EndLoop` lands on its
      `StartLoop`, which sees the same nonzero cell and falls through to the
      first instruction of the body. */
  lemma RepeatLoop(ops: seq<Operation>, st: State)
    requires Valid(st) && st.ip < |ops| && Paired(ops)
    requires ops[st.ip].EndLoop? && Current(st) != 0
    ensures Run(ops, st, 2) == Run(ops, st.(ip := ops[st.ip].start + 1), 0)
  {
    var mid := Step(ops, st).state;
    assert mid == st.(ip := ops[st.ip].start);
    assert ops[mid.ip] == StartLoop(st.ip);
  }

  /** Running for `a` passes and then for `b` more is running for `a + b`. */
  lemma {:induction false} RunCompose(ops: seq<Operation>, st: State, a: nat, b: nat)
    requires Valid(st)
    ensures Run(ops, st, a + b) ==
              match Run(ops, st, a)
              case Running(mid) => Run(ops, mid, b)
              case other => other
    decreases a
  {
    if st.ip < |ops| && a > 0 {
      match Step(ops, st)
      case Running(next) =>
        RunCompose(ops, next, a - 1, b);
        assert a + b - 1 == (a - 1) + b;
      case _ =>
    }
  }

  /** Once a run has halted or failed, more fuel does not change its outcome. */
  lemma RunSettled(ops: seq<Operation>, st: State, a: nat, b: nat)
    requires Valid(st) && !Run(ops, st, a).Running? && a <= b
    ensures Run(ops, st, b) == Run(ops, st, a)
  {
    RunCompose(ops, st, a, b - a);
  }

  /** With every jump target inside the list, the instruction pointer never
      passes the end, so a halted run stopped exactly at `|ops|`. */
  lemma {:induction false} RunStaysInRange(ops: seq<Operation>, st: State, fuel: nat)
    requires Valid(st) && JumpsInRange(ops) && st.ip <= |ops|
    ensures Run(ops, st, fuel).state.ip <= |ops|
    ensures Run(ops, st, fuel).Halted? ==> Run(ops, st, fuel).state.ip == |ops|
    decreases fuel
  {
    if st.ip < |ops| && fuel > 0 {
      match Step(ops, st)
      case Running(next) =>
        RunStaysInRange(ops, next, fuel - 1);
      case _ =>
    }
  }

  /** A `StartLoop` whose target is its own position, on a zero cell, jumps
      to itself for ever. The placeholder `StartLoop(0)` that an unclosed `[`
      at position 0 keeps is one: the program `[` never halts. */
  lemma {:induction false} SelfJumpSpins(ops: seq<Operation>, st: State, fuel: nat)
    requires Valid(st) && st.ip < |ops| && ops[st.ip] == StartLoop(st.ip) && Current(st) == 0
    ensures Run(ops, st, fuel) == Running(st)
    decreases fuel
  {
    if fuel > 0 {
      assert Step(ops, st) == Running(st);
      SelfJumpSpins(ops, st, fuel - 1);
    }
  }
}
