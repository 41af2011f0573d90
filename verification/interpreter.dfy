/**
 The two phases together: translate the source text, then run the operations
 from the initial state.
 */
module Interpreter {
  import opened Operations
  import opened Brackets
  import opened Translator
  import opened Executor

  datatype Report = Rejected(error: Error) | Ran(ops: seq<Operation>, outcome: Outcome)

  /** A run of a translated program never moves the instruction pointer past
      the end of the operations, so it halts exactly when the pointer equals
      their number. */
  lemma TranslatedRunStopsAtEnd(cmds: string, ops: seq<Operation>, fuel: nat)
    requires Translates(cmds, ops)
    ensures Execute(ops, fuel).state.ip <= |ops|
    ensures Execute(ops, fuel).Halted? <==> Execute(ops, fuel).state.ip == |ops|
  {
    TranslationJumpsInRange(cmds, ops);
    RunStaysInRange(ops, Initial, fuel);
  }

  /** A program whose first command is a `[` that nothing closes keeps the
      placeholder `StartLoop(0)` there, which jumps to itself on the zero cell
      it starts on, so the run never ends. */
  lemma UnclosedAtStartSpins(cmds: string, ops: seq<Operation>, fuel: nat)
    requires Translates(cmds, ops) && Unclosed(cmds, 0)
    ensures Execute(ops, fuel) == Running(Initial)
  {
    Pairing(cmds, ops);
    assert ops[0] == StartLoop(0);
    SelfJumpSpins(ops, Initial, fuel);
  }

  /** `load_it_up` followed by at most `fuel` passes of `run`. */
  method Interpret(input: string, fuel: nat) returns (r: Report)
    ensures r.Rejected? <==> Underflows(Commands(input))
    ensures r.Ran? ==> Translates(Commands(input), r.ops) && r.outcome == Execute(r.ops, fuel)
    ensures r.Ran? ==> (r.outcome.Halted? <==> r.outcome.state.ip == |r.ops|)
    ensures r.Ran? && WellNested(Commands(input)) ==> Paired(r.ops)
    ensures r.Ran? && Unclosed(Commands(input), 0) ==> r.outcome == Running(Initial)
  {
    var t := Translate(input);
    match t
    case Err(e) =>
      r := Rejected(e);
    case Ok(ops) =>
      TranslatedRunStopsAtEnd(Commands(input), ops, fuel);
      if WellNested(Commands(input)) {
        WellNestedPaired(Commands(input), ops);
      }
      if Unclosed(Commands(input), 0) {
        UnclosedAtStartSpins(Commands(input), ops, fuel);
      }
      r := Ran(ops, Execute(ops, fuel));
  }
}
