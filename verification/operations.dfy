/**
 The instruction set of the interpreter: seven operations, two of which carry
 the index of their partner bracket in the operation list.
 */
module Operations {

  /** One translated command. `StartLoop(end)` holds the index of the matching
      `EndLoop`; `EndLoop(start)` holds the index of the matching `StartLoop`. */
  datatype Operation =
    | IncrementPtr
    | DecrementPtr
    | IncrementData
    | DecrementData
    | PrintData
    | StartLoop(end: nat)
    | EndLoop(start: nat)

  /** Every jump target names a position inside the operation list. */
  predicate JumpsInRange(ops: seq<Operation>) {
    && (forall s :: 0 <= s < |ops| && ops[s].StartLoop? ==> ops[s].end < |ops|)
    && (forall e :: 0 <= e < |ops| && ops[e].EndLoop? ==> ops[e].start < |ops|)
  }

  /** Every loop bracket points at its partner, and the partner points back. */
  predicate Paired(ops: seq<Operation>) {
    && (forall s :: 0 <= s < |ops| && ops[s].StartLoop? ==>
          s < ops[s].end < |ops| && ops[ops[s].end] == EndLoop(s))
    && (forall e :: 0 <= e < |ops| && ops[e].EndLoop? ==>
          ops[e].start < e && ops[ops[e].start] == StartLoop(e))
  }
}
