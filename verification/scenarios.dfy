/**
 Whole runs of small translated programs, computed from the executor's
 definitions.
 */
module Scenarios {
  import opened Operations
  import opened Cells
  import opened Executor

  /** `++.` prints the character with code 2 and halts. */
  lemma PrintTwo()
    ensures Execute([IncrementData, IncrementData, PrintData], 3)
            == Halted(State(3, 0, [2], [2]))
  {}

  /** `+[-]` enters the loop once, clears the cell and halts silently. */
  lemma ClearCell()
    ensures Execute([IncrementData, StartLoop(3), DecrementData, EndLoop(1)], 5)
            == Halted(State(4, 0, [0], []))
  {}

  /** `[]` on a zero cell skips the loop and halts silently. */
  lemma EmptyLoopSkipped()
    ensures Execute([StartLoop(1), EndLoop(0)], 2) == Halted(State(2, 0, [0], []))
  {}

  /** The translation of `+++[>+<-]`. */
  const MoveThreeOps: seq<Operation> :=
    [IncrementData, IncrementData, IncrementData, StartLoop(8),
     IncrementPtr, IncrementData, DecrementPtr, DecrementData, EndLoop(3)]

  lemma MoveThreeSetUp()
    ensures Run(MoveThreeOps, Initial, 3) == Running(State(3, 0, [3], []))
  {}

  /** Into the body of the loop: `[`, `>` and `+`. */
  lemma MoveThreeInto(x: Word, y: Word)
    requires 0 < x && y as int < WORD_MAX
    ensures Run(MoveThreeOps, State(3, 0, [x, y], []), 3)
            == Running(State(6, 1, [x, WrappingInc(y)], []))
  {}

  /** Back out of the body: `<`, `-` and `]`. */
  lemma MoveThreeBack(x: Word, y: Word)
    requires 0 < x
    ensures var r := Run(MoveThreeOps, State(6, 1, [x, y], []), 3);
            && (x > 1 ==> r == Running(State(3, 0, [WrappingDec(x), y], [])))
            && (x == 1 ==> r == Halted(State(9, 0, [0, y], [])))
  {}

  /** The first turn also grows the tape by its second cell. */
  lemma MoveThreeFirstTurn()
    ensures Run(MoveThreeOps, State(3, 0, [3], []), 6) == Running(State(3, 0, [2, 1], []))
  {
    assert Run(MoveThreeOps, State(3, 0, [3], []), 3) == Running(State(6, 1, [3, 1], []));
    MoveThreeBack(3, 1);
    RunCompose(MoveThreeOps, State(3, 0, [3], []), 3, 3);
  }

  lemma MoveThreeSecondTurn()
    ensures Run(MoveThreeOps, State(3, 0, [2, 1], []), 6) == Running(State(3, 0, [1, 2], []))
  {
    MoveThreeInto(2, 1);
    MoveThreeBack(2, 2);
    RunCompose(MoveThreeOps, State(3, 0, [2, 1], []), 3, 3);
  }

  lemma MoveThreeLastTurn()
    ensures Run(MoveThreeOps, State(3, 0, [1, 2], []), 15) == Halted(State(9, 0, [0, 3], []))
  {
    MoveThreeInto(1, 2);
    MoveThreeBack(1, 3);
    RunCompose(MoveThreeOps, State(3, 0, [1, 2], []), 3, 12);
  }

  /** `+++[>+<-]` moves 3 from the first cell to the second in three turns
      of the loop and halts after the loop. */
  lemma MoveThree()
    ensures Execute(MoveThreeOps, 30) == Halted(State(9, 0, [0, 3], []))
  {
    MoveThreeSetUp();
    MoveThreeFirstTurn();
    MoveThreeSecondTurn();
    MoveThreeLastTurn();
    RunCompose(MoveThreeOps, State(3, 0, [2, 1], []), 6, 15);
    RunCompose(MoveThreeOps, State(3, 0, [3], []), 6, 21);
    RunCompose(MoveThreeOps, Initial, 3, 27);
  }

  /** `<` at the first cell underflows the data pointer. */
  lemma MoveLeftOfStart()
    ensures Execute([DecrementPtr], 1) == Failed(PointerUnderflow, Initial)
  {}

  /** `-.` wraps the cell to 2^64 - 1 and prints its low byte, 255. */
  lemma WrapAndPrint()
    ensures Execute([DecrementData, PrintData], 2)
            == Halted(State(2, 0, [WORD_MAX as Word], [255]))
  {}
}
