/**
 The source texts of the example runs, related to their operations by the
 stack-free definition of a translation.
 */
module ScenarioTexts {
  import opened Operations
  import opened Brackets
  import opened Translator
  import opened Scenarios

  /** Every character of the example programs is a command, so each program
      is its own command sequence. */
  lemma ExamplesAreCommands()
    ensures Commands("++.") == "++."
    ensures Commands("+[-]") == "+[-]"
    ensures Commands("[]") == "[]"
    ensures Commands("+++[>+<-]") == "+++[>+<-]"
    ensures Commands("]") == "]"
  {
    CommandsExact("++.");
    CommandsExact("+[-]");
    CommandsExact("[]");
    CommandsExact("+++[>+<-]");
    CommandsExact("]");
  }

  /** `++.` translates to three simple operations. */
  lemma PrintTwoTranslated()
    ensures Translates("++.", [IncrementData, IncrementData, PrintData])
  {}

  /** In `+[-]` the `]` at 3 closes the `[` at 1. */
  lemma ClearCellTranslated()
    ensures Translates("+[-]", [IncrementData, StartLoop(3), DecrementData, EndLoop(1)])
  {
    var w := "+[-]";
    assert Level(w, 1) == 0 && Level(w, 2) == 1 && Level(w, 3) == 1 && Level(w, 4) == 0;
    assert Closes(w, 1, 3);
  }

  /** In `[]` the `]` at 1 closes the `[` at 0. */
  lemma EmptyLoopTranslated()
    ensures Translates("[]", [StartLoop(1), EndLoop(0)])
  {
    assert Level("[]", 1) == 1 && Level("[]", 2) == 0;
    assert Closes("[]", 0, 1);
  }

  /** In `+++[>+<-]` the `]` at 8 closes the `[` at 3. */
  lemma MoveThreeLoop()
    ensures Closes("+++[>+<-]", 3, 8)
  {
    var w := "+++[>+<-]";
    assert Level(w, 3) == 0 && Level(w, 4) == 1 && Level(w, 5) == 1 && Level(w, 6) == 1;
    assert Level(w, 7) == 1 && Level(w, 8) == 1 && Level(w, 9) == 0;
  }

  lemma MoveThreeTranslated()
    ensures Translates("+++[>+<-]", MoveThreeOps)
  {
    var w := "+++[>+<-]";
    MoveThreeLoop();
    forall i | 0 <= i < |MoveThreeOps|
      ensures Agrees(MoveThreeOps[i], w[i])
    {
    }
  }

  /** A lone `]` closes a loop that was never opened, so its translation is
      rejected. */
  lemma LoneCloseRejected()
    ensures Underflows("]")
  {
    assert Level("]", 1) == -1;
  }
}
