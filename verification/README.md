# brainfucked in Dafny

A model of the interpreter in `src/main.rs`. The program handles a
seven-command Brainfuck dialect: `> < + - . [ ]`, with no input command. It
works in two phases.

- **Translation** (`Program::load_it_up`). One pass over the source text.
  Every character outside the seven commands is skipped. The pass keeps a
  stack of the positions of open loops. A `[` appends `StartLoop(0)` as a
  placeholder. A `]` pops the innermost open position, patches that
  placeholder to `StartLoop(here)` and appends `EndLoop(start)`.
- **Execution** (the `while` loop of `Program::run`). The state is an
  instruction pointer, a data pointer and a tape of `usize` cells. The tape
  starts as one zero cell and gains one zero cell whenever `>` steps past its
  end. `+` and `-` wrap modulo 2^64. `.` prints the cell's low byte as a
  character. A taken loop jump skips the pointer increment (`continue`). So
  `StartLoop(e)` on a zero cell lands on the matching `EndLoop`, which falls
  through. `EndLoop(s)` on a nonzero cell lands on the matching `StartLoop`,
  which falls through into the body.

Modules:

- `Operations` (operations.dfy): the `Operation` datatype, plus the `Paired`
  and `JumpsInRange` predicates.
- `Cells` (cells.dfy): 64-bit cells with wrapping increment and decrement, and
  truncation to a byte.
- `Brackets` (brackets.dfy): a stack-free description of the source text.
  - `Commands`: the command characters of the text.
  - `Level`: the nesting level after each prefix.
  - `Closes`: which `]` closes which `[`.
  - `Unclosed`: which `[` nothing closes.
  - `Underflows`: some prefix has more `]` than `[`.
- `Translator` (translator.dfy): the scan as a method with an explicit stack,
  and `Translates`, the stack-free definition of its result. The method is
  proved to meet `Translates`. `Translates` is proved to fix the result
  uniquely and to imply the bracket pairing.
- `Executor` (executor.dfy): the state record, a pure `Step` for one pass of
  the loop, and a fuel-bounded `Run`.
- `Emission` (emission.dfy): the bytes `print!` writes for the printed
  character codes.
- `Interpreter` (interpreter.dfy): translation followed by a run.
- `Scenarios` (scenarios.dfy): whole runs of small programs.
- `ScenarioTexts` (scenario_texts.dfy): the source texts of those programs and
  their translations.

Notes on the code:

- Cells are `usize` (src/main.rs:17). They wrap modulo 2^64; only printing
  truncates a cell to a byte.
- The tape is empty until `run` pushes one zero cell (src/main.rs:61, 70). So
  every run starts with exactly one cell.
- A taken jump does not advance the instruction pointer afterwards
  (src/main.rs:100, 106). The landing bracket re-tests the same cell and falls
  through. With correct pairing, control resumes after the matching `]` or at
  the first instruction of the body, as `SkipLoop` and `RepeatLoop` prove.
- There are seven operations: there is no input command.

## Model

| member | source | states |
|---|---|---|
| Cells.WrappingInc | src/main.rs:89 | `wrapping_add(1)` is one more, except that 2^64 - 1 wraps to 0 |
| Cells.WrappingDec | src/main.rs:92 | `wrapping_sub(1)` is one less, except that 0 wraps to 2^64 - 1 |
| Cells.LowByte | src/main.rs:95 | `as u8` keeps the value modulo 256; values below 256 are unchanged |
| Cells.DecUndoesInc | src/main.rs:89-92 | a decrement undoes an increment, at the wrap boundary too |
| Cells.IncUndoesDec | src/main.rs:89-92 | an increment undoes a decrement, at the wrap boundary too |
| Brackets.Commands | src/main.rs:26-53 | the characters kept by the scan are all commands and are at most as many as the input |
| Brackets.NextCommand | src/main.rs:26-53 | scanning one more character extends the commands by it exactly when it is one of `><+-.[]`, and never changes the commands already found |
| Brackets.CommandsExact | src/main.rs:26-53 | text made only of commands is kept whole; text without commands yields nothing |
| Brackets.CommandsIdempotent | src/main.rs:50-52 | filtering the kept commands again removes nothing |
| Brackets.ClosesUnique | src/main.rs:40-48 | a `[` is closed by at most one `]`, a `]` closes at most one `[`, and a closed `[` is not unclosed |
| Brackets.WellNestedClosesAll | src/main.rs:33-48 | in well-nested text every `[` is closed |
| Translator.SimpleOperation | src/main.rs:28-32 | each of `> < + - .` becomes the operation of its kind, without a jump target |
| Translator.AppendSimple | src/main.rs:28-32 | appending a simple operation keeps the scan invariant: levels, stack of open loops, resolved and pending brackets |
| Translator.AppendOpen | src/main.rs:33-39 | pushing the position of `[` and appending the placeholder keeps the scan invariant |
| Translator.InnermostIsLast | src/main.rs:40-42 | the top of the stack is the last unclosed `[`, so every other open `[` stays open after it is closed |
| Translator.StartsOkClose | src/main.rs:44-45 | patching the popped placeholder leaves every other `StartLoop` resolved or pending as before |
| Translator.AppendClose | src/main.rs:40-49 | the popped position is the `[` that this `]` closes, and the patched list keeps the scan invariant |
| Translator.CloseUnderflows | src/main.rs:42 | a `]` met with an empty stack comes after a well-nested prefix and makes the commands underflow |
| Translator.Finish | src/main.rs:26-56 | at the end of the scan every `StartLoop` is either resolved to its closing `]` or an unclosed placeholder `StartLoop(0)`, and no prefix underflows |
| Translator.FeedKeepsPending | src/main.rs:27-55 | one pass of the scan keeps the invariant and adds one operation per command; it fails exactly on a `]` with an empty stack |
| Translator.Translate | src/main.rs:21-63 | fails exactly when some prefix has more `]` than `[`, naming the first such `]`; otherwise the operations are one per command in order, every `EndLoop` names the `[` it closes, and every `StartLoop` names its closing `]` or keeps 0 when unclosed |
| Translator.Pairing | src/main.rs:33-48 | in a translation, `EndLoop(s)` at `e` has `StartLoop(e)` at `s < e`; a resolved `StartLoop(e)` at `s` has `EndLoop(s)` at `e > s`; the placeholder 0 marks exactly the unclosed `[` |
| Translator.WellNestedPaired | src/main.rs:33-48 | the translation of well-nested commands pairs every bracket both ways |
| Translator.TranslationJumpsInRange | src/main.rs:35-48 | every jump target of a translation, placeholders included, indexes the operation list |
| Translator.TranslationUnique | src/main.rs:21-63 | a command sequence has exactly one translation |
| Executor.Step | src/main.rs:74-111 | one pass halts exactly when `ip` is at or past the end and fails exactly on `<` at cell 0; otherwise the data pointer stays on the tape, the tape gains at most one zero cell, only the current cell may change, output only grows by at most one character, and `ip` advances by one or goes to the jump target |
| Executor.Run | src/main.rs:70-112 | any number of passes keeps the data pointer on the tape; the tape and the output only grow, by at most one per pass; a halted run has `ip` past the last operation; a failed run stopped at `<` on cell 0 |
| Executor.Execute | src/main.rs:70-72 | a run from one zero cell keeps at least one cell and the data pointer on the tape |
| Executor.IncrementPtrStep | src/main.rs:76-82 | `>` moves the data pointer right and appends one zero cell exactly when it steps past the end |
| Executor.DecrementPtrStep | src/main.rs:83 | `<` fails at cell 0; otherwise it only moves the data pointer left |
| Executor.DataStep | src/main.rs:84-93 | `+` and `-` change only the current cell, by +1 or -1 modulo 2^64 |
| Executor.PrintStep | src/main.rs:94-96 | `.` appends the current cell modulo 256 to the output and changes nothing else |
| Executor.LoopStep | src/main.rs:97-111 | a loop instruction moves only `ip`: to its target when the jump is taken, otherwise to the next instruction |
| Executor.IncrementThenDecrement | src/main.rs:89-92 | `+-` leaves tape, pointer and output as they were, across the wrap boundary too |
| Executor.DecrementThenIncrement | src/main.rs:89-92 | `-+` leaves tape, pointer and output as they were, across the wrap boundary too |
| Executor.SkipLoop | src/main.rs:97-101 | with paired brackets, a loop met on a zero cell resumes after its `]` two passes later, nothing else changed |
| Executor.RepeatLoop | src/main.rs:103-107 | with paired brackets, a `]` met on a nonzero cell resumes at the first instruction of the body two passes later, nothing else changed |
| Executor.RunCompose | src/main.rs:74-112 | running `a` passes and then `b` more is running `a + b` passes |
| Executor.RunSettled | src/main.rs:74 | once a run has halted or failed, more fuel does not change the outcome |
| Executor.RunStaysInRange | src/main.rs:74-111 | with jump targets inside the list, `ip` never passes the end, so a run halts exactly at `ip == \|ops\|` |
| Executor.SelfJumpSpins | src/main.rs:97-101 | a `StartLoop` whose target is its own position, met on a zero cell, jumps to itself forever and never halts |
| Emission.Utf8 | src/main.rs:95 | a printed code is written as one byte below 128 and as two bytes from 128 up |
| Emission.EncodeAppend | src/main.rs:95 | printing one more character appends its bytes to what was already written |
| Emission.DecodeEncode | src/main.rs:95 | the written bytes determine the sequence of printed codes |
| Interpreter.TranslatedRunStopsAtEnd | src/main.rs:74 | a run of any translated program keeps `ip <= \|ops\|` and halts exactly when `ip == \|ops\|` |
| Interpreter.UnclosedAtStartSpins | src/main.rs:33-38 | when the first command is a `[` that nothing closes, its placeholder `StartLoop(0)` makes the run spin on the initial state forever |
| Interpreter.Interpret | src/main.rs:21-112 | translation then a run: rejected exactly when the commands underflow; otherwise the translation is the unique one, its run halts exactly at the end, well-nested input gives paired brackets, and an unclosed `[` as the first command never ends |
| Scenarios.PrintTwo | src/main.rs:89-95 | `++.` prints code 2 and halts |
| Scenarios.ClearCell | src/main.rs:92-107 | `+[-]` clears the cell and halts without output |
| Scenarios.EmptyLoopSkipped | src/main.rs:97-101 | `[]` on a zero cell halts at once without output |
| Scenarios.MoveThree | src/main.rs:76-107 | `+++[>+<-]` ends with cells 0 and 3 after three turns of the loop |
| ScenarioTexts.ExamplesAreCommands | src/main.rs:26-55 | the scan keeps every character of `++.`, `+[-]`, `[]`, `+++[>+<-]` and `]`, in order |
| ScenarioTexts.PrintTwoTranslated | src/main.rs:26-55 | `++.` translates to the operations `Scenarios.PrintTwo` runs |
| ScenarioTexts.ClearCellTranslated | src/main.rs:26-55 | `+[-]` translates to the operations `Scenarios.ClearCell` runs, with the `[` at 1 and the `]` at 3 paired |
| ScenarioTexts.EmptyLoopTranslated | src/main.rs:26-55 | `[]` translates to the operations `Scenarios.EmptyLoopSkipped` runs |
| ScenarioTexts.MoveThreeLoop | src/main.rs:40-48 | in `+++[>+<-]` the `]` at 8 closes the `[` at 3 |
| ScenarioTexts.MoveThreeTranslated | src/main.rs:26-55 | `+++[>+<-]` translates to the operations `Scenarios.MoveThree` runs, with the `[` at 3 and the `]` at 8 paired |
| ScenarioTexts.LoneCloseRejected | src/main.rs:40-42 | the program `]` underflows, which is exactly when `Translator.Translate` rejects |
| Scenarios.MoveLeftOfStart | src/main.rs:83 | `<` as the first instruction fails with a pointer underflow |
| Scenarios.WrapAndPrint | src/main.rs:92-95 | `-.` wraps the cell to 2^64 - 1 and prints 255 |

## Left out

- Reading the program from standard input and `main` (src/main.rs:116-126).
  This is I/O plumbing. `Interpreter.Interpret` takes the text as a parameter.
- The listing of the operations (src/main.rs:66-68) and the trace line printed
  by `+` (src/main.rs:85-88). This is diagnostic output with no effect on the
  state.
- `Vec::with_capacity(30000)` (src/main.rs:61). It is only a capacity hint;
  the tape's length starts at 0.
- Termination of `run`. Programs such as `+[]` never halt, so `Executor.Run`
  takes a fuel bound. A `Running` outcome means the fuel ran out first.
- Executor.Step: models `<` at cell 0 as a failure, matching the overflow panic
  of a debug build. A release build would instead wrap the pointer to
  `usize::MAX`. The next cell access would then panic, unless a `>` wraps the
  pointer back to 0 first.
- Executor.Step: `>` adds one to an unbounded natural. The source's `usize`
  could only overflow with 2^64 cells on the tape.
- Translator.Translate: the source panics on an unmatched `]` with no
  location. The model returns `UnmatchedEndLoop` with the index of that `]` in
  the text.
- Calling `run` twice on one `Program` would push another zero cell. `main`
  never does this, so `Execute` always starts from the one-cell tape.
- Executor.Run: `output` holds the printed character codes. The bytes that `.`
  writes are `Emission.Encode(output)`. The diagnostic lines that appear
  between them on standard output are not modelled.
