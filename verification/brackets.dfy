/**
 A reference description of the source text that does not mention any stack:
 which characters are commands, the nesting depth after each prefix, and which
 `[` is closed by which `]`.
 */
module Brackets {

  /** The seven characters the translator recognises; all others are comments. */
  predicate IsCommand(c: char) {
    c == '>' || c == '<' || c == '+' || c == '-' || c == '.' || c == '[' || c == ']'
  }

  function Keep(c: char): string {
    if IsCommand(c) then [c] else []
  }

  /** The command characters among the first `i` characters of `text`, in
      their original order. */
  function CommandsUpTo(text: string, i: nat): (cmds: string)
    requires i <= |text|
    ensures |cmds| <= i
    ensures forall j :: 0 <= j < |cmds| ==> IsCommand(cmds[j])
  {
    if i == 0 then [] else CommandsUpTo(text, i - 1) + Keep(text[i - 1])
  }

  /** The command characters of `text`, in their original order. */
  function Commands(text: string): (cmds: string)
    ensures |cmds| <= |text|
    ensures forall i :: 0 <= i < |cmds| ==> IsCommand(cmds[i])
  {
    CommandsUpTo(text, |text|)
  }

  /** The commands of the first `i` characters do not depend on what follows. */
  lemma {:induction false} CommandsUpToPrefix(text: string, n: nat, i: nat)
    requires i <= n <= |text|
    ensures CommandsUpTo(text[..n], i) == CommandsUpTo(text, i)
    decreases i
  {
    if i > 0 {
      CommandsUpToPrefix(text, n, i - 1);
    }
  }

  /** The commands of a prefix are those counted up to its length. */
  lemma CommandsOfPrefix(text: string, i: nat)
    requires i <= |text|
    ensures Commands(text[..i]) == CommandsUpTo(text, i)
  {
    CommandsUpToPrefix(text, i, i);
  }

  /** The commands of the first `i` characters are a prefix of the commands. */
  lemma {:induction false} CommandsUpToIsPrefix(text: string, i: nat)
    requires i <= |text|
    ensures |CommandsUpTo(text, i)| <= |Commands(text)|
    ensures Commands(text)[..|CommandsUpTo(text, i)|] == CommandsUpTo(text, i)
    decreases |text| - i
  {
    if i < |text| {
      CommandsUpToIsPrefix(text, i + 1);
      assert CommandsUpTo(text, i + 1)[..|CommandsUpTo(text, i)|] == CommandsUpTo(text, i);
    }
  }

  /** Scanning one more character adds it to the commands exactly when it is a
      command. */
  lemma NextCommand(text: string, i: nat, n: nat)
    requires i < |text| && n <= |Commands(text)| && CommandsUpTo(text, i) == Commands(text)[..n]
    ensures IsCommand(text[i]) ==>
              n < |Commands(text)| && Commands(text)[n] == text[i]
              && CommandsUpTo(text, i + 1) == Commands(text)[..n + 1]
    ensures !IsCommand(text[i]) ==> CommandsUpTo(text, i + 1) == Commands(text)[..n]
  {
    CommandsUpToIsPrefix(text, i + 1);
    if IsCommand(text[i]) {
      assert CommandsUpTo(text, i + 1) == Commands(text)[..n] + [text[i]];
    }
  }

  /** Text made only of commands is its own command sequence; text without
      commands has none. */
  lemma {:induction false} CommandsUpToExact(text: string, i: nat)
    requires i <= |text|
    ensures (forall j :: 0 <= j < |text| ==> IsCommand(text[j])) ==> CommandsUpTo(text, i) == text[..i]
    ensures (forall j :: 0 <= j < |text| ==> !IsCommand(text[j])) ==> CommandsUpTo(text, i) == []
    decreases i
  {
    if i > 0 {
      CommandsUpToExact(text, i - 1);
      assert text[..i - 1] + [text[i - 1]] == text[..i];
    }
  }

  lemma CommandsExact(text: string)
    ensures (forall i :: 0 <= i < |text| ==> IsCommand(text[i])) ==> Commands(text) == text
    ensures (forall i :: 0 <= i < |text| ==> !IsCommand(text[i])) ==> Commands(text) == []
  {
    CommandsUpToExact(text, |text|);
    assert text[..|text|] == text;
  }

  /** Filtering twice is filtering once. */
  lemma CommandsIdempotent(text: string)
    ensures Commands(Commands(text)) == Commands(text)
  {
    CommandsExact(Commands(text));
  }

  function Delta(c: char): int {
    if c == '[' then 1 else if c == ']' then -1 else 0
  }

  /** Number of `[` minus number of `]` among the first `k` characters of `w`. */
  function Level(w: string, k: nat): int
    requires k <= |w|
  {
    if k == 0 then 0 else Level(w, k - 1) + Delta(w[k - 1])
  }

  /** The level of a prefix does not depend on what follows it. */
  lemma {:induction false} LevelOfPrefix(w: string, n: nat, k: nat)
    requires k <= n <= |w|
    ensures Level(w[..n], k) == Level(w, k)
    decreases k
  {
    if k > 0 {
      LevelOfPrefix(w, n, k - 1);
    }
  }

  /** Some prefix of `w` closes more loops than it opens. */
  predicate Underflows(w: string) {
    exists k :: 0 <= k <= |w| && Level(w, k) < 0
  }

  /** Every `]` has an earlier `[` and every `[` a later `]`. */
  predicate WellNested(w: string) {
    !Underflows(w) && Level(w, |w|) == 0
  }

  /** The `[` at `s` is closed by the `]` at `e`: the level returns to what it
      was before `s` for the first time just after `e`. */
  predicate Closes(w: string, s: int, e: int) {
    && 0 <= s < e < |w|
    && w[s] == '['
    && w[e] == ']'
    && Level(w, e + 1) == Level(w, s)
    && forall k :: s < k <= e ==> Level(w, k) > Level(w, s)
  }

  /** The `[` at `s` is never closed: the level stays above what it was before
      `s` to the end of `w`. */
  predicate Unclosed(w: string, s: int) {
    && 0 <= s < |w|
    && w[s] == '['
    && forall k :: s < k <= |w| ==> Level(w, k) > Level(w, s)
  }

  /** A `[` has at most one closing `]`, a `]` closes at most one `[`, and a
      closed `[` is not unclosed. */
  lemma ClosesUnique(w: string, s: int, e: int)
    requires Closes(w, s, e)
    ensures forall e' :: Closes(w, s, e') ==> e' == e
    ensures forall s' :: Closes(w, s', e) ==> s' == s
    ensures !Unclosed(w, s)
  {}

  /** In well-nested text no `[` is left open. */
  lemma WellNestedClosesAll(w: string, s: int)
    requires WellNested(w)
    ensures !Unclosed(w, s)
  {
    if 0 <= s < |w| {
      assert Level(w, s) >= 0;
    }
  }
}
