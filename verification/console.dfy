/**
 Standard input as a finite sequence of lines. A read past the end yields "" (the tools ignore
 the end-of-file error), so a loop that waits for an acceptable line would spin for ever once
 input runs out; the model reports that case instead.
 */
module Console {
  import opened Wrappers
  import opened Strings

  /** One `reader.ReadString('\n')`: the next line and what is left. */
  function ReadLine(input: seq<string>): (r: (string, seq<string>))
    ensures input == [] ==> r == ("", [])
    ensures input != [] ==> r == (input[0], input[1..])
  {
    if input == [] then ("", []) else (input[0], input[1..])
  }

  /** The next line, trimmed, as every prompt reads it. */
  function ReadTrimmed(input: seq<string>): (r: (string, seq<string>))
    ensures input == [] ==> r == ("", [])
    ensures input != [] ==> r == (TrimSpace(input[0]), input[1..])
  {
    var (line, rest) := ReadLine(input);
    (TrimSpace(line), rest)
  }

  /** The input left after `n` reads; reads past the end leave nothing. */
  function Skip(input: seq<string>, n: nat): seq<string> {
    if n <= |input| then input[n..] else []
  }

  /** The `i`-th line as a prompt reads it: trimmed, and "" once input has run out. */
  function LineAt(input: seq<string>, i: nat): string {
    if i < |input| then TrimSpace(input[i]) else ""
  }

  /** The lines a flag-or-prompt field reads: one when the flag is empty, none otherwise. */
  function Prompted(flag: string): nat {
    if flag == "" then 1 else 0
  }

  /** A prompt guarded by a flag reads line `n` when the flag is empty and consumes nothing otherwise. */
  lemma OptionalReadAt(input: seq<string>, n: nat, flag: string)
    ensures flag == "" ==> ReadTrimmed(Skip(input, n)) == (LineAt(input, n), Skip(input, n + Prompted(flag)))
    ensures flag != "" ==> Skip(input, n + Prompted(flag)) == Skip(input, n)
  {
    ReadAt(input, n);
  }

  /** After `n` reads, the next prompt reads line `n` and leaves the input after it. */
  lemma ReadAt(input: seq<string>, n: nat)
    ensures ReadTrimmed(Skip(input, n)) == (LineAt(input, n), Skip(input, n + 1))
    ensures ReadLine(Skip(input, n)).1 == Skip(input, n + 1)
  {
    if n < |input| {
      assert input[n..][1..] == input[n + 1..];
    }
  }

  /** How `ReadAnswer` normalises a line before comparing it. */
  function Normalize(line: string): string {
    ToLower(TrimSpace(line))
  }

  predicate IsAnswer(line: string) {
    Normalize(line) == "y" || Normalize(line) == "n"
  }

  /** `k` is the first line `ReadAnswer` accepts. */
  predicate IsFirstAnswer(input: seq<string>, k: int) {
    0 <= k < |input| && IsAnswer(input[k]) && forall j :: 0 <= j < k ==> !IsAnswer(input[j])
  }

  /**
   `ReadAnswer`: lines are read until one normalises to "y" or "n"; that answer and the
   remaining input are returned. `None` means input ran out first, where the tool loops for ever.
   */
  function ReadAnswer(input: seq<string>): (r: Option<(string, seq<string>)>)
    ensures r.Some? ==> r.value.0 == "y" || r.value.0 == "n"
    ensures r.Some? ==> |r.value.1| < |input|
    decreases |input|
  {
    if input == [] then None
    else if IsAnswer(input[0]) then Some((Normalize(input[0]), input[1..]))
    else ReadAnswer(input[1..])
  }

  /** When the first line is not an answer, the first answer is found one line later in the rest. */
  lemma FirstAnswerShift(input: seq<string>, k: int)
    requires input != [] && !IsAnswer(input[0]) && IsFirstAnswer(input, k)
    ensures k >= 1 && IsFirstAnswer(input[1..], k - 1)
    ensures input[1..][k - 1] == input[k] && input[1..][k..] == input[k + 1..]
  {
    forall j | 0 <= j < k - 1 ensures !IsAnswer(input[1..][j]) {
      assert input[1..][j] == input[j + 1];
    }
  }

  /** The first line that is an answer decides, and the input after it is left unread. */
  lemma {:induction false} ReadAnswerFirst(input: seq<string>, k: int)
    requires IsFirstAnswer(input, k)
    ensures ReadAnswer(input) == Some((Normalize(input[k]), input[k + 1..]))
    decreases |input|
  {
    if !IsAnswer(input[0]) {
      FirstAnswerShift(input, k);
      ReadAnswerFirst(input[1..], k - 1);
    }
  }

  /** `ReadAnswer` gives up exactly when no line of the input is an answer. */
  lemma {:induction false} ReadAnswerNone(input: seq<string>)
    ensures ReadAnswer(input).None? <==> forall j :: 0 <= j < |input| ==> !IsAnswer(input[j])
    decreases |input|
  {
    if input != [] && IsAnswer(input[0]) {
      assert ReadAnswer(input).Some?;
    } else if input != [] {
      var tail := input[1..];
      ReadAnswerNone(tail);
      assert ReadAnswer(input) == ReadAnswer(tail);
      forall j | 1 <= j < |input| ensures input[j] == tail[j - 1] { }
    }
  }

  /** The accepted spellings: surrounding white space and upper case are ignored, nothing else. */
  lemma AnswerSpellings(line: string)
    ensures Normalize(line) == "y" <==> TrimSpace(line) == "y" || TrimSpace(line) == "Y"
    ensures Normalize(line) == "n" <==> TrimSpace(line) == "n" || TrimSpace(line) == "N"
  {
    ToLowerSingleLetter(TrimSpace(line), 'y');
    ToLowerSingleLetter(TrimSpace(line), 'n');
  }

  /** " Y " is read as "y". */
  lemma PaddedUpperCaseYes(line: string)
    requires line == " Y "
    ensures ReadAnswer([line]) == Some(("y", []))
  {
    assert line == [' '] + "Y" + [' '];
    assert TrimLeft(line) == "Y ";
    assert TrimSpace(line) == "Y";
    AnswerSpellings(line);
    assert Normalize(line) == "y";
    assert IsFirstAnswer([line], 0);
    ReadAnswerFirst([line], 0);
    assert [line][1..] == [];
  }
}
