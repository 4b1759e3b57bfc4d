/**
 * The two read loops of the tool, `ask_user_confirmation` and
 * `ask_user_directory_name`. Standard input is a sequence of lines; a line
 * the reader fails to read is `ReadFailure`, and running past the last line
 * is end of input.
 */
module Prompts {
  import opened Wrappers
  import opened Text

  datatype InputLine = Line(text: string) | ReadFailure

  /** `UserOptions`. */
  datatype UserOption = Exit | NextImage | PreviousImage | CityName(name: string)

  /**
   * What a read loop ends with: the decisive answer and the position of the
   * line after it, a read failure, or the end of the input (where the tool,
   * reading empty lines at end of file, would go on prompting forever).
   */
  datatype Reply<T> = Answered(value: T, next: nat) | ReadFailed | EndOfInput

  /** The match in `ask_user_directory_name`: None asks again. */
  function ClassifyCommand(line: string): Option<UserOption>
  {
    var n := Normalize(line);
    if n == "n" then Some(NextImage)
    else if n == "p" then Some(PreviousImage)
    else if n == "q" then Some(Exit)
    else if n != [] then Some(CityName(n))
    else None
  }

  /** The match in `ask_user_confirmation`: true to go on, false to stop, None asks again. */
  function ClassifyConfirmation(line: string): Option<bool>
  {
    var n := Normalize(line);
    if n == "y" then Some(true) else if n == "n" then Some(false) else None
  }

  /** Lines `from` to `to` were all read and none of them settles the prompt. */
  ghost predicate Undecided<T>(lines: seq<InputLine>, from: nat, to: nat, decide: string -> Option<T>)
    requires from <= to <= |lines|
  {
    forall j :: from <= j < to ==> lines[j].Line? && decide(lines[j].text).None?
  }

  /** Reference definition of a read loop: the reply settled by the first decisive line from `pos` on. */
  function FirstDecisive<T>(lines: seq<InputLine>, pos: nat, decide: string -> Option<T>): (r: Reply<T>)
    requires pos <= |lines|
    ensures r.Answered? ==> pos < r.next <= |lines|
    decreases |lines| - pos
  {
    if pos == |lines| then EndOfInput
    else match lines[pos]
      case ReadFailure => ReadFailed
      case Line(t) =>
        match decide(t)
        case Some(v) => Answered(v, pos + 1)
        case None => FirstDecisive(lines, pos + 1, decide)
  }

  /**
   * The reply is decided by the first line that settles the prompt, every
   * line before it is skipped, a read failure before any such line is
   * fatal, and only input with no decisive line at all reaches its end.
   */
  lemma {:induction false} FirstDecisiveMeaning<T>(lines: seq<InputLine>, pos: nat, decide: string -> Option<T>)
    requires pos <= |lines|
    ensures var r := FirstDecisive(lines, pos, decide);
      && (r.Answered? ==>
            && Undecided(lines, pos, r.next - 1, decide)
            && lines[r.next - 1].Line?
            && decide(lines[r.next - 1].text) == Some(r.value))
      && (r.ReadFailed? ==>
            exists k :: pos <= k < |lines| && Undecided(lines, pos, k, decide) && lines[k].ReadFailure?)
      && (r.EndOfInput? <==> Undecided(lines, pos, |lines|, decide))
    decreases |lines| - pos
  {
    if pos < |lines| && lines[pos].Line? && decide(lines[pos].text).None? {
      FirstDecisiveMeaning(lines, pos + 1, decide);
      var r := FirstDecisive(lines, pos + 1, decide);
      if r.ReadFailed? {
        var k :| pos + 1 <= k < |lines| && Undecided(lines, pos + 1, k, decide) && lines[k].ReadFailure?;
        assert Undecided(lines, pos, k, decide);
      }
    } else if pos < |lines| {
      assert !Undecided(lines, pos, |lines|, decide);
      if lines[pos].ReadFailure? {
        assert Undecided(lines, pos, pos, decide);
      }
    }
  }

  /**
   * The read loop both prompts share: read a line, return on a decisive one,
   * ask again on any other; a failed read ends the loop with an error.
   */
  method ReadUntilDecided<T>(lines: seq<InputLine>, pos: nat, decide: string -> Option<T>) returns (r: Reply<T>)
    requires pos <= |lines|
    ensures r == FirstDecisive(lines, pos, decide)
    ensures r.Answered? ==>
      && pos < r.next <= |lines|
      && Undecided(lines, pos, r.next - 1, decide)
      && lines[r.next - 1].Line?
      && decide(lines[r.next - 1].text) == Some(r.value)
    ensures r.ReadFailed? ==>
      exists k :: pos <= k < |lines| && Undecided(lines, pos, k, decide) && lines[k].ReadFailure?
    ensures r.EndOfInput? ==> Undecided(lines, pos, |lines|, decide)
  {
    var k := pos;
    while k < |lines|
      invariant pos <= k <= |lines|
      invariant FirstDecisive(lines, pos, decide) == FirstDecisive(lines, k, decide)
      invariant Undecided(lines, pos, k, decide)
      decreases |lines| - k
    {
      match lines[k] {
        case ReadFailure =>
          return ReadFailed;
        case Line(text) =>
          var answer := decide(text);
          if answer.Some? {
            return Answered(answer.value, k + 1);
          }
      }
      k := k + 1;
    }
    return EndOfInput;
  }

  /**
   * `ask_user_confirmation`: reads lines until one is "y" (go on) or "n"
   * (abort), ignoring case and surrounding whitespace; any other line asks again.
   */
  method AskUserConfirmation(lines: seq<InputLine>, pos: nat) returns (r: Reply<bool>)
    requires pos <= |lines|
    ensures r == FirstDecisive(lines, pos, ClassifyConfirmation)
    ensures r.Answered? ==>
      && pos < r.next <= |lines|
      && Undecided(lines, pos, r.next - 1, ClassifyConfirmation)
      && lines[r.next - 1].Line?
      && ClassifyConfirmation(lines[r.next - 1].text) == Some(r.value)
    ensures r.EndOfInput? ==> Undecided(lines, pos, |lines|, ClassifyConfirmation)
  {
    r := ReadUntilDecided(lines, pos, ClassifyConfirmation);
  }

  /**
   * `ask_user_directory_name`: reads lines until one is not empty once
   * trimmed; "n", "p" and "q" (any case) are the navigation commands and
   * take precedence, and any other text is a city name, trimmed and lower-cased.
   */
  method AskUserDirectoryName(lines: seq<InputLine>, pos: nat) returns (r: Reply<UserOption>)
    requires pos <= |lines|
    ensures r == FirstDecisive(lines, pos, ClassifyCommand)
    ensures r.Answered? ==>
      && pos < r.next <= |lines|
      && Undecided(lines, pos, r.next - 1, ClassifyCommand)
      && lines[r.next - 1].Line?
      && ClassifyCommand(lines[r.next - 1].text) == Some(r.value)
    ensures r.EndOfInput? ==> Undecided(lines, pos, |lines|, ClassifyCommand)
  {
    r := ReadUntilDecided(lines, pos, ClassifyCommand);
  }

  /** A line asks again exactly when it is blank once trimmed. */
  lemma {:induction false} BlankLinesAskAgain(line: string)
    ensures ClassifyCommand(line).None? <==> AllWhitespace(line)
  {
    TrimIsSlice(line);
  }

  /**
   * The reserved words win over city names: "n", "p" and "q" in either case,
   * with any whitespace around them, are always navigation commands.
   */
  lemma {:induction false} ReservedWordsAreCommands(before: string, c: char, after: string)
    requires AllWhitespace(before) && AllWhitespace(after)
    requires c in "nNpPqQ"
    ensures ClassifyCommand(before + [c] + after) ==
      Some(if c in "nN" then NextImage else if c in "pP" then PreviousImage else Exit)
  {
    assert !IsWhitespace(c);
    NormalizePadded(before, c, after);
    var w := Normalize(before + [c] + after);
    if c in "nN" {
      assert w == "n";
    } else if c in "pP" {
      assert w == "p";
    } else {
      assert w == "q";
    }
  }

  /** "y" and "n", in either case and with any padding, settle the confirmation prompt. */
  lemma {:induction false} ConfirmationWords(before: string, c: char, after: string)
    requires AllWhitespace(before) && AllWhitespace(after)
    requires c in "yYnN"
    ensures ClassifyConfirmation(before + [c] + after) == Some(c in "yY")
  {
    NormalizePadded(before, c, after);
  }

  /**
   * A city name is already in normal form, so entering it again, in any
   * case and with any padding, names the same city.
   */
  lemma {:induction false} CityNameStable(line: string)
    requires ClassifyCommand(line).Some? && ClassifyCommand(line).value.CityName?
    ensures var name := ClassifyCommand(line).value.name;
      && name != [] && name !in {"n", "p", "q"}
      && Normalize(name) == name
      && ClassifyCommand(name) == Some(CityName(name))
      && (forall k :: 0 <= k < |name| ==> !IsAsciiUpper(name[k]))
  {
    NormalizeIdempotent(line);
  }

  /** The prompt only sees the normalised line: case and padding never change the answer. */
  lemma {:induction false} ClassifyOnlySeesNormalForm(line: string)
    ensures ClassifyCommand(Normalize(line)) == ClassifyCommand(line)
    ensures ClassifyConfirmation(Normalize(line)) == ClassifyConfirmation(line)
  {
    NormalizeIdempotent(line);
  }
}
