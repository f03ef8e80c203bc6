/**
 * The console's reading of one input line: the numbered-selection mode, the
 * commands, and the archive name of `add <name>`.
 */
module ConsoleInput {
  import opened Wrappers
  import opened JsText

  /** `s.endsWith(suffix)` */
  predicate EndsWith(s: string, suffix: string) {
    |suffix| <= |s| && s[|s| - |suffix|..] == suffix
  }

  /** `getHarFiles()` on a directory listing (None: the directory does not exist). */
  function HarFiles(listing: Option<seq<string>>): seq<string>
  {
    match listing
    case None => []
    case Some(names) => HarNames(names)
  }

  /** `names.filter(file => file.endsWith(".har"))`: the archive names, in listing order. */
  function HarNames(names: seq<string>): seq<string>
  {
    if names == [] then []
    else (if EndsWith(names[0], ".har") then [names[0]] else []) + HarNames(names[1..])
  }

  /** The archive names are exactly the listed names ending in ".har". */
  lemma {:induction false} HarNamesFilter(names: seq<string>)
    ensures forall f :: f in HarNames(names) <==> f in names && EndsWith(f, ".har")
    ensures |HarNames(names)| <= |names|
  {
    if names != [] {
      HarNamesFilter(names[1..]);
      assert forall f :: f in names <==> f == names[0] || f in names[1..];
    }
  }

  /** The filter keeps listing order: filtering a concatenation concatenates the filtered parts. */
  lemma {:induction false} HarNamesAppend(a: seq<string>, b: seq<string>)
    ensures HarNames(a + b) == HarNames(a) + HarNames(b)
  {
    if a == [] {
      assert a + b == b;
    } else {
      assert (a + b)[0] == a[0];
      assert (a + b)[1..] == a[1..] + b;
      HarNamesAppend(a[1..], b);
    }
  }

  /**
   * The numbered choice: `parseInt(input, 10)` is accepted when it is a number
   * `n` with 1 <= n <= |list|, and then selects `list[n - 1]`.
   */
  function Selection(input: string, list: seq<string>): Option<string>
  {
    match ParseInt(input)
    case None => None
    case Some(n) => if 1 <= n <= |list| then Some(list[n - 1]) else None
  }

  /** Typing the printed index `n` selects `list[n - 1]` exactly when 1 <= n <= |list|. */
  lemma SelectionByIndex(n: nat, list: seq<string>)
    ensures Selection(ShowNat(n), list) == if 1 <= n <= |list| then Some(list[n - 1]) else None
  {
    var s := ShowNat(n);
    assert s + [] == s;
    ParseIntShowNat(n, []);
    assert ParseInt(s) == Some(n);
  }

  /** A selection is accepted exactly when the input parses to an in-range number, and it names a listed file. */
  lemma SelectionAccepted(input: string, list: seq<string>)
    ensures Selection(input, list).Some? <==> (ParseInt(input).Some? && 1 <= ParseInt(input).value <= |list|)
    ensures Selection(input, list).Some? ==> Selection(input, list).value in list
  {
  }

  /** `input.replace("add ", "").trim()` */
  function AddName(input: string): string
  {
    Trim(ReplaceFirst(input, "add ", ""))
  }

  /** On an `add <name>` command, the name is the rest of the line after "add ", trimmed. */
  lemma AddNameOfCommand(input: string)
    requires StartsWith(input, "add ")
    ensures AddName(input) == Trim(input[4..])
  {
    ReplaceLeading(input, "add ");
  }

  /** A line that starts with "add " and does not end in white space (as a trimmed line) names a non-empty archive. */
  lemma AddNameNonEmpty(input: string)
    requires StartsWith(input, "add ") && !IsSpace(input[|input| - 1])
    ensures AddName(input) != []
  {
    AddNameOfCommand(input);
    var rest := input[4..];
    assert |input| != 4 by {
      assert input[3] == ' ';
    }
    assert rest[|rest| - 1] == input[|input| - 1];
    TrimKeepsNonSpace(rest, |rest| - 1);
  }

  /** What one console line asks for. */
  datatype Command =
    | Select(choice: Option<string>)  // a line read in numbered-selection mode
    | Status
    | ListFiles
    | Help
    | AddMenu
    | Add(name: string)
    | Remove
    | Unknown

  /** The line's meaning, given the trimmed input and the selection state. */
  function Classify(input: string, expectingSelection: bool, list: seq<string>): Command
  {
    if expectingSelection then Select(Selection(input, list))
    else if input == "status" then Status
    else if input == "ls" then ListFiles
    else if input == "help" then Help
    else if input == "add" then AddMenu
    else if StartsWith(input, "add ") then Add(AddName(input))
    else if input == "rm" then Remove
    else Unknown
  }

  /**
   * In selection mode every line is read as a choice, commands included: the
   * printed index `n` selects `list[n - 1]` when in range, and "rm" is an invalid choice.
   */
  lemma SelectionModeReadsChoices(n: nat, list: seq<string>)
    ensures Classify(ShowNat(n), true, list) == Select(if 1 <= n <= |list| then Some(list[n - 1]) else None)
    ensures Classify("rm", true, list) == Select(None)
  {
    SelectionByIndex(n, list);
    ParseIntNaN("rm");
  }
}
