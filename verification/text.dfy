/** String handling of the terminal: splitting a command line, Java's `String.trim`,
    the `rm -r` prefix and the extraction of the typed line from the display text. */
module Text {

  datatype Option<T> = None | Some(value: T)

  /** A command line split at its first space: `name` is the command, `argument`
      the untouched rest of the line. */
  datatype Command = Command(name: string, argument: string)

  /** The two forms of the `rm` argument. */
  datatype RmForm = Recursive(dirName: string) | Single(target: string)

  predicate StartsWith(s: string, prefix: string) {
    |prefix| <= |s| && s[..|prefix|] == prefix
  }

  predicate EndsWith(s: string, suffix: string) {
    |suffix| <= |s| && s[|s| - |suffix|..] == suffix
  }

  /** The index of the first `c` in `s`, or `|s|` when there is none. */
  function FirstIndex(s: string, c: char): (i: nat)
    ensures i <= |s|
    ensures c !in s[..i]
    ensures i < |s| ==> s[i] == c
  {
    if s == [] || s[0] == c then 0
    else
      var i := 1 + FirstIndex(s[1..], c);
      assert s[..i] == [s[0]] + s[1..][..i - 1];
      i
  }

  /** The index of the last `c` in `s`, or -1 when there is none (Java's `lastIndexOf`). */
  function LastIndex(s: string, c: char): (i: int)
    ensures -1 <= i < |s|
    ensures i >= 0 ==> s[i] == c
    ensures forall j :: i < j < |s| ==> s[j] != c
  {
    if s == [] then -1
    else if s[|s| - 1] == c then |s| - 1
    else LastIndex(s[..|s| - 1], c)
  }

  /** `command.split(" ", 2)`: the text before the first space is the command name,
      everything after it (untrimmed) the argument, "" when there is no space. */
  function SplitCommand(line: string): (c: Command)
    ensures ' ' !in c.name
    ensures ' ' in line ==> line == c.name + " " + c.argument
    ensures ' ' !in line ==> c.name == line && c.argument == ""
  {
    var i := FirstIndex(line, ' ');
    if i == |line| then
      assert line[..i] == line;
      Command(line, "")
    else
      assert line == line[..i] + " " + line[i + 1..];
      Command(line[..i], line[i + 1..])
  }

  /** Java's `trim` removes every character at or below U+0020. */
  predicate IsBlank(c: char) {
    c <= ' '
  }

  predicate AllBlank(s: string) {
    forall i :: 0 <= i < |s| ==> IsBlank(s[i])
  }

  /** True of a string with no blank at either end. */
  predicate Trimmed(s: string) {
    s == [] || (!IsBlank(s[0]) && !IsBlank(s[|s| - 1]))
  }

  /** The number of blanks at the start of `s`. */
  function LeadingBlanks(s: string): (k: nat)
    ensures k <= |s|
    ensures AllBlank(s[..k])
    ensures k < |s| ==> !IsBlank(s[k])
  {
    if s == [] || !IsBlank(s[0]) then 0
    else
      var k := 1 + LeadingBlanks(s[1..]);
      assert s[..k] == [s[0]] + s[1..][..k - 1];
      k
  }

  /** The end of `s` once its trailing blanks are dropped. */
  function TextEnd(s: string): (k: nat)
    ensures k <= |s|
    ensures AllBlank(s[k..])
    ensures k > 0 ==> !IsBlank(s[k - 1])
  {
    if s == [] || !IsBlank(s[|s| - 1]) then |s|
    else
      var k := TextEnd(s[..|s| - 1]);
      assert s[k..] == s[..|s| - 1][k..] + [s[|s| - 1]];
      k
  }

  /** Java's `String.trim`. */
  function Trim(s: string): (r: string)
    ensures Trimmed(r)
  {
    var a, b := LeadingBlanks(s), TextEnd(s);
    if b <= a then [] else s[a..b]
  }

  /** Trimming removes exactly the blank padding around a trimmed text, whatever it is. */
  lemma TrimRemovesPadding(pre: string, t: string, post: string)
    requires AllBlank(pre) && AllBlank(post) && Trimmed(t)
    ensures Trim(pre + t + post) == t
  {
    var s := pre + t + post;
    var a, b := LeadingBlanks(s), TextEnd(s);
    if t == [] {
      assert AllBlank(s) by {
        forall i | 0 <= i < |s| ensures IsBlank(s[i]) {
          if i < |pre| { assert s[i] == pre[i]; } else { assert s[i] == post[i - |pre|]; }
        }
      }
      assert b == 0;
    } else {
      var e := |pre| + |t|;
      assert forall i :: 0 <= i < |pre| ==> s[i] == pre[i];
      assert forall i :: e <= i < |s| ==> s[i] == post[i - e];
      assert s[|pre|] == t[0] && s[e - 1] == t[|t| - 1];
      assert a == |pre| && b == e;
      assert s[a..b] == t;
    }
  }

  /** The argument of `rm`: a leading "-r " selects the recursive form, whose target is the
      rest of the argument trimmed; anything else names the target itself. */
  function ParseRm(argument: string): (f: RmForm)
    ensures f.Recursive? <==> StartsWith(argument, "-r ")
    ensures f.Single? ==> f.target == argument
  {
    if StartsWith(argument, "-r ") then Recursive(Trim(argument[3..])) else Single(argument)
  }

  /** After "-r " the target is the rest with its blank padding removed. */
  lemma RecursiveTargetIsTrimmed(pre: string, name: string, post: string)
    requires AllBlank(pre) && AllBlank(post) && Trimmed(name)
    ensures ParseRm("-r " + pre + name + post) == Recursive(name)
  {
    var arg := "-r " + pre + name + post;
    assert arg[..3] == "-r ";
    assert arg[3..] == pre + name + post;
    TrimRemovesPadding(pre, name, post);
  }

  /** A bare "-r" is not the recursive form: it names a target called "-r". */
  lemma BareDashRIsSingle()
    ensures ParseRm("-r") == Single("-r")
  {
  }

  /** The line the user typed: the display text after its last newline, less the two
      characters of the prompt, trimmed. `None` stands for Java's index-out-of-bounds
      exception when fewer than two characters follow the last newline. */
  function ExtractLine(text: string): (r: Option<string>)
    ensures r.Some? ==> Trimmed(r.value)
  {
    var start := LastIndex(text, '\n') + 3;
    if start <= |text| then Some(Trim(text[start..])) else None
  }

  /** Behind a prompt "> " on the last line, the extracted line is what was typed, trimmed. */
  lemma ExtractTypedLine(before: string, typed: string)
    requires '\n' !in typed
    ensures ExtractLine(before + "\n> " + typed) == Some(Trim(typed))
  {
    var text := before + "\n> " + typed;
    var i := LastIndex(text, '\n');
    assert text[|before|] == '\n';
    assert forall j :: |before| < j < |text| ==> text[j] != '\n' by {
      forall j | |before| < j < |text| ensures text[j] != '\n' {
        if j >= |before| + 3 { assert text[j] == typed[j - |before| - 3]; }
      }
    }
    assert i == |before|;
    assert text[i + 3..] == typed;
  }

  /** While the display ends with the prompt and what was typed after it, Enter hands the
      typed text, trimmed, to the interpreter. */
  lemma ExtractAtPrompt(text: string, typed: string)
    requires '\n' !in typed && EndsWith(text, "\n> " + typed)
    ensures ExtractLine(text) == Some(Trim(typed))
  {
    var before := text[..|text| - |typed| - 3];
    assert text == before + "\n> " + typed;
    ExtractTypedLine(before, typed);
  }

  /** Collectors.joining("\n"): the names with a newline between each two. */
  function JoinLines(names: seq<string>): string
  {
    if names == [] then ""
    else if |names| == 1 then names[0]
    else names[0] + "\n" + JoinLines(names[1..])
  }
}
