/** The command line the Windows launcher builds, and the argv rules that undo it
  (native/windows-cli-launcher/OrcaCliLauncher.cs).

  The reader follows the Microsoft C/C++ rules: blanks separate arguments; 2n backslashes and
  a quote give n backslashes and a delimiter; 2n+1 backslashes and a quote give n backslashes
  and a literal quote; other backslashes are literal.  Newer runtimes also read a doubled quote
  inside quotes as a literal quote; `doubled` selects that rule, and everything is proved for
  both settings. */
module WindowsCommandLine {

  type CharClass = char -> bool

  // ----- The printer

  function Backslashes(n: nat): (s: string)
    ensures |s| == n && forall i :: 0 <= i < n ==> s[i] == '\\'
  {
    if n == 0 then "" else Backslashes(n - 1) + "\\"
  }

  predicate RequiresQuotes(isWhiteSpace: CharClass, value: string) {
    value == "" || exists i :: 0 <= i < |value| && (value[i] == '"' || isWhiteSpace(value[i]))
  }

  /** What is written for `value` after `pending` backslashes, up to the closing quote. */
  function QuotedBody(value: string, pending: nat): string {
    if value == "" then Backslashes(pending * 2) + "\""
    else if value[0] == '\\' then QuotedBody(value[1..], pending + 1)
    else if value[0] == '"' then Backslashes(pending * 2 + 1) + "\"" + QuotedBody(value[1..], 0)
    else Backslashes(pending) + [value[0]] + QuotedBody(value[1..], 0)
  }

  function Quoted(isWhiteSpace: CharClass, value: string): string {
    if RequiresQuotes(isWhiteSpace, value) then "\"" + QuotedBody(value, 0) else value
  }

  lemma {:induction false} BodyIsLonger(value: string, pending: nat)
    ensures |QuotedBody(value, pending)| > |value| + pending
  {
    if value != "" {
      if value[0] == '\\' {
        BodyIsLonger(value[1..], pending + 1);
      } else {
        BodyIsLonger(value[1..], 0);
      }
    }
  }

  /** An argument is written as it stands exactly if it is not empty and has no quote and no white
    space. */
  lemma UnquotedIff(isWhiteSpace: CharClass, value: string)
    ensures Quoted(isWhiteSpace, value) == value <==>
      value != "" && forall c :: c in value ==> c != '"' && !isWhiteSpace(c)
  {
    BodyIsLonger(value, 0);
    if RequiresQuotes(isWhiteSpace, value) {
      if i :| 0 <= i < |value| && (value[i] == '"' || isWhiteSpace(value[i])) {
        assert value[i] in value;
      }
    }
  }

  method QuoteArgument(isWhiteSpace: CharClass, value: string) returns (quoted: string)
    ensures quoted == Quoted(isWhiteSpace, value)
  {
    var requiresQuotes := |value| == 0;
    var index := 0;
    while index < |value| && !requiresQuotes
      invariant 0 <= index <= |value|
      invariant requiresQuotes ==> RequiresQuotes(isWhiteSpace, value)
      invariant !requiresQuotes ==> value != ""
      invariant !requiresQuotes ==> forall i :: 0 <= i < index ==> value[i] != '"' && !isWhiteSpace(value[i])
    {
      requiresQuotes := value[index] == '"' || isWhiteSpace(value[index]);
      index := index + 1;
    }
    if !requiresQuotes {
      return value;
    }
    quoted := "\"";
    var backslashCount: nat := 0;
    for k := 0 to |value|
      invariant quoted + QuotedBody(value[k..], backslashCount) == "\"" + QuotedBody(value, 0)
    {
      var character := value[k];
      assert value[k..][1..] == value[k + 1..];
      if character == '\\' {
        backslashCount := backslashCount + 1;
        continue;
      }
      if character == '"' {
        quoted := quoted + Backslashes(backslashCount * 2 + 1);
        quoted := quoted + "\"";
      } else {
        quoted := quoted + Backslashes(backslashCount);
        quoted := quoted + [character];
      }
      backslashCount := 0;
    }
    quoted := quoted + Backslashes(backslashCount * 2);
    quoted := quoted + "\"";
  }

  function CommandLine(isWhiteSpace: CharClass, words: seq<string>): string
    requires words != []
  {
    if |words| == 1 then Quoted(isWhiteSpace, words[0])
    else Quoted(isWhiteSpace, words[0]) + " " + CommandLine(isWhiteSpace, words[1..])
  }

  lemma {:induction false} CommandLineSnoc(isWhiteSpace: CharClass, words: seq<string>, word: string)
    requires words != []
    ensures CommandLine(isWhiteSpace, words + [word])
         == CommandLine(isWhiteSpace, words) + " " + Quoted(isWhiteSpace, word)
  {
    if |words| > 1 {
      CommandLineSnoc(isWhiteSpace, words[1..], word);
      assert (words + [word])[1..] == words[1..] + [word];
    }
  }

  // ----- The reader

  predicate IsBlank(c: char) {
    c == ' ' || c == '\t'
  }

  /** An argument's text with the unread rest of the line. */
  datatype Reading = Reading(text: string, rest: string)

  function Before(text: string, r: Reading): Reading {
    Reading(text + r.text, r.rest)
  }

  /** One argument, after `pending` backslashes whose meaning depends on what follows. */
  function ReadArgument(doubled: bool, s: string, inQuotes: bool, pending: nat): (r: Reading)
    ensures |r.rest| <= |s|
    decreases |s|
  {
    if s == "" then Reading(Backslashes(pending), "")
    else if s[0] == '\\' then ReadArgument(doubled, s[1..], inQuotes, pending + 1)
    else if s[0] == '"' then
      if pending % 2 == 1 then
        Before(Backslashes(pending / 2) + "\"", ReadArgument(doubled, s[1..], inQuotes, 0))
      else if doubled && inQuotes && |s| > 1 && s[1] == '"' then
        Before(Backslashes(pending / 2) + "\"", ReadArgument(doubled, s[2..], inQuotes, 0))
      else
        Before(Backslashes(pending / 2), ReadArgument(doubled, s[1..], !inQuotes, 0))
    else if !inQuotes && IsBlank(s[0]) then Reading(Backslashes(pending), s)
    else Before(Backslashes(pending) + [s[0]], ReadArgument(doubled, s[1..], inQuotes, 0))
  }

  function SplitArguments(doubled: bool, s: string): seq<string>
    decreases |s|
  {
    if s == "" then []
    else if IsBlank(s[0]) then SplitArguments(doubled, s[1..])
    else
      var r := ReadArgument(doubled, s, false, 0);
      ReadArgumentProgress(doubled, s);
      [r.text] + SplitArguments(doubled, r.rest)
  }

  lemma ReadArgumentProgress(doubled: bool, s: string)
    requires s != "" && !IsBlank(s[0])
    ensures |ReadArgument(doubled, s, false, 0).rest| < |s|
  {
  }

  // ----- Reading undoes printing

  predicate EndsArgument(rest: string) {
    rest == "" || rest[0] == ' '
  }

  lemma {:induction false} ReadBackslashes(doubled: bool, n: nat, s: string, inQuotes: bool, pending: nat)
    ensures ReadArgument(doubled, Backslashes(n) + s, inQuotes, pending)
         == ReadArgument(doubled, s, inQuotes, pending + n)
    decreases n
  {
    if n == 0 {
      assert Backslashes(n) + s == s;
    } else {
      ReadBackslashes(doubled, n - 1, s, inQuotes, pending + 1);
      assert (Backslashes(n) + s)[1..] == Backslashes(n - 1) + s;
    }
  }

  /** `c` is neither a backslash nor a quote: the backslashes before it are literal. */
  lemma ReadOrdinary(doubled: bool, n: nat, c: char, tail: string, inQuotes: bool)
    requires c != '\\' && c != '"' && (inQuotes || !IsBlank(c))
    ensures ReadArgument(doubled, Backslashes(n) + ([c] + tail), inQuotes, 0)
         == Before(Backslashes(n) + [c], ReadArgument(doubled, tail, inQuotes, 0))
  {
    ReadBackslashes(doubled, n, [c] + tail, inQuotes, 0);
    assert ([c] + tail)[1..] == tail;
  }

  /** An odd run before a quote makes the quote literal. */
  lemma ReadEscapedQuote(doubled: bool, n: nat, tail: string)
    ensures ReadArgument(doubled, Backslashes(n * 2 + 1) + ("\"" + tail), true, 0)
         == Before(Backslashes(n) + "\"", ReadArgument(doubled, tail, true, 0))
  {
    ReadBackslashes(doubled, n * 2 + 1, "\"" + tail, true, 0);
    assert ("\"" + tail)[1..] == tail;
    assert (n * 2 + 1) / 2 == n && (n * 2 + 1) % 2 == 1;
  }

  /** The closing delimiter of a quoted argument. */
  lemma ReadClosing(doubled: bool, n: nat, rest: string)
    requires EndsArgument(rest)
    ensures ReadArgument(doubled, Backslashes(n * 2) + ("\"" + rest), true, 0) == Reading(Backslashes(n), rest)
  {
    ReadBackslashes(doubled, n * 2, "\"" + rest, true, 0);
    assert ("\"" + rest)[1..] == rest;
    assert ReadArgument(doubled, rest, false, 0) == Reading("", rest);
    assert Backslashes(n) + "" == Backslashes(n);
  }

  /** The characters printed for the first character of `value`, in front of `tail`. */
  lemma BodyUnfolds(value: string, pending: nat, rest: string, tail: string)
    requires value != "" && value[0] != '\\' && tail == QuotedBody(value[1..], 0) + rest
    ensures QuotedBody(value, pending) + rest
         == Backslashes(if value[0] == '"' then pending * 2 + 1 else pending) + ([value[0]] + tail)
  {
  }

  lemma TextUnfolds(value: string, pending: nat)
    requires value != ""
    ensures Backslashes(pending) + [value[0]] + (Backslashes(0) + value[1..]) == Backslashes(pending) + value
    ensures value[0] == '\\' ==> Backslashes(pending + 1) + value[1..] == Backslashes(pending) + value
  {
  }

  lemma {:induction false} ReadQuotedBody(doubled: bool, value: string, pending: nat, rest: string)
    requires EndsArgument(rest)
    ensures ReadArgument(doubled, QuotedBody(value, pending) + rest, true, 0)
         == Reading(Backslashes(pending) + value, rest)
    decreases |value|
  {
    if value == "" {
      ReadClosing(doubled, pending, rest);
      assert QuotedBody(value, pending) + rest == Backslashes(pending * 2) + ("\"" + rest);
      assert Backslashes(pending) + value == Backslashes(pending);
    } else {
      TextUnfolds(value, pending);
      if value[0] == '\\' {
        ReadQuotedBody(doubled, value[1..], pending + 1, rest);
      } else {
        var tail := QuotedBody(value[1..], 0) + rest;
        BodyUnfolds(value, pending, rest, tail);
        ReadQuotedBody(doubled, value[1..], 0, rest);
        if value[0] == '"' {
          ReadEscapedQuote(doubled, pending, tail);
        } else {
          ReadOrdinary(doubled, pending, value[0], tail, true);
        }
      }
    }
  }

  predicate Bare(value: string) {
    forall i :: 0 <= i < |value| ==> value[i] != '"' && !IsBlank(value[i])
  }

  /** Text without blanks or quotes is read as it stands. */
  lemma {:induction false} ReadBare(doubled: bool, value: string, rest: string, pending: nat)
    requires EndsArgument(rest) && Bare(value)
    ensures ReadArgument(doubled, value + rest, false, pending) == Reading(Backslashes(pending) + value, rest)
    decreases |value|
  {
    if value == "" {
      assert value + rest == rest;
      assert Backslashes(pending) + value == Backslashes(pending);
    } else {
      assert (value + rest)[1..] == value[1..] + rest;
      if value[0] == '\\' {
        ReadBare(doubled, value[1..], rest, pending + 1);
        assert Backslashes(pending + 1) + value[1..] == Backslashes(pending) + value;
      } else {
        ReadBare(doubled, value[1..], rest, 0);
        assert Backslashes(pending) + [value[0]] + (Backslashes(0) + value[1..]) == Backslashes(pending) + value;
      }
    }
  }

  lemma ReadOpening(doubled: bool, tail: string)
    ensures ReadArgument(doubled, "\"" + tail, false, 0) == ReadArgument(doubled, tail, true, 0)
  {
    assert ("\"" + tail)[1..] == tail;
    var r := ReadArgument(doubled, tail, true, 0);
    assert Backslashes(0) + r.text == r.text;
  }

  lemma ReadQuoted(isWhiteSpace: CharClass, doubled: bool, value: string, rest: string)
    requires isWhiteSpace(' ') && isWhiteSpace('\t')
    requires EndsArgument(rest)
    ensures ReadArgument(doubled, Quoted(isWhiteSpace, value) + rest, false, 0) == Reading(value, rest)
    ensures Quoted(isWhiteSpace, value) != "" && !IsBlank(Quoted(isWhiteSpace, value)[0])
  {
    assert Backslashes(0) + value == value;
    if RequiresQuotes(isWhiteSpace, value) {
      var tail := QuotedBody(value, 0) + rest;
      ReadQuotedBody(doubled, value, 0, rest);
      ReadOpening(doubled, tail);
      assert Quoted(isWhiteSpace, value) + rest == "\"" + tail;
    } else {
      ReadBare(doubled, value, rest, 0);
    }
  }

  /** Splitting takes one printed word off the front. */
  lemma SplitFirst(isWhiteSpace: CharClass, doubled: bool, word: string, rest: string)
    requires isWhiteSpace(' ') && isWhiteSpace('\t')
    requires EndsArgument(rest)
    ensures SplitArguments(doubled, Quoted(isWhiteSpace, word) + rest) == [word] + SplitArguments(doubled, rest)
  {
    ReadQuoted(isWhiteSpace, doubled, word, rest);
  }

  lemma SkipSeparator(doubled: bool, s: string)
    ensures SplitArguments(doubled, " " + s) == SplitArguments(doubled, s)
  {
    assert (" " + s)[1..] == s;
  }

  /** Main result: the argv rules give back exactly the words that were printed, for every
    list of strings, under either reading of a doubled quote. */
  lemma {:induction false} RoundTrip(isWhiteSpace: CharClass, doubled: bool, words: seq<string>)
    requires isWhiteSpace(' ') && isWhiteSpace('\t')
    requires words != []
    ensures SplitArguments(doubled, CommandLine(isWhiteSpace, words)) == words
  {
    if |words| == 1 {
      SplitFirst(isWhiteSpace, doubled, words[0], "");
      assert Quoted(isWhiteSpace, words[0]) + "" == Quoted(isWhiteSpace, words[0]);
    } else {
      var line := CommandLine(isWhiteSpace, words[1..]);
      SplitFirst(isWhiteSpace, doubled, words[0], " " + line);
      SkipSeparator(doubled, line);
      RoundTrip(isWhiteSpace, doubled, words[1..]);
      assert Quoted(isWhiteSpace, words[0]) + (" " + line) == CommandLine(isWhiteSpace, words);
    }
  }

  /** The launcher's command line is split back into the CLI path and its arguments. */
  method BuildArguments(isWhiteSpace: CharClass, cliPath: string, args: seq<string>)
    returns (commandLine: string)
    requires isWhiteSpace(' ') && isWhiteSpace('\t')
    ensures commandLine == CommandLine(isWhiteSpace, [cliPath] + args)
    ensures forall doubled :: SplitArguments(doubled, commandLine) == [cliPath] + args
  {
    commandLine := QuoteArgument(isWhiteSpace, cliPath);
    for k := 0 to |args|
      invariant commandLine == CommandLine(isWhiteSpace, [cliPath] + args[..k])
    {
      var arg := QuoteArgument(isWhiteSpace, args[k]);
      CommandLineSnoc(isWhiteSpace, [cliPath] + args[..k], args[k]);
      assert [cliPath] + args[..k] + [args[k]] == [cliPath] + args[..k + 1];
      commandLine := commandLine + " ";
      commandLine := commandLine + arg;
    }
    assert args[..|args|] == args;
    RoundTrip(isWhiteSpace, false, [cliPath] + args);
    RoundTrip(isWhiteSpace, true, [cliPath] + args);
  }
}
