/** Printing shell words and reading them back: the POSIX branch of
  src/cli/shell-command-quote.ts, and the leading-word tokenizer of
  src/cli/codex-command-classification.ts. */
module ShellWords {
  import opened Wrappers
  import opened Collections
  import opened StringOps

  // ----- The printer

  predicate IsSafe(c: char) {
    'a' <= c <= 'z' || 'A' <= c <= 'Z' || '0' <= c <= '9' || c in {'.', '_', ':', '/', '@', '-'}
  }

  predicate AllSafe(s: string) {
    forall i :: 0 <= i < |s| ==> IsSafe(s[i])
  }

  /** `value.replaceAll("'", "'\\''")`. */
  function EscapeApostrophes(value: string): string {
    if value == "" then ""
    else (if value[0] == '\'' then "'\\''" else [value[0]]) + EscapeApostrophes(value[1..])
  }

  function QuoteCliCommandArgument(value: string): string {
    if value != "" && AllSafe(value) then value else "'" + EscapeApostrophes(value) + "'"
  }

  function QuoteAll(words: seq<string>): seq<string> {
    seq(|words|, i requires 0 <= i < |words| => QuoteCliCommandArgument(words[i]))
  }

  function CommandText(words: seq<string>): string {
    JoinWith(QuoteAll(words), ' ')
  }

  lemma CommandTextCons(words: seq<string>)
    requires |words| > 1
    ensures CommandText(words) == QuoteCliCommandArgument(words[0]) + ([' '] + CommandText(words[1..]))
  {
    assert QuoteAll(words)[1..] == QuoteAll(words[1..]);
  }

  // ----- The POSIX shell's reading of words

  /** Unquoted characters that the shell may interpret, or that end a word. */
  predicate IsSpecial(c: char) {
    c in {'|', '&', ';', '<', '>', '(', ')', '$', '`', '"', '*', '?', '[', ']', '#', '~', '=', '%', '!', '{', '}', '\n'}
  }

  /** Section 2.2 of the POSIX Shell Command Language, for blanks, single quotes and backslashes.
    Any other special character outside single quotes makes the reader give up, so a reading it
    returns involves no expansion or operator.  `current` is the word being read, if any. */
  function ReadWords(s: string, current: Option<string>, quoted: bool): Option<seq<string>>
    decreases |s|
  {
    if s == "" then
      if quoted then None else Some(if current.Some? then [current.value] else [])
    else
      var soFar := if current.Some? then current.value else "";
      var c, rest := s[0], s[1..];
      if quoted then
        if c == '\'' then ReadWords(rest, Some(soFar), false) else ReadWords(rest, Some(soFar + [c]), true)
      else if c == '\'' then ReadWords(rest, Some(soFar), true)
      else if c == '\\' then
        if rest == "" || rest[0] == '\n' then None else ReadWords(rest[1..], Some(soFar + [rest[0]]), false)
      else if c == ' ' || c == '\t' then
        if current.None? then ReadWords(rest, None, false)
        else
          match ReadWords(rest, None, false)
          case None => None
          case Some(words) => Some([current.value] + words)
      else if IsSpecial(c) then None
      else ReadWords(rest, Some(soFar + [c]), false)
  }

  lemma {:induction false} ReadSafe(value: string, rest: string, soFar: string)
    requires AllSafe(value)
    ensures ReadWords(value + rest, Some(soFar), false) == ReadWords(rest, Some(soFar + value), false)
    decreases |value|
  {
    if value == "" {
      assert value + rest == rest && soFar + value == soFar;
    } else {
      ReadSafe(value[1..], rest, soFar + [value[0]]);
      assert (value + rest)[1..] == value[1..] + rest;
      assert soFar + [value[0]] + value[1..] == soFar + value;
    }
  }

  /** The four characters printed for an apostrophe close the quotes, add it and reopen them. */
  lemma ReadApostrophe(rest: string, soFar: string)
    ensures ReadWords("'\\''" + rest, Some(soFar), true) == ReadWords(rest, Some(soFar + "'"), true)
  {
    var s := "'\\''" + rest;
    assert s[1..] == "\\''" + rest && s[1..][1..] == "''" + rest && s[1..][1..][1..] == "'" + rest;
    assert ("'" + rest)[1..] == rest;
    assert ReadWords("\\''" + rest, Some(soFar), false) == ReadWords("'" + rest, Some(soFar + "'"), false);
  }

  lemma {:induction false} ReadQuotedText(value: string, rest: string, soFar: string)
    ensures ReadWords(EscapeApostrophes(value) + rest, Some(soFar), true)
         == ReadWords(rest, Some(soFar + value), true)
    decreases |value|
  {
    if value == "" {
      assert EscapeApostrophes(value) + rest == rest && soFar + value == soFar;
    } else {
      var tail := EscapeApostrophes(value[1..]) + rest;
      ReadQuotedText(value[1..], rest, soFar + [value[0]]);
      assert soFar + [value[0]] + value[1..] == soFar + value;
      if value[0] == '\'' {
        ReadApostrophe(tail, soFar);
        assert EscapeApostrophes(value) + rest == "'\\''" + tail;
      } else {
        assert (EscapeApostrophes(value) + rest)[1..] == tail;
      }
    }
  }

  lemma StartBare(first: char, tail: string)
    requires IsSafe(first)
    ensures ReadWords([first] + tail, None, false) == ReadWords(tail, Some([first]), false)
  {
    assert ([first] + tail)[1..] == tail;
    assert "" + [first] == [first];
  }

  lemma ReadBare(value: string, rest: string)
    requires value != "" && AllSafe(value)
    ensures ReadWords(value + rest, None, false) == ReadWords(rest, Some(value), false)
  {
    ConsTail(value, rest);
    StartBare(value[0], value[1..] + rest);
    ReadSafe(value[1..], rest, [value[0]]);
  }

  lemma ConsTail(s: string, rest: string)
    requires s != ""
    ensures s + rest == [s[0]] + (s[1..] + rest) && [s[0]] + s[1..] == s
  {
  }

  lemma ReadQuoted(value: string, rest: string)
    ensures ReadWords("'" + (EscapeApostrophes(value) + ("'" + rest)), None, false)
         == ReadWords(rest, Some(value), false)
  {
    var tail := "'" + rest;
    ReadQuotedText(value, tail, "");
    assert ("'" + (EscapeApostrophes(value) + tail))[1..] == EscapeApostrophes(value) + tail;
    assert "" + value == value && tail[1..] == rest;
  }

  /** A word is printed without quotes exactly if it is not empty and has only letters, digits, dots,
    underscores, colons, slashes, at signs and hyphens. */
  lemma UnquotedIff(value: string)
    ensures QuoteCliCommandArgument(value) == value <==>
      && value != ""
      && forall c :: c in value ==>
           || 'a' <= c <= 'z' || 'A' <= c <= 'Z' || '0' <= c <= '9'
           || c == '.' || c == '_' || c == ':' || c == '/' || c == '@' || c == '-'
  {
    if AllSafe(value) {
      assert forall c :: c in value ==> IsSafe(c);
    } else {
      var i :| 0 <= i < |value| && !IsSafe(value[i]);
      assert value[i] in value;
    }
    EscapedIsLonger(value);
  }

  lemma {:induction false} EscapedIsLonger(value: string)
    ensures |EscapeApostrophes(value)| >= |value|
  {
    if value != "" {
      EscapedIsLonger(value[1..]);
    }
  }

  /** A printed word is read as one word, whatever follows it. */
  lemma ReadPrinted(value: string, rest: string)
    ensures ReadWords(QuoteCliCommandArgument(value) + rest, None, false) == ReadWords(rest, Some(value), false)
  {
    if value != "" && AllSafe(value) {
      ReadBare(value, rest);
    } else {
      ReadQuoted(value, rest);
      assert QuoteCliCommandArgument(value) + rest == "'" + (EscapeApostrophes(value) + ("'" + rest));
    }
  }

  /** Any list of strings, printed and joined by blanks, is read back unchanged. */
  lemma {:induction false} QuotingRoundTrip(words: seq<string>)
    ensures ReadWords(CommandText(words), None, false) == Some(words)
  {
    if |words| == 1 {
      ReadPrinted(words[0], "");
      assert QuoteCliCommandArgument(words[0]) + "" == CommandText(words);
      assert CommandText(words) == QuoteAll(words)[0];
      assert words == [words[0]];
    } else if |words| > 1 {
      CommandTextCons(words);
      var tail := [' '] + CommandText(words[1..]);
      ReadPrinted(words[0], tail);
      QuotingRoundTrip(words[1..]);
      assert tail[1..] == CommandText(words[1..]);
      assert words == [words[0]] + words[1..];
    }
  }

  // ----- The tokenizer

  type CharClass = char -> bool

  /** The loop's variables. */
  datatype Scan = Scan(tokens: seq<string>, current: string, quote: Option<char>)

  const START := Scan([], "", None)

  function TokenizeFrom(isSpace: CharClass, s: string, limit: nat, scan: Scan): seq<string>
    decreases |s|
  {
    if s == "" then
      if scan.current != "" && |scan.tokens| < limit then scan.tokens + [scan.current] else scan.tokens
    else
      var c, rest := s[0], s[1..];
      if scan.quote.Some? then
        if c == scan.quote.value then TokenizeFrom(isSpace, rest, limit, scan.(quote := None))
        else TokenizeFrom(isSpace, rest, limit, scan.(current := scan.current + [c]))
      else if c == '"' || c == '\'' then TokenizeFrom(isSpace, rest, limit, scan.(quote := Some(c)))
      else if isSpace(c) then
        if scan.current == "" then TokenizeFrom(isSpace, rest, limit, scan)
        else if |scan.tokens| + 1 >= limit then scan.tokens + [scan.current]
        else TokenizeFrom(isSpace, rest, limit, Scan(scan.tokens + [scan.current], "", None))
      else TokenizeFrom(isSpace, rest, limit, scan.(current := scan.current + [c]))
  }

  method TokenizeLeadingShellWords(isSpace: CharClass, command: string, limit: nat) returns (tokens: seq<string>)
    ensures tokens == TokenizeFrom(isSpace, command, limit, START)
  {
    tokens := [];
    var current := "";
    var quote: Option<char> := None;
    assert command[0..] == command;
    for i := 0 to |command|
      invariant TokenizeFrom(isSpace, command[i..], limit, Scan(tokens, current, quote))
             == TokenizeFrom(isSpace, command, limit, START)
    {
      var ch := command[i];
      assert command[i..][0] == ch && command[i..][1..] == command[i + 1..];
      if quote.Some? {
        if ch == quote.value {
          quote := None;
        } else {
          current := current + [ch];
        }
        continue;
      }
      if ch == '"' || ch == '\'' {
        quote := Some(ch);
        continue;
      }
      if isSpace(ch) {
        if current != "" {
          tokens := tokens + [current];
          if |tokens| >= limit {
            return;
          }
          current := "";
        }
        continue;
      }
      current := current + [ch];
    }
    if current != "" && |tokens| < limit {
      tokens := tokens + [current];
    }
  }

  /** A blank is white space, and none of the characters printed without quotes is. */
  ghost predicate SuitsPrinter(isSpace: CharClass) {
    isSpace(' ') && !isSpace('\\') && forall c :: IsSafe(c) ==> !isSpace(c)
  }

  predicate Plain(word: string) {
    word != "" && '\'' !in word
  }

  lemma {:induction false} EscapePlain(value: string)
    requires '\'' !in value
    ensures EscapeApostrophes(value) == value
  {
    if value != "" {
      EscapePlain(value[1..]);
      assert [value[0]] + value[1..] == value;
    }
  }

  lemma {:induction false} ScanQuoted(isSpace: CharClass, text: string, rest: string, limit: nat, scan: Scan)
    requires scan.quote.Some? && scan.quote.value !in text
    ensures TokenizeFrom(isSpace, text + rest, limit, scan)
         == TokenizeFrom(isSpace, rest, limit, scan.(current := scan.current + text))
    decreases |text|
  {
    if text == "" {
      assert text + rest == rest && scan.current + text == scan.current;
    } else {
      ScanQuoted(isSpace, text[1..], rest, limit, scan.(current := scan.current + [text[0]]));
      assert (text + rest)[1..] == text[1..] + rest;
      assert scan.current + [text[0]] + text[1..] == scan.current + text;
    }
  }

  /** Text outside quotes that does not end the word. */
  predicate Bare(isSpace: CharClass, text: string) {
    forall c :: c in text ==> c != '"' && c != '\'' && !isSpace(c)
  }

  lemma {:induction false} ScanBare(isSpace: CharClass, text: string, rest: string, limit: nat, scan: Scan)
    requires Bare(isSpace, text) && scan.quote.None?
    ensures TokenizeFrom(isSpace, text + rest, limit, scan)
         == TokenizeFrom(isSpace, rest, limit, scan.(current := scan.current + text))
    decreases |text|
  {
    if text == "" {
      assert text + rest == rest && scan.current + text == scan.current;
    } else {
      assert text[0] in text && forall c :: c in text[1..] ==> c in text;
      ScanBare(isSpace, text[1..], rest, limit, scan.(current := scan.current + [text[0]]));
      assert (text + rest)[1..] == text[1..] + rest;
      assert scan.current + [text[0]] + text[1..] == scan.current + text;
    }
  }

  lemma ScanOpening(isSpace: CharClass, quote: char, rest: string, limit: nat, scan: Scan)
    requires scan.quote.None? && quote in {'"', '\''}
    ensures TokenizeFrom(isSpace, [quote] + rest, limit, scan)
         == TokenizeFrom(isSpace, rest, limit, scan.(quote := Some(quote)))
  {
    assert ([quote] + rest)[1..] == rest;
  }

  lemma ScanClosing(isSpace: CharClass, rest: string, limit: nat, scan: Scan)
    requires scan.quote.Some?
    ensures TokenizeFrom(isSpace, [scan.quote.value] + rest, limit, scan)
         == TokenizeFrom(isSpace, rest, limit, scan.(quote := None))
  {
    assert ([scan.quote.value] + rest)[1..] == rest;
  }

  /** A plain printed word is gathered whole. */
  lemma ScanPrinted(isSpace: CharClass, word: string, rest: string, limit: nat, tokens: seq<string>)
    requires SuitsPrinter(isSpace) && '\'' !in word
    ensures TokenizeFrom(isSpace, QuoteCliCommandArgument(word) + rest, limit, Scan(tokens, "", None))
         == TokenizeFrom(isSpace, rest, limit, Scan(tokens, word, None))
  {
    var scan := Scan(tokens, "", None);
    assert "" + word == word;
    if word != "" && AllSafe(word) {
      ScanBare(isSpace, word, rest, limit, scan);
    } else {
      EscapePlain(word);
      assert QuoteCliCommandArgument(word) + rest == "'" + (word + ("'" + rest));
      ScanOpening(isSpace, '\'', word + ("'" + rest), limit, scan);
      ScanQuoted(isSpace, word, "'" + rest, limit, scan.(quote := Some('\'')));
      ScanClosing(isSpace, rest, limit, Scan(tokens, word, Some('\'')));
    }
  }

  lemma TakeCons(words: seq<string>, n: nat)
    requires words != [] && n > 0
    ensures Take(words, n) == [words[0]] + Take(words[1..], n - 1)
  {
  }

  /** Gathering one plain word: it is the last one, or the limit is reached, or the rest follows. */
  lemma TokenizeFirst(isSpace: CharClass, words: seq<string>, limit: nat, tokens: seq<string>)
    requires SuitsPrinter(isSpace) && |tokens| < limit
    requires words != [] && Plain(words[0])
    ensures TokenizeFrom(isSpace, CommandText(words), limit, Scan(tokens, "", None))
         == if |words| == 1 || |tokens| + 1 >= limit then tokens + [words[0]]
            else TokenizeFrom(isSpace, CommandText(words[1..]), limit, Scan(tokens + [words[0]], "", None))
  {
    if |words| == 1 {
      ScanPrinted(isSpace, words[0], "", limit, tokens);
      assert QuoteCliCommandArgument(words[0]) + "" == CommandText(words);
    } else {
      var tail := CommandText(words[1..]);
      CommandTextCons(words);
      ScanPrinted(isSpace, words[0], [' '] + tail, limit, tokens);
      assert ([' '] + tail)[1..] == tail;
    }
  }

  predicate AllPlain(words: seq<string>) {
    forall w :: w in words ==> Plain(w)
  }

  /** One word under the limit in front of the others. */
  lemma UnderLimit(words: seq<string>, n: nat, tokens: seq<string>)
    requires words != [] && n > 0
    ensures AllPlain(Take(words, n)) <==> Plain(words[0]) && AllPlain(Take(words[1..], n - 1))
    ensures "" !in Take(words, n) ==> words[0] != "" && "" !in Take(words[1..], n - 1)
    ensures tokens + Take(words, n) == tokens + [words[0]] + Take(words[1..], n - 1)
    ensures Take(words[1..], 0) == []
  {
    TakeCons(words, n);
    var rest := Take(words[1..], n - 1);
    assert tokens + ([words[0]] + rest) == tokens + [words[0]] + rest;
    assert forall w :: w in [words[0]] + rest <==> w == words[0] || w in rest;
  }

  /** Plain words that fit under the limit are the tokens. */
  lemma {:induction false} TokenizePlain(isSpace: CharClass, words: seq<string>, limit: nat, tokens: seq<string>)
    requires SuitsPrinter(isSpace) && |tokens| < limit
    requires AllPlain(Take(words, limit - |tokens|))
    ensures TokenizeFrom(isSpace, CommandText(words), limit, Scan(tokens, "", None))
         == tokens + Take(words, limit - |tokens|)
    decreases |words|
  {
    if words != [] {
      UnderLimit(words, limit - |tokens|, tokens);
      TokenizeFirst(isSpace, words, limit, tokens);
      if |words| > 1 && |tokens| + 1 < limit {
        TokenizePlain(isSpace, words[1..], limit, tokens + [words[0]]);
      }
    }
  }

  // ----- Exactly when the tokenizer reads the printer

  /** Whatever follows, a non-empty word in progress becomes the next token, or a prefix of it. */
  lemma {:induction false} CurrentSurvives(isSpace: CharClass, s: string, limit: nat, scan: Scan)
    requires scan.current != "" && |scan.tokens| < limit
    ensures
      var r := TokenizeFrom(isSpace, s, limit, scan);
      |scan.tokens| < |r| && r[..|scan.tokens|] == scan.tokens && scan.current <= r[|scan.tokens|]
    decreases |s|
  {
    if s != "" {
      var c, rest := s[0], s[1..];
      if scan.quote.Some? {
        CurrentSurvives(isSpace, rest, limit,
                        if c == scan.quote.value then scan.(quote := None) else scan.(current := scan.current + [c]));
      } else if c == '"' || c == '\'' {
        CurrentSurvives(isSpace, rest, limit, scan.(quote := Some(c)));
      } else if isSpace(c) {
        if |scan.tokens| + 1 < limit {
          TokensSurvive(isSpace, rest, limit, Scan(scan.tokens + [scan.current], "", None));
        }
      } else {
        CurrentSurvives(isSpace, rest, limit, scan.(current := scan.current + [c]));
      }
    }
  }

  lemma {:induction false} TokensSurvive(isSpace: CharClass, s: string, limit: nat, scan: Scan)
    ensures scan.tokens <= TokenizeFrom(isSpace, s, limit, scan)
    decreases |s|
  {
    if s != "" {
      var c, rest := s[0], s[1..];
      if scan.quote.Some? {
        TokensSurvive(isSpace, rest, limit,
                      if c == scan.quote.value then scan.(quote := None) else scan.(current := scan.current + [c]));
      } else if c == '"' || c == '\'' {
        TokensSurvive(isSpace, rest, limit, scan.(quote := Some(c)));
      } else if isSpace(c) {
        if scan.current == "" {
          TokensSurvive(isSpace, rest, limit, scan);
        } else if |scan.tokens| + 1 < limit {
          TokensSurvive(isSpace, rest, limit, Scan(scan.tokens + [scan.current], "", None));
        }
      } else {
        TokensSurvive(isSpace, rest, limit, scan.(current := scan.current + [c]));
      }
    }
  }

  lemma {:induction false} TokensNonEmpty(isSpace: CharClass, s: string, limit: nat, scan: Scan)
    requires "" !in scan.tokens
    ensures "" !in TokenizeFrom(isSpace, s, limit, scan)
    decreases |s|
  {
    if s != "" {
      var c, rest := s[0], s[1..];
      if scan.quote.Some? {
        TokensNonEmpty(isSpace, rest, limit,
                       if c == scan.quote.value then scan.(quote := None) else scan.(current := scan.current + [c]));
      } else if c == '"' || c == '\'' {
        TokensNonEmpty(isSpace, rest, limit, scan.(quote := Some(c)));
      } else if isSpace(c) {
        TokensNonEmpty(isSpace, rest, limit,
                       if scan.current == "" then scan else Scan(scan.tokens + [scan.current], "", None));
      } else {
        TokensNonEmpty(isSpace, rest, limit, scan.(current := scan.current + [c]));
      }
    }
  }

  lemma {:induction false} EscapeAtFirstApostrophe(before: string, after: string)
    requires '\'' !in before
    ensures EscapeApostrophes(before + "'" + after) == before + "'\\''" + EscapeApostrophes(after)
  {
    var value := before + "'" + after;
    if before == "" {
      assert value[1..] == after;
    } else {
      EscapeAtFirstApostrophe(before[1..], after);
      assert value[1..] == before[1..] + "'" + after;
      assert [before[0]] + before[1..] == before;
    }
  }

  /** A word with an apostrophe is misread: a backslash appears where the apostrophe was. */
  lemma ApostropheMisread(
    isSpace: CharClass, before: string, after: string, rest: string, limit: nat, tokens: seq<string>)
    requires SuitsPrinter(isSpace) && '\'' !in before && |tokens| < limit
    ensures
      var word := before + "'" + after;
      var r := TokenizeFrom(isSpace, QuoteCliCommandArgument(word) + rest, limit, Scan(tokens, "", None));
      |tokens| < |r| && r[|tokens|] != word
  {
    var word := before + "'" + after;
    assert word[|before|] == '\'' && !IsSafe(word[|before|]);
    EscapeAtFirstApostrophe(before, after);
    var afterBackslash := "''" + EscapeApostrophes(after) + "'" + rest;
    var tail := "\\" + afterBackslash;
    assert QuoteCliCommandArgument(word) + rest == "'" + (before + ("'" + tail));
    var scan := Scan(tokens, "", None);
    ScanOpening(isSpace, '\'', before + ("'" + tail), limit, scan);
    ScanQuoted(isSpace, before, "'" + tail, limit, scan.(quote := Some('\'')));
    assert "" + before == before;
    ScanClosing(isSpace, tail, limit, Scan(tokens, before, Some('\'')));
    assert tail[1..] == afterBackslash;
    var r := TokenizeFrom(isSpace, tail, limit, Scan(tokens, before, None));
    if isSpace('\\') {
      if before != "" {
        CurrentSurvives(isSpace, tail, limit, Scan(tokens, before, None));
      }
    } else {
      CurrentSurvives(isSpace, afterBackslash, limit, Scan(tokens, before + "\\", None));
      assert r[|tokens|][|before|] == '\\';
    }
  }

  /** The first word that is not plain decides: it is dropped when empty and misread otherwise. */
  lemma {:induction false} TokenizeNotPlain(isSpace: CharClass, words: seq<string>, limit: nat, tokens: seq<string>)
    requires SuitsPrinter(isSpace) && |tokens| < limit
    requires "" !in Take(words, limit - |tokens|) && !AllPlain(Take(words, limit - |tokens|))
    ensures TokenizeFrom(isSpace, CommandText(words), limit, Scan(tokens, "", None))
         != tokens + Take(words, limit - |tokens|)
    decreases |words|
  {
    UnderLimit(words, limit - |tokens|, tokens);
    if Plain(words[0]) {
      TokenizeFirst(isSpace, words, limit, tokens);
      TokenizeNotPlain(isSpace, words[1..], limit, tokens + [words[0]]);
    } else {
      TokenizeMisread(isSpace, words, limit, tokens);
      assert (tokens + Take(words, limit - |tokens|))[|tokens|] == words[0];
    }
  }

  lemma TokenizeMisread(isSpace: CharClass, words: seq<string>, limit: nat, tokens: seq<string>)
    requires SuitsPrinter(isSpace) && |tokens| < limit
    requires words != [] && '\'' in words[0]
    ensures
      var r := TokenizeFrom(isSpace, CommandText(words), limit, Scan(tokens, "", None));
      |tokens| < |r| && r[|tokens|] != words[0]
  {
    var word := words[0];
    var k :| 0 <= k < |word| && word[k] == '\'';
    var first := FirstApostrophe(word, k);
    var before, after := word[..first], word[first + 1..];
    assert word == before + "'" + after;
    if |words| == 1 {
      ApostropheMisread(isSpace, before, after, "", limit, tokens);
      assert QuoteCliCommandArgument(word) + "" == CommandText(words);
    } else {
      CommandTextCons(words);
      ApostropheMisread(isSpace, before, after, [' '] + CommandText(words[1..]), limit, tokens);
    }
  }

  lemma {:induction false} FirstApostrophe(word: string, k: nat) returns (first: nat)
    requires k < |word| && word[k] == '\''
    ensures first < |word| && word[first] == '\'' && '\'' !in word[..first]
    decreases k
  {
    if '\'' in word[..k] {
      var j :| 0 <= j < k && word[..k][j] == '\'';
      first := FirstApostrophe(word, j);
    } else {
      first := k;
    }
  }

  /** The tokenizer returns the first `limit` printed words exactly when each of those is
    non-empty and free of apostrophes. */
  lemma TokenizerReadsPrinterIff(isSpace: CharClass, words: seq<string>, limit: nat)
    requires SuitsPrinter(isSpace) && limit >= 1
    ensures TokenizeFrom(isSpace, CommandText(words), limit, START) == Take(words, limit)
       <==> AllPlain(Take(words, limit))
  {
    assert [] + Take(words, limit) == Take(words, limit);
    if AllPlain(Take(words, limit)) {
      TokenizePlain(isSpace, words, limit, []);
    } else if "" in Take(words, limit) {
      TokensNonEmpty(isSpace, CommandText(words), limit, START);
    } else {
      TokenizeNotPlain(isSpace, words, limit, []);
    }
  }

  // ----- Every line

  /** A word of a line is a row of pieces, each bare or in quotes of either kind. */
  datatype Piece = Outside(text: string) | InQuotes(quote: char, text: string)

  /** A word and the blanks before it. */
  datatype Word = Word(before: string, pieces: seq<Piece>)

  ghost predicate IsPiece(isSpace: CharClass, piece: Piece) {
    match piece
    case Outside(text) => forall c :: c in text ==> c != '"' && c != '\'' && !isSpace(c)
    case InQuotes(quote, text) => (quote == '"' || quote == '\'') && quote !in text
  }

  ghost predicate Blank(isSpace: CharClass, text: string) {
    forall c :: c in text ==> isSpace(c) && c != '"' && c != '\''
  }

  ghost predicate IsWord(isSpace: CharClass, word: Word) {
    Blank(isSpace, word.before) && forall piece :: piece in word.pieces ==> IsPiece(isSpace, piece)
  }

  /** Every word but the first has a blank before it. */
  ghost predicate AreWords(isSpace: CharClass, words: seq<Word>) {
    && (forall word :: word in words ==> IsWord(isSpace, word))
    && forall i :: 1 <= i < |words| ==> words[i].before != ""
  }

  function Spelled(pieces: seq<Piece>): string {
    if pieces == [] then ""
    else
      (match pieces[0]
       case Outside(text) => text
       case InQuotes(quote, text) => [quote] + text + [quote])
      + Spelled(pieces[1..])
  }

  function Text(pieces: seq<Piece>): string {
    if pieces == [] then "" else pieces[0].text + Text(pieces[1..])
  }

  function Line(words: seq<Word>, after: string): string {
    if words == [] then after else words[0].before + Spelled(words[0].pieces) + Line(words[1..], after)
  }

  /** The texts of the words, without the empty ones. */
  function Texts(words: seq<Word>): seq<string> {
    if words == [] then []
    else (if Text(words[0].pieces) == "" then [] else [Text(words[0].pieces)]) + Texts(words[1..])
  }

  lemma ScanPiece(isSpace: CharClass, piece: Piece, rest: string, limit: nat, scan: Scan)
    requires IsPiece(isSpace, piece) && scan.quote.None?
    ensures TokenizeFrom(isSpace, Spelled([piece]) + rest, limit, scan)
         == TokenizeFrom(isSpace, rest, limit, scan.(current := scan.current + piece.text))
  {
    SpelledOne(piece);
    match piece
    case Outside(text) => ScanBare(isSpace, text, rest, limit, scan);
    case InQuotes(quote, text) =>
      ScanInQuotes(isSpace, quote, text, rest, limit, scan);
      assert Spelled([piece]) + rest == [quote] + (text + ([quote] + rest));
  }

  lemma ScanInQuotes(isSpace: CharClass, quote: char, text: string, rest: string, limit: nat, scan: Scan)
    requires scan.quote.None? && quote in {'"', '\''} && quote !in text
    ensures TokenizeFrom(isSpace, [quote] + (text + ([quote] + rest)), limit, scan)
         == TokenizeFrom(isSpace, rest, limit, scan.(current := scan.current + text))
  {
    var inside := scan.(quote := Some(quote));
    ScanOpening(isSpace, quote, text + ([quote] + rest), limit, scan);
    ScanQuoted(isSpace, text, [quote] + rest, limit, inside);
    ScanClosing(isSpace, rest, limit, inside.(current := scan.current + text));
  }

  lemma SpelledOne(piece: Piece)
    ensures Spelled([piece]) == match piece
                                case Outside(text) => text
                                case InQuotes(quote, text) => [quote] + text + [quote]
  {
    assert [piece][1..] == [] && Spelled([]) == "";
  }

  lemma {:induction false} ScanPieces(
    isSpace: CharClass, pieces: seq<Piece>, rest: string, limit: nat, scan: Scan)
    requires (forall piece :: piece in pieces ==> IsPiece(isSpace, piece)) && scan.quote.None?
    ensures TokenizeFrom(isSpace, Spelled(pieces) + rest, limit, scan)
         == TokenizeFrom(isSpace, rest, limit, scan.(current := scan.current + Text(pieces)))
    decreases |pieces|
  {
    if pieces == [] {
      assert "" + rest == rest && scan.current + "" == scan.current;
    } else {
      var next := scan.(current := scan.current + pieces[0].text);
      SpelledCons(pieces, rest);
      ScanPiece(isSpace, pieces[0], Spelled(pieces[1..]) + rest, limit, scan);
      ScanPieces(isSpace, pieces[1..], rest, limit, next);
      Regroup(scan.current, pieces[0].text, Text(pieces[1..]));
    }
  }

  lemma SpelledCons(pieces: seq<Piece>, rest: string)
    requires pieces != []
    ensures Spelled(pieces) + rest == Spelled([pieces[0]]) + (Spelled(pieces[1..]) + rest)
  {
    SpelledOne(pieces[0]);
    Regroup(Spelled([pieces[0]]), Spelled(pieces[1..]), rest);
  }

  lemma Regroup<T>(a: seq<T>, b: seq<T>, c: seq<T>)
    ensures a + (b + c) == a + b + c
  {
  }

  /** Blanks between words are skipped. */
  lemma {:induction false} ScanBlanks(isSpace: CharClass, blanks: string, rest: string, limit: nat, tokens: seq<string>)
    requires Blank(isSpace, blanks)
    ensures TokenizeFrom(isSpace, blanks + rest, limit, Scan(tokens, "", None))
         == TokenizeFrom(isSpace, rest, limit, Scan(tokens, "", None))
  {
    if blanks == "" {
      assert blanks + rest == rest;
    } else {
      assert (blanks + rest)[0] == blanks[0] && (blanks + rest)[1..] == blanks[1..] + rest;
      ScanBlanks(isSpace, blanks[1..], rest, limit, tokens);
    }
  }

  /** What is left of a line behind a word: nothing, or a blank first. */
  ghost predicate EndsWord(isSpace: CharClass, rest: string) {
    rest == "" || (isSpace(rest[0]) && rest[0] != '"' && rest[0] != '\'')
  }

  lemma ScanEnd(isSpace: CharClass, rest: string, limit: nat, tokens: seq<string>, text: string)
    requires EndsWord(isSpace, rest) && |tokens| < limit
    ensures TokenizeFrom(isSpace, rest, limit, Scan(tokens, text, None))
         == if text == "" then TokenizeFrom(isSpace, rest, limit, Scan(tokens, "", None))
            else if |tokens| + 1 == limit then tokens + [text]
            else TokenizeFrom(isSpace, rest, limit, Scan(tokens + [text], "", None))
  {
  }

  lemma LineEndsWord(isSpace: CharClass, words: seq<Word>, after: string)
    requires words != [] && AreWords(isSpace, words) && Blank(isSpace, after)
    ensures EndsWord(isSpace, Line(words[1..], after)) && AreWords(isSpace, words[1..])
  {
    var rest := words[1..];
    assert forall word :: word in rest ==> word in words;
    assert forall i :: 1 <= i < |rest| ==> rest[i].before == words[i + 1].before;
    if rest == [] {
      assert after != "" ==> after[0] in after;
    } else {
      assert rest[0] == words[1] && rest[0] in words && rest[0].before[0] in rest[0].before;
      assert Line(rest, after)[0] == rest[0].before[0];
    }
  }

  lemma TakeFront(text: string, rest: seq<string>, n: nat)
    requires n > 0
    ensures Take([text] + rest, n) == [text] + Take(rest, n - 1)
  {
    TakeCons([text] + rest, n);
    assert ([text] + rest)[1..] == rest;
  }

  lemma TakeTexts(words: seq<Word>, limit: nat, tokens: seq<string>)
    requires words != [] && |tokens| < limit
    ensures
      var text, rest := Text(words[0].pieces), Texts(words[1..]);
      tokens + Take(Texts(words), limit - |tokens|)
      == if text == "" then tokens + Take(rest, limit - |tokens|)
         else tokens + [text] + Take(rest, limit - |tokens| - 1)
  {
    var text, rest := Text(words[0].pieces), Texts(words[1..]);
    if text == "" {
      assert [] + rest == rest;
    } else {
      TakeFront(text, rest, limit - |tokens|);
      Regroup(tokens, [text], Take(rest, limit - |tokens| - 1));
    }
  }

  lemma {:induction false} ScanLine(
    isSpace: CharClass, words: seq<Word>, after: string, limit: nat, tokens: seq<string>)
    requires AreWords(isSpace, words) && Blank(isSpace, after) && |tokens| < limit
    ensures TokenizeFrom(isSpace, Line(words, after), limit, Scan(tokens, "", None))
         == tokens + Take(Texts(words), limit - |tokens|)
    decreases |words|
  {
    if words == [] {
      ScanBlanks(isSpace, after, "", limit, tokens);
      assert after + "" == after && tokens + [] == tokens;
    } else {
      var word, rest := words[0], Line(words[1..], after);
      assert word in words;
      var text := Text(word.pieces);
      Regroup(word.before, Spelled(word.pieces), rest);
      ScanBlanks(isSpace, word.before, Spelled(word.pieces) + rest, limit, tokens);
      ScanPieces(isSpace, word.pieces, rest, limit, Scan(tokens, "", None));
      assert "" + text == text;
      LineEndsWord(isSpace, words, after);
      ScanEnd(isSpace, rest, limit, tokens, text);
      TakeTexts(words, limit, tokens);
      if text == "" {
        ScanLine(isSpace, words[1..], after, limit, tokens);
      } else if |tokens| + 1 == limit {
        assert tokens + [text] + [] == tokens + [text];
      } else {
        ScanLine(isSpace, words[1..], after, limit, tokens + [text]);
      }
    }
  }

  /** The tokens of a line are the first `limit` non-empty texts of its words, whichever of their
    pieces stand in quotes of either kind. */
  lemma LineTokens(isSpace: CharClass, words: seq<Word>, after: string, limit: nat)
    requires AreWords(isSpace, words) && Blank(isSpace, after) && limit >= 1
    ensures TokenizeFrom(isSpace, Line(words, after), limit, START) == Take(Texts(words), limit)
  {
    ScanLine(isSpace, words, after, limit, []);
    assert [] + Take(Texts(words), limit) == Take(Texts(words), limit);
  }

  /** A first word in quotes of either kind is the first token, without its quotes, and the rest of the
    line gives the others. */
  lemma QuotedFirst(isSpace: CharClass, quote: char, text: string, blank: char, rest: string, limit: nat)
    requires (quote == '"' || quote == '\'') && text != "" && quote !in text && limit >= 1
    requires isSpace(blank) && blank != '"' && blank != '\''
    ensures TokenizeFrom(isSpace, [quote] + text + [quote] + [blank] + rest, limit, START)
         == if limit == 1 then [text] else TokenizeFrom(isSpace, rest, limit, Scan([text], "", None))
  {
    var tail := [blank] + rest;
    assert [quote] + text + [quote] + [blank] + rest == Spelled([InQuotes(quote, text)]) + tail by {
      SpelledOne(InQuotes(quote, text));
    }
    ScanPiece(isSpace, InQuotes(quote, text), tail, limit, START);
    assert "" + text == text && [] + [text] == [text] && tail[1..] == rest;
  }

  /** A quote that is never closed reads as if it were closed at the end of the line. */
  lemma UnclosedReadsAsClosed(isSpace: CharClass, quote: char, text: string, limit: nat, scan: Scan)
    requires scan.quote.None? && (quote == '"' || quote == '\'') && quote !in text
    ensures TokenizeFrom(isSpace, [quote] + text, limit, scan)
         == TokenizeFrom(isSpace, [quote] + text + [quote], limit, scan)
  {
    var open := scan.(quote := Some(quote));
    var full := open.(current := scan.current + text);
    ScanOpening(isSpace, quote, text, limit, scan);
    ScanQuoted(isSpace, text, "", limit, open);
    assert text + "" == text && [quote] + "" == [quote];
    assert [quote] + text + [quote] == [quote] + (text + [quote]);
    ScanOpening(isSpace, quote, text + [quote], limit, scan);
    ScanQuoted(isSpace, text, [quote], limit, open);
    ScanClosing(isSpace, "", limit, full);
  }
}
