/** Runner scripts for hooks (src/main/hooks.ts): the Windows and the POSIX runner execute the
  same commands. */
module RunnerScripts {
  import opened Wrappers
  import opened Collections
  import opened StringOps

  type CharClass = char -> bool

  const LF: char := '\n'
  const CR: char := '\r'

  // ----- Lines

  /** A line loses one carriage return before its line feed. */
  function StripCr(line: string): string {
    if line != "" && line[|line| - 1] == CR then line[..|line| - 1] else line
  }

  /** Every line but the last ends in a line feed. */
  function StripAll(parts: seq<string>): seq<string> {
    if |parts| <= 1 then parts else [StripCr(parts[0])] + StripAll(parts[1..])
  }

  function LfLines(script: string): seq<string> {
    StripAll(Split(script, LF))
  }

  method IterateLfScriptLines(script: string) returns (lines: seq<string>)
    ensures lines == LfLines(script)
  {
    lines := [];
    var lineStart := 0;
    assert script[0..] == script;
    for index := 0 to |script|
      invariant 0 <= lineStart <= index
      invariant LF !in script[lineStart..index]
      invariant lines + LfLines(script[lineStart..]) == LfLines(script)
    {
      if script[index] != LF {
        continue;
      }
      var lineEnd := if index > lineStart && script[index - 1] == CR then index - 1 else index;
      NextLine(script, lines, lineStart, index);
      lines := lines + [script[lineStart..lineEnd]];
      lineStart := index + 1;
    }
    LastLine(script, lineStart);
    lines := lines + [script[lineStart..]];
  }

  lemma LastLine(s: string, from: nat)
    requires from <= |s| && LF !in s[from..|s|]
    ensures LfLines(s[from..]) == [s[from..]]
  {
    assert s[from..|s|] == s[from..];
    SplitFree(s[from..], LF);
  }

  lemma StripSlice(s: string, from: nat, to: nat)
    requires from <= to <= |s|
    ensures StripCr(s[from..to]) == s[from..if to > from && s[to - 1] == CR then to - 1 else to]
  {
    var line := s[from..to];
    if to > from {
      assert line[|line| - 1] == s[to - 1];
    }
  }

  /** The text from `from` on starts with the line that ends before the line feed at `to`. */
  lemma NextLine(s: string, done: seq<string>, from: nat, to: nat)
    requires from <= to < |s| && s[to] == LF && LF !in s[from..to]
    ensures
      var line := s[from..if to > from && s[to - 1] == CR then to - 1 else to];
      done + [line] + LfLines(s[to + 1..]) == done + LfLines(s[from..])
  {
    CutLine(s[from..to], s[to + 1..]);
    assert s[from..] == s[from..to] + [LF] + s[to + 1..];
    StripSlice(s, from, to);
  }

  lemma CutLine(line: string, rest: string)
    requires LF !in line
    ensures LfLines(line + [LF] + rest) == [StripCr(line)] + LfLines(rest)
  {
    SplitAtFirst(line, LF, rest);
    assert ([line] + Split(rest, LF))[1..] == Split(rest, LF);
  }

  // ----- Normalizing CRLF

  /** Every CR LF pair becomes LF; other carriage returns stay. */
  function WithoutCrlf(script: string): string {
    if script == "" then ""
    else if |script| >= 2 && script[0] == CR && script[1] == LF then [LF] + WithoutCrlf(script[2..])
    else [script[0]] + WithoutCrlf(script[1..])
  }

  predicate PairAt(script: string, i: nat) {
    i + 1 < |script| && script[i] == CR && script[i + 1] == LF
  }

  /** `script.indexOf('\r\n', from)`, with the length for "not found". */
  function FindCrlf(script: string, from: nat): (i: nat)
    requires from <= |script|
    ensures from <= i <= |script|
    ensures i < |script| ==> PairAt(script, i)
    decreases |script| - from
  {
    if from == |script| || PairAt(script, from) then from else FindCrlf(script, from + 1)
  }

  lemma {:induction false} FindCrlfIsFirst(script: string, from: nat)
    requires from <= |script|
    ensures forall k :: from <= k < FindCrlf(script, from) ==> !PairAt(script, k)
    decreases |script| - from
  {
    if from < |script| && !PairAt(script, from) {
      FindCrlfIsFirst(script, from + 1);
    }
  }

  lemma {:induction false} CopyChunk(script: string, from: nat, to: nat)
    requires from <= to <= |script|
    requires forall k :: from <= k < to ==> !PairAt(script, k)
    ensures WithoutCrlf(script[from..]) == script[from..to] + WithoutCrlf(script[to..])
    decreases |script| - from
  {
    if from == to {
      assert script[from..to] == "";
    } else {
      var rest := script[from..];
      assert !PairAt(script, from);
      assert rest[0] == script[from] && rest[1..] == script[from + 1..];
      assert |rest| >= 2 ==> rest[1] == script[from + 1];
      CopyChunk(script, from + 1, to);
      SliceCons(script, from, to, WithoutCrlf(script[to..]));
    }
  }

  lemma DropPair(script: string, i: nat)
    requires PairAt(script, i)
    ensures WithoutCrlf(script[i..]) == [LF] + WithoutCrlf(script[i + 2..])
  {
    assert script[i..][2..] == script[i + 2..];
  }

  /** What the chunk loop appends to `done` from `from` on. */
  function Chunks(script: string, done: string, from: nat): string
    requires from <= |script|
    decreases |script| - from
  {
    var i := FindCrlf(script, from);
    if i == |script| then done + script[from..] else Chunks(script, done + script[from..i] + "\n", i + 2)
  }

  lemma {:induction false} ChunksNormalize(script: string, done: string, from: nat)
    requires from <= |script|
    ensures Chunks(script, done, from) == done + WithoutCrlf(script[from..])
    decreases |script| - from
  {
    var i := FindCrlf(script, from);
    FindCrlfIsFirst(script, from);
    CopyChunk(script, from, i);
    if i == |script| {
      assert script[i..] == "" && script[from..i] == script[from..];
    } else {
      DropPair(script, i);
      ChunksNormalize(script, done + script[from..i] + "\n", i + 2);
      Reassociate(done, script[from..i], "\n", WithoutCrlf(script[i + 2..]));
    }
  }

  lemma AllChunks(script: string)
    ensures Chunks(script, "", 0) == WithoutCrlf(script)
  {
    ChunksNormalize(script, "", 0);
    assert script[0..] == script && "" + WithoutCrlf(script) == WithoutCrlf(script);
  }

  lemma Reassociate(a: string, b: string, c: string, d: string)
    ensures a + b + c + d == a + (b + (c + d))
  {
  }

  method NormalizeCrlfScriptLineEndings(script: string) returns (normalized: string)
    ensures normalized == WithoutCrlf(script)
  {
    AllChunks(script);
    var crlfStart := FindCrlf(script, 0);
    if crlfStart == |script| {
      return script;
    }
    normalized := "" + script[0..crlfStart];
    var chunkStart := crlfStart + 2;
    normalized := normalized + "\n";
    crlfStart := FindCrlf(script, chunkStart);
    while crlfStart != |script|
      invariant chunkStart <= |script| && crlfStart == FindCrlf(script, chunkStart)
      invariant Chunks(script, normalized, chunkStart) == WithoutCrlf(script)
      decreases |script| - chunkStart
    {
      normalized := normalized + script[chunkStart..crlfStart];
      normalized := normalized + "\n";
      chunkStart := crlfStart + 2;
      crlfStart := FindCrlf(script, chunkStart);
    }
    return normalized + script[chunkStart..];
  }

  lemma AsItStands(script: string)
    requires forall i :: 0 <= i < |script| - 1 ==> !(script[i] == '\r' && script[i + 1] == '\n')
    ensures WithoutCrlf(script) == script
  {
    assert forall k :: 0 <= k < |script| ==> !PairAt(script, k);
    CopyChunk(script, 0, |script|);
    assert script[0..] == script && script[0..|script|] == script && script[|script|..] == "";
    assert script + "" == script;
  }

  /** Text without a carriage return and line feed side by side stays as it is; otherwise the first such
    pair becomes one line feed, and the text behind it is normalized. */
  lemma NormalizedMeans(script: string, i: nat)
    requires i < |script|
    requires forall k :: 0 <= k < i ==> !(script[k] == '\r' && script[k + 1] == '\n')
    ensures i == |script| - 1 ==> WithoutCrlf(script) == script
    ensures i < |script| - 1 && script[i] == '\r' && script[i + 1] == '\n' ==>
              WithoutCrlf(script) == script[..i] + "\n" + WithoutCrlf(script[i + 2..])
  {
    if i == |script| - 1 {
      AsItStands(script);
    } else if PairAt(script, i) {
      FirstPair(script, i);
    }
  }

  lemma FirstPair(script: string, i: nat)
    requires PairAt(script, i) && forall k :: 0 <= k < i ==> !PairAt(script, k)
    ensures WithoutCrlf(script) == script[..i] + "\n" + WithoutCrlf(script[i + 2..])
  {
    CopyChunk(script, 0, i);
    DropPair(script, i);
    assert script[0..] == script;
    ThreeParts(script[..i], "\n", WithoutCrlf(script[i + 2..]));
  }

  lemma ThreeParts(a: string, b: string, c: string)
    ensures a + (b + c) == a + b + c
  {
  }

  // ----- The two agree

  lemma {:induction false} WithoutCrlfLine(line: string, rest: string)
    requires LF !in line
    ensures WithoutCrlf(line + [LF] + rest) == StripCr(line) + [LF] + WithoutCrlf(rest)
    decreases |line|
  {
    var s := line + [LF] + rest;
    if line == "" {
      assert s[1..] == rest;
    } else if line == [CR] {
      assert s[2..] == rest;
      assert StripCr(line) == "";
    } else {
      var tail := line[1..];
      assert s[0] == line[0] && s[1..] == tail + [LF] + rest;
      assert tail != "" ==> s[1] == tail[0] && tail[0] in line;
      WithoutCrlfLine(tail, rest);
      StripCrTail(line);
      Reassociate([line[0]], StripCr(tail), [LF], WithoutCrlf(rest));
      Reassociate([], [line[0]] + StripCr(tail), [LF], WithoutCrlf(rest));
    }
  }

  lemma StripCrTail(line: string)
    requires line != "" && line != [CR]
    ensures StripCr(line) == [line[0]] + StripCr(line[1..])
  {
  }

  lemma {:induction false} WithoutCrlfFree(line: string)
    requires LF !in line
    ensures WithoutCrlf(line) == line
  {
    if line != "" {
      WithoutCrlfFree(line[1..]);
      assert [line[0]] + line[1..] == line;
    }
  }

  lemma {:induction false} JoinedPartsNormalize(parts: seq<string>)
    requires parts != [] && forall p :: p in parts ==> LF !in p
    ensures WithoutCrlf(JoinWith(parts, LF)) == JoinWith(StripAll(parts), LF)
    ensures StripAll(parts) != [] && forall p :: p in StripAll(parts) ==> LF !in p
  {
    assert parts[0] in parts;
    if |parts| == 1 {
      WithoutCrlfFree(parts[0]);
    } else {
      JoinedPartsNormalize(parts[1..]);
      WithoutCrlfLine(parts[0], JoinWith(parts[1..], LF));
      assert StripAll(parts)[1..] == StripAll(parts[1..]);
    }
  }

  /** Joining the iterated lines with LF is the normalized script, for every string: doubled and
    lone carriage returns included. */
  lemma LinesJoinToNormalized(script: string)
    ensures JoinWith(LfLines(script), LF) == WithoutCrlf(script)
    ensures Split(WithoutCrlf(script), LF) == LfLines(script)
  {
    JoinSplit(script, LF);
    JoinedPartsNormalize(Split(script, LF));
    SplitJoin(LfLines(script), LF);
  }

  // ----- The scripts

  const WINDOWS_HEADER: string := "@echo off\r\nsetlocal EnableExtensions\r\n"
  const GUARD: string := "if errorlevel 1 exit /b %errorlevel%"
  const POSIX_HEADER: string := "#!/usr/bin/env bash\nset -e\n"

  function TrimStart(isSpace: CharClass, s: string): string {
    if s != "" && isSpace(s[0]) then TrimStart(isSpace, s[1..]) else s
  }

  function TrimEnd(isSpace: CharClass, s: string): string {
    if s != "" && isSpace(s[|s| - 1]) then TrimEnd(isSpace, s[..|s| - 1]) else s
  }

  function Trim(isSpace: CharClass, s: string): string {
    TrimEnd(isSpace, TrimStart(isSpace, s))
  }

  lemma {:induction false} TrimStartIs(isSpace: CharClass, s: string)
    ensures exists a :: (forall c :: c in a ==> isSpace(c)) && s == a + TrimStart(isSpace, s)
    ensures TrimStart(isSpace, s) != "" ==> !isSpace(TrimStart(isSpace, s)[0])
  {
    if s != "" && isSpace(s[0]) {
      TrimStartIs(isSpace, s[1..]);
      var a :| (forall c :: c in a ==> isSpace(c)) && s[1..] == a + TrimStart(isSpace, s[1..]);
      assert s == [s[0]] + a + TrimStart(isSpace, s);
    } else {
      assert s == "" + TrimStart(isSpace, s);
    }
  }

  lemma {:induction false} TrimEndIs(isSpace: CharClass, s: string)
    ensures exists b :: (forall c :: c in b ==> isSpace(c)) && s == TrimEnd(isSpace, s) + b
    ensures TrimEnd(isSpace, s) != "" ==>
      !isSpace(TrimEnd(isSpace, s)[|TrimEnd(isSpace, s)| - 1]) && TrimEnd(isSpace, s)[0] == s[0]
  {
    if s != "" && isSpace(s[|s| - 1]) {
      var front, last := s[..|s| - 1], s[|s| - 1];
      TrimEndIs(isSpace, front);
      var b :| (forall c :: c in b ==> isSpace(c)) && front == TrimEnd(isSpace, front) + b;
      assert s == TrimEnd(isSpace, s) + (b + [last]);
    } else {
      assert s == TrimEnd(isSpace, s) + "";
    }
  }

  /** Trimming takes away white space at both ends only, and all of it. */
  lemma TrimMeans(isSpace: CharClass, s: string) returns (a: string, b: string)
    ensures s == a + Trim(isSpace, s) + b
    ensures forall c :: c in a + b ==> isSpace(c)
    ensures Trim(isSpace, s) != "" ==>
      !isSpace(Trim(isSpace, s)[0]) && !isSpace(Trim(isSpace, s)[|Trim(isSpace, s)| - 1])
  {
    var tail := TrimStart(isSpace, s);
    TrimStartIs(isSpace, s);
    TrimEndIs(isSpace, tail);
    a :| (forall c :: c in a ==> isSpace(c)) && s == a + tail;
    b :| (forall c :: c in b ==> isSpace(c)) && tail == TrimEnd(isSpace, tail) + b;
    ThreeParts(a, TrimEnd(isSpace, tail), b);
  }

  /** What the batch file holds for one trimmed line. */
  function BatchText(guard: string, command: string): string {
    if command == "" then "\r\n" else "call " + command + "\r\n" + (guard + "\r\n")
  }

  function WindowsBody(guard: string, isSpace: CharClass, lines: seq<string>): string {
    if lines == [] then "" else BatchText(guard, Trim(isSpace, lines[0])) + WindowsBody(guard, isSpace, lines[1..])
  }

  method BuildWindowsRunnerScript(isSpace: CharClass, script: string) returns (runnerScript: string)
    ensures runnerScript
         == "@echo off\r\nsetlocal EnableExtensions\r\n"
            + WindowsBody("if errorlevel 1 exit /b %errorlevel%", isSpace, LfLines(script))
  {
    runnerScript := WINDOWS_HEADER;
    var lines := IterateLfScriptLines(script);
    ghost var start := runnerScript;
    assert lines[0..] == lines;
    for i := 0 to |lines|
      invariant runnerScript + WindowsBody(GUARD, isSpace, lines[i..]) == start + WindowsBody(GUARD, isSpace, lines)
    {
      var command := Trim(isSpace, lines[i]);
      AppendLine(GUARD, isSpace, runnerScript, lines, i);
      if command == "" {
        runnerScript := runnerScript + "\r\n";
        continue;
      }
      runnerScript := runnerScript + ("call " + command + "\r\n" + (GUARD + "\r\n"));
    }
  }

  lemma AppendLine(guard: string, isSpace: CharClass, text: string, lines: seq<string>, i: nat)
    requires i < |lines|
    ensures text + WindowsBody(guard, isSpace, lines[i..])
         == text + BatchText(guard, Trim(isSpace, lines[i])) + WindowsBody(guard, isSpace, lines[i + 1..])
  {
    assert lines[i..][0] == lines[i] && lines[i..][1..] == lines[i + 1..];
  }

  function PosixScript(script: string): string {
    POSIX_HEADER + WithoutCrlf(script) + "\n"
  }

  method BuildPosixRunnerScript(script: string) returns (runnerScript: string)
    ensures runnerScript == PosixScript(script)
    ensures runnerScript == "#!/usr/bin/env bash\nset -e\n" + WithoutCrlf(script) + "\n"
  {
    var body := NormalizeCrlfScriptLineEndings(script);
    runnerScript := POSIX_HEADER + body + "\n";
  }

  // ----- Reading the scripts back

  /** The lines between the POSIX header and the final line feed. */
  function PosixBodyLines(posix: string): seq<string>
    requires |posix| > |POSIX_HEADER|
  {
    Split(posix[|POSIX_HEADER|..|posix| - 1], LF)
  }

  function Commands(isSpace: CharClass, lines: seq<string>): seq<string> {
    if lines == [] then []
    else
      var command := Trim(isSpace, lines[0]);
      (if command == "" then [] else [command]) + Commands(isSpace, lines[1..])
  }

  /** The commands are the trimmed lines that are not empty, each once and in order. */
  lemma {:induction false} CommandsAreLines(isSpace: CharClass, before: seq<string>, line: string, after: seq<string>)
    ensures Commands(isSpace, before + [line] + after)
         == Commands(isSpace, before)
            + (if Trim(isSpace, line) == "" then [] else [Trim(isSpace, line)])
            + Commands(isSpace, after)
    ensures Commands(isSpace, []) == []
    decreases |before|
  {
    var all := before + [line] + after;
    if before == [] {
      assert all[0] == line && all[1..] == after;
      assert [] + (if Trim(isSpace, line) == "" then [] else [Trim(isSpace, line)])
          == if Trim(isSpace, line) == "" then [] else [Trim(isSpace, line)];
    } else {
      assert all[0] == before[0] && all[1..] == before[1..] + [line] + after;
      CommandsAreLines(isSpace, before[1..], line, after);
    }
  }

  /** The payloads of the `call` lines of a batch body: blank lines are skipped, and each call is
    followed by its guard. */
  function CallPayloads(guard: string, lines: seq<string>): Option<seq<string>>
    decreases |lines|
  {
    if lines == [] || lines == [""] then Some([])
    else if lines[0] == "" then CallPayloads(guard, lines[1..])
    else if "call " <= lines[0] && |lines| > 1 && lines[1] == guard then
      match CallPayloads(guard, lines[2..])
      case None => None
      case Some(rest) => Some([lines[0][5..]] + rest)
    else None
  }

  lemma {:induction false} TrimStartFree(isSpace: CharClass, s: string, c: char)
    requires c !in s
    ensures c !in TrimStart(isSpace, s)
  {
    if s != "" && isSpace(s[0]) {
      TrimStartFree(isSpace, s[1..], c);
    }
  }

  lemma {:induction false} TrimEndFree(isSpace: CharClass, s: string, c: char)
    requires c !in s
    ensures c !in TrimEnd(isSpace, s)
  {
    if s != "" && isSpace(s[|s| - 1]) {
      TrimEndFree(isSpace, s[..|s| - 1], c);
    }
  }

  /** One CR LF terminated line in front of the rest. */
  lemma CrlfLine(line: string, rest: string)
    requires LF !in line
    ensures LfLines(line + "\r\n" + rest) == [line] + LfLines(rest)
  {
    CutLine(line + "\r", rest);
    assert line + "\r\n" + rest == (line + "\r") + [LF] + rest;
    assert (line + "\r")[..|line|] == line;
  }

  lemma {:induction false} PayloadsOfBody(guard: string, isSpace: CharClass, lines: seq<string>)
    requires LF !in guard
    requires forall l :: l in lines ==> LF !in l
    ensures CallPayloads(guard, LfLines(WindowsBody(guard, isSpace, lines))) == Some(Commands(isSpace, lines))
  {
    if lines == [] {
      assert Split("", LF) == [""];
    } else {
      var command, rest := Trim(isSpace, lines[0]), WindowsBody(guard, isSpace, lines[1..]);
      assert lines[0] in lines;
      PayloadsOfBody(guard, isSpace, lines[1..]);
      if command == "" {
        BlankLine(guard, rest);
        assert WindowsBody(guard, isSpace, lines) == BatchText(guard, "") + rest;
        assert Commands(isSpace, lines) == [] + Commands(isSpace, lines[1..]) == Commands(isSpace, lines[1..]);
      } else {
        TrimStartFree(isSpace, lines[0], LF);
        TrimEndFree(isSpace, TrimStart(isSpace, lines[0]), LF);
        CallLine(guard, command, rest);
      }
    }
  }

  lemma BlankLine(guard: string, rest: string)
    ensures CallPayloads(guard, LfLines(BatchText(guard, "") + rest)) == CallPayloads(guard, LfLines(rest))
  {
    CrlfLine("", rest);
    assert "" + "\r\n" + rest == BatchText(guard, "") + rest;
    var lines := LfLines(rest);
    StripAllNonEmpty(Split(rest, LF));
    assert ([""] + lines)[1..] == lines && |[""] + lines| > 1;
  }

  lemma StripAllNonEmpty(parts: seq<string>)
    requires parts != []
    ensures StripAll(parts) != []
  {
  }

  lemma CallLine(guard: string, command: string, rest: string)
    requires LF !in guard && LF !in command && command != ""
    ensures CallPayloads(guard, LfLines(BatchText(guard, command) + rest))
         == match CallPayloads(guard, LfLines(rest)) case None => None case Some(payloads) => Some([command] + payloads)
  {
    var call := "call " + command;
    assert LF !in "call ";
    CrlfLine(call, guard + "\r\n" + rest);
    CrlfLine(guard, rest);
    assert BatchText(guard, command) + rest == call + "\r\n" + (guard + "\r\n" + rest);
    CallAndGuard(guard, command, LfLines(rest));
  }

  lemma CallAndGuard(guard: string, command: string, lines: seq<string>)
    ensures CallPayloads(guard, ["call " + command] + ([guard] + lines))
         == match CallPayloads(guard, lines) case None => None case Some(payloads) => Some([command] + payloads)
  {
    var call := "call " + command;
    var all := [call] + ([guard] + lines);
    assert all[0] == call && all[1] == guard && all[2..] == lines;
    assert call[5..] == command && "call " <= call && call[0] == 'c';
  }

  lemma {:induction false} StripAllFree(parts: seq<string>)
    requires forall p :: p in parts ==> LF !in p
    ensures forall p :: p in StripAll(parts) ==> LF !in p
  {
    if |parts| > 1 {
      StripAllFree(parts[1..]);
      assert parts[0] in parts;
    }
  }

  /** The two bodies, without their headers. */
  lemma BodiesAgree(guard: string, isSpace: CharClass, script: string)
    requires LF !in guard
    ensures CallPayloads(guard, LfLines(WindowsBody(guard, isSpace, LfLines(script))))
         == Some(Commands(isSpace, Split(WithoutCrlf(script), LF)))
  {
    LinesJoinToNormalized(script);
    JoinSplit(script, LF);
    StripAllFree(Split(script, LF));
    PayloadsOfBody(guard, isSpace, LfLines(script));
  }

  lemma BetweenHeaderAndEnd(header: string, body: string, end: string)
    ensures (header + body)[|header|..] == body
    ensures (header + body + end)[|header|..|header + body + end| - |end|] == body
  {
  }

  lemma PosixBody(script: string)
    ensures |PosixScript(script)| > |POSIX_HEADER|
    ensures PosixBodyLines(PosixScript(script)) == Split(WithoutCrlf(script), LF)
  {
    BetweenHeaderAndEnd(POSIX_HEADER, WithoutCrlf(script), "\n");
  }

  /** Both runners execute the same commands: the `call` payloads of the Windows script are the
    trimmed non-blank lines of the POSIX body, in order. */
  lemma SameCommands(isSpace: CharClass, script: string)
    ensures
      var windows := WINDOWS_HEADER + WindowsBody(GUARD, isSpace, LfLines(script));
      var posix := PosixScript(script);
      && |posix| > |POSIX_HEADER|
      && CallPayloads(GUARD, LfLines(windows[|WINDOWS_HEADER|..])) == Some(Commands(isSpace, PosixBodyLines(posix)))
  {
    BetweenHeaderAndEnd(WINDOWS_HEADER, WindowsBody(GUARD, isSpace, LfLines(script)), "");
    PosixBody(script);
    assert LF !in GUARD;
    BodiesAgree(GUARD, isSpace, script);
  }
}
