/** Rendered lines: indentation, the element number, and reading the number back
  (native/computer-use-linux/runtime.py, `walk`, `rendered_element_index`,
  `is_direct_rendered_browser_tab_line`). */
module RenderedLines {
  import opened Wrappers
  import opened StringOps

  function Indent(depth: nat): (s: string)
    ensures |s| == depth
  {
    seq(depth, _ => '\t')
  }

  function Digits(n: nat): string {
    if n < 10 then [('0' as int + n) as char] else Digits(n / 10) + [('0' as int + n % 10) as char]
  }

  /** The length of the longest all-digit prefix. */
  function DigitRun(s: string): (n: nat)
    ensures n <= |s|
    ensures forall i :: 0 <= i < n ==> IsDigit(s[i])
    ensures n < |s| ==> !IsDigit(s[n])
  {
    if s != "" && IsDigit(s[0]) then 1 + DigitRun(s[1..]) else 0
  }

  /** `line[len(indent):]` never fails. */
  function AfterIndent(line: string, depth: nat): string {
    if depth <= |line| then line[depth..] else ""
  }

  function RenderedElementIndex(line: string, depth: nat): Option<nat> {
    var text := AfterIndent(line, depth);
    var n := DigitRun(text);
    if n == 0 then None else Some(ParseNat(text[..n]))
  }

  /** The line of the element numbered `index`; `body` is everything after the number. */
  function ElementLine(depth: nat, index: nat, body: string): string {
    Indent(depth) + Digits(index) + body
  }

  lemma {:induction false} DigitsAreDigits(n: nat)
    ensures Digits(n) != "" && forall i :: 0 <= i < |Digits(n)| ==> IsDigit(Digits(n)[i])
  {
    if n >= 10 {
      DigitsAreDigits(n / 10);
    }
  }

  lemma {:induction false} ParseDigits(n: nat)
    requires forall i :: 0 <= i < |Digits(n)| ==> IsDigit(Digits(n)[i])
    ensures ParseNat(Digits(n)) == n
  {
    DigitsAreDigits(n);
    var s := Digits(n);
    if n >= 10 {
      DigitsAreDigits(n / 10);
      assert s[..|s| - 1] == Digits(n / 10);
      ParseDigits(n / 10);
    } else {
      assert s[..0] == "";
    }
  }

  /** Reading the number of a rendered line gives back the element's index. */
  lemma ReadIndex(depth: nat, index: nat, body: string)
    requires body == "" || !IsDigit(body[0])
    ensures RenderedElementIndex(ElementLine(depth, index, body), depth) == Some(index)
  {
    var line := ElementLine(depth, index, body);
    var digits := Digits(index);
    DigitsAreDigits(index);
    assert AfterIndent(line, depth) == digits + body;
    DigitRunStops(digits, body);
    assert (digits + body)[..|digits|] == digits;
    ParseDigits(index);
  }

  lemma {:induction false} DigitRunStops(digits: string, body: string)
    requires forall i :: 0 <= i < |digits| ==> IsDigit(digits[i])
    requires body == "" || !IsDigit(body[0])
    ensures DigitRun(digits + body) == |digits|
  {
    if digits == "" {
      assert digits + body == body;
    } else {
      DigitRunStops(digits[1..], body);
      assert (digits + body)[1..] == digits[1..] + body;
    }
  }

  // ----- Browser tab lines

  type CaseFold = char -> char

  /** `text` begins with `role`, ignoring case, and the role ends there. */
  predicate StartsWithRole(fold: CaseFold, text: string, role: string) {
    && |role| <= |text|
    && (forall i :: 0 <= i < |role| ==> fold(text[i]) == role[i])
    && (|text| == |role| || text[|role|..] == "\n" || text[|role|] in {' ', '(', ','})
  }

  predicate IsTabText(fold: CaseFold, text: string) {
    var n := DigitRun(text);
    && 0 < n < |text|
    && text[n] == ' '
    && (StartsWithRole(fold, text[n + 1..], "page tab")
        || StartsWithRole(fold, text[n + 1..], "tab item")
        || StartsWithRole(fold, text[n + 1..], "tab"))
  }

  predicate IsDirectTabLine(fold: CaseFold, line: string, depth: nat) {
    && Indent(depth) <= line
    && (|line| > depth ==> line[depth] != '\t')
    && IsTabText(fold, line[depth..])
  }

  lemma TabLineHasIndex(fold: CaseFold, line: string, depth: nat)
    requires IsDirectTabLine(fold, line, depth)
    ensures RenderedElementIndex(line, depth).Some?
  {
  }

  predicate Contains(line: string, part: string) {
    part <= line || (line != "" && Contains(line[1..], part))
  }

  function Marker(depth: nat, omitted: nat): string {
    Indent(depth) + "... " + Digits(omitted) + " inactive browser tabs omitted"
  }
}
