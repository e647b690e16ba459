/** The edit distance behind typo recovery (src/cli/command-suggestion.ts, `levenshtein`).

  Distance is the textbook recurrence.  A script is a sequence of single-character edits at
  arbitrary positions; the distance is shown to be the length of a shortest script, from which
  the metric laws follow.  The method is the two-row loop of the source. */
module EditDistance {

  function Min(x: int, y: int): int {
    if x <= y then x else y
  }

  function Init<T>(s: seq<T>): seq<T>
    requires s != []
  {
    s[..|s| - 1]
  }

  function Last<T>(s: seq<T>): T
    requires s != []
  {
    s[|s| - 1]
  }

  function Cost(c: char, d: char): nat {
    if c == d then 0 else 1
  }

  function Distance(a: string, b: string): nat
    decreases |a| + |b|
  {
    if a == [] then |b|
    else if b == [] then |a|
    else
      Min(Min(Distance(Init(a), b) + 1, Distance(a, Init(b)) + 1),
          Distance(Init(a), Init(b)) + Cost(Last(a), Last(b)))
  }

  // ----- Edit scripts

  datatype Edit = Insert(at: nat, c: char) | Delete(at: nat) | Substitute(at: nat, c: char)

  predicate Applies(e: Edit, s: string) {
    if e.Insert? then e.at <= |s| else e.at < |s|
  }

  function Apply(e: Edit, s: string): string
    requires Applies(e, s)
  {
    match e
    case Insert(at, c) => s[..at] + [c] + s[at..]
    case Delete(at) => s[..at] + s[at + 1..]
    case Substitute(at, c) => s[..at] + [c] + s[at + 1..]
  }

  /** Running the script on `a`, left to right, never fails and ends with `b`. */
  predicate Turns(script: seq<Edit>, a: string, b: string) {
    if script == [] then a == b
    else Applies(script[0], a) && Turns(script[1..], Apply(script[0], a), b)
  }

  lemma ConcatTail<T>(s: seq<T>, t: seq<T>)
    requires s != []
    ensures (s + t)[0] == s[0] && (s + t)[1..] == s[1..] + t
  {
  }

  lemma {:induction false} TurnsConcat(s: seq<Edit>, t: seq<Edit>, a: string, b: string, c: string)
    requires Turns(s, a, b) && Turns(t, b, c)
    ensures Turns(s + t, a, c)
  {
    if s == [] {
      assert s + t == t;
    } else {
      ConcatTail(s, t);
      TurnsConcat(s[1..], t, Apply(s[0], a), b, c);
    }
  }

  lemma ApplyBeforeLast(e: Edit, a: string, c: char)
    requires Applies(e, a)
    ensures Applies(e, a + [c]) && Apply(e, a + [c]) == Apply(e, a) + [c]
  {
  }

  /** A script can be run in front of an untouched last character. */
  lemma {:induction false} TurnsBeforeLast(s: seq<Edit>, a: string, b: string, c: char)
    requires Turns(s, a, b)
    ensures Turns(s, a + [c], b + [c])
  {
    if s != [] {
      ApplyBeforeLast(s[0], a, c);
      TurnsBeforeLast(s[1..], Apply(s[0], a), b, c);
    }
  }

  lemma OneEdit(e: Edit, a: string, b: string)
    requires Applies(e, a) && Apply(e, a) == b
    ensures Turns([e], a, b)
  {
    assert [e][1..] == [];
  }

  lemma LastEdit(s: seq<Edit>, a: string, mid: string, e: Edit, b: string)
    requires Turns(s, a, mid) && Applies(e, mid) && Apply(e, mid) == b
    ensures Turns(s + [e], a, b)
  {
    OneEdit(e, mid, b);
    TurnsConcat(s, [e], a, mid, b);
  }

  lemma InitLast(s: string)
    requires s != []
    ensures Init(s) + [Last(s)] == s
  {
  }

  lemma TurnsThenInsert(s: seq<Edit>, a: string, b: string)
    requires b != [] && Turns(s, a, Init(b))
    ensures Turns(s + [Insert(|b| - 1, Last(b))], a, b)
  {
    LastEdit(s, a, Init(b), Insert(|b| - 1, Last(b)), b);
  }

  lemma TurnsAfterDelete(s: seq<Edit>, a: string, b: string)
    requires a != [] && Turns(s, Init(a), b)
    ensures Turns([Delete(|a| - 1)] + s, a, b)
  {
    OneEdit(Delete(|a| - 1), a, Init(a));
    TurnsConcat([Delete(|a| - 1)], s, a, Init(a), b);
  }

  /** The last characters agree: a script for the rest will do. */
  lemma TurnsKeepingLast(s: seq<Edit>, a: string, b: string)
    requires a != [] && b != [] && Last(a) == Last(b) && Turns(s, Init(a), Init(b))
    ensures Turns(s, a, b)
  {
    TurnsBeforeLast(s, Init(a), Init(b), Last(a));
    InitLast(a);
    InitLast(b);
  }

  lemma TurnsThenSubstitute(s: seq<Edit>, a: string, b: string)
    requires a != [] && b != [] && Turns(s, Init(a), Init(b))
    ensures Turns(s + [Substitute(|b| - 1, Last(b))], a, b)
  {
    TurnsBeforeLast(s, Init(a), Init(b), Last(a));
    InitLast(a);
    var mid := Init(b) + [Last(a)];
    SubstituteLast(Init(b), Last(a), Last(b));
    InitLast(b);
    LastEdit(s, a, mid, Substitute(|b| - 1, Last(b)), b);
  }

  lemma SubstituteLast(s: string, c: char, d: char)
    ensures Applies(Substitute(|s|, d), s + [c]) && Apply(Substitute(|s|, d), s + [c]) == s + [d]
  {
  }

  /** Some script is as short as the recurrence says. */
  lemma {:induction false} ShortestScript(a: string, b: string) returns (script: seq<Edit>)
    ensures Turns(script, a, b)
    ensures |script| == Distance(a, b)
    decreases |a| + |b|
  {
    if a == [] && b == [] {
      script := [];
    } else if a == [] || (b != [] && Distance(a, b) == Distance(a, Init(b)) + 1) {
      var s := ShortestScript(a, Init(b));
      TurnsThenInsert(s, a, b);
      script := s + [Insert(|b| - 1, Last(b))];
    } else if b == [] || Distance(a, b) == Distance(Init(a), b) + 1 {
      var s := ShortestScript(Init(a), b);
      TurnsAfterDelete(s, a, b);
      script := [Delete(|a| - 1)] + s;
    } else {
      var s := ShortestScript(Init(a), Init(b));
      if Last(a) == Last(b) {
        TurnsKeepingLast(s, a, b);
        script := s;
      } else {
        TurnsThenSubstitute(s, a, b);
        script := s + [Substitute(|b| - 1, Last(b))];
      }
    }
  }

  // ----- One edit moves the distance by at most one

  predicate Close(x: int, y: int) {
    -1 <= x - y <= 1
  }

  lemma InitOfAppend(s: string, c: char)
    ensures Init(s + [c]) == s && Last(s + [c]) == c
  {
  }

  lemma {:induction false} GrowIsClose(a: string, c: char, b: string)
    ensures Close(Distance(a, b), Distance(a + [c], b))
    decreases |b|
  {
    InitOfAppend(a, c);
    if b != [] {
      GrowIsClose(a, c, Init(b));
    }
  }

  lemma {:induction false} LastCharacterIsClose(a: string, c: char, d: char, b: string)
    ensures Close(Distance(a + [c], b), Distance(a + [d], b))
    decreases |b|
  {
    InitOfAppend(a, c);
    InitOfAppend(a, d);
    if b != [] {
      GrowIsClose(a, c, Init(b));
      GrowIsClose(a, d, Init(b));
      LastCharacterIsClose(a, c, d, Init(b));
      GrowIsClose(a, c, b);
      GrowIsClose(a, d, b);
      DropTargetIsClose(a, b);
    }
  }

  lemma {:induction false} DropTargetIsClose(a: string, b: string)
    requires b != []
    ensures Close(Distance(a, Init(b)), Distance(a, b))
    decreases |a|
  {
    if a != [] {
      DropTargetIsClose(Init(a), b);
    }
  }

  lemma {:induction false} SuffixKeepsClose(u: string, v: string, z: string, b: string)
    requires forall t: string :: Close(Distance(u, t), Distance(v, t))
    ensures Close(Distance(u + z, b), Distance(v + z, b))
    decreases |z| + |b|
  {
    if z == [] {
      assert u + z == u && v + z == v;
    } else {
      assert Init(u + z) == u + Init(z) && Init(v + z) == v + Init(z);
      assert Last(u + z) == Last(z) == Last(v + z);
      SuffixKeepsClose(u, v, Init(z), b);
      if b == [] {
        assert Close(Distance(u, []), Distance(v, []));
      } else {
        SuffixKeepsClose(u, v, z, Init(b));
        SuffixKeepsClose(u, v, Init(z), Init(b));
      }
    }
  }

  lemma EditIsClose(e: Edit, a: string, b: string)
    requires Applies(e, a)
    ensures Close(Distance(a, b), Distance(Apply(e, a), b))
  {
    var u := a[..e.at];
    match e
    case Insert(at, c) =>
      forall t: string ensures Close(Distance(u, t), Distance(u + [c], t)) {
        GrowIsClose(u, c, t);
      }
      SuffixKeepsClose(u, u + [c], a[at..], b);
      assert u + a[at..] == a;
    case Delete(at) =>
      forall t: string ensures Close(Distance(u + [a[at]], t), Distance(u, t)) {
        GrowIsClose(u, a[at], t);
      }
      SuffixKeepsClose(u + [a[at]], u, a[at + 1..], b);
      assert u + [a[at]] + a[at + 1..] == a;
    case Substitute(at, c) =>
      forall t: string ensures Close(Distance(u + [a[at]], t), Distance(u + [c], t)) {
        LastCharacterIsClose(u, a[at], c, t);
      }
      SuffixKeepsClose(u + [a[at]], u + [c], a[at + 1..], b);
      assert u + [a[at]] + a[at + 1..] == a;
  }

  lemma {:induction false} DistanceToSelf(a: string)
    ensures Distance(a, a) == 0
  {
    if a != [] {
      DistanceToSelf(Init(a));
    }
  }

  /** No script is shorter than the recurrence says. */
  lemma {:induction false} NoShorterScript(script: seq<Edit>, a: string, b: string)
    requires Turns(script, a, b)
    ensures Distance(a, b) <= |script|
  {
    if script == [] {
      DistanceToSelf(a);
    } else {
      NoShorterScript(script[1..], Apply(script[0], a), b);
      EditIsClose(script[0], a, b);
    }
  }

  // ----- Metric laws, read off the scripts

  lemma ZeroIffEqual(a: string, b: string)
    ensures Distance(a, b) == 0 <==> a == b
  {
    var script := ShortestScript(a, b);
    DistanceToSelf(a);
  }

  lemma TriangleInequality(a: string, b: string, c: string)
    ensures Distance(a, c) <= Distance(a, b) + Distance(b, c)
  {
    var s := ShortestScript(a, b);
    var t := ShortestScript(b, c);
    TurnsConcat(s, t, a, b, c);
    NoShorterScript(s + t, a, c);
  }

  lemma {:induction false} Symmetric(a: string, b: string)
    ensures Distance(a, b) == Distance(b, a)
    decreases |a| + |b|
  {
    if a != [] && b != [] {
      Symmetric(Init(a), b);
      Symmetric(a, Init(b));
      Symmetric(Init(a), Init(b));
    }
  }

  // ----- The source's loop

  lemma Unfold(a: string, b: string, c: char, d: char)
    ensures Distance(a + [c], b + [d])
         == Min(Min(Distance(a, b + [d]) + 1, Distance(a + [c], b) + 1), Distance(a, b) + Cost(c, d))
  {
    InitOfAppend(a, c);
    InitOfAppend(b, d);
  }

  /** The first `filled` cells of a row hold the distances from `a` to the prefixes of `b`. */
  predicate IsRow(row: seq<nat>, a: string, b: string, filled: nat) {
    filled <= |row| == |b| + 1 &&
    forall k :: 0 <= k < filled ==> row[k] == Distance(a, b[..k])
  }

  lemma PrefixSnoc(s: string, i: nat)
    requires 0 < i <= |s|
    ensures s[..i - 1] + [s[i - 1]] == s[..i]
  {
  }

  lemma NextCell(prev: seq<nat>, curr: seq<nat>, a: string, b: string, i: nat, j: nat, cell: nat)
    requires 0 < i <= |a| && 0 < j <= |b|
    requires IsRow(prev, a[..i - 1], b, |b| + 1) && IsRow(curr, a[..i], b, j)
    requires cell == Min(Min(prev[j] + 1, curr[j - 1] + 1), prev[j - 1] + Cost(a[i - 1], b[j - 1]))
    ensures IsRow(curr[j := cell], a[..i], b, j + 1)
  {
    PrefixSnoc(a, i);
    PrefixSnoc(b, j);
    Unfold(a[..i - 1], b[..j - 1], a[i - 1], b[j - 1]);
    ExtendRow(curr, a[..i], b, j, cell);
  }

  lemma FirstRow(row: seq<nat>, a: string, b: string)
    requires a == [] && |row| == |b| + 1 && forall k :: 0 <= k < |row| ==> row[k] == k
    ensures IsRow(row, a, b, |b| + 1)
  {
  }

  lemma FirstCell(row: seq<nat>, a: string, b: string)
    requires |row| == |b| + 1 && row[0] == |a|
    ensures IsRow(row, a, b, 1)
  {
    assert b[..0] == [];
  }

  lemma ExtendRow(row: seq<nat>, a: string, b: string, j: nat, cell: nat)
    requires j <= |b| && IsRow(row, a, b, j) && cell == Distance(a, b[..j])
    ensures IsRow(row[j := cell], a, b, j + 1)
  {
  }

  /** Two rows of the table, overwritten and swapped. */
  method Levenshtein(a: string, b: string) returns (distance: nat)
    ensures distance == Distance(a, b)
  {
    var m, n := |a|, |b|;
    if m == 0 {
      return n;
    }
    if n == 0 {
      return m;
    }
    var prev := new nat[n + 1](index => index);
    var curr := new nat[n + 1](_ => 0);
    FirstRow(prev[..], a[..0], b);
    for i := 1 to m + 1
      invariant prev.Length == curr.Length == n + 1
      invariant prev != curr && fresh(prev) && fresh(curr)
      invariant IsRow(prev[..], a[..i - 1], b, n + 1)
    {
      curr[0] := i;
      FirstCell(curr[..], a[..i], b);
      for j := 1 to n + 1
        invariant IsRow(prev[..], a[..i - 1], b, n + 1)
        invariant IsRow(curr[..], a[..i], b, j)
      {
        label row:
        var cost := if a[i - 1] == b[j - 1] then 0 else 1;
        curr[j] := Min(Min(prev[j] + 1, curr[j - 1] + 1), prev[j - 1] + cost);
        NextCell(prev[..], old@row(curr[..]), a, b, i, j, curr[j]);
      }
      prev, curr := curr, prev;
    }
    assert a[..m] == a && b[..n] == b;
    return prev[n];
  }
}
