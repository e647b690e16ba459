/** Paths of child indexes, and the order in which a document lists them. */
module IndexPaths {

  /** Document order: a node comes before what is below it, and before what is below its later
    siblings. */
  predicate DocBefore(p: seq<nat>, q: seq<nat>) {
    q != [] && (p == [] || p[0] < q[0] || (p[0] == q[0] && DocBefore(p[1..], q[1..])))
  }

  lemma PathBelow(base: seq<nat>, path: seq<nat>, index: nat)
    ensures base + [index] <= path <==> base <= path && |path| > |base| && path[|base|] == index
    ensures base + [index] <= path ==> path[|base + [index]|..] == path[|base|..][1..] && path[|base|..][0] == index
  {
    if base <= path && |path| > |base| && path[|base|] == index {
      assert path[..|base| + 1] == base + [index];
    }
    if base + [index] <= path {
      assert path[|base|] == (base + [index])[|base|];
      assert path[..|base|] == (base + [index])[..|base|];
    }
  }

  lemma {:induction false} DocBeforeBelow(base: seq<nat>, p: seq<nat>, q: seq<nat>)
    ensures DocBefore(base + p, base + q) <==> DocBefore(p, q)
  {
    if base == [] {
      assert base + p == p && base + q == q;
    } else {
      DocBeforeBelow(base[1..], p, q);
      assert (base + p)[1..] == base[1..] + p && (base + q)[1..] == base[1..] + q;
    }
  }

  lemma RootBefore(base: seq<nat>, q: seq<nat>)
    requires base <= q && base != q
    ensures DocBefore(base, q)
  {
    assert q == base + q[|base|..] && base == base + [];
    DocBeforeBelow(base, [], q[|base|..]);
  }

  lemma SiblingBefore(base: seq<nat>, i: nat, j: nat, p: seq<nat>, q: seq<nat>)
    requires i < j && base + [i] <= p && base + [j] <= q
    ensures DocBefore(p, q)
  {
    PathBelow(base, p, i);
    PathBelow(base, q, j);
    assert p == base + p[|base|..] && q == base + q[|base|..];
    DocBeforeBelow(base, p[|base|..], q[|base|..]);
  }
}
