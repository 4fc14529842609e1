/** Heading anchors of a Markdown document (internal/docscheck/navigation.go).
    A per-base counter remembers where to resume the search for a free name;
    the names given are the ones a search from the start would give. */
module Anchors {
  import opened Text

  /** The names tried for a heading: `base`, `base-1`, `base-2`, and so on. */
  function Name(base: string, count: nat): string {
    if count == 0 then base else base + "-" + Decimal(count)
  }

  lemma NameInjective(base: string, m: nat, n: nat)
    ensures Name(base, m) == Name(base, n) ==> m == n
  {
    if Name(base, m) == Name(base, n) {
      DecimalDenotes(m);
      DecimalDenotes(n);
      assert m != 0 ==> Name(base, m)[|base| + 1..] == Decimal(m);
      assert n != 0 ==> Name(base, n)[|base| + 1..] == Decimal(n);
      assert (m == 0) == (n == 0);
      if m != 0 {
        DecimalInjective(m, n);
      }
    }
  }

  ghost predicate TakenBelow(anchors: set<string>, base: string, n: nat) {
    forall k: nat | k < n :: Name(base, k) in anchors
  }

  ghost predicate LeastFree(anchors: set<string>, base: string, n: nat) {
    Name(base, n) !in anchors && TakenBelow(anchors, base, n)
  }

  /** A finite set of anchors cannot hold more names of one base than it has members. */
  lemma {:induction false} TakenIsBounded(anchors: set<string>, base: string, n: nat)
    requires TakenBelow(anchors, base, n)
    ensures n <= |anchors|
    decreases n
  {
    if n > 0 {
      var last := Name(base, n - 1);
      forall k: nat | k < n - 1 ensures Name(base, k) in anchors - {last} {
        NameInjective(base, k, n - 1);
      }
      TakenIsBounded(anchors - {last}, base, n - 1);
    }
  }

  /** The search without a memory: from the base itself, one name after another. */
  ghost function FirstFree(anchors: set<string>, base: string, from: nat): (n: nat)
    requires TakenBelow(anchors, base, from)
    ensures LeastFree(anchors, base, n)
    decreases |anchors| - from + 1
  {
    TakenIsBounded(anchors, base, from);
    if Name(base, from) !in anchors then from
    else
      assert TakenBelow(anchors, base, from + 1);
      TakenIsBounded(anchors, base, from + 1);
      FirstFree(anchors, base, from + 1)
  }

  lemma LeastFreeUnique(anchors: set<string>, base: string, m: nat, n: nat)
    requires LeastFree(anchors, base, m) && LeastFree(anchors, base, n)
    ensures m == n
  {
    assert m < n ==> Name(base, m) in anchors;
    assert n < m ==> Name(base, n) in anchors;
  }

  /** The anchors a document's headings get from a memoryless search, in order. */
  ghost function Naive(bases: seq<string>): seq<string> {
    if bases == [] then []
    else
      var before := Naive(bases[..|bases| - 1]);
      var base := bases[|bases| - 1];
      before + [Name(base, FirstFree(Members(before), base, 0))]
  }

  ghost function Members(s: seq<string>): set<string> {
    set x | x in s
  }

  class Headings {
    var anchors: set<string>
    var nextSuffix: map<string, nat>

    /** Below the remembered suffix every name of the base is taken. */
    ghost predicate Valid()
      reads this
    {
      forall base | base in nextSuffix :: TakenBelow(anchors, base, nextSuffix[base])
    }

    constructor ()
      ensures Valid() && anchors == {} && nextSuffix == map[]
    {
      anchors, nextSuffix := {}, map[];
    }

    method Allocate(base: string) returns (anchor: string)
      requires Valid()
      modifies this
      ensures Valid()
      ensures anchor == Name(base, FirstFree(old(anchors), base, 0))
      ensures anchor !in old(anchors) && anchors == old(anchors) + {anchor}
    {
      anchor := base;
      var count: nat := if base in nextSuffix then nextSuffix[base] else 0;
      if count != 0 {
        anchor := Name(base, count);
      }
      TakenIsBounded(anchors, base, count);
      while anchor in anchors
        invariant anchors == old(anchors) && nextSuffix == old(nextSuffix)
        invariant anchor == Name(base, count)
        invariant TakenBelow(anchors, base, count) && count <= |anchors|
        decreases |anchors| - count
      {
        assert TakenBelow(anchors, base, count + 1);
        TakenIsBounded(anchors, base, count + 1);
        count := count + 1;
        anchor := Name(base, count);
      }
      LeastFreeUnique(anchors, base, count, FirstFree(anchors, base, 0));
      nextSuffix := nextSuffix[base := count + 1];
      anchors := anchors + {anchor};
    }
  }

  method Parse(bases: seq<string>) returns (names: seq<string>)
    ensures names == Naive(bases)
  {
    var headings := new Headings();
    names := [];
    for i := 0 to |bases|
      invariant headings.Valid() && fresh(headings)
      invariant names == Naive(bases[..i]) && headings.anchors == Members(names)
    {
      assert bases[..i + 1][..i] == bases[..i];
      var anchor := headings.Allocate(bases[i]);
      names := names + [anchor];
    }
    assert bases[..|bases|] == bases;
  }

  lemma FreshName(names: seq<string>, base: string)
    ensures Name(base, FirstFree(Members(names), base, 0)) !in names
    ensures Named(Name(base, FirstFree(Members(names), base, 0)), base)
  {
  }

  ghost predicate Named(anchor: string, base: string) {
    exists n: nat :: anchor == Name(base, n)
  }

  /** Every heading has an anchor of its own, formed from its own base, whatever
      the other headings are called. */
  lemma {:induction false} AnchorsAreDistinct(bases: seq<string>)
    ensures |Naive(bases)| == |bases|
    ensures forall i, j | 0 <= i < j < |bases| :: Naive(bases)[i] != Naive(bases)[j]
    ensures forall i | 0 <= i < |bases| :: Named(Naive(bases)[i], bases[i])
  {
    hide Name, LeastFree, TakenBelow;
    if bases != [] {
      var front := bases[..|bases| - 1];
      AnchorsAreDistinct(front);
      FreshName(Naive(front), bases[|front|]);
      var names := Naive(bases);
      assert names[..|front|] == Naive(front);
      forall i, j | 0 <= i < j < |bases| ensures names[i] != names[j] {
        assert i < |front| && names[i] == Naive(front)[i];
        if j < |front| {
          assert names[j] == Naive(front)[j];
        } else {
          assert names[i] in Members(Naive(front));
        }
      }
      forall i | 0 <= i < |bases| ensures Named(names[i], bases[i]) {
        assert i < |front| ==> names[i] == Naive(front)[i];
      }
    }
  }

  /** Links written against a document's earlier headings keep their targets when headings are appended. */
  lemma {:induction false} AppendingKeepsAnchors(bases: seq<string>, more: seq<string>)
    ensures |Naive(bases)| == |bases| && |Naive(bases + more)| == |bases + more|
    ensures Naive(bases + more)[..|bases|] == Naive(bases)
    decreases |more|
  {
    hide Named, Name, LeastFree, FirstFree;
    AnchorsAreDistinct(bases);
    AnchorsAreDistinct(bases + more);
    if more == [] {
      assert bases + more == bases;
    } else {
      var front := more[..|more| - 1];
      AppendingKeepsAnchors(bases, front);
      assert (bases + more)[..|bases + more| - 1] == bases + front;
    }
  }

  /** A heading keeps its plain name exactly when no earlier heading was given it. */
  lemma PlainNameIfFree(bases: seq<string>, base: string)
    ensures var names := Naive(bases + [base]);
      |names| == |bases| + 1 && (names[|bases|] == base <==> base !in Naive(bases))
  {
    AnchorsAreDistinct(bases);
    AnchorsAreDistinct(bases + [base]);
    assert (bases + [base])[..|bases|] == bases;
    var n := FirstFree(Members(Naive(bases)), base, 0);
    if n != 0 {
      NameInjective(base, n, 0);
      assert Name(base, 0) in Members(Naive(bases));
    }
  }
}
