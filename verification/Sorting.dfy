/** Sorting by a caller-supplied order, as Go's `sort` and `slices` packages
    provide it, and the fact every caller here relies on: two sorted
    arrangements of the same elements are the same sequence, so neither the
    order in which a map is enumerated nor the instability of a sort can show. */
module Sorting {

  ghost predicate TotalOrder<T(!new)>(le: (T, T) -> bool) {
    && (forall x :: le(x, x))
    && (forall x, y :: le(x, y) || le(y, x))
    && (forall x, y, z :: le(x, y) && le(y, z) ==> le(x, z))
  }

  /** Elements that compare as equal are equal, among the elements of `s`. */
  ghost predicate KeysDecide<T>(s: seq<T>, le: (T, T) -> bool) {
    forall x, y | x in s && y in s && le(x, y) && le(y, x) :: x == y
  }

  ghost predicate Sorted<T>(s: seq<T>, le: (T, T) -> bool) {
    forall i, j | 0 <= i < j < |s| :: le(s[i], s[j])
  }

  ghost predicate NoDuplicates<T(!new)>(s: seq<T>) {
    forall i, j | 0 <= i < j < |s| :: s[i] != s[j]
  }

  /** An order in which a set could be ranged over. */
  ghost predicate Enumerates<T(!new)>(order: seq<T>, keys: set<T>) {
    NoDuplicates(order) && forall x :: x in order <==> x in keys
  }

  function Insert<T>(x: T, s: seq<T>, le: (T, T) -> bool): seq<T> {
    if s == [] || le(x, s[0]) then [x] + s else [s[0]] + Insert(x, s[1..], le)
  }

  function Sort<T>(s: seq<T>, le: (T, T) -> bool): seq<T> {
    if s == [] then [] else Insert(s[0], Sort(s[1..], le), le)
  }

  lemma {:induction false} InsertPermutes<T>(x: T, s: seq<T>, le: (T, T) -> bool)
    ensures multiset(Insert(x, s, le)) == multiset{x} + multiset(s)
  {
    if s == [] || le(x, s[0]) {
    } else {
      InsertPermutes(x, s[1..], le);
      assert s == [s[0]] + s[1..];
    }
  }

  lemma {:induction false} SortPermutes<T>(s: seq<T>, le: (T, T) -> bool)
    ensures multiset(Sort(s, le)) == multiset(s)
  {
    if s == [] {
    } else {
      SortPermutes(s[1..], le);
      InsertPermutes(s[0], Sort(s[1..], le), le);
      assert s == [s[0]] + s[1..];
    }
  }

  lemma {:induction false} InsertSorted<T(!new)>(x: T, s: seq<T>, le: (T, T) -> bool)
    requires TotalOrder(le) && Sorted(s, le)
    ensures Sorted(Insert(x, s, le), le)
  {
    if s == [] || le(x, s[0]) {
    } else {
      InsertSorted(x, s[1..], le);
      InsertPermutes(x, s[1..], le);
      var rest := Insert(x, s[1..], le);
      forall y | y in rest ensures le(s[0], y) {
        assert y in multiset(rest);
        if y != x {
          assert y in s[1..];
        }
      }
    }
  }

  lemma {:induction false} SortSorted<T(!new)>(s: seq<T>, le: (T, T) -> bool)
    requires TotalOrder(le)
    ensures Sorted(Sort(s, le), le)
  {
    if s == [] {
    } else {
      SortSorted(s[1..], le);
      InsertSorted(s[0], Sort(s[1..], le), le);
    }
  }

  lemma SameBagSameMembers<T>(a: seq<T>, b: seq<T>)
    requires multiset(a) == multiset(b)
    ensures |a| == |b|
    ensures forall x :: x in a <==> x in b
  {
    assert |multiset(a)| == |a| && |multiset(b)| == |b|;
    forall x ensures x in a <==> x in b {
      assert x in a <==> x in multiset(a);
      assert x in b <==> x in multiset(b);
    }
  }

  /** A sorted arrangement is determined by the bag of its elements. */
  lemma {:induction false} SortedUnique<T>(a: seq<T>, b: seq<T>, le: (T, T) -> bool)
    requires Sorted(a, le) && Sorted(b, le)
    requires multiset(a) == multiset(b)
    requires KeysDecide(a, le)
    ensures a == b
    decreases |a|
  {
    hide Sorted, KeysDecide;
    SameBagSameMembers(a, b);
    if a == [] {
    } else {
      HeadsAgree(a, b, le);
      TailSorted(a, le);
      TailSorted(b, le);
      SortedUnique(a[1..], b[1..], le);
      assert a == [a[0]] + a[1..] && b == [b[0]] + b[1..];
    }
  }

  lemma TailSorted<T>(s: seq<T>, le: (T, T) -> bool)
    requires s != [] && Sorted(s, le)
    ensures Sorted(s[1..], le) && multiset(s[1..]) == multiset(s) - multiset{s[0]}
    ensures KeysDecide(s, le) ==> KeysDecide(s[1..], le)
  {
    assert s == [s[0]] + s[1..];
  }

  lemma HeadsAgree<T>(a: seq<T>, b: seq<T>, le: (T, T) -> bool)
    requires a != [] && b != []
    requires Sorted(a, le) && Sorted(b, le)
    requires forall x :: x in a <==> x in b
    requires KeysDecide(a, le)
    ensures a[0] == b[0]
  {
    assert a[0] in b && b[0] in a;
    var i :| 0 <= i < |b| && b[i] == a[0];
    var j :| 0 <= j < |a| && a[j] == b[0];
    if i > 0 && j > 0 {
      assert le(b[0], b[i]) && le(a[0], a[j]);
    }
  }

  /** Sorting forgets the order of its input. */
  lemma SortForgetsOrder<T(!new)>(a: seq<T>, b: seq<T>, le: (T, T) -> bool)
    requires TotalOrder(le)
    requires multiset(a) == multiset(b)
    requires KeysDecide(a, le)
    ensures Sort(a, le) == Sort(b, le)
  {
    SortPermutes(a, le);
    SortPermutes(b, le);
    SortSorted(a, le);
    SortSorted(b, le);
    SameBagSameMembers(a, Sort(a, le));
    SortedUnique(Sort(a, le), Sort(b, le), le);
  }

  lemma {:induction false} NoDuplicatesBag<T(!new)>(s: seq<T>)
    ensures NoDuplicates(s) <==> forall x :: multiset(s)[x] <= 1
  {
    if s == [] {
    } else {
      NoDuplicatesBag(s[1..]);
      assert s == [s[0]] + s[1..];
      assert multiset(s) == multiset{s[0]} + multiset(s[1..]);
      if NoDuplicates(s) {
        assert NoDuplicates(s[1..]) by {
          forall i, j | 0 <= i < j < |s[1..]| ensures s[1..][i] != s[1..][j] {
            assert s[i + 1] != s[j + 1];
          }
        }
        assert s[0] !in s[1..];
        assert multiset(s[1..])[s[0]] == 0;
      } else {
        var i, j :| 0 <= i < j < |s| && s[i] == s[j];
        if i == 0 {
          assert s[j] == s[1..][j - 1];
          assert s[0] in multiset(s[1..]);
          assert multiset(s)[s[0]] > 1;
        } else {
          assert s[1..][i - 1] == s[1..][j - 1];
          assert !NoDuplicates(s[1..]);
          var x :| multiset(s[1..])[x] > 1;
          assert multiset(s)[x] > 1;
        }
      }
    }
  }

  /** Any two duplicate-free enumerations of one set hold the same bag. */
  lemma EnumerationsAgree<T(!new)>(a: seq<T>, b: seq<T>)
    requires NoDuplicates(a) && NoDuplicates(b)
    requires forall x :: x in a <==> x in b
    ensures multiset(a) == multiset(b)
  {
    NoDuplicatesBag(a);
    NoDuplicatesBag(b);
    forall x ensures multiset(a)[x] == multiset(b)[x] {
      assert x in a <==> x in multiset(a);
      assert x in b <==> x in multiset(b);
    }
  }

  // ----- bags of images

  function Map<A, B>(f: A -> B, s: seq<A>): (r: seq<B>)
    ensures |r| == |s| && forall i | 0 <= i < |s| :: r[i] == f(s[i])
  {
    if s == [] then [] else [f(s[0])] + Map(f, s[1..])
  }

  function Without<A>(s: seq<A>, j: nat): seq<A>
    requires j < |s|
  {
    s[..j] + s[j + 1..]
  }

  lemma MapHead<A, B>(f: A -> B, s: seq<A>)
    requires s != []
    ensures multiset(Map(f, s)) == multiset{f(s[0])} + multiset(Map(f, s[1..]))
  {
    var rest := Map(f, s[1..]);
    assert Map(f, s) == [f(s[0])] + rest;
  }

  lemma {:induction false} MapWithout<A, B>(f: A -> B, s: seq<A>, j: nat)
    requires j < |s|
    ensures multiset(Map(f, s)) == multiset{f(s[j])} + multiset(Map(f, Without(s, j)))
    decreases j
  {
    hide Map;
    MapHead(f, s);
    if j == 0 {
      assert Without(s, 0) == s[1..];
    } else {
      MapWithout(f, s[1..], j - 1);
      assert Without(s, j)[1..] == Without(s[1..], j - 1);
      MapHead(f, Without(s, j));
    }
  }

  lemma WithoutMembers<A>(s: seq<A>, j: nat)
    requires j < |s|
    ensures forall x :: x in Without(s, j) ==> x in s
  {
  }

  lemma SameImage<A, B>(f: A -> B, x: A, b: seq<A>) returns (j: nat)
    requires f(x) in multiset(Map(f, b))
    ensures j < |b| && f(b[j]) == f(x)
  {
    var image := Map(f, b);
    assert f(x) in image;
    j :| 0 <= j < |image| && image[j] == f(x);
  }

  lemma Cancel<B>(x: B, p: multiset<B>, q: multiset<B>)
    requires multiset{x} + p == multiset{x} + q
    ensures p == q
  {
    assert p == (multiset{x} + p) - multiset{x};
    assert q == (multiset{x} + q) - multiset{x};
  }

  /** Two sequences with the same bag of images under `f` have the same bag of
      images under any `g` that `f` determines. */
  lemma {:induction false} MapAgree<A, B, C>(f: A -> B, g: A -> C, a: seq<A>, b: seq<A>)
    requires multiset(Map(f, a)) == multiset(Map(f, b))
    requires forall x, y | x in a && y in b && f(x) == f(y) :: g(x) == g(y)
    ensures multiset(Map(g, a)) == multiset(Map(g, b))
    decreases |a|
  {
    hide Map, Without;
    if a == [] {
      assert |multiset(Map(f, a))| == 0 && |multiset(Map(f, b))| == |b|;
      assert b == [];
    } else {
      MapWithout(f, a, 0);
      var j := SameImage(f, a[0], b);
      MapWithout(f, b, j);
      MapWithout(g, a, 0);
      MapWithout(g, b, j);
      WithoutMembers(a, 0);
      WithoutMembers(b, j);
      Cancel(f(a[0]), multiset(Map(f, Without(a, 0))), multiset(Map(f, Without(b, j))));
      WithoutLength(a, 0);
      MapAgree(f, g, Without(a, 0), Without(b, j));
    }
  }

  lemma WithoutLength<A>(s: seq<A>, j: nat)
    requires j < |s|
    ensures |Without(s, j)| == |s| - 1
  {
  }

  lemma {:induction false} MapIdentity<A>(s: seq<A>)
    ensures Map((x: A) => x, s) == s
  {
    if s == [] {
    } else {
      MapIdentity(s[1..]);
    }
  }

  lemma MapPermutes<A, B>(g: A -> B, a: seq<A>, b: seq<A>)
    requires multiset(a) == multiset(b)
    ensures multiset(Map(g, a)) == multiset(Map(g, b))
  {
    MapIdentity(a);
    MapIdentity(b);
    MapAgree((x: A) => x, g, a, b);
  }

  // ----- sums of bags

  function Union<A>(bags: seq<multiset<A>>): multiset<A> {
    if bags == [] then multiset{} else bags[0] + Union(bags[1..])
  }

  lemma {:induction false} UnionWithout<A>(bags: seq<multiset<A>>, j: nat)
    requires j < |bags|
    ensures Union(bags) == bags[j] + Union(Without(bags, j))
    decreases j
  {
    if j == 0 {
      assert Without(bags, 0) == bags[1..];
    } else {
      UnionWithout(bags[1..], j - 1);
      assert Without(bags, j)[1..] == Without(bags[1..], j - 1);
    }
  }

  lemma {:induction false} UnionForgetsOrder<A>(a: seq<multiset<A>>, b: seq<multiset<A>>)
    requires multiset(a) == multiset(b)
    ensures Union(a) == Union(b)
    decreases |a|
  {
    SameBagSameMembers(a, b);
    if a == [] {
    } else {
      assert a[0] in b;
      var j :| 0 <= j < |b| && b[j] == a[0];
      UnionWithout(a, 0);
      UnionWithout(b, j);
      BagWithout(a, 0);
      BagWithout(b, j);
      UnionForgetsOrder(Without(a, 0), Without(b, j));
    }
  }

  lemma BagWithout<A>(s: seq<A>, j: nat)
    requires j < |s|
    ensures multiset(Without(s, j)) == multiset(s) - multiset{s[j]}
  {
    assert s == s[..j] + [s[j]] + s[j + 1..];
  }
}
