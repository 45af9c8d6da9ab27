/** Stable sorting (sort.SliceStable): what it means, that insertion achieves it, and that the result
    is the only one possible, whatever algorithm the library uses. */
module Sorting {

  /** A strict weak order: asymmetric, and incomparability is transitive. */
  ghost predicate WeakOrder<T(!new)>(less: (T, T) -> bool) {
    && (forall x, y :: less(x, y) ==> !less(y, x))
    && (forall x, y, z :: less(x, z) ==> less(x, y) || less(y, z))
  }

  predicate Tied<T>(less: (T, T) -> bool, x: T, y: T) { !less(x, y) && !less(y, x) }

  ghost predicate Sorted<T>(less: (T, T) -> bool, s: seq<T>) {
    forall i, j :: 0 <= i < j < |s| ==> !less(s[j], s[i])
  }

  /** The elements of s tied with x, in the order they occur. */
  function Ties<T>(less: (T, T) -> bool, s: seq<T>, x: T): seq<T> {
    if s == [] then [] else if Tied(less, s[0], x) then [s[0]] + Ties(less, s[1..], x) else Ties(less, s[1..], x)
  }

  /** out is sorted and lists each group of ties exactly as input does: same members, same order. */
  ghost predicate StableSortOf<T(!new)>(less: (T, T) -> bool, out: seq<T>, input: seq<T>) {
    Sorted(less, out) && forall x :: Ties(less, out, x) == Ties(less, input, x)
  }

  /** Puts x behind everything that is not greater. */
  function Insert<T>(less: (T, T) -> bool, s: seq<T>, x: T): seq<T> {
    if s != [] && less(x, s[|s| - 1]) then Insert(less, s[..|s| - 1], x) + [s[|s| - 1]] else s + [x]
  }

  function Sort<T>(less: (T, T) -> bool, s: seq<T>): seq<T> {
    if s == [] then [] else Insert(less, Sort(less, s[..|s| - 1]), s[|s| - 1])
  }

  lemma {:induction false} TiesConcat<T>(less: (T, T) -> bool, a: seq<T>, b: seq<T>, x: T)
    ensures Ties(less, a + b, x) == Ties(less, a, x) + Ties(less, b, x)
  {
    if a == [] {
      assert a + b == b;
    } else {
      assert (a + b)[1..] == a[1..] + b;
      TiesConcat(less, a[1..], b, x);
      if Tied(less, a[0], x) {
        assert [a[0]] + (Ties(less, a[1..], x) + Ties(less, b, x)) == Ties(less, a, x) + Ties(less, b, x);
      }
    }
  }

  lemma {:induction false} InsertTies<T(!new)>(less: (T, T) -> bool, s: seq<T>, x: T, y: T)
    requires WeakOrder(less)
    ensures Ties(less, Insert(less, s, x), y) == Ties(less, s + [x], y)
  {
    if s != [] && less(x, s[|s| - 1]) {
      var rest, last := s[..|s| - 1], s[|s| - 1];
      InsertTies(less, rest, x, y);
      TiesConcat(less, Insert(less, rest, x), [last], y);
      TiesConcat(less, rest, [x], y);
      TiesConcat(less, rest, [last], y);
      TiesConcat(less, s, [x], y);
      assert s == rest + [last];
      assert !(Tied(less, x, y) && Tied(less, last, y));
    }
  }

  lemma {:induction false} InsertSorted<T(!new)>(less: (T, T) -> bool, s: seq<T>, x: T)
    requires WeakOrder(less) && Sorted(less, s)
    ensures Sorted(less, Insert(less, s, x))
    ensures forall y :: y in Insert(less, s, x) ==> y == x || y in s
  {
    if s != [] && less(x, s[|s| - 1]) {
      InsertSorted(less, s[..|s| - 1], x);
      var front := Insert(less, s[..|s| - 1], x);
      forall i | 0 <= i < |front| ensures !less(s[|s| - 1], front[i]) {
        assert front[i] in front;
      }
    } else if s != [] {
      forall i | 0 <= i < |s| ensures !less(x, s[i]) {
        assert i == |s| - 1 || !less(s[|s| - 1], s[i]);
      }
    }
  }

  lemma {:induction false} SortIsStable<T(!new)>(less: (T, T) -> bool, s: seq<T>)
    requires WeakOrder(less)
    ensures StableSortOf(less, Sort(less, s), s)
  {
    if s != [] {
      var rest, last := s[..|s| - 1], s[|s| - 1];
      SortIsStable(less, rest);
      InsertSorted(less, Sort(less, rest), last);
      assert s == rest + [last];
      forall y ensures Ties(less, Sort(less, s), y) == Ties(less, s, y) {
        InsertTies(less, Sort(less, rest), last, y);
        TiesConcat(less, Sort(less, rest), [last], y);
        TiesConcat(less, rest, [last], y);
      }
    }
  }

  lemma {:induction false} TiesMembers<T>(less: (T, T) -> bool, s: seq<T>, x: T, y: T)
    ensures y in Ties(less, s, x) <==> y in s && Tied(less, y, x)
  {
    if s != [] {
      TiesMembers(less, s[1..], x, y);
      assert y in s <==> y == s[0] || y in s[1..];
    }
  }

  /** Two sorted sequences with the same groups of ties have the same first element. */
  lemma SameHead<T(!new)>(less: (T, T) -> bool, a: seq<T>, b: seq<T>)
    requires WeakOrder(less) && Sorted(less, a) && Sorted(less, b) && a != []
    requires forall x :: Ties(less, a, x) == Ties(less, b, x)
    ensures b != [] && a[0] == b[0]
  {
    TiesMembers(less, a, a[0], a[0]);
    TiesMembers(less, b, a[0], a[0]);
    TiesMembers(less, a, b[0], b[0]);
    TiesMembers(less, b, b[0], b[0]);
    var i :| 0 <= i < |b| && b[i] == a[0];
    var j :| 0 <= j < |a| && a[j] == b[0];
    assert Tied(less, a[0], b[0]);
    assert Ties(less, a, a[0])[0] == a[0] && Ties(less, b, a[0])[0] == b[0];
  }

  /** The stable sort of an input is unique, so the library's choice of algorithm cannot matter. */
  lemma {:induction false} StableSortUnique<T(!new)>(less: (T, T) -> bool, a: seq<T>, b: seq<T>)
    requires WeakOrder(less) && Sorted(less, a) && Sorted(less, b)
    requires forall x :: Ties(less, a, x) == Ties(less, b, x)
    ensures a == b
  {
    if a == [] {
      if b != [] { SameHead(less, b, a); }
    } else {
      SameHead(less, a, b);
      forall x ensures Ties(less, a[1..], x) == Ties(less, b[1..], x) {
        var h := if Tied(less, a[0], x) then [a[0]] else [];
        assert Ties(less, a, x)[|h|..] == Ties(less, a[1..], x);
        assert Ties(less, b, x)[|h|..] == Ties(less, b[1..], x);
      }
      StableSortUnique(less, a[1..], b[1..]);
      assert a == [a[0]] + a[1..] && b == [b[0]] + b[1..];
    }
  }

  lemma {:induction false} InsertPermutes<T>(less: (T, T) -> bool, s: seq<T>, x: T)
    ensures multiset(Insert(less, s, x)) == multiset(s) + multiset{x}
  {
    if s != [] && less(x, s[|s| - 1]) {
      InsertPermutes(less, s[..|s| - 1], x);
      assert s == s[..|s| - 1] + [s[|s| - 1]];
    }
  }

  lemma InsertKeepsPermutation<T>(less: (T, T) -> bool, sorted: seq<T>, rest: seq<T>, last: T)
    requires multiset(sorted) == multiset(rest)
    ensures multiset(Insert(less, sorted, last)) == multiset(rest + [last])
  {
    InsertPermutes(less, sorted, last);
  }

  lemma SortSnoc<T>(less: (T, T) -> bool, rest: seq<T>, last: T)
    ensures Sort(less, rest + [last]) == Insert(less, Sort(less, rest), last)
  {
    assert (rest + [last])[..|rest|] == rest;
  }

  lemma {:induction false} SortPermutes<T>(less: (T, T) -> bool, s: seq<T>)
    ensures multiset(Sort(less, s)) == multiset(s)
  {
    if s != [] {
      var rest, last := s[..|s| - 1], s[|s| - 1];
      assert s == rest + [last];
      SortPermutes(less, rest);
      SortSnoc(less, rest, last);
      InsertKeepsPermutation(less, Sort(less, rest), rest, last);
    }
  }

  // ----- Permutations -----

  /** Rearranging elements with pairwise distinct keys keeps them pairwise distinct. */
  lemma DistinctSurvives<T, K>(key: T -> K, a: seq<T>, b: seq<T>, i: nat, j: nat)
    requires forall m, n :: 0 <= m < n < |a| ==> key(a[m]) != key(a[n])
    requires multiset(a) == multiset(b) && i < j < |b|
    ensures key(b[i]) != key(b[j])
  {
    assert b[i] in multiset(a) && b[j] in multiset(a);
    var m :| 0 <= m < |a| && a[m] == b[i];
    var n :| 0 <= n < |a| && a[n] == b[j];
    if m == n {
      OneCopy(key, a, m);
      TwoCopies(b, i, j);
    }
  }

  lemma OneCopy<T, K>(key: T -> K, a: seq<T>, m: nat)
    requires forall i, j :: 0 <= i < j < |a| ==> key(a[i]) != key(a[j])
    requires m < |a|
    ensures multiset(a)[a[m]] == 1
  {
    assert a == a[..m] + [a[m]] + a[m + 1..];
    assert a[m] !in a[..m] && a[m] !in a[m + 1..];
  }

  lemma TwoCopies<T>(b: seq<T>, i: nat, j: nat)
    requires i < j < |b| && b[i] == b[j]
    ensures multiset(b)[b[i]] >= 2
  {
    assert b == b[..i] + [b[i]] + b[i + 1..j] + [b[j]] + b[j + 1..];
  }

  ghost predicate StrictlySorted<T>(less: (T, T) -> bool, s: seq<T>) {
    forall i, j :: 0 <= i < j < |s| ==> less(s[i], s[j])
  }

  lemma StrictHead<T(!new)>(less: (T, T) -> bool, a: seq<T>, b: seq<T>)
    requires WeakOrder(less) && multiset(a) == multiset(b) && a != []
    requires StrictlySorted(less, a) && StrictlySorted(less, b)
    ensures b != [] && a[0] == b[0]
  {
    assert a[0] in multiset(b);
    assert b[0] in multiset(a);
    var i :| 0 <= i < |b| && b[i] == a[0];
    var j :| 0 <= j < |a| && a[j] == b[0];
  }

  lemma StrictTail<T>(less: (T, T) -> bool, a: seq<T>)
    requires a != [] && StrictlySorted(less, a)
    ensures StrictlySorted(less, a[1..]) && multiset(a) == multiset{a[0]} + multiset(a[1..]) && a == [a[0]] + a[1..]
  {
    assert a == [a[0]] + a[1..];
  }

  lemma SameRest<T>(x: T, a: multiset<T>, b: multiset<T>)
    requires multiset{x} + a == multiset{x} + b
    ensures a == b
  {
    assert a == (multiset{x} + a) - multiset{x};
    assert b == (multiset{x} + b) - multiset{x};
  }

  /** A strictly sorted list is determined by its elements. */
  lemma {:induction false} StrictSortUnique<T(!new)>(less: (T, T) -> bool, a: seq<T>, b: seq<T>)
    requires WeakOrder(less) && multiset(a) == multiset(b)
    requires StrictlySorted(less, a) && StrictlySorted(less, b)
    ensures a == b
  {
    if a == [] {
      assert |multiset(a)| == 0 && |multiset(b)| == |b|;
    } else {
      StrictHead(less, a, b);
      StrictTail(less, a);
      StrictTail(less, b);
      SameRest(a[0], multiset(a[1..]), multiset(b[1..]));
      StrictSortUnique(less, a[1..], b[1..]);
    }
  }

  // ----- sort.SliceStable -----

  method SliceStable<T(!new)>(less: (T, T) -> bool, s: seq<T>) returns (out: seq<T>)
    requires WeakOrder(less)
    ensures StableSortOf(less, out, s) && multiset(out) == multiset(s) && out == Sort(less, s)
  {
    out := [];
    for n := 0 to |s|
      invariant out == Sort(less, s[..n])
    {
      out := Insert(less, out, s[n]);
      assert s[..n + 1][..n] == s[..n];
    }
    assert s[..|s|] == s;
    SortIsStable(less, s);
    SortPermutes(less, s);
  }
}
