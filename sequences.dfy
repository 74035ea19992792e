/** Generic operations on sequences that the dashboard's data wrangling is built from:
    a boolean-mask filter (the dataframe `df[mask]` idiom) and first-seen de-duplication
    (`Series.unique()`). Every function here recurses on the LAST element, the way a
    left-to-right loop that appends builds its result. */
module Sequences {

  /** No element occurs twice. */
  predicate Distinct<T(==)>(s: seq<T>) {
    forall i, j :: 0 <= i < j < |s| ==> s[i] != s[j]
  }

  /** `a` can be obtained from `b` by deleting elements (order is kept). */
  predicate IsSubsequence<T(==)>(a: seq<T>, b: seq<T>)
    decreases |b|
  {
    if a == [] then true
    else if b == [] then false
    else if a[|a| - 1] == b[|b| - 1] then IsSubsequence(a[..|a| - 1], b[..|b| - 1])
    else IsSubsequence(a, b[..|b| - 1])
  }

  /** Position of the first occurrence of `x` in `s`. */
  function FirstIndex<T(==)>(s: seq<T>, x: T): (i: nat)
    requires x in s
    ensures i < |s| && s[i] == x
    ensures forall j :: 0 <= j < i ==> s[j] != x
  {
    if x in s[..|s| - 1] then FirstIndex(s[..|s| - 1], x) else |s| - 1
  }

  /** The elements of `s` for which `keep` holds, in their original order. */
  function Where<T(==,!new)>(s: seq<T>, keep: T -> bool): (r: seq<T>)
    ensures forall x :: x in r ==> keep(x)
    ensures forall x :: multiset(r)[x] == if keep(x) then multiset(s)[x] else 0
    ensures r == [] <==> forall x :: x in s ==> !keep(x)
  {
    if s == [] then []
    else
      var init, last := s[..|s| - 1], s[|s| - 1];
      assert s == init + [last];
      var kept := Where(init, keep);
      if keep(last) then kept + [last] else kept
  }

  /** The mask keeps the original order: what it keeps is a subsequence of its input. */
  lemma {:induction false} WhereIsSubsequence<T(!new)>(s: seq<T>, keep: T -> bool)
    ensures IsSubsequence(Where(s, keep), s)
  {
    if s != [] {
      var init, last := s[..|s| - 1], s[|s| - 1];
      var kept := Where(init, keep);
      WhereIsSubsequence(init, keep);
      if keep(last) {
        assert (kept + [last])[..|kept|] == kept;
      } else {
        assert kept != [] ==> kept[|kept| - 1] in kept;
      }
    }
  }

  /** A mask that every element already passes keeps the whole sequence. */
  lemma {:induction false} WhereKeepsAll<T(!new)>(s: seq<T>, keep: T -> bool)
    requires forall x :: x in s ==> keep(x)
    ensures Where(s, keep) == s
  {
    if s != [] {
      assert s == s[..|s| - 1] + [s[|s| - 1]];
      WhereKeepsAll(s[..|s| - 1], keep);
    }
  }

  /** Applying the same mask twice is the same as applying it once. */
  lemma WhereIdempotent<T(!new)>(s: seq<T>, keep: T -> bool)
    ensures Where(Where(s, keep), keep) == Where(s, keep)
  {
    WhereKeepsAll(Where(s, keep), keep);
  }

  /** Masking an extended sequence extends the masked prefix by the new element iff it passes. */
  lemma WhereSnoc<T(!new)>(s: seq<T>, x: T, keep: T -> bool)
    ensures Where(s + [x], keep) == if keep(x) then Where(s, keep) + [x] else Where(s, keep)
  {
    assert (s + [x])[..|s|] == s;
  }

  /** The distinct elements of `s`, each at the place where it is first seen. */
  function Unique<T(==,!new)>(s: seq<T>): (u: seq<T>)
    ensures Distinct(u)
    ensures forall x :: x in u <==> x in s
  {
    if s == [] then []
    else
      var init, last := s[..|s| - 1], s[|s| - 1];
      assert s == init + [last];
      var seen := Unique(init);
      if last in seen then seen else seen + [last]
  }

  /** `Unique` lists the elements in the order of their first occurrences. */
  lemma {:induction false} UniqueFirstSeenOrder<T(!new)>(s: seq<T>)
    ensures forall i, j :: 0 <= i < j < |Unique(s)| ==>
              FirstIndex(s, Unique(s)[i]) < FirstIndex(s, Unique(s)[j])
  {
    if s != [] {
      var init, last := s[..|s| - 1], s[|s| - 1];
      var seen, u := Unique(init), Unique(s);
      UniqueFirstSeenOrder(init);
      forall y | y in init ensures FirstIndex(s, y) == FirstIndex(init, y) < |s| - 1 {
      }
      assert u == if last in seen then seen else seen + [last];
      forall i, j | 0 <= i < j < |u| ensures FirstIndex(s, u[i]) < FirstIndex(s, u[j]) {
        assert u[i] == seen[i] && seen[i] in seen;
        if j < |seen| {
          assert u[j] == seen[j] && seen[j] in seen;
          assert FirstIndex(init, seen[i]) < FirstIndex(init, seen[j]);
        } else {
          assert u[j] == last && last !in init;
        }
      }
    }
  }

  /** Extending `s` by an element already seen leaves `Unique` unchanged; a new one is appended. */
  lemma UniqueSnoc<T(!new)>(s: seq<T>, x: T)
    ensures Unique(s + [x]) == if x in s then Unique(s) else Unique(s) + [x]
  {
    assert (s + [x])[..|s|] == s;
  }
}
