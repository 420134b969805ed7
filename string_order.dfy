/**
 * Python 2 compares byte strings lexicographically, character by
 * character, a proper prefix coming first.  This module defines that
 * order on `string`, the sorted forms the gallery builder produces with
 * `list.sort()`, and the "sorted listing of a set" that every table of
 * the category graph is frozen into.
 */
module StringOrder {

  /** Lexicographic strict order on strings (Python 2 `a < b` on `str`). */
  predicate Less(a: string, b: string)
    decreases |a|
  {
    if a == [] then b != []
    else if b == [] then false
    else if a[0] != b[0] then a[0] < b[0]
    else Less(a[1..], b[1..])
  }

  lemma {:induction false} LessIrreflexive(a: string)
    ensures !Less(a, a)
    decreases |a|
  {
    if a != [] {
      LessIrreflexive(a[1..]);
    }
  }

  lemma {:induction false} LessAsymmetric(a: string, b: string)
    ensures !(Less(a, b) && Less(b, a))
    decreases |a|
  {
    if a != [] && b != [] && a[0] == b[0] {
      LessAsymmetric(a[1..], b[1..]);
    }
  }

  lemma {:induction false} LessTransitive(a: string, b: string, c: string)
    requires Less(a, b) && Less(b, c)
    ensures Less(a, c)
    decreases |a|
  {
    if a != [] && a[0] == b[0] && b[0] == c[0] {
      LessTransitive(a[1..], b[1..], c[1..]);
    }
  }

  lemma {:induction false} LessTotal(a: string, b: string)
    ensures a == b || Less(a, b) || Less(b, a)
    decreases |a|
  {
    if a != [] && b != [] && a[0] == b[0] {
      LessTotal(a[1..], b[1..]);
      if a[1..] == b[1..] {
        assert a == [a[0]] + a[1..] && b == [b[0]] + b[1..];
      }
    }
  }

  /** Non-decreasing order, as `list.sort()` leaves a list. */
  predicate Sorted(l: seq<string>)
  {
    forall i, j :: 0 <= i < j < |l| ==> !Less(l[j], l[i])
  }

  /** Strictly increasing order: sorted and free of duplicates. */
  predicate StrictlySorted(l: seq<string>)
  {
    forall i, j :: 0 <= i < j < |l| ==> Less(l[i], l[j])
  }

  /** No element occurs twice. */
  predicate Distinct(l: seq<string>)
  {
    forall i, j :: 0 <= i < j < |l| ==> l[i] != l[j]
  }

  /** `set(l)`: the members of a list. */
  function Elements(l: seq<string>): set<string>
  {
    set x | x in l
  }

  /** Sorting keeps the members of a list. */
  lemma ElementsSort(l: seq<string>)
    ensures Elements(Sort(l)) == Elements(l)
  {
    forall x ensures x in Sort(l) <==> x in l {
      assert x in Sort(l) <==> x in multiset(Sort(l));
      assert x in l <==> x in multiset(l);
    }
  }

  /** `l` is the sorted list of exactly the members of `s`. */
  predicate IsListing(l: seq<string>, s: set<string>)
  {
    && StrictlySorted(l)
    && (forall x :: x in l ==> x in s)
    && (forall x :: x in s ==> x in l)
  }

  /** Inserts `x` into a sorted list after every element not above it. */
  function Insert(x: string, l: seq<string>): (r: seq<string>)
    requires Sorted(l)
    ensures Sorted(r)
    ensures multiset(r) == multiset(l) + multiset{x}
    ensures |r| == |l| + 1
  {
    if l == [] then [x]
    else if Less(l[0], x) || l[0] == x then
      var tail := Insert(x, l[1..]);
      SortedHeadBelow(l, x, tail);
      [l[0]] + tail
    else
      LessTotal(l[0], x);
      SortedConsBelow(x, l);
      [x] + l
  }

  /** Helper for Insert: the head of `l` stays below everything in the new tail. */
  lemma SortedHeadBelow(l: seq<string>, x: string, tail: seq<string>)
    requires l != [] && Sorted(l) && Sorted(tail)
    requires Less(l[0], x) || l[0] == x
    requires multiset(tail) == multiset(l[1..]) + multiset{x}
    ensures Sorted([l[0]] + tail)
    ensures multiset([l[0]] + tail) == multiset(l) + multiset{x}
  {
    assert l == [l[0]] + l[1..];
    var r := [l[0]] + tail;
    forall i, j | 0 <= i < j < |r| ensures !Less(r[j], r[i]) {
      if i == 0 {
        var y := r[j];
        assert y == tail[j - 1] && y in multiset(tail);
        if y == x {
          LessAsymmetric(l[0], x);
        } else {
          assert y in l[1..];
          var k :| 0 <= k < |l[1..]| && l[1..][k] == y;
          assert l[k + 1] == y;
          LessAsymmetric(l[0], y);
          LessIrreflexive(y);
        }
      }
    }
  }

  /** Helper for Insert: an element below the head of a sorted list may be consed on. */
  lemma SortedConsBelow(x: string, l: seq<string>)
    requires l != [] && Sorted(l) && Less(x, l[0])
    ensures Sorted([x] + l)
  {
    var r := [x] + l;
    forall i, j | 0 <= i < j < |r| ensures !Less(r[j], r[i]) {
      if i == 0 && j == 1 {
        LessAsymmetric(x, l[0]);
      } else if i == 0 {
        // l[0] <= r[j] and x < l[0], so r[j] cannot lie below x
        assert !Less(l[j - 1], l[0]);
        LessTotal(l[0], r[j]);
        LessAsymmetric(x, l[0]);
        if Less(l[0], r[j]) {
          LessTransitive(x, l[0], r[j]);
          LessAsymmetric(x, r[j]);
        }
      }
    }
  }

  /** `list.sort()` on a list of strings (insertion sort). */
  function Sort(l: seq<string>): (r: seq<string>)
    ensures Sorted(r)
    ensures multiset(r) == multiset(l)
    ensures |r| == |l|
  {
    if l == [] then []
    else
      assert l == [l[0]] + l[1..];
      Insert(l[0], Sort(l[1..]))
  }

  /** A sorted list whose elements are pairwise distinct is strictly sorted. */
  lemma SortedDistinctIsStrict(l: seq<string>)
    requires Sorted(l) && Distinct(l)
    ensures StrictlySorted(l)
  {
    forall i, j | 0 <= i < j < |l| ensures Less(l[i], l[j]) {
      LessTotal(l[i], l[j]);
    }
  }

  lemma StrictIsSortedDistinct(l: seq<string>)
    requires StrictlySorted(l)
    ensures Sorted(l) && Distinct(l)
  {
    forall i, j | 0 <= i < j < |l| ensures !Less(l[j], l[i]) && l[i] != l[j] {
      LessAsymmetric(l[i], l[j]);
      LessIrreflexive(l[i]);
    }
  }

  /** A list without duplicates holds each of its elements exactly once. */
  lemma {:induction false} DistinctCounts(l: seq<string>)
    requires Distinct(l)
    ensures forall x :: multiset(l)[x] == if x in l then 1 else 0
  {
    if l != [] {
      assert l == [l[0]] + l[1..];
      DistinctCounts(l[1..]);
      assert l[0] !in l[1..];
    }
  }

  /** Conversely, a list holding each element at most once is distinct. */
  lemma DistinctFromCounts(l: seq<string>)
    requires forall x :: multiset(l)[x] <= 1
    ensures Distinct(l)
  {
    forall i, j | 0 <= i < j < |l| ensures l[i] != l[j] {
      assert l == l[..j] + l[j..];
      assert l[i] in multiset(l[..j]) && l[j] in multiset(l[j..]);
      assert multiset(l)[l[j]] == multiset(l[..j])[l[j]] + multiset(l[j..])[l[j]];
    }
  }

  /**
   * Sorting a duplicate-free list of the members of `s` yields the
   * sorted listing of `s`: what `l = list(s); l.sort()` computes.
   */
  lemma SortOfDistinctIsListing(l: seq<string>, s: set<string>)
    requires Distinct(l) && forall x :: x in l <==> x in s
    ensures IsListing(Sort(l), s)
  {
    var r := Sort(l);
    DistinctCounts(l);
    assert forall x :: multiset(r)[x] <= 1;
    DistinctFromCounts(r);
    SortedDistinctIsStrict(r);
    forall x ensures x in r <==> x in s {
      assert x in r <==> x in multiset(r);
      assert x in l <==> x in multiset(l);
    }
  }

  /** The sorted listing of a set, which exists and is unique (ListingUnique). */
  ghost function Listing(s: set<string>): (r: seq<string>)
    ensures IsListing(r, s)
    decreases s
  {
    if s == {} then []
    else
      var x :| x in s;
      var rest := Listing(s - {x});
      StrictIsSortedDistinct(rest);
      ListingInsert(x, rest, s - {x});
      Insert(x, rest)
  }

  /** Inserting a new member into a listing lists the larger set. */
  lemma ListingInsert(x: string, l: seq<string>, s: set<string>)
    requires IsListing(l, s) && x !in s
    ensures Sorted(l) && IsListing(Insert(x, l), s + {x})
  {
    StrictIsSortedDistinct(l);
    var r := Insert(x, l);
    DistinctCounts(l);
    assert forall y :: multiset(r)[y] <= 1;
    DistinctFromCounts(r);
    SortedDistinctIsStrict(r);
    forall y ensures y in r <==> y in s + {x} {
      assert y in r <==> y in multiset(r);
      assert y in l <==> y in multiset(l);
    }
  }

  /** The head of a strictly sorted list lies below every other element. */
  lemma HeadIsLeast(l: seq<string>, x: string)
    requires StrictlySorted(l) && x in l && x != l[0]
    ensures Less(l[0], x)
  {
    var k :| 0 <= k < |l| && l[k] == x;
  }

  /** A listing is empty exactly when its set is. */
  lemma ListingEmptyIff(l: seq<string>, s: set<string>)
    requires IsListing(l, s)
    ensures l == [] <==> s == {}
  {
    if l != [] {
      assert l[0] in s;
    }
  }

  /**
   * A set has exactly one sorted listing, so the frozen tables are
   * determined by the underlying sets alone.
   */
  lemma {:induction false} ListingUnique(l1: seq<string>, l2: seq<string>, s: set<string>)
    requires IsListing(l1, s) && IsListing(l2, s)
    ensures l1 == l2
    decreases |l1|
  {
    if l1 != [] && l2 != [] {
      assert l1[0] in l2 && l2[0] in l1;
      if l1[0] != l2[0] {
        HeadIsLeast(l1, l2[0]);
        HeadIsLeast(l2, l1[0]);
        LessAsymmetric(l1[0], l2[0]);
      }
      StrictIsSortedDistinct(l1);
      StrictIsSortedDistinct(l2);
      var s' := s - {l1[0]};
      forall x ensures x in l1[1..] <==> x in s' {
        assert x in l1 <==> x == l1[0] || x in l1[1..];
      }
      forall x ensures x in l2[1..] <==> x in s' {
        assert x in l2 <==> x == l2[0] || x in l2[1..];
      }
      ListingUnique(l1[1..], l2[1..], s');
      assert l1 == [l1[0]] + l1[1..] && l2 == [l2[0]] + l2[1..];
    } else {
      ListingEmptyIff(l1, s);
      ListingEmptyIff(l2, s);
    }
  }

  /** Sorting a list that is already sorted leaves it unchanged. */
  lemma {:induction false} SortOfSorted(l: seq<string>)
    requires Sorted(l)
    ensures Sort(l) == l
  {
    SortedPermutationUnique(Sort(l), l);
  }

  /** Two sorted lists with the same elements (with multiplicity) are equal. */
  lemma {:induction false} SortedPermutationUnique(a: seq<string>, b: seq<string>)
    requires Sorted(a) && Sorted(b) && multiset(a) == multiset(b)
    ensures a == b
    decreases |a|
  {
    if a != [] {
      assert |b| == |a| by { assert |multiset(a)| == |multiset(b)|; }
      SortedHeadsEqual(a, b);
      assert a == [a[0]] + a[1..] && b == [b[0]] + b[1..];
      assert multiset(a[1..]) == multiset(b[1..]) by {
        assert multiset(a) == multiset{a[0]} + multiset(a[1..]);
        assert multiset(b) == multiset{b[0]} + multiset(b[1..]);
        assert multiset(a[1..]) == multiset(a) - multiset{a[0]};
      }
      SortedPermutationUnique(a[1..], b[1..]);
    } else {
      assert |multiset(b)| == 0;
    }
  }

  /** Two non-empty sorted lists with the same elements start alike. */
  lemma SortedHeadsEqual(a: seq<string>, b: seq<string>)
    requires a != [] && b != [] && Sorted(a) && Sorted(b) && multiset(a) == multiset(b)
    ensures a[0] == b[0]
  {
    assert a[0] in multiset(b) && b[0] in multiset(a);
    var i :| 0 <= i < |b| && b[i] == a[0];
    var j :| 0 <= j < |a| && a[j] == b[0];
    LessTotal(a[0], b[0]);
    LessIrreflexive(a[0]);
    LessIrreflexive(b[0]);
    assert !Less(a[j], a[0]) && !Less(b[i], b[0]);
  }
}
