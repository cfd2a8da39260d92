/** String helpers from Go's standard library that the merger and the walker rely on:
    prefix and suffix tests, the byte-wise order of `<` on strings with `sort.Strings`,
    and `path.Base` / `filepath.Base` (identical for '/'-separated paths). */
module Strings {

  predicate HasPrefix(s: string, p: string) {
    |p| <= |s| && s[..|p|] == p
  }

  predicate HasSuffix(s: string, p: string) {
    |p| <= |s| && s[|s| - |p|..] == p
  }

  // ---------------------------------------------------------------------------
  // Order and sorting
  // ---------------------------------------------------------------------------

  /** Go's `<` on strings: lexicographic, a proper prefix first. Characters compare by
      code point, which is the order of their UTF-8 encodings. */
  predicate Less(a: string, b: string)
    decreases |a|
  {
    if |b| == 0 then false
    else if |a| == 0 then true
    else if a[0] != b[0] then a[0] < b[0]
    else Less(a[1..], b[1..])
  }

  lemma {:induction false} LessIrreflexive(a: string)
    ensures !Less(a, a)
    decreases |a|
  {
    if |a| > 0 {
      LessIrreflexive(a[1..]);
    }
  }

  lemma {:induction false} LessTransitive(a: string, b: string, c: string)
    requires Less(a, b) && Less(b, c)
    ensures Less(a, c)
    decreases |a|
  {
    if |a| > 0 && a[0] == b[0] && b[0] == c[0] {
      LessTransitive(a[1..], b[1..], c[1..]);
    }
  }

  lemma {:induction false} LessTotal(a: string, b: string)
    ensures a == b || Less(a, b) || Less(b, a)
    ensures !(Less(a, b) && Less(b, a))
    decreases |a|
  {
    if |a| > 0 && |b| > 0 && a[0] == b[0] {
      LessTotal(a[1..], b[1..]);
      if a[1..] == b[1..] {
        assert a == [a[0]] + a[1..] && b == [b[0]] + b[1..];
      }
    }
  }

  /** Non-decreasing in Go's order. */
  predicate Sorted(s: seq<string>) {
    forall i, j :: 0 <= i < j < |s| ==> !Less(s[j], s[i])
  }

  /** Strictly increasing in Go's order: sorted with no duplicates. */
  predicate StrictlyAscending(s: seq<string>) {
    forall i, j :: 0 <= i < j < |s| ==> Less(s[i], s[j])
  }

  /** No element occurs twice. */
  ghost predicate Distinct(s: seq<string>) {
    forall x :: multiset(s)[x] <= 1
  }

  lemma TwoOccurrences<T>(s: seq<T>, i: nat, j: nat)
    requires i < j < |s| && s[i] == s[j]
    ensures multiset(s)[s[i]] >= 2
  {
    assert s == s[..j] + [s[j]] + s[j + 1..];
    assert s[..j][i] == s[i];
    assert s[i] in multiset(s[..j]);
  }

  lemma DistinctIndices(s: seq<string>)
    requires Distinct(s)
    ensures forall i, j :: 0 <= i < j < |s| ==> s[i] != s[j]
  {
    forall i, j | 0 <= i < j < |s|
      ensures s[i] != s[j]
    {
      if s[i] == s[j] {
        TwoOccurrences(s, i, j);
      }
    }
  }

  lemma SortedDistinctAscending(s: seq<string>)
    requires Sorted(s) && Distinct(s)
    ensures StrictlyAscending(s)
  {
    DistinctIndices(s);
    forall i, j | 0 <= i < j < |s|
      ensures Less(s[i], s[j])
    {
      LessTotal(s[i], s[j]);
    }
  }

  lemma AscendingDistinct(s: seq<string>)
    requires StrictlyAscending(s)
    ensures Sorted(s) && Distinct(s)
  {
    forall i, j | 0 <= i < j < |s|
      ensures !Less(s[j], s[i])
    {
      LessTotal(s[i], s[j]);
    }
    forall x
      ensures multiset(s)[x] <= 1
    {
      if x in s {
        var i :| 0 <= i < |s| && s[i] == x;
        LessIrreflexive(x);
        assert s == s[..i] + [x] + s[i + 1..];
        assert x !in s[..i];
        assert x !in s[i + 1..] by {
          forall k | i + 1 <= k < |s|
            ensures s[k] != x
          {
            assert Less(s[i], s[k]);
          }
        }
      }
    }
  }

  /** Inserts `x` into a sorted sequence before the first element not below it. */
  function Insert(s: seq<string>, x: string): (r: seq<string>)
    requires Sorted(s)
    ensures Sorted(r)
    ensures multiset(r) == multiset(s) + multiset{x}
  {
    if s == [] then [x]
    else if !Less(s[0], x) then
      InsertFront(s, x);
      [x] + s
    else
      var t := Insert(s[1..], x);
      assert s == [s[0]] + s[1..];
      InsertBehind(s, x, t);
      [s[0]] + t
  }

  /** "Not below" is transitive. */
  lemma NotLessTransitive(a: string, b: string, c: string)
    requires !Less(a, b) && !Less(b, c)
    ensures !Less(a, c)
  {
    LessTotal(a, b);
    LessTotal(b, c);
    LessTotal(a, c);
    if a != b && b != c {
      LessTransitive(c, b, a);
    }
  }

  /** Putting an element below none of a sorted sequence's in front keeps it sorted. */
  lemma SortedCons(a: string, t: seq<string>)
    requires Sorted(t) && forall j :: 0 <= j < |t| ==> !Less(t[j], a)
    ensures Sorted([a] + t)
  {
    var r := [a] + t;
    forall i, j | 0 <= i < j < |r|
      ensures !Less(r[j], r[i])
    {
      assert r[j] == t[j - 1];
      if i > 0 {
        assert r[i] == t[i - 1];
      }
    }
  }

  lemma InsertFront(s: seq<string>, x: string)
    requires Sorted(s) && s != [] && !Less(s[0], x)
    ensures Sorted([x] + s)
  {
    forall j | 0 <= j < |s|
      ensures !Less(s[j], x)
    {
      if j > 0 {
        NotLessTransitive(s[j], s[0], x);
      }
    }
    SortedCons(x, s);
  }

  lemma InsertBehind(s: seq<string>, x: string, t: seq<string>)
    requires Sorted(s) && s != [] && Less(s[0], x)
    requires Sorted(t) && multiset(t) == multiset(s[1..]) + multiset{x}
    ensures Sorted([s[0]] + t)
  {
    forall j | 0 <= j < |t|
      ensures !Less(t[j], s[0])
    {
      assert t[j] in multiset(t);
      if t[j] == x {
        LessTotal(s[0], x);
      } else {
        assert t[j] in multiset(s[1..]);
        var k :| 0 <= k < |s[1..]| && s[1..][k] == t[j];
        assert s[k + 1] == t[j];
      }
    }
    SortedCons(s[0], t);
  }

  /** The model of `sort.Strings`: an insertion sort. Any sorting algorithm gives the same
      result (SortedUnique), so the choice of algorithm does not matter. */
  function Sort(s: seq<string>): (r: seq<string>)
    ensures Sorted(r)
    ensures multiset(r) == multiset(s)
    ensures |r| == |s|
  {
    if s == [] then []
    else
      assert s == s[..|s| - 1] + [s[|s| - 1]];
      var r := Insert(Sort(s[..|s| - 1]), s[|s| - 1]);
      assert |r| == |multiset(r)|;
      r
  }

  /** The first element of a sorted sequence is below none of its elements. */
  lemma SortedHead(a: seq<string>, x: string)
    requires Sorted(a) && x in multiset(a)
    ensures !Less(x, a[0])
  {
    var i :| 0 <= i < |a| && a[i] == x;
    if i == 0 {
      LessIrreflexive(x);
    }
  }

  /** Two sorted sequences with the same elements start with the same element. */
  lemma SortedHeadsEqual(a: seq<string>, b: seq<string>)
    requires Sorted(a) && Sorted(b) && multiset(a) == multiset(b) && a != []
    ensures b != [] && a[0] == b[0]
  {
    assert a[0] in multiset(a);
    assert b != [];
    assert b[0] in multiset(b);
    SortedHead(b, a[0]);
    SortedHead(a, b[0]);
    LessTotal(a[0], b[0]);
  }

  lemma MultisetTail(a: seq<string>)
    requires a != []
    ensures multiset(a[1..]) == multiset(a) - multiset{a[0]}
  {
    assert a == [a[0]] + a[1..];
  }

  /** A sorted sequence is determined by its multiset of elements. */
  lemma {:induction false} SortedUnique(a: seq<string>, b: seq<string>)
    requires Sorted(a) && Sorted(b)
    requires multiset(a) == multiset(b)
    ensures a == b
    decreases |a|
  {
    if a != [] {
      SortedHeadsEqual(a, b);
      MultisetTail(a);
      MultisetTail(b);
      SortedUnique(a[1..], b[1..]);
      assert a == [a[0]] + a[1..] && b == [b[0]] + b[1..];
    }
  }

  /** The elements of a finite set in some order; the walker and the merger only ever
      sort this sequence, so which order is picked is never observable. */
  ghost function SetToSeq(s: set<string>): (r: seq<string>)
    ensures multiset(r) == multiset(s)
    decreases |s|
  {
    if s == {} then []
    else
      var x :| x in s;
      var r := [x] + SetToSeq(s - {x});
      assert multiset(s) == multiset{x} + multiset(s - {x}) by {
        assert s == {x} + (s - {x});
      }
      r
  }

  /** Sorting keeps exactly the members of the input. */
  lemma SortMembers(s: seq<string>, x: string)
    ensures x in Sort(s) <==> x in s
  {
    var r := Sort(s);
    assert x in r <==> x in multiset(r);
    assert x in s <==> x in multiset(s);
  }

  /** The members of a set of strings in ascending order. */
  ghost function SortedSet(s: set<string>): (r: seq<string>)
    ensures StrictlyAscending(r)
    ensures forall x :: x in r <==> x in s
    ensures |r| == |s|
  {
    var r := Sort(SetToSeq(s));
    assert forall x :: multiset(r)[x] <= 1 by {
      forall x ensures multiset(r)[x] <= 1 {
        assert multiset(r)[x] == multiset(s)[x];
      }
    }
    SortedDistinctAscending(r);
    assert forall x :: x in r <==> x in multiset(r);
    assert |r| == |multiset(r)| == |multiset(s)| == |s|;
    r
  }

  /** Sorting any listing of a set's members gives the set in ascending order. */
  lemma SortListing(keys: seq<string>, s: set<string>)
    requires multiset(keys) == multiset(s)
    ensures Sort(keys) == SortedSet(s)
  {
    var t := SortedSet(s);
    AscendingDistinct(t);
    assert multiset(t) == multiset(s) by {
      forall x ensures multiset(t)[x] == multiset(s)[x] {
        if x in s {
          assert x in multiset(t);
        } else {
          assert x !in multiset(t);
        }
      }
    }
    SortedUnique(Sort(keys), t);
  }

  // ---------------------------------------------------------------------------
  // path.Base
  // ---------------------------------------------------------------------------

  predicate AllSlashes(p: string) {
    forall i :: 0 <= i < |p| ==> p[i] == '/'
  }

  /** `p` with every trailing '/' removed. */
  function TrimTrailingSlashes(p: string): (r: string)
    ensures HasPrefix(p, r)
    ensures r == [] || r[|r| - 1] != '/'
    ensures AllSlashes(p[|r|..])
    ensures r == [] <==> AllSlashes(p)
  {
    if |p| > 0 && p[|p| - 1] == '/' then
      var r := TrimTrailingSlashes(p[..|p| - 1]);
      assert p[|r|..] == p[..|p| - 1][|r|..] + ['/'];
      assert AllSlashes(p) <==> AllSlashes(p[..|p| - 1]);
      r
    else p
  }

  /** The part of `p` after its last '/' (all of `p` when it has none). */
  function LastSegment(p: string): (r: string)
    ensures HasSuffix(p, r)
    ensures '/' !in r
    ensures |r| == |p| || p[|p| - |r| - 1] == '/'
  {
    if |p| == 0 then p
    else if p[|p| - 1] == '/' then ""
    else
      var r := LastSegment(p[..|p| - 1]) + [p[|p| - 1]];
      assert p == p[..|p| - 1] + [p[|p| - 1]];
      r
  }

  /** `path.Base`: the last element of `p` after trailing slashes are removed;
      "." for the empty path and "/" for a path of slashes only. */
  function Base(p: string): (r: string)
    ensures p == "" ==> r == "."
    ensures p != "" && AllSlashes(p) ==> r == "/"
    ensures !AllSlashes(p) ==>
              r != "" && '/' !in r && HasSuffix(TrimTrailingSlashes(p), r)
    ensures !AllSlashes(p) ==>
              var t := TrimTrailingSlashes(p);
              |r| == |t| || t[|t| - |r| - 1] == '/'
    ensures r != ""
  {
    if p == "" then "."
    else
      var t := TrimTrailingSlashes(p);
      if t == "" then "/"
      else
        assert !AllSlashes(t);
        LastSegment(t)
  }

  /** Away from the all-slash case, Base is the last segment of the trimmed path. */
  lemma BaseOfTrimmed(p: string)
    requires !AllSlashes(p)
    ensures Base(p) == LastSegment(TrimTrailingSlashes(p))
  {
  }

  /** LastSegment is the one slash-free suffix preceded by '/' or making up all of `t`. */
  lemma LastSegmentIsLast(t: string, x: string)
    requires '/' !in x && HasSuffix(t, x) && (|x| == |t| || t[|t| - |x| - 1] == '/')
    ensures x == LastSegment(t)
  {
    LastElementUnique(t, x, LastSegment(t));
  }

  /** At most one slash-free suffix of `t` is preceded in `t` by '/' or is all of `t`. */
  lemma LastElementUnique(t: string, x: string, y: string)
    requires '/' !in x && HasSuffix(t, x) && (|x| == |t| || t[|t| - |x| - 1] == '/')
    requires '/' !in y && HasSuffix(t, y) && (|y| == |t| || t[|t| - |y| - 1] == '/')
    ensures x == y
  {
  }
}
