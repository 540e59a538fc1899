/**
 * The parts of Go's `sort` package that the scan relies on, over Go's
 * ordering of strings.
 *
 * Go compares strings byte by byte (UTF-8). UTF-8 preserves the order of
 * code points, so comparing the characters of a Dafny string (Unicode
 * scalar values) gives the same order.
 */
module Sorting {

  /** `a < b` on Go strings: lexicographic, a proper prefix sorts first. */
  predicate Less(a: string, b: string)
    decreases |a|
  {
    |b| > 0 && (|a| == 0 || a[0] < b[0] || (a[0] == b[0] && Less(a[1..], b[1..])))
  }

  predicate LessEq(a: string, b: string) {
    a == b || Less(a, b)
  }

  /** Non-decreasing, the order `sort.Strings` leaves a slice in. */
  predicate Sorted(s: seq<string>) {
    forall i, j :: 0 <= i < j < |s| ==> LessEq(s[i], s[j])
  }

  /** Strictly increasing: sorted and free of duplicates. */
  predicate StrictlySorted(s: seq<string>) {
    forall i, j :: 0 <= i < j < |s| ==> Less(s[i], s[j])
  }

  predicate Distinct(s: seq<string>) {
    forall i, j :: 0 <= i < j < |s| ==> s[i] != s[j]
  }

  /**
   * The two strings agree on their first `k` characters, and `k` is where
   * `a` comes first: `a` ends there while `b` goes on, or `a`'s character
   * there is the smaller one.
   */
  predicate FirstDifferenceAt(a: string, b: string, k: int) {
    0 <= k <= |a| && k <= |b| && a[..k] == b[..k]
    && ((k == |a| && k < |b|) || (k < |a| && k < |b| && a[k] < b[k]))
  }

  /** Less is the lexicographic order Go uses for `<` on strings. */
  lemma {:induction false} LessIsLexicographic(a: string, b: string)
    ensures Less(a, b) <==> exists k :: FirstDifferenceAt(a, b, k)
    decreases |a|
  {
    if Less(a, b) {
      if |a| == 0 || a[0] < b[0] {
        assert FirstDifferenceAt(a, b, 0);
      } else {
        LessIsLexicographic(a[1..], b[1..]);
        var k :| FirstDifferenceAt(a[1..], b[1..], k);
        assert a[..k + 1] == [a[0]] + a[1..][..k];
        assert b[..k + 1] == [b[0]] + b[1..][..k];
        assert FirstDifferenceAt(a, b, k + 1);
      }
    }
    if exists k :: FirstDifferenceAt(a, b, k) {
      var k :| FirstDifferenceAt(a, b, k);
      if k > 0 {
        assert a[0] == a[..k][0] == b[..k][0] == b[0];
        assert a[1..][..k - 1] == a[..k][1..];
        assert b[1..][..k - 1] == b[..k][1..];
        assert FirstDifferenceAt(a[1..], b[1..], k - 1);
        LessIsLexicographic(a[1..], b[1..]);
      }
    }
  }

  // ---------------------------------------------------------------------
  // Less is a strict total order.

  lemma {:induction false} LessIrreflexive(a: string)
    ensures !Less(a, a)
    decreases |a|
  {
    if |a| > 0 {
      LessIrreflexive(a[1..]);
    }
  }

  lemma {:induction false} LessTransitive(a: string, b: string, c: string)
    requires Less(a, b) && Less(b, c)
    ensures Less(a, c)
    decreases |a|
  {
    if |a| > 0 && a[0] == b[0] && b[0] == c[0] {
      LessTransitive(a[1..], b[1..], c[1..]);
    }
  }

  lemma {:induction false} LessTotal(a: string, b: string)
    ensures a == b || Less(a, b) || Less(b, a)
    decreases |a|
  {
    if |a| > 0 && |b| > 0 && a[0] == b[0] {
      LessTotal(a[1..], b[1..]);
      if a[1..] == b[1..] {
        assert a == [a[0]] + a[1..] && b == [b[0]] + b[1..];
      }
    }
  }

  lemma LessAsymmetric(a: string, b: string)
    requires Less(a, b)
    ensures !Less(b, a)
  {
    if Less(b, a) {
      LessTransitive(a, b, a);
      LessIrreflexive(a);
    }
  }

  /** `!(a < b)` is `b <= a`: the negation Go's `sort.Search` predicate uses. */
  lemma NotLess(a: string, b: string)
    ensures !Less(a, b) <==> LessEq(b, a)
  {
    LessTotal(a, b);
    if Less(b, a) {
      LessAsymmetric(b, a);
    }
    if a == b {
      LessIrreflexive(a);
    }
  }

  lemma LessEqTransitive(a: string, b: string, c: string)
    requires LessEq(a, b) && LessEq(b, c)
    ensures LessEq(a, c)
  {
    if a != b && b != c {
      LessTransitive(a, b, c);
    }
  }

  lemma LessEqLess(a: string, b: string, c: string)
    requires LessEq(a, b) && Less(b, c)
    ensures Less(a, c)
  {
    if a != b {
      LessTransitive(a, b, c);
    }
  }

  // ---------------------------------------------------------------------
  // sort.SearchStrings and the membership test built on it.

  /**
   * `sort.SearchStrings(a, x)`: Go's `sort.Search(len(a), func(i) { a[i] >= x })`,
   * the same bisection loop. On a sorted slice the result is the lower bound
   * of `x`: everything before it is smaller, everything from it on is not.
   */
  method SearchStrings(a: seq<string>, x: string) returns (i: nat)
    requires Sorted(a)
    ensures i <= |a|
    ensures forall k :: 0 <= k < i ==> Less(a[k], x)
    ensures forall k :: i <= k < |a| ==> LessEq(x, a[k])
  {
    var lo, hi := 0, |a|;
    while lo < hi
      invariant 0 <= lo <= hi <= |a|
      invariant forall k :: 0 <= k < lo ==> Less(a[k], x)
      invariant forall k :: hi <= k < |a| ==> LessEq(x, a[k])
      decreases hi - lo
    {
      var h := (lo + hi) / 2;
      if Less(a[h], x) {
        forall k | 0 <= k <= h
          ensures Less(a[k], x)
        {
          LessEqLess(a[k], a[h], x);
        }
        lo := h + 1;
      } else {
        NotLess(a[h], x);
        forall k | h <= k < |a|
          ensures LessEq(x, a[k])
        {
          LessEqTransitive(x, a[h], a[k]);
        }
        hi := h;
      }
    }
    i := lo;
  }

  /**
   * The ignore test of the scan: search, then compare the element found.
   * On a sorted list it answers plain membership.
   */
  method Contains(a: seq<string>, x: string) returns (found: bool)
    requires Sorted(a)
    ensures found <==> x in a
  {
    var i := SearchStrings(a, x);
    found := i < |a| && a[i] == x;
    if !found && x in a {
      var k :| 0 <= k < |a| && a[k] == x;
      if k < i {
        LessIrreflexive(x);
      } else {
        assert LessEq(x, a[i]) && LessEq(a[i], a[k]);
        NotLess(a[i], x);
        assert false;
      }
    }
  }

  // ---------------------------------------------------------------------
  // sort.Strings, modelled on values.

  /** Insert `x` into a sorted sequence, keeping it sorted. */
  function Insert(s: seq<string>, x: string): (r: seq<string>)
    requires Sorted(s)
    ensures Sorted(r)
    ensures multiset(r) == multiset(s) + multiset{x}
    ensures |r| == |s| + 1
  {
    if s == [] then [x]
    else if LessEq(x, s[0]) then
      InsertFront(s, x)
    else
      var rest := Insert(s[1..], x);
      NotLess(x, s[0]);
      InsertBehind(s, x, rest)
  }

  function InsertFront(s: seq<string>, x: string): (r: seq<string>)
    requires Sorted(s) && s != [] && LessEq(x, s[0])
    ensures r == [x] + s && Sorted(r)
  {
    assert forall j :: 0 < j < |s| ==> LessEq(s[0], s[j]);
    forall j | 0 <= j < |s| ensures LessEq(x, s[j]) {
      LessEqTransitive(x, s[0], s[j]);
    }
    [x] + s
  }

  function InsertBehind(s: seq<string>, x: string, rest: seq<string>): (r: seq<string>)
    requires Sorted(s) && s != [] && LessEq(s[0], x)
    requires Sorted(rest) && multiset(rest) == multiset(s[1..]) + multiset{x}
    ensures r == [s[0]] + rest && Sorted(r)
    ensures multiset(r) == multiset(s) + multiset{x}
  {
    forall j | 0 <= j < |rest| ensures LessEq(s[0], rest[j]) {
      assert rest[j] in multiset(rest);
      if rest[j] != x {
        assert rest[j] in multiset(s[1..]);
        var m :| 0 <= m < |s[1..]| && s[1..][m] == rest[j];
        assert s[m + 1] == rest[j];
      }
    }
    assert s == [s[0]] + s[1..];
    [s[0]] + rest
  }

  /** `sort.Strings`: an ascending permutation of its input. */
  method SortStrings(s: seq<string>) returns (r: seq<string>)
    ensures Sorted(r)
    ensures multiset(r) == multiset(s)
  {
    r := [];
    for i := 0 to |s|
      invariant Sorted(r)
      invariant multiset(r) == multiset(s[..i])
    {
      r := Insert(r, s[i]);
      assert s[..i + 1] == s[..i] + [s[i]];
    }
    assert s[..|s|] == s;
  }

  // ---------------------------------------------------------------------
  // Sorted sequences of distinct strings.

  lemma {:induction false} DistinctCount(s: seq<string>, x: string)
    requires Distinct(s)
    ensures multiset(s)[x] <= 1
  {
    if s != [] {
      assert s == [s[0]] + s[1..];
      assert Distinct(s[1..]) by {
        forall i, j | 0 <= i < j < |s[1..]| ensures s[1..][i] != s[1..][j] {
          assert s[1..][i] == s[i + 1] && s[1..][j] == s[j + 1];
        }
      }
      DistinctCount(s[1..], x);
    }
  }

  lemma RepeatCount(s: seq<string>, i: nat, j: nat)
    requires i < j < |s| && s[i] == s[j]
    ensures multiset(s)[s[i]] >= 2
  {
    assert s == s[..j] + [s[j]] + s[j + 1..];
    assert s[..j][i] == s[i];
    assert s[i] in multiset(s[..j]);
  }

  /** A sorted permutation of a duplicate-free sequence is strictly sorted. */
  lemma SortedDistinctStrict(r: seq<string>, s: seq<string>)
    requires Sorted(r) && Distinct(s) && multiset(r) == multiset(s)
    ensures StrictlySorted(r)
  {
    forall i, j | 0 <= i < j < |r| ensures Less(r[i], r[j]) {
      if r[i] == r[j] {
        RepeatCount(r, i, j);
        DistinctCount(s, r[i]);
      }
    }
  }

  /**
   * A finite set of strings has exactly one strictly sorted listing, so
   * the scan's output does not depend on the order the cache is walked in.
   */
  lemma {:induction false} StrictlySortedUnique(a: seq<string>, b: seq<string>)
    requires StrictlySorted(a) && StrictlySorted(b)
    requires forall x :: x in a <==> x in b
    ensures a == b
    decreases |a|
  {
    assert a != [] ==> a[0] in b;
    assert b != [] ==> b[0] in a;
    if a != [] && b != [] {
      if a[0] != b[0] {
        assert b[0] in b && a[0] in a;
        var i :| 0 <= i < |a| && a[i] == b[0];
        var j :| 0 <= j < |b| && b[j] == a[0];
        assert i > 0 && j > 0;
        assert Less(a[0], b[0]) && Less(b[0], a[0]);
        LessAsymmetric(a[0], b[0]);
      }
      forall x ensures x in a[1..] <==> x in b[1..] {
        if x in a[1..] {
          var i :| 0 <= i < |a[1..]| && a[1..][i] == x;
          assert Less(a[0], a[i + 1]);
          LessIrreflexive(x);
          assert x in b && x != b[0];
          var j :| 0 <= j < |b| && b[j] == x;
          assert j > 0 && b[1..][j - 1] == x;
        }
        if x in b[1..] {
          var j :| 0 <= j < |b[1..]| && b[1..][j] == x;
          assert Less(b[0], b[j + 1]);
          LessIrreflexive(x);
          assert x in a && x != a[0];
          var i :| 0 <= i < |a| && a[i] == x;
          assert i > 0 && a[1..][i - 1] == x;
        }
      }
      StrictlySortedUnique(a[1..], b[1..]);
      assert a == [a[0]] + a[1..] && b == [b[0]] + b[1..];
    }
  }

  // ---------------------------------------------------------------------
  // Deciding the order of concrete strings.

  /** Strings that agree before position `k` and differ upward at `k` are in order. */
  lemma {:induction false} LessAt(a: string, b: string, k: nat)
    requires k < |a| && k < |b| && a[k] < b[k]
    requires forall j :: 0 <= j < k ==> a[j] == b[j]
    ensures Less(a, b)
    decreases k
  {
    if k > 0 {
      LessAt(a[1..], b[1..], k - 1);
    }
  }

  /** Each string smaller than the next makes the whole sequence strictly sorted. */
  lemma {:induction false} ChainStrictlySorted(s: seq<string>)
    requires forall i :: 0 <= i < |s| - 1 ==> Less(s[i], s[i + 1])
    ensures StrictlySorted(s)
  {
    if |s| > 1 {
      ChainStrictlySorted(s[1..]);
      forall j | 1 < j < |s| ensures Less(s[0], s[j]) {
        assert s[1..][0] == s[1] && s[1..][j - 1] == s[j];
        LessTransitive(s[0], s[1], s[j]);
      }
      forall i, j | 0 <= i < j < |s| ensures Less(s[i], s[j]) {
        if i > 0 {
          assert s[1..][i - 1] == s[i] && s[1..][j - 1] == s[j];
        }
      }
    }
  }

  /**
   * The list of dead links the repository's test expects from its fixture
   * is in the order sort.Strings produces, with no repeats.
   */
  lemma FixtureListSorted()
    ensures StrictlySorted(["../dead.html", "/dead.css", "/dead.html", "/dead.js", "/dead.php",
                            "/dead/", "dead/", "https://rcrowley.org/dead.html"])
  {
    var s := ["../dead.html", "/dead.css", "/dead.html", "/dead.js", "/dead.php",
              "/dead/", "dead/", "https://rcrowley.org/dead.html"];
    LessAt(s[0], s[1], 0);
    LessAt(s[1], s[2], 6);
    LessAt(s[2], s[3], 6);
    LessAt(s[3], s[4], 6);
    LessAt(s[4], s[5], 5);
    LessAt(s[5], s[6], 0);
    LessAt(s[6], s[7], 0);
    ChainStrictlySorted(s);
  }
}
