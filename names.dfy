/**
  The order std::sort puts std::string values in (operator<: lexicographic by
  character code, a proper prefix before its extensions), a sort by that order,
  and the one strictly increasing sequence that lists a finite set of names.
 */
module Names {

  /** std::string operator<. */
  predicate Less(a: string, b: string)
    decreases |a|
  {
    if |a| == 0 then |b| > 0
    else if |b| == 0 then false
    else if a[0] != b[0] then a[0] < b[0]
    else Less(a[1..], b[1..])
  }

  lemma {:induction false} LessIrreflexive(a: string)
    ensures !Less(a, a)
    decreases |a|
  {
    if |a| > 0 {
      LessIrreflexive(a[1..]);
    }
  }

  lemma {:induction false} LessAsymmetric(a: string, b: string)
    requires Less(a, b)
    ensures !Less(b, a)
    decreases |a|
  {
    if |a| > 0 && |b| > 0 && a[0] == b[0] {
      LessAsymmetric(a[1..], b[1..]);
    }
  }

  lemma {:induction false} LessTransitive(a: string, b: string, c: string)
    requires Less(a, b) && Less(b, c)
    ensures Less(a, c)
    decreases |a|
  {
    if |a| > 0 && a[0] == b[0] && b[0] == c[0] {
      LessTransitive(a[1..], b[1..], c[1..]);
    }
  }

  /** Any two different names are ordered one way or the other. */
  lemma {:induction false} LessTotal(a: string, b: string)
    requires a != b
    ensures Less(a, b) || Less(b, a)
    decreases |a|
  {
    if |a| > 0 && |b| > 0 && a[0] == b[0] {
      assert a == [a[0]] + a[1..] && b == [b[0]] + b[1..];
      LessTotal(a[1..], b[1..]);
    }
  }

  /** "not greater": the order std::sort leaves its output in. */
  predicate NotAfter(a: string, b: string) { !Less(b, a) }

  lemma NotAfterTransitive(a: string, b: string, c: string)
    requires NotAfter(a, b) && NotAfter(b, c)
    ensures NotAfter(a, c)
  {
    if Less(c, a) {
      if a == b {
      } else {
        LessTotal(a, b);
        LessTransitive(c, a, b);
      }
    }
  }

  predicate Sorted(s: seq<string>)
  {
    forall i, j :: 0 <= i < j < |s| ==> NotAfter(s[i], s[j])
  }

  predicate StrictlySorted(s: seq<string>)
  {
    forall i, j :: 0 <= i < j < |s| ==> Less(s[i], s[j])
  }

  predicate NoDuplicates(s: seq<string>)
  {
    forall i, j :: 0 <= i < j < |s| ==> s[i] != s[j]
  }

  function Insert(x: string, s: seq<string>): (r: seq<string>)
    ensures multiset(r) == multiset(s) + multiset{x}
    decreases |s|
  {
    if |s| == 0 then [x]
    else if Less(s[0], x) then
      assert s == [s[0]] + s[1..];
      [s[0]] + Insert(x, s[1..])
    else [x] + s
  }

  lemma {:induction false} InsertSorted(x: string, s: seq<string>)
    requires Sorted(s)
    ensures Sorted(Insert(x, s))
    decreases |s|
  {
    if |s| > 0 {
      if Less(s[0], x) {
        InsertSorted(x, s[1..]);
        InsertAfterHead(x, s);
      } else {
        InsertBeforeHead(x, s);
      }
    }
  }

  /** `x` goes after the head: the head stays first, before everything inserted after it. */
  lemma InsertAfterHead(x: string, s: seq<string>)
    requires Sorted(s) && |s| > 0 && Less(s[0], x) && Sorted(Insert(x, s[1..]))
    ensures Sorted(Insert(x, s))
  {
    var r := Insert(x, s);
    var t := Insert(x, s[1..]);
    assert r == [s[0]] + t;
    forall j | 0 <= j < |t| ensures NotAfter(s[0], t[j]) {
      InsertedFrom(x, s[1..], j);
      if t[j] == x {
        LessAsymmetric(s[0], x);
      } else {
        var k :| 0 <= k < |s[1..]| && s[1..][k] == t[j];
        assert s[k + 1] == t[j];
      }
    }
    forall i, j | 0 <= i < j < |r| ensures NotAfter(r[i], r[j]) {
      if i > 0 {
        assert r[i] == t[i - 1] && r[j] == t[j - 1];
      } else {
        assert r[j] == t[j - 1];
      }
    }
  }

  /** Every element of `Insert(x, s)` is `x` or an element of `s`. */
  lemma InsertedFrom(x: string, s: seq<string>, j: nat)
    requires j < |Insert(x, s)|
    ensures Insert(x, s)[j] == x || Insert(x, s)[j] in s
  {
    var t := Insert(x, s);
    assert t[j] in multiset(t);
    if t[j] != x {
      assert t[j] in multiset(s);
    }
  }

  /** `x` goes first: it is not after the head, so not after anything. */
  lemma InsertBeforeHead(x: string, s: seq<string>)
    requires Sorted(s) && |s| > 0 && !Less(s[0], x)
    ensures Sorted(Insert(x, s))
  {
    var r := Insert(x, s);
    assert r == [x] + s;
    forall i, j | 0 <= i < j < |r| ensures NotAfter(r[i], r[j]) {
      if i == 0 {
        assert r[j] == s[j - 1];
        if j > 1 {
          assert NotAfter(s[0], s[j - 1]);
          NotAfterTransitive(x, s[0], s[j - 1]);
        }
      } else {
        assert r[i] == s[i - 1] && r[j] == s[j - 1];
      }
    }
  }

  /** std::sort on names (as an insertion sort; only its result matters here). */
  function Sort(s: seq<string>): (r: seq<string>)
    ensures Sorted(r)
    ensures multiset(r) == multiset(s)
    decreases |s|
  {
    if |s| == 0 then []
    else
      assert s == s[..|s| - 1] + [s[|s| - 1]];
      var t := Sort(s[..|s| - 1]);
      InsertSorted(s[|s| - 1], t);
      Insert(s[|s| - 1], t)
  }

  ghost predicate IsLeast(m: string, s: set<string>)
  {
    m in s && forall y :: y in s && y != m ==> Less(m, y)
  }

  /** A set of names has a least element. */
  lemma {:induction false} MinExists(s: set<string>)
    requires s != {}
    ensures exists m :: IsLeast(m, s)
    decreases |s|
  {
    var x :| x in s;
    var rest := s - {x};
    if rest == {} {
      assert s == {x};
      assert IsLeast(x, s);
    } else {
      MinExists(rest);
      var m :| IsLeast(m, rest);
      assert m != x;
      LessTotal(x, m);
      if Less(x, m) {
        forall y | y in s && y != x ensures Less(x, y) {
          assert y in rest;
          if y != m {
            LessTransitive(x, m, y);
          }
        }
        assert IsLeast(x, s);
      } else {
        forall y | y in s && y != m ensures Less(m, y) {
          if y != x {
            assert y in rest;
          }
        }
        assert IsLeast(m, s);
      }
    }
  }

  /** The names of a set in increasing order. */
  ghost function SortedKeys(s: set<string>): (r: seq<string>)
    ensures StrictlySorted(r)
    ensures forall x :: x in r <==> x in s
    decreases |s|
  {
    if s == {} then []
    else
      MinExists(s);
      var m :| IsLeast(m, s);
      var t := SortedKeys(s - {m});
      assert forall k :: 0 <= k < |t| ==> t[k] in s - {m};
      [m] + t
  }

  /** Two strictly increasing sequences with the same elements are equal. */
  lemma {:induction false} StrictlySortedUnique(a: seq<string>, b: seq<string>)
    requires StrictlySorted(a) && StrictlySorted(b)
    requires multiset(a) == multiset(b)
    ensures a == b
    decreases |a|
  {
    if |a| > 0 {
      SameLeast(a, b);
      TailMultiset(a);
      TailMultiset(b);
      StrictlySortedUnique(a[1..], b[1..]);
      assert a == [a[0]] + a[1..] && b == [b[0]] + b[1..];
    }
  }

  lemma SameLeast(a: seq<string>, b: seq<string>)
    requires StrictlySorted(a) && StrictlySorted(b)
    requires multiset(a) == multiset(b) && |a| > 0
    ensures |b| > 0 && a[0] == b[0]
  {
    assert a[0] in multiset(a) && b[0] in multiset(b);
    if a[0] != b[0] {
      assert a[0] in b && b[0] in a;
      var i :| 0 <= i < |b| && b[i] == a[0];
      var j :| 0 <= j < |a| && a[j] == b[0];
      assert i > 0 && j > 0;
      assert Less(b[0], b[i]) && Less(a[0], a[j]);
      LessAsymmetric(b[0], b[i]);
      assert false;
    }
  }

  lemma TailMultiset(a: seq<string>)
    requires |a| > 0
    ensures multiset(a[1..]) == multiset(a) - multiset{a[0]}
  {
    assert a == [a[0]] + a[1..];
    assert multiset(a) == multiset{a[0]} + multiset(a[1..]);
  }

  /** Sorting names without repetitions gives exactly the increasing listing of their set. */
  lemma SortIsSortedKeys(s: seq<string>)
    requires NoDuplicates(s)
    ensures Sort(s) == SortedKeys(set x | x in s)
  {
    var r := Sort(s);
    var k := SortedKeys(set x | x in s);
    SortWithoutDuplicatesIsStrict(s);
    StrictlySortedHasNoDuplicates(k);
    forall x ensures multiset(k)[x] == multiset(s)[x] {
      MultiplicityOneWithoutDuplicates(s, x);
      MultiplicityOneWithoutDuplicates(k, x);
      assert x in k <==> x in s;
    }
    assert multiset(k) == multiset(s);
    StrictlySortedUnique(r, k);
  }

  lemma SortWithoutDuplicatesIsStrict(s: seq<string>)
    requires NoDuplicates(s)
    ensures StrictlySorted(Sort(s))
  {
    var r := Sort(s);
    forall i, j | 0 <= i < j < |r| ensures Less(r[i], r[j]) {
      if r[i] == r[j] {
        TwoOccurrences(r, i, j);
        MultiplicityOneWithoutDuplicates(s, r[i]);
        assert false;
      }
      LessTotal(r[i], r[j]);
    }
  }

  lemma TwoOccurrences(r: seq<string>, i: nat, j: nat)
    requires i < j < |r| && r[i] == r[j]
    ensures multiset(r)[r[i]] >= 2
  {
    var x := r[i];
    assert r == r[..i] + [x] + r[i + 1..j] + [x] + r[j + 1..];
    calc {
      multiset(r)[x];
      (multiset(r[..i]) + multiset{x} + multiset(r[i + 1..j]) + multiset{x} + multiset(r[j + 1..]))[x];
      >= 2;
    }
  }

  lemma StrictlySortedHasNoDuplicates(k: seq<string>)
    requires StrictlySorted(k)
    ensures NoDuplicates(k)
  {
    forall i, j | 0 <= i < j < |k| ensures k[i] != k[j] {
      LessIrreflexive(k[i]);
    }
  }

  lemma {:induction false} MultiplicityOneWithoutDuplicates(s: seq<string>, x: string)
    requires NoDuplicates(s)
    ensures multiset(s)[x] <= 1
    decreases |s|
  {
    if |s| > 0 {
      var t := s[..|s| - 1];
      assert s == t + [s[|s| - 1]];
      MultiplicityOneWithoutDuplicates(t, x);
      if x == s[|s| - 1] {
        assert x !in t;
      }
    }
  }
}
