/**
 * The order `Array.prototype.sort()` uses on strings when no comparator is given:
 * lexicographic on character codes, a proper prefix first. The sort itself is an
 * insertion sort, which gives the same result as any correct sort.
 */
module Order {

  /** `a < b` on strings. */
  predicate Less(a: string, b: string)
    decreases |a|
  {
    if a == [] then b != []
    else b != [] && (a[0] < b[0] || (a[0] == b[0] && Less(a[1..], b[1..])))
  }

  lemma {:induction false} LessIrreflexive(a: string)
    ensures !Less(a, a)
    decreases |a|
  {
    if a != [] {
      LessIrreflexive(a[1..]);
    }
  }

  lemma {:induction false} LessTransitive(a: string, b: string, c: string)
    requires Less(a, b) && Less(b, c)
    ensures Less(a, c)
    decreases |a|
  {
    if a != [] && a[0] == b[0] && b[0] == c[0] {
      LessTransitive(a[1..], b[1..], c[1..]);
    }
  }

  /** Any two different strings are ordered one way or the other. */
  lemma {:induction false} LessTotal(a: string, b: string)
    requires a != b
    ensures Less(a, b) || Less(b, a)
    decreases |a|
  {
    if a != [] && b != [] && a[0] == b[0] {
      assert a == [a[0]] + a[1..] && b == [b[0]] + b[1..];
      LessTotal(a[1..], b[1..]);
    }
  }

  /** Every earlier element is less than every later one (so there are no duplicates). */
  predicate StrictlySorted(s: seq<string>) {
    forall i, j :: 0 <= i < j < |s| ==> Less(s[i], s[j])
  }

  /** `x` placed before the first element it is less than. */
  function Insert(x: string, s: seq<string>): (r: seq<string>)
    ensures |r| == |s| + 1
    ensures forall y :: y in r <==> y == x || y in s
    ensures multiset(r) == multiset(s) + multiset{x}
    decreases |s|
  {
    if s == [] then [x]
    else if Less(x, s[0]) then [x] + s
    else
      assert s == [s[0]] + s[1..];
      [s[0]] + Insert(x, s[1..])
  }

  lemma SortedTail(h: string, t: seq<string>)
    ensures StrictlySorted([h] + t) <==> StrictlySorted(t) && forall y :: y in t ==> Less(h, y)
  {
    var s := [h] + t;
    assert s[0] == h;
    assert forall k :: 0 <= k < |t| ==> s[k + 1] == t[k];
    if StrictlySorted(s) {
      forall i, j | 0 <= i < j < |t| ensures Less(t[i], t[j]) {
        assert t[i] == s[i + 1] && t[j] == s[j + 1];
      }
      forall y | y in t ensures Less(h, y) {
        var k :| 0 <= k < |t| && t[k] == y;
        assert Less(s[0], s[k + 1]);
      }
    }
    if StrictlySorted(t) && forall y :: y in t ==> Less(h, y) {
      forall i, j | 0 <= i < j < |s| ensures Less(s[i], s[j]) {
        assert s[j] == t[j - 1];
        if i > 0 {
          assert s[i] == t[i - 1];
        } else {
          assert t[j - 1] in t;
        }
      }
    }
  }

  /** Inserting a new element into a strictly sorted sequence keeps it strictly sorted. */
  lemma {:induction false} InsertSorted(x: string, s: seq<string>)
    requires StrictlySorted(s) && x !in s
    ensures StrictlySorted(Insert(x, s))
    decreases |s|
  {
    if s == [] {
    } else if Less(x, s[0]) {
      forall y | y in s ensures Less(x, y) {
        if y != s[0] {
          var k :| 0 < k < |s| && s[k] == y;
          LessTransitive(x, s[0], y);
        }
      }
      SortedTail(x, s);
    } else {
      assert s == [s[0]] + s[1..];
      SortedTail(s[0], s[1..]);
      LessTotal(x, s[0]);
      InsertSorted(x, s[1..]);
      SortedTail(s[0], Insert(x, s[1..]));
    }
  }

  /** `s.sort()` */
  function Sort(s: seq<string>): (r: seq<string>)
    ensures |r| == |s|
    ensures forall y :: y in r <==> y in s
    ensures multiset(r) == multiset(s)
    decreases |s|
  {
    if s == [] then []
    else
      assert s == s[..|s| - 1] + [s[|s| - 1]];
      Insert(s[|s| - 1], Sort(s[..|s| - 1]))
  }

  /** No element occurs twice. */
  predicate Distinct(s: seq<string>) {
    forall i, j :: 0 <= i < j < |s| ==> s[i] != s[j]
  }

  /** Sorting distinct strings gives a strictly sorted sequence of the same strings. */
  lemma {:induction false} SortDistinct(s: seq<string>)
    requires Distinct(s)
    ensures StrictlySorted(Sort(s))
    decreases |s|
  {
    if s != [] {
      var init, x := s[..|s| - 1], s[|s| - 1];
      assert Distinct(init) by {
        forall i, j | 0 <= i < j < |init| ensures init[i] != init[j] {
          assert init[i] == s[i] && init[j] == s[j];
        }
      }
      SortDistinct(init);
      assert x !in init by {
        forall k | 0 <= k < |init| ensures init[k] != x {
          assert init[k] == s[k];
        }
      }
      InsertSorted(x, Sort(init));
    }
  }

  /** The head of a strictly sorted sequence is below every other element. */
  lemma HeadLeast(s: seq<string>, y: string)
    requires StrictlySorted(s) && y in s && y != s[0]
    ensures Less(s[0], y)
  {
    var k :| 0 <= k < |s| && s[k] == y;
  }

  /** Two sequences with the same elements are both empty or both not. */
  lemma SameEmpty(a: seq<string>, b: seq<string>)
    requires forall y :: y in a <==> y in b
    ensures a == [] <==> b == []
  {
    if a != [] {
      assert a[0] in a;
    }
    if b != [] {
      assert b[0] in b;
    }
  }

  lemma HeadsEqual(a: seq<string>, b: seq<string>)
    requires StrictlySorted(a) && StrictlySorted(b) && a != [] && b != []
    requires forall y :: y in a <==> y in b
    ensures a[0] == b[0]
  {
    assert a[0] in a && b[0] in b;
    if a[0] != b[0] {
      HeadLeast(b, a[0]);
      HeadLeast(a, b[0]);
      LessIrreflexive(a[0]);
      LessTransitive(a[0], b[0], a[0]);
    }
  }

  /** A strictly sorted sequence is determined by its elements: `sort` has one answer. */
  lemma {:induction false} SortedUnique(a: seq<string>, b: seq<string>)
    requires StrictlySorted(a) && StrictlySorted(b)
    requires forall y :: y in a <==> y in b
    ensures a == b
    decreases |a|
  {
    SameEmpty(a, b);
    if a != [] {
      HeadsEqual(a, b);
      assert a == [a[0]] + a[1..] && b == [b[0]] + b[1..];
      SortedTail(a[0], a[1..]);
      SortedTail(b[0], b[1..]);
      LessIrreflexive(a[0]);
      forall y ensures y in a[1..] <==> y in b[1..] {
        if y in a[1..] {
          assert Less(a[0], y) && y in b;
        }
        if y in b[1..] {
          assert Less(b[0], y) && y in a;
        }
      }
      SortedUnique(a[1..], b[1..]);
    }
  }
}
