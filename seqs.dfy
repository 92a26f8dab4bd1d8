/**
 * Sequence operations the JavaScript code reaches for through `Array.prototype.filter`
 * and `[...new Set(xs)]`, with the facts about them that the rest of the model uses.
 */
module Seqs {

  /** `s.filter(p)`: the elements of `s` that satisfy `p`, in their original order. */
  function Filter<T(!new)>(s: seq<T>, p: T -> bool): (r: seq<T>)
    ensures |r| <= |s|
    ensures forall i :: 0 <= i < |r| ==> p(r[i])
    ensures forall x :: x in r <==> x in s && p(x)
    decreases |s|
  {
    if s == [] then []
    else Filter(s[..|s| - 1], p) + (if p(s[|s| - 1]) then [s[|s| - 1]] else [])
  }

  lemma {:induction false} FilterConcat<T(!new)>(a: seq<T>, b: seq<T>, p: T -> bool)
    ensures Filter(a + b, p) == Filter(a, p) + Filter(b, p)
    decreases |b|
  {
    if b == [] {
      assert a + b == a;
    } else {
      var b' := b[..|b| - 1];
      assert (a + b)[..|a + b| - 1] == a + b';
      FilterConcat(a, b', p);
    }
  }

  /** Filtering keeps everything when every element passes. */
  lemma {:induction false} FilterAll<T(!new)>(s: seq<T>, p: T -> bool)
    requires forall i :: 0 <= i < |s| ==> p(s[i])
    ensures Filter(s, p) == s
    decreases |s|
  {
    if s != [] {
      FilterAll(s[..|s| - 1], p);
    }
  }

  /** Filtering drops everything when no element passes. */
  lemma {:induction false} FilterNone<T(!new)>(s: seq<T>, p: T -> bool)
    requires forall i :: 0 <= i < |s| ==> !p(s[i])
    ensures Filter(s, p) == []
    decreases |s|
  {
    if s != [] {
      FilterNone(s[..|s| - 1], p);
    }
  }

  /** A last element that passes is kept at the end. */
  lemma FilterSnocKeep<T(!new)>(s: seq<T>, x: T, p: T -> bool)
    requires p(x)
    ensures Filter(s + [x], p) == Filter(s, p) + [x]
  {
    assert (s + [x])[..|s|] == s;
  }

  /** A last element that fails is dropped. */
  lemma FilterSnocSkip<T(!new)>(s: seq<T>, x: T, p: T -> bool)
    requires !p(x)
    ensures Filter(s + [x], p) == Filter(s, p)
  {
    assert (s + [x])[..|s|] == s;
  }

  /** The elements of `s`, each kept at its first occurrence: `[...new Set(s)]`. */
  function Dedup<T(==,!new)>(s: seq<T>): (r: seq<T>)
    ensures forall x :: x in r <==> x in s
    ensures forall i, j :: 0 <= i < j < |r| ==> r[i] != r[j]
    decreases |s|
  {
    if s == [] then []
    else
      var d := Dedup(s[..|s| - 1]);
      if s[|s| - 1] in d then d else d + [s[|s| - 1]]
  }

  /** Adding one element to the end adds it to the distinct elements when it is new. */
  lemma DedupSnoc<T(!new)>(s: seq<T>, x: T)
    ensures Dedup(s + [x]) == if x in Dedup(s) then Dedup(s) else Dedup(s) + [x]
  {
    assert (s + [x])[..|s|] == s;
  }

  /** The first element kept is the first element that passes. */
  lemma {:induction false} FilterFirst<T(!new)>(s: seq<T>, p: T -> bool, k: nat)
    requires k < |s| && p(s[k])
    requires forall j :: 0 <= j < k ==> !p(s[j])
    ensures Filter(s, p) != [] && Filter(s, p)[0] == s[k]
    decreases |s|
  {
    var init := s[..|s| - 1];
    if k == |s| - 1 {
      FilterNone(init, p);
    } else {
      FilterFirst(init, p, k);
    }
  }

  /** `xs.map(f)`. */
  function Map<T, U>(f: T -> U, s: seq<T>): (r: seq<U>)
    ensures |r| == |s| && forall i :: 0 <= i < |s| ==> r[i] == f(s[i])
  {
    seq(|s|, i requires 0 <= i < |s| => f(s[i]))
  }

  /** A slice grows by one element at its end. */
  lemma SliceSnoc<T>(s: seq<T>, i: nat, j: nat)
    requires i <= j < |s|
    ensures s[i..j + 1] == s[i..j] + [s[j]]
  {
  }

  /** An element of `s.map(f)` is the image of an element of `s`. */
  lemma MapMember<T, U>(f: T -> U, s: seq<T>, y: U)
    ensures y in Map(f, s) <==> exists x :: x in s && f(x) == y
  {
    if y in Map(f, s) {
      var i :| 0 <= i < |s| && Map(f, s)[i] == y;
      assert s[i] in s;
    }
    if exists x :: x in s && f(x) == y {
      var x :| x in s && f(x) == y;
      var i :| 0 <= i < |s| && s[i] == x;
      assert Map(f, s)[i] == y;
    }
  }

  lemma Assoc<T>(a: seq<T>, b: seq<T>, c: seq<T>)
    ensures (a + b) + c == a + (b + c)
  {
  }

  lemma MapSnoc<T, U>(f: T -> U, s: seq<T>, x: T)
    ensures Map(f, s + [x]) == Map(f, s) + [f(x)]
  {
  }

  lemma MapConcat<T, U>(f: T -> U, a: seq<T>, b: seq<T>)
    ensures Map(f, a + b) == Map(f, a) + Map(f, b)
  {
  }
}
