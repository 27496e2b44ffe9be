/** shuffleArray: the in-place Fisher-Yates (Knuth) shuffle. The random index drawn at step i,
    floor(Math.random() * (i + 1)), becomes the caller's choice js[i], any value in [0, i]. */
module Shuffle {

  /** js supplies one admissible random choice for every step i = n - 1 down to 1 (js[0] is unused). */
  predicate Admissible(js: seq<int>, n: nat) {
    |js| == n && forall i :: 0 < i < n ==> 0 <= js[i] <= i
  }

  predicate Distinct<T(==)>(s: seq<T>) {
    forall i, j :: 0 <= i < j < |s| ==> s[i] != s[j]
  }

  /** [a[i], a[j]] = [a[j], a[i]] */
  function Swap<T>(s: seq<T>, i: nat, j: nat): seq<T>
    requires i < |s| && j < |s|
  {
    s[i := s[j]][j := s[i]]
  }

  /** The remaining steps i, i - 1, ..., 1 of the shuffle applied to s. */
  function ShuffleDown<T>(s: seq<T>, js: seq<int>, i: int): (r: seq<T>)
    requires Admissible(js, |s|) && i < |s|
    ensures |r| == |s|
    decreases i
  {
    if i <= 0 then s else ShuffleDown(Swap(s, i, js[i]), js, i - 1)
  }

  /** The whole shuffle: steps |s| - 1 down to 1. */
  function Shuffled<T>(s: seq<T>, js: seq<int>): seq<T>
    requires Admissible(js, |s|)
  {
    ShuffleDown(s, js, |s| - 1)
  }

  /** shuffleArray(a) with the random choices js: a is rearranged in place, step by step. */
  method ShuffleArray<T>(a: array<T>, js: seq<int>)
    requires Admissible(js, a.Length)
    modifies a
    ensures a[..] == Shuffled(old(a[..]), js)
  {
    var i := a.Length - 1;
    while i > 0
      invariant -1 <= i < a.Length
      invariant a.Length == 0 ==> i == -1
      invariant ShuffleDown(a[..], js, i) == Shuffled(old(a[..]), js)
    {
      var j := js[i];
      ghost var before := a[..];
      a[i], a[j] := a[j], a[i];
      assert a[..] == Swap(before, i, j);
      i := i - 1;
    }
  }

  lemma SwapPermutes<T>(s: seq<T>, i: nat, j: nat)
    requires i < |s| && j < |s|
    ensures multiset(Swap(s, i, j)) == multiset(s)
  {
  }

  lemma SwapKeepsDistinct<T>(s: seq<T>, i: nat, j: nat)
    requires i < |s| && j < |s| && Distinct(s)
    ensures Distinct(Swap(s, i, j))
  {
    var t := Swap(s, i, j);
    forall a, b | 0 <= a < b < |t|
      ensures t[a] != t[b]
    {
      var sa := if a == i then j else if a == j then i else a;
      var sb := if b == i then j else if b == j then i else b;
      assert t[a] == s[sa] && t[b] == s[sb];
      assert sa != sb;
    }
  }

  /** Whatever choices are made, the shuffle only rearranges: the result is a permutation. */
  lemma {:induction false} ShuffleDownPermutes<T>(s: seq<T>, js: seq<int>, i: int)
    requires Admissible(js, |s|) && i < |s|
    ensures multiset(ShuffleDown(s, js, i)) == multiset(s)
    decreases i
  {
    if i > 0 {
      SwapPermutes(s, i, js[i]);
      ShuffleDownPermutes(Swap(s, i, js[i]), js, i - 1);
    }
  }

  /** shuffleArray returns a permutation of its input, of the same length. */
  lemma ShufflePermutes<T>(s: seq<T>, js: seq<int>)
    requires Admissible(js, |s|)
    ensures |Shuffled(s, js)| == |s|
    ensures multiset(Shuffled(s, js)) == multiset(s)
    ensures forall x :: x in Shuffled(s, js) <==> x in s
  {
    ShuffleDownPermutes(s, js, |s| - 1);
    var r := Shuffled(s, js);
    forall x
      ensures x in r <==> x in s
    {
      assert x in r <==> x in multiset(r);
      assert x in s <==> x in multiset(s);
    }
  }

  lemma {:induction false} ShuffleDownKeepsDistinct<T>(s: seq<T>, js: seq<int>, i: int)
    requires Admissible(js, |s|) && i < |s| && Distinct(s)
    ensures Distinct(ShuffleDown(s, js, i))
    decreases i
  {
    if i > 0 {
      SwapKeepsDistinct(s, i, js[i]);
      ShuffleDownKeepsDistinct(Swap(s, i, js[i]), js, i - 1);
    }
  }

  /** A shuffle of distinct elements holds distinct elements. */
  lemma ShuffleKeepsDistinct<T>(s: seq<T>, js: seq<int>)
    requires Admissible(js, |s|) && Distinct(s)
    ensures Distinct(Shuffled(s, js))
  {
    ShuffleDownKeepsDistinct(s, js, |s| - 1);
  }
}
