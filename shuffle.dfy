/**
  Durstenfeld's late-to-early in-place shuffle. The random index drawn at each
  step is an input: `draws[k]` is the index drawn on the k-th pass, when the
  loop stands at position |a| - 1 - k, and it lies between 0 and that position.
 */
module Shuffling {

  /** The number of passes the shuffle makes over an array of length n. */
  function Passes(n: nat): nat
  {
    if n == 0 then 0 else n - 1
  }

  /** `draws` is a possible sequence of random indices when the loop starts at
      position `top` and runs down to 1. */
  predicate ValidDraws(draws: seq<nat>, top: nat)
  {
    |draws| == top && forall k :: 0 <= k < |draws| ==> draws[k] <= top - k
  }

  function Swap<T>(s: seq<T>, i: nat, j: nat): (r: seq<T>)
    requires i < |s| && j < |s|
    ensures |r| == |s| && r[i] == s[j] && r[j] == s[i]
    ensures forall k :: 0 <= k < |s| && k != i && k != j ==> r[k] == s[k]
  {
    s[i := s[j]][j := s[i]]
  }

  /** The passes still to run when the loop stands at position `i`. */
  function ShuffleFrom<T>(s: seq<T>, draws: seq<nat>, i: nat): seq<T>
    requires i < |s| && ValidDraws(draws, i)
    decreases i
  {
    if i == 0 then s
    else ShuffleFrom(Swap(s, i, draws[0]), draws[1..], i - 1)
  }

  /** The whole shuffle of `s` under the given draws. */
  function Shuffled<T>(s: seq<T>, draws: seq<nat>): seq<T>
    requires ValidDraws(draws, Passes(|s|))
  {
    if |s| == 0 then s else ShuffleFrom(s, draws, |s| - 1)
  }

  /** A swap permutes the sequence. */
  lemma SwapPermutes<T>(s: seq<T>, i: nat, j: nat)
    requires i < |s| && j < |s|
    ensures multiset(Swap(s, i, j)) == multiset(s)
  {
    var t := s[i := s[j]];
    assert multiset(t) == multiset(s) - multiset{s[i]} + multiset{s[j]};
    assert multiset(t[j := s[i]]) == multiset(t) - multiset{t[j]} + multiset{s[i]};
  }

  lemma {:induction false} ShuffleFromPermutes<T>(s: seq<T>, draws: seq<nat>, i: nat)
    requires i < |s| && ValidDraws(draws, i)
    ensures |ShuffleFrom(s, draws, i)| == |s|
    ensures multiset(ShuffleFrom(s, draws, i)) == multiset(s)
    decreases i
  {
    if i > 0 {
      SwapPermutes(s, i, draws[0]);
      ShuffleFromPermutes(Swap(s, i, draws[0]), draws[1..], i - 1);
    }
  }

  /** Whatever indices are drawn, the shuffle yields a permutation of its input. */
  lemma ShuffledPermutes<T>(s: seq<T>, draws: seq<nat>)
    requires ValidDraws(draws, Passes(|s|))
    ensures |Shuffled(s, draws)| == |s|
    ensures multiset(Shuffled(s, draws)) == multiset(s)
  {
    if |s| > 0 {
      ShuffleFromPermutes(s, draws, |s| - 1);
    }
  }

  /** Some position at or below i holds the element t wants at position i. */
  lemma FindSource<T>(s: seq<T>, t: seq<T>, i: nat) returns (j: nat)
    requires i < |s| == |t| && multiset(s[..i + 1]) == multiset(t[..i + 1])
    ensures j <= i && s[j] == t[i]
  {
    assert t[i] == t[..i + 1][i];
    assert t[i] in multiset(s[..i + 1]);
    assert t[i] in s[..i + 1];
    var k :| 0 <= k < i + 1 && s[..i + 1][k] == t[i];
    j := k;
  }

  /** Equal multisets stay equal once a common element is removed. */
  lemma CancelLast<T>(a: seq<T>, b: seq<T>, x: T)
    requires multiset(a + [x]) == multiset(b + [x])
    ensures multiset(a) == multiset(b)
  {
    assert multiset(a + [x]) == multiset(a) + multiset{x};
    assert multiset(b + [x]) == multiset(b) + multiset{x};
    assert multiset(a) == multiset(a) + multiset{x} - multiset{x};
    assert multiset(b) == multiset(b) + multiset{x} - multiset{x};
  }

  /** A swap below position i + 1 only touches the prefix up to i. */
  lemma SwapInPrefix<T>(s: seq<T>, i: nat, j: nat)
    requires j <= i < |s|
    ensures Swap(s, i, j)[..i + 1] == Swap(s[..i + 1], i, j)
    ensures Swap(s, i, j)[i + 1..] == s[i + 1..]
  {
  }

  /** Swapping that element into position i leaves a shorter prefix to permute. */
  lemma SwapIntoPlace<T>(s: seq<T>, t: seq<T>, i: nat, j: nat)
    requires 0 < i < |s| == |t| && j <= i && s[j] == t[i]
    requires multiset(s[..i + 1]) == multiset(t[..i + 1]) && s[i + 1..] == t[i + 1..]
    ensures multiset(Swap(s, i, j)[..i]) == multiset(t[..i])
    ensures Swap(s, i, j)[i..] == t[i..]
  {
    var s' := Swap(s, i, j);
    SwapInPrefix(s, i, j);
    SwapPermutes(s[..i + 1], i, j);
    assert s'[..i + 1] == s'[..i] + [t[i]];
    assert t[..i + 1] == t[..i] + [t[i]];
    CancelLast(s'[..i], t[..i], t[i]);
    assert s'[i..] == [t[i]] + s'[i + 1..];
    assert t[i..] == [t[i]] + t[i + 1..];
  }

  lemma {:induction false} ShuffleFromReaches<T>(s: seq<T>, t: seq<T>, i: nat) returns (draws: seq<nat>)
    requires i < |s| == |t|
    requires multiset(s[..i + 1]) == multiset(t[..i + 1]) && s[i + 1..] == t[i + 1..]
    ensures ValidDraws(draws, i) && ShuffleFrom(s, draws, i) == t
    decreases i
  {
    if i == 0 {
      var j := FindSource(s, t, 0);
      assert s == [s[0]] + s[1..] && t == [t[0]] + t[1..];
      draws := [];
    } else {
      var j := FindSource(s, t, i);
      SwapIntoPlace(s, t, i, j);
      var s' := Swap(s, i, j);
      assert s'[i..] == t[i..];
      var rest := ShuffleFromReaches(s', t, i - 1);
      draws := [j] + rest;
      assert draws[0] == j && draws[1..] == rest;
    }
  }

  /** Every permutation of the input is the outcome of some sequence of draws:
      the shuffle can produce any ordering. */
  lemma ShuffledReachesEveryPermutation<T>(s: seq<T>, t: seq<T>) returns (draws: seq<nat>)
    requires multiset(s) == multiset(t)
    ensures ValidDraws(draws, Passes(|s|)) && Shuffled(s, draws) == t
  {
    assert |s| == |multiset(s)| == |t|;
    if |s| == 0 {
      draws := [];
    } else {
      assert s[..|s|] == s && t[..|t|] == t;
      draws := ShuffleFromReaches(s, t, |s| - 1);
    }
  }

  /** The in-place shuffle: for i from the last index down to 1, swap positions
      i and the drawn index. It hands back the array it was given. */
  method ShuffleArray<T>(a: array<T>, draws: seq<nat>) returns (r: array<T>)
    requires ValidDraws(draws, Passes(a.Length))
    modifies a
    ensures r == a
    ensures a[..] == Shuffled(old(a[..]), draws)
    ensures multiset(a[..]) == multiset(old(a[..]))
  {
    if a.Length > 0 {
      var i := a.Length - 1;
      var k := 0;
      while i > 0
        invariant 0 <= i < a.Length && k == a.Length - 1 - i
        invariant ValidDraws(draws[k..], i)
        invariant ShuffleFrom(a[..], draws[k..], i) == Shuffled(old(a[..]), draws)
      {
        var j := draws[k];
        assert draws[k..][1..] == draws[k + 1..];
        var temp := a[i];
        a[i] := a[j];
        a[j] := temp;
        i := i - 1;
        k := k + 1;
      }
    }
    ShuffledPermutes(old(a[..]), draws);
    r := a;
  }
}
