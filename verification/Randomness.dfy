/** Rejection sampling and the in-place shuffle (tools.rs).  Raw random words and draws are parameters. */
module Randomness {
  import opened Results
  import opened Arith

  // ---------------------------------------------------------------------------------------------
  // random_usize_bounded

  /** The largest multiple of upper that does not exceed the largest machine word. */
  function Zone(maxWord: nat, upper: nat): (z: nat)
    requires 0 < upper <= maxWord
    ensures z % upper == 0 && z <= maxWord < z + upper
  {
    MultipleHasNoRemainder(upper, maxWord / upper);
    maxWord - maxWord % upper
  }

  /** Draws words until one falls below the zone; None when the given words run out first. */
  method RandomBounded(maxWord: nat, upper: nat, raws: seq<nat>) returns (r: Option<nat>, used: nat)
    requires 0 < upper <= maxWord
    requires forall w :: w in raws ==> w <= maxWord
    ensures used <= |raws|
    ensures r == None ==> forall k :: 0 <= k < |raws| ==> raws[k] >= Zone(maxWord, upper)
    ensures r.Some? ==> used > 0 && raws[used - 1] < Zone(maxWord, upper)
                        && r.value == raws[used - 1] % upper && r.value < upper
                        && forall k :: 0 <= k < used - 1 ==> raws[k] >= Zone(maxWord, upper)
  {
    var zone := maxWord - maxWord % upper;
    used := 0;
    while used < |raws|
      invariant used <= |raws|
      invariant forall k :: 0 <= k < used ==> raws[k] >= zone
    {
      var w := raws[used];
      used := used + 1;
      if w < zone {
        return Some(w % upper), used;
      }
    }
    r := None;
  }

  /** The accepted raw words below a multiple of upper that yield a given result. */
  ghost function AcceptedFor(zone: nat, upper: nat, result: nat): set<nat>
    requires upper > 0
  {
    set w: nat | w < zone && w % upper == result
  }

  lemma OneMorePerBlock(block: nat, upper: nat, result: nat)
    requires result < upper
    ensures var below := upper * block;
            && AcceptedFor(below + upper, upper, result) == AcceptedFor(below, upper, result) + {below + result}
            && below + result !in AcceptedFor(below, upper, result)
  {
    var below := upper * block;
    UniqueRemainder(below + result, upper, block, result);
    forall w: nat | below <= w < below + upper ensures w % upper == w - below {
      UniqueRemainder(w, upper, block, w - below);
    }
  }

  /** Every result has the same number of accepted words: no modulo bias. */
  lemma {:induction false} EqualShares(blocks: nat, upper: nat, result: nat)
    requires result < upper
    ensures |AcceptedFor(upper * blocks, upper, result)| == blocks
  {
    if blocks == 0 {
      assert AcceptedFor(0, upper, result) == {};
    } else {
      var below := upper * (blocks - 1);
      assert upper * blocks == below + upper;
      EqualShares(blocks - 1, upper, result);
      OneMorePerBlock(blocks - 1, upper, result);
    }
  }

  /** Over one machine word: equal shares, and at least half of the words are accepted. */
  lemma RejectionIsFair(maxWord: nat, upper: nat, result: nat)
    requires 0 < upper <= maxWord && result < upper
    ensures |AcceptedFor(Zone(maxWord, upper), upper, result)| == Zone(maxWord, upper) / upper
    ensures 2 * Zone(maxWord, upper) >= maxWord + 1
  {
    var z := Zone(maxWord, upper);
    assert z == upper * (z / upper);
    EqualShares(z / upper, upper, result);
    if z < upper {
      UniqueRemainder(z, upper, 0, z);
    }
  }

  // ---------------------------------------------------------------------------------------------
  // shuffle

  function Swap<T>(s: seq<T>, i: nat, j: nat): (r: seq<T>)
    requires i < |s| && j < |s|
    ensures |r| == |s|
  {
    s[i := s[j]][j := s[i]]
  }

  /** Draw k of the loop picks a position at most k + 1; a slice of n elements takes n - 1 draws. */
  predicate ValidDraws(draws: seq<nat>, n: nat) {
    |draws| == (if n == 0 then 0 else n - 1) && forall k :: 0 <= k < |draws| ==> draws[k] <= k + 1
  }

  function Shuffled<T>(s: seq<T>, draws: seq<nat>): (r: seq<T>)
    requires ValidDraws(draws, |s|)
    ensures |r| == |s|
  {
    if |s| <= 1 then s else
      var n := |s| - 1;
      Swap(Shuffled(s[..n], draws[..n - 1]) + [s[n]], n, draws[n - 1])
  }

  method Shuffle<T>(a: array<T>, draws: seq<nat>)
    requires ValidDraws(draws, a.Length)
    modifies a
    ensures a[..] == Shuffled(old(a[..]), draws)
  {
    hide Shuffled;
    ghost var s := a[..];
    ShuffledOfOne(s, draws);
    var i := 1;
    while i < a.Length
      invariant a.Length == 0 || 1 <= i <= a.Length
      invariant a.Length > 0 ==> a[..i] == Shuffled(s[..i], draws[..i - 1])
      invariant a.Length > 0 ==> a[i..] == s[i..]
      invariant a.Length == 0 ==> i == 1
    {
      var j := draws[i - 1];
      ghost var front := a[..i];
      assert a[i] == s[i] && a[..i + 1] == front + [s[i]];
      ShuffledStep(s, draws, i);
      a[i], a[j] := a[j], a[i];
      assert a[..i + 1] == Swap(front + [s[i]], i, j);
      assert a[i + 1..] == s[i + 1..];
      i := i + 1;
    }
    if a.Length > 0 {
      assert a[..] == a[..i] && s == s[..i] && draws == draws[..i - 1];
    }
  }

  lemma ShuffledStep<T>(s: seq<T>, draws: seq<nat>, i: nat)
    requires ValidDraws(draws, |s|) && 0 < i < |s|
    ensures ValidDraws(draws[..i - 1], i) && ValidDraws(draws[..i], i + 1)
    ensures Shuffled(s[..i + 1], draws[..i]) == Swap(Shuffled(s[..i], draws[..i - 1]) + [s[i]], i, draws[i - 1])
  {
    assert s[..i + 1][..i] == s[..i] && draws[..i][..i - 1] == draws[..i - 1];
  }

  lemma ShuffledOfOne<T>(s: seq<T>, draws: seq<nat>)
    requires ValidDraws(draws, |s|)
    ensures |s| <= 1 ==> Shuffled(s, draws) == s
    ensures |s| > 0 ==> Shuffled(s[..1], draws[..0]) == s[..1]
  {
  }

  ghost predicate Distinct<T>(s: seq<T>) {
    forall i, j :: 0 <= i < j < |s| ==> s[i] != s[j]
  }

  lemma SwapKeepsMultiset<T>(s: seq<T>, i: nat, j: nat)
    requires i < |s| && j < |s|
    ensures multiset(Swap(s, i, j)) == multiset(s)
  {
  }

  lemma Snoc<T>(s: seq<T>, x: T)
    ensures multiset(s + [x]) == multiset(s) + multiset{x}
  {
  }

  lemma SwapTwice<T>(s: seq<T>, i: nat, j: nat)
    requires i < |s| && j < |s|
    ensures Swap(Swap(s, i, j), i, j) == s
  {
  }

  /** Whatever is drawn, the elements are only rearranged. */
  lemma {:induction false} ShuffleKeepsMultiset<T>(s: seq<T>, draws: seq<nat>)
    requires ValidDraws(draws, |s|)
    ensures multiset(Shuffled(s, draws)) == multiset(s)
  {
    if |s| > 1 {
      var n := |s| - 1;
      var front := Shuffled(s[..n], draws[..n - 1]);
      ShuffleKeepsMultiset(s[..n], draws[..n - 1]);
      SwapKeepsMultiset(front + [s[n]], n, draws[n - 1]);
      Snoc(front, s[n]);
      Snoc(s[..n], s[n]);
      assert s == s[..n] + [s[n]];
    }
  }

  lemma MultisetMembers<T>(s: seq<T>, t: seq<T>, x: T)
    requires multiset(s) == multiset(t)
    ensures x in s <==> x in t
  {
    assert x in s <==> x in multiset(s);
    assert x in t <==> x in multiset(t);
  }

  function IndexOf<T(==)>(s: seq<T>, x: T): (i: nat)
    requires x in s
    ensures i < |s| && s[i] == x
  {
    if s[0] == x then 0 else 1 + IndexOf(s[1..], x)
  }

  /** The draws that turn s into a given rearrangement p. */
  function DrawsFor<T(==)>(s: seq<T>, p: seq<T>): (draws: seq<nat>)
    requires multiset(s) == multiset(p)
    ensures ValidDraws(draws, |s|)
  {
    MultisetSize(s, p);
    if |s| <= 1 then [] else
      var n := |s| - 1;
      MultisetMembers(s, p, s[n]);
      var j := IndexOf(p, s[n]);
      UndoLastSwap(s, p, j);
      DrawsFor(s[..n], Swap(p, n, j)[..n]) + [j]
  }

  lemma MultisetSize<T>(s: seq<T>, p: seq<T>)
    requires multiset(s) == multiset(p)
    ensures |s| == |p|
  {
    assert |multiset(s)| == |s| && |multiset(p)| == |p|;
  }

  lemma UndoLastSwap<T>(s: seq<T>, p: seq<T>, j: nat)
    requires multiset(s) == multiset(p) && |s| == |p| > 0
    requires j < |p| && p[j] == s[|s| - 1]
    ensures multiset(s[..|s| - 1]) == multiset(Swap(p, |s| - 1, j)[..|s| - 1])
  {
    var n := |s| - 1;
    var q := Swap(p, n, j);
    SwapKeepsMultiset(p, n, j);
    assert s == s[..n] + [s[n]] && q == q[..n] + [s[n]];
    Snoc(s[..n], s[n]);
    Snoc(q[..n], s[n]);
    CancelOne(multiset(s[..n]), multiset(q[..n]), s[n]);
  }

  lemma CancelOne<T>(a: multiset<T>, b: multiset<T>, x: T)
    requires a + multiset{x} == b + multiset{x}
    ensures a == b
  {
    assert a == (a + multiset{x}) - multiset{x};
    assert b == (b + multiset{x}) - multiset{x};
  }

  /** Every rearrangement is reached by some draws. */
  lemma {:induction false} EveryPermutationIsDrawn<T>(s: seq<T>, p: seq<T>)
    requires multiset(s) == multiset(p)
    ensures ValidDraws(DrawsFor(s, p), |s|) && Shuffled(s, DrawsFor(s, p)) == p
  {
    MultisetSize(s, p);
    if |s| == 1 {
      MultisetMembers(s, p, s[0]);
    } else if |s| > 1 {
      var n := |s| - 1;
      MultisetMembers(s, p, s[n]);
      var j := IndexOf(p, s[n]);
      UndoLastSwap(s, p, j);
      var q := Swap(p, n, j);
      EveryPermutationIsDrawn(s[..n], q[..n]);
      assert q == q[..n] + [s[n]];
      assert DrawsFor(s, p)[..n - 1] == DrawsFor(s[..n], q[..n]);
      SwapTwice(p, n, j);
    }
  }

  /** For distinct elements no rearrangement is reached by two different sequences of draws. */
  lemma {:induction false} DrawsAreDetermined<T>(s: seq<T>, d: seq<nat>, e: seq<nat>)
    requires ValidDraws(d, |s|) && ValidDraws(e, |s|) && Distinct(s)
    requires Shuffled(s, d) == Shuffled(s, e)
    ensures d == e
  {
    if |s| > 1 {
      var n := |s| - 1;
      var p := Shuffled(s, d);
      var f, g := Shuffled(s[..n], d[..n - 1]), Shuffled(s[..n], e[..n - 1]);
      LastElementMoved(s, f, d[..n - 1], d[n - 1]);
      LastElementMoved(s, g, e[..n - 1], e[n - 1]);
      SwapTwice(f + [s[n]], n, d[n - 1]);
      SwapTwice(g + [s[n]], n, e[n - 1]);
      assert f == (f + [s[n]])[..n] && g == (g + [s[n]])[..n];
      DrawsAreDetermined(s[..n], d[..n - 1], e[..n - 1]);
      assert d == d[..n - 1] + [d[n - 1]] && e == e[..n - 1] + [e[n - 1]];
    }
  }

  /** The last element sits exactly where the last draw put it. */
  lemma LastElementMoved<T>(s: seq<T>, front: seq<T>, draws: seq<nat>, j: nat)
    requires |s| > 1 && Distinct(s) && ValidDraws(draws, |s| - 1) && j < |s|
    requires front == Shuffled(s[..|s| - 1], draws)
    ensures var p := Swap(front + [s[|s| - 1]], |s| - 1, j);
            forall k :: 0 <= k < |s| ==> (p[k] == s[|s| - 1] <==> k == j)
  {
    var n := |s| - 1;
    ShuffleKeepsMultiset(s[..n], draws);
    forall k | 0 <= k < n ensures front[k] != s[n] {
      MultisetMembers(s[..n], front, front[k]);
      assert front[k] in front;
    }
  }

  /** The shuffle is a bijection from draws to permutations of distinct elements. */
  lemma ShuffleIsBijective<T>(s: seq<T>, p: seq<T>)
    requires Distinct(s) && multiset(p) == multiset(s)
    ensures exists d :: ValidDraws(d, |s|) && Shuffled(s, d) == p
                        && forall e :: ValidDraws(e, |s|) && Shuffled(s, e) == p ==> e == d
  {
    var d := DrawsFor(s, p);
    EveryPermutationIsDrawn(s, p);
    forall e | ValidDraws(e, |s|) && Shuffled(s, e) == p ensures e == d {
      DrawsAreDetermined(s, d, e);
    }
  }
}
