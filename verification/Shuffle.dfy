/** `SliceRandom::shuffle`: Fisher-Yates from the back, each index drawn from the positions not yet fixed. */
module Shuffle {
  import opened Common

  /** The draws of one shuffle of n elements, in order: the k-th comes from 0 up to n - 1 - k. */
  ghost predicate LegalDraws(n: nat, draws: seq<nat>) {
    |draws| == (if n == 0 then 0 else n - 1) && forall k :: 0 <= k < |draws| ==> draws[k] <= n - 1 - k
  }

  function Swap<T>(s: seq<T>, i: nat, j: nat): (r: seq<T>)
    requires i < |s| && j < |s|
    ensures |r| == |s|
  {
    s[i := s[j]][j := s[i]]
  }

  /** Swaps position `i` with the first draw, then shuffles what lies below `i` with the others. */
  function From<T>(s: seq<T>, i: nat, draws: seq<nat>): (r: seq<T>)
    requires i < |s| && |draws| == i && forall k :: 0 <= k < i ==> draws[k] <= i - k
    ensures |r| == |s|
    decreases i
  {
    if i == 0 then s else From(Swap(s, i, draws[0]), i - 1, draws[1..])
  }

  function Shuffled<T>(s: seq<T>, draws: seq<nat>): seq<T>
    requires LegalDraws(|s|, draws)
  {
    if s == [] then s else From(s, |s| - 1, draws)
  }

  method Shuffle<T>(a: array<T>, draws: seq<nat>)
    requires LegalDraws(a.Length, draws)
    modifies a
    ensures a[..] == Shuffled(old(a[..]), draws)
  {
    if a.Length == 0 {
      return;
    }
    var i := a.Length - 1;
    while i > 0
      invariant 0 <= i < a.Length
      invariant From(a[..], i, draws[a.Length - 1 - i..]) == Shuffled(old(a[..]), draws)
    {
      var j := draws[a.Length - 1 - i];
      ghost var before := a[..];
      a[i], a[j] := a[j], a[i];
      assert a[..] == Swap(before, i, j);
      assert draws[a.Length - 1 - i..][1..] == draws[a.Length - 1 - (i - 1)..];
      i := i - 1;
    }
  }

  // ---------- properties ----------

  lemma SwapKeepsElements<T>(s: seq<T>, i: nat, j: nat)
    requires i < |s| && j < |s|
    ensures multiset(Swap(s, i, j)) == multiset(s)
  {
  }

  lemma {:induction false} FromKeeps<T>(s: seq<T>, i: nat, draws: seq<nat>)
    requires i < |s| && |draws| == i && forall k :: 0 <= k < i ==> draws[k] <= i - k
    ensures multiset(From(s, i, draws)) == multiset(s)
    ensures From(s, i, draws)[i + 1..] == s[i + 1..]
    decreases i
  {
    if i == 0 {
    } else {
      var t := Swap(s, i, draws[0]);
      SwapKeepsElements(s, i, draws[0]);
      FromKeeps(t, i - 1, draws[1..]);
      assert From(s, i, draws)[i + 1..] == From(t, i - 1, draws[1..])[i..][1..];
      assert t[i..][1..] == s[i + 1..];
    }
  }

  /** A shuffle only rearranges. */
  lemma ShuffledIsPermutation<T>(s: seq<T>, draws: seq<nat>)
    requires LegalDraws(|s|, draws)
    ensures multiset(Shuffled(s, draws)) == multiset(s)
  {
    if s != [] { FromKeeps(s, |s| - 1, draws); }
  }

  /** The element a step puts at position i is final. */
  lemma StepFixes<T>(s: seq<T>, i: nat, draws: seq<nat>)
    requires 0 < i < |s| && |draws| == i && forall k :: 0 <= k < i ==> draws[k] <= i - k
    ensures From(s, i, draws)[i] == s[draws[0]]
  {
    var t := Swap(s, i, draws[0]);
    FromKeeps(t, i - 1, draws[1..]);
    assert From(s, i, draws)[i] == From(t, i - 1, draws[1..])[i..][0] == t[i..][0];
  }

  lemma SwapKeepsDistinct<T>(s: seq<T>, i: nat, j: nat)
    requires i < |s| && j < |s| && Distinct(s)
    ensures Distinct(Swap(s, i, j))
  {
  }

  lemma {:induction false} FromInjective<T>(s: seq<T>, i: nat, d: seq<nat>, e: seq<nat>)
    requires Distinct(s)
    requires i < |s| && |d| == |e| == i
    requires forall k :: 0 <= k < i ==> d[k] <= i - k && e[k] <= i - k
    requires From(s, i, d) == From(s, i, e)
    ensures d == e
    decreases i
  {
    if i == 0 {
    } else {
      StepFixes(s, i, d);
      StepFixes(s, i, e);
      assert d[0] == e[0];
      SwapKeepsDistinct(s, i, d[0]);
      FromInjective(Swap(s, i, d[0]), i - 1, d[1..], e[1..]);
      assert d == [d[0]] + d[1..] && e == [e[0]] + e[1..];
    }
  }

  /** Two sequences with the same elements and the same last part have the same elements before it. */
  lemma SameFront<T>(s: seq<T>, p: seq<T>, n: nat)
    requires |s| == |p| && n <= |s| && multiset(s) == multiset(p) && s[n..] == p[n..]
    ensures multiset(s[..n]) == multiset(p[..n])
  {
    assert s == s[..n] + s[n..] && p == p[..n] + p[n..];
    assert multiset(s) == multiset(s[..n]) + multiset(s[n..]);
    assert multiset(p) == multiset(p[..n]) + multiset(p[n..]);
    assert multiset(s[..n]) == multiset(s) - multiset(s[n..]);
    assert multiset(p[..n]) == multiset(p) - multiset(p[n..]);
  }

  /** Where the element that must end up at position i is now. */
  lemma Locate<T>(s: seq<T>, p: seq<T>, i: nat) returns (j: nat)
    requires i < |s| == |p| && multiset(p) == multiset(s) && p[i + 1..] == s[i + 1..]
    ensures j <= i && s[j] == p[i]
  {
    SameFront(s, p, i + 1);
    assert p[..i + 1][i] in multiset(s[..i + 1]);
    assert p[i] in s[..i + 1];
    j :| 0 <= j < i + 1 && s[..i + 1][j] == p[i];
  }

  lemma {:induction false} FromReaches<T>(s: seq<T>, i: nat, p: seq<T>) returns (d: seq<nat>)
    requires i < |s| == |p| && multiset(p) == multiset(s) && p[i + 1..] == s[i + 1..]
    ensures |d| == i && (forall k :: 0 <= k < i ==> d[k] <= i - k) && From(s, i, d) == p
    decreases i
  {
    var j := Locate(s, p, i);
    if i == 0 {
      d := [];
      assert p == [p[0]] + p[1..] && s == [s[0]] + s[1..];
    } else {
      var t := Swap(s, i, j);
      SwapKeepsElements(s, i, j);
      assert t[i..] == [p[i]] + s[i + 1..] && p[i..] == [p[i]] + p[i + 1..];
      var rest := FromReaches(t, i - 1, p);
      d := [j] + rest;
      assert d[1..] == rest;
    }
  }

  lemma DrawsFor<T>(s: seq<T>, p: seq<T>) returns (d: seq<nat>)
    requires multiset(p) == multiset(s)
    ensures LegalDraws(|s|, d) && Shuffled(s, d) == p
  {
    assert |multiset(p)| == |p| && |multiset(s)| == |s|;
    d := [];
    if s == [] {
      assert p == [];
    } else {
      d := FromReaches(s, |s| - 1, p);
    }
  }

  lemma SameDraws<T>(s: seq<T>, d: seq<nat>, e: seq<nat>)
    requires Distinct(s) && LegalDraws(|s|, d) && LegalDraws(|s|, e) && Shuffled(s, d) == Shuffled(s, e)
    ensures d == e
  {
    if s != [] { FromInjective(s, |s| - 1, d, e); }
  }

  /** Every rearrangement of distinct elements comes from one draw sequence and no other: uniform draws give a
      uniform permutation. */
  lemma ShuffleIsBijective<T>(s: seq<T>, p: seq<T>)
    requires Distinct(s)
    ensures multiset(p) == multiset(s) <==> exists d :: LegalDraws(|s|, d) && Shuffled(s, d) == p
    ensures forall d, e :: LegalDraws(|s|, d) && LegalDraws(|s|, e) && Shuffled(s, d) == Shuffled(s, e) ==> d == e
  {
    if multiset(p) == multiset(s) {
      var d := DrawsFor(s, p);
    }
    if d :| LegalDraws(|s|, d) && Shuffled(s, d) == p {
      ShuffledIsPermutation(s, d);
    }
    forall d, e | LegalDraws(|s|, d) && LegalDraws(|s|, e) && Shuffled(s, d) == Shuffled(s, e) ensures d == e {
      SameDraws(s, d, e);
    }
  }

  // ---------- step by step ----------

  /** Positions `i` and `j` trade places, the others stay. */
  ghost predicate Exchanged<T>(s: seq<T>, t: seq<T>, i: nat, j: nat) {
    && i < |s| == |t| && j < |s| && t[i] == s[j] && t[j] == s[i]
    && forall k :: 0 <= k < |s| && k != i && k != j ==> t[k] == s[k]
  }

  /** The sequences a shuffle goes through: the k-th step exchanges the k-th position from the back with the k-th
      draw. */
  ghost predicate GoesThrough<T>(steps: seq<seq<T>>, s: seq<T>, draws: seq<nat>, result: seq<T>) {
    && |steps| == |draws| + 1 && |draws| < |s| && steps[0] == s && steps[|draws|] == result
    && forall k :: 0 <= k < |draws| ==> Exchanged(steps[k], steps[k + 1], |s| - 1 - k, draws[k])
  }

  ghost predicate ShufflesTo<T(!new)>(s: seq<T>, draws: seq<nat>, result: seq<T>) {
    exists steps :: GoesThrough(steps, s, draws, result)
  }

  lemma SwapExchanges<T>(s: seq<T>, i: nat, j: nat)
    requires i < |s| && j < |s|
    ensures Exchanged(s, Swap(s, i, j), i, j)
  {
  }

  lemma {:induction false} FromSteps<T>(s: seq<T>, i: nat, draws: seq<nat>) returns (steps: seq<seq<T>>)
    requires i < |s| && |draws| == i && forall k :: 0 <= k < i ==> draws[k] <= i - k
    ensures |steps| == i + 1 && steps[0] == s && steps[i] == From(s, i, draws)
    ensures forall k :: 0 <= k < i ==> Exchanged(steps[k], steps[k + 1], i - k, draws[k])
    decreases i
  {
    if i == 0 {
      steps := [s];
    } else {
      var t := Swap(s, i, draws[0]);
      SwapExchanges(s, i, draws[0]);
      var rest := FromSteps(t, i - 1, draws[1..]);
      steps := [s] + rest;
      hide Exchanged, Swap;
      forall k | 0 <= k < i ensures Exchanged(steps[k], steps[k + 1], i - k, draws[k]) {
        if k > 0 { assert Exchanged(rest[k - 1], rest[k], i - 1 - (k - 1), draws[1..][k - 1]); }
      }
    }
  }

  /** A shuffle is this chain of exchanges; in particular the last position gets what the first draw points at. */
  lemma ShuffleSteps<T(!new)>(s: seq<T>, draws: seq<nat>)
    requires s != [] && LegalDraws(|s|, draws)
    ensures ShufflesTo(s, draws, Shuffled(s, draws))
    ensures draws != [] ==> Shuffled(s, draws)[|s| - 1] == s[draws[0]]
  {
    var steps := FromSteps(s, |s| - 1, draws);
    assert GoesThrough(steps, s, draws, Shuffled(s, draws));
    if draws != [] { StepFixes(s, |s| - 1, draws); }
  }

  lemma SameExchange<T>(s: seq<T>, t: seq<T>, u: seq<T>, i: nat, j: nat)
    requires Exchanged(s, t, i, j) && Exchanged(s, u, i, j)
    ensures t == u
  {
  }

  lemma {:induction false} SameSteps<T>(a: seq<seq<T>>, b: seq<seq<T>>, s: seq<T>, draws: seq<nat>, p: seq<T>,
                                        q: seq<T>, k: nat)
    requires GoesThrough(a, s, draws, p) && GoesThrough(b, s, draws, q) && k <= |draws|
    ensures a[k] == b[k]
  {
    if k == 0 {
    } else {
      SameSteps(a, b, s, draws, p, q, k - 1);
      assert Exchanged(a[k - 1], a[k], |s| - k, draws[k - 1]) && Exchanged(b[k - 1], b[k], |s| - k, draws[k - 1]);
      SameExchange(a[k - 1], a[k], b[k], |s| - k, draws[k - 1]);
    }
  }

  /** The draws decide the result: nothing else than the shuffle goes through such steps. */
  lemma ShufflesToOne<T(!new)>(s: seq<T>, draws: seq<nat>, p: seq<T>, q: seq<T>)
    requires ShufflesTo(s, draws, p) && ShufflesTo(s, draws, q)
    ensures p == q
  {
    var a :| GoesThrough(a, s, draws, p);
    var b :| GoesThrough(b, s, draws, q);
    SameSteps(a, b, s, draws, p, q, |draws|);
  }
}
