/** The page's `shuffleArray` (src/app/page.tsx:24-36): a Durstenfeld
    Fisher–Yates loop that walks `currentIndex` down from the array's length
    and swaps each position with a randomly drawn index at or below it.

    The random draws are a parameter. `picks[c]` is the index drawn in the
    iteration that leaves `currentIndex` at c, so it lies in [0, c]. */
module Shuffle {
  import opened Slots

  /** Every draw lies in the range the source's `Math.floor(Math.random() * currentIndex)` can produce. */
  ghost predicate ValidPicks(n: nat, picks: seq<nat>)
  {
    |picks| == n && forall c :: 0 <= c < n ==> picks[c] <= c
  }

  /** The array's contents once the loop has run from `currentIndex == cur` down to 0. */
  function Shuffled(s: seq<int>, picks: seq<nat>, cur: nat): seq<int>
    requires cur <= |s| && ValidPicks(|s|, picks)
    decreases cur
  {
    if cur == 0 then s
    else Shuffled(Swap(s, cur - 1, picks[cur - 1]), picks, cur - 1)
  }

  /** The in-place loop. Each index stays in bounds and the result is the
      specification's, hence a permutation of the input. */
  method ShuffleArray(a: array<int>, picks: seq<nat>)
    requires ValidPicks(a.Length, picks)
    modifies a
    ensures a[..] == Shuffled(old(a[..]), picks, a.Length)
    ensures multiset(a[..]) == multiset(old(a[..]))
  {
    var currentIndex := a.Length;
    while currentIndex != 0
      invariant 0 <= currentIndex <= a.Length
      invariant Shuffled(a[..], picks, currentIndex) == Shuffled(old(a[..]), picks, a.Length)
      decreases currentIndex
    {
      var randomIndex := picks[currentIndex - 1];
      currentIndex := currentIndex - 1;
      a[currentIndex], a[randomIndex] := a[randomIndex], a[currentIndex];
    }
    ShufflePermutes(old(a[..]), picks, a.Length);
  }

  /** Shuffling only rearranges: the multiset of values is unchanged. */
  lemma {:induction false} ShufflePermutes(s: seq<int>, picks: seq<nat>, cur: nat)
    requires cur <= |s| && ValidPicks(|s|, picks)
    ensures |Shuffled(s, picks, cur)| == |s|
    ensures multiset(Shuffled(s, picks, cur)) == multiset(s)
    decreases cur
  {
    if cur > 0 {
      SwapPermutes(s, cur - 1, picks[cur - 1]);
      ShufflePermutes(Swap(s, cur - 1, picks[cur - 1]), picks, cur - 1);
    }
  }

  /** Shuffling the values 0..n-1 yields each of them exactly once. */
  lemma ShuffledRangeIsPermutation(n: nat, picks: seq<nat>)
    requires ValidPicks(n, picks)
    ensures var r := Shuffled(Iota(n), picks, n);
      |r| == n &&
      (forall k :: 0 <= k < n ==> 0 <= r[k] < n) &&
      (forall i, j :: 0 <= i < j < n ==> r[i] != r[j]) &&
      (forall v :: 0 <= v < n ==> v in r)
  {
    ShufflePermutes(Iota(n), picks, n);
    PermutationOfRange(Shuffled(Iota(n), picks, n));
  }

  /** Steps below `cur` read only the draws below `cur`. */
  lemma {:induction false} ShuffledReadsPrefix(s: seq<int>, p: seq<nat>, q: seq<nat>, cur: nat)
    requires cur <= |s| && ValidPicks(|s|, p) && ValidPicks(|s|, q)
    requires forall c :: 0 <= c < cur ==> p[c] == q[c]
    ensures Shuffled(s, p, cur) == Shuffled(s, q, cur)
    decreases cur
  {
    if cur > 0 {
      ShuffledReadsPrefix(Swap(s, cur - 1, p[cur - 1]), p, q, cur - 1);
    }
  }

  /** Every rearrangement of the input is the outcome of some sequence of
      draws: no board is out of the shuffle's reach. */
  lemma ShuffleReachesEvery(s: seq<int>, target: seq<int>) returns (picks: seq<nat>)
    requires multiset(target) == multiset(s)
    ensures ValidPicks(|s|, picks)
    ensures Shuffled(s, picks, |s|) == target
  {
    assert |target| == |multiset(target)| == |multiset(s)| == |s|;
    assert s[..|s|] == s && target[..|s|] == target;
    picks := ReachFrom(s, target, |s|);
  }

  lemma {:induction false} ReachFrom(t: seq<int>, target: seq<int>, cur: nat) returns (picks: seq<nat>)
    requires |t| == |target| && cur <= |t|
    requires t[cur..] == target[cur..]
    requires multiset(t[..cur]) == multiset(target[..cur])
    ensures ValidPicks(|t|, picks)
    ensures Shuffled(t, picks, cur) == target
    decreases cur
  {
    if cur == 0 {
      picks := seq(|t|, c => 0);
      assert t == t[cur..] && target == target[cur..];
    } else {
      var j := PlaceLast(t, target, cur);
      var t' := Swap(t, cur - 1, j);
      var rest := ReachFrom(t', target, cur - 1);
      picks := rest[cur - 1 := j];
      ShuffledReadsPrefix(t', picks, rest, cur - 1);
    }
  }

  /** One step of ReachFrom: some draw j <= cur - 1 brings the wanted value to position cur - 1. */
  lemma PlaceLast(t: seq<int>, target: seq<int>, cur: nat) returns (j: nat)
    requires |t| == |target| && 0 < cur <= |t|
    requires t[cur..] == target[cur..]
    requires multiset(t[..cur]) == multiset(target[..cur])
    ensures j < cur
    ensures Swap(t, cur - 1, j)[cur - 1..] == target[cur - 1..]
    ensures multiset(Swap(t, cur - 1, j)[..cur - 1]) == multiset(target[..cur - 1])
  {
    var want := target[cur - 1];
    assert target[..cur] == target[..cur - 1] + [want];
    assert want in multiset(t[..cur]);
    var k :| 0 <= k < cur && t[..cur][k] == want;
    j := k;
    SwapIntoPlace(t, target, cur, j);
    SwapKeepsRest(t, target, cur, j);
  }

  /** Swapping the wanted value into position cur - 1 extends the agreeing suffix by one. */
  lemma SwapIntoPlace(t: seq<int>, target: seq<int>, cur: nat, j: nat)
    requires |t| == |target| && j < cur <= |t|
    requires t[cur..] == target[cur..] && t[j] == target[cur - 1]
    ensures Swap(t, cur - 1, j)[cur - 1..] == target[cur - 1..]
  {
    var t' := Swap(t, cur - 1, j);
    assert t'[cur - 1..] == [t[j]] + t[cur..];
    assert target[cur - 1..] == [target[cur - 1]] + target[cur..];
  }

  /** ... and leaves the values before it equal, as a multiset, to the target's. */
  lemma SwapKeepsRest(t: seq<int>, target: seq<int>, cur: nat, j: nat)
    requires |t| == |target| && j < cur <= |t|
    requires multiset(t[..cur]) == multiset(target[..cur]) && t[j] == target[cur - 1]
    ensures multiset(Swap(t, cur - 1, j)[..cur - 1]) == multiset(target[..cur - 1])
  {
    var want := target[cur - 1];
    var t' := Swap(t, cur - 1, j);
    SwapPermutes(t[..cur], cur - 1, j);
    assert Swap(t[..cur], cur - 1, j) == t'[..cur];
    assert t'[..cur] == t'[..cur - 1] + [want];
    assert target[..cur] == target[..cur - 1] + [want];
    CancelLast(t'[..cur - 1], target[..cur - 1], want);
  }

  /** Removing the same last element from two sequences with equal multisets keeps them equal. */
  lemma CancelLast(a: seq<int>, b: seq<int>, x: int)
    requires multiset(a + [x]) == multiset(b + [x])
    ensures multiset(a) == multiset(b)
  {
    assert multiset(a + [x]) == multiset(a) + multiset{x};
    assert multiset(b + [x]) == multiset(b) + multiset{x};
    assert multiset(a) == multiset(a) + multiset{x} - multiset{x};
    assert multiset(b) == multiset(b) + multiset{x} - multiset{x};
  }
}
