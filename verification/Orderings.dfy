/**
 * The sequence operations that the linked lists of lib_lists are meant to perform, over
 * any element type: filtering, dropping runs, reversing, and sorting by exchanging
 * neighbours. A comparator `cmp(a, b)` says that `a` may stay in front of `b`.
 */
module Orderings {
  import opened Basics

  // ---- Filtering ----------------------------------------------------------------

  /** The elements that satisfy p, in order. */
  function Matching<T>(s: seq<T>, p: T -> bool): (r: seq<T>) {
    if s == [] then [] else (if p(s[0]) then [s[0]] else []) + Matching(s[1..], p)
  }

  /** The elements that do not. */
  function Others<T>(s: seq<T>, p: T -> bool): (r: seq<T>) {
    if s == [] then [] else (if p(s[0]) then [] else [s[0]]) + Others(s[1..], p)
  }

  /** A predicate splits a sequence in two: nothing is lost and nothing is duplicated. */
  lemma {:induction false} FilterSplits<T>(s: seq<T>, p: T -> bool)
    ensures multiset(s) == multiset(Matching(s, p)) + multiset(Others(s, p))
    ensures |s| == |Matching(s, p)| + |Others(s, p)|
  {
    if s != [] {
      FilterSplits(s[1..], p);
      assert s == [s[0]] + s[1..];
      Regroup(s[1..], Matching(s[1..], p), Others(s[1..], p), [s[0]]);
    }
  }

  lemma Regroup<T>(s: seq<T>, a: seq<T>, b: seq<T>, x: seq<T>)
    requires multiset(s) == multiset(a) + multiset(b)
    ensures multiset(x + s) == multiset(x + a) + multiset(b)
    ensures multiset(x + s) == multiset(a) + multiset(x + b)
    ensures [] + a == a && [] + b == b
  {
  }

  /** Which element goes where: p holds of all of one part and of none of the other. */
  lemma {:induction false} FilterSeparates<T>(s: seq<T>, p: T -> bool)
    ensures forall x :: x in Matching(s, p) ==> x in s && p(x)
    ensures forall x :: x in Others(s, p) ==> x in s && !p(x)
  {
    if s != [] {
      FilterSeparates(s[1..], p);
    }
  }

  /** Every element kept stands behind those kept of the elements before it. */
  lemma {:induction false} OthersInOrder<T>(s: seq<T>, p: T -> bool, k: nat)
    requires k < |s| && !p(s[k])
    ensures var i := |Others(s[..k], p)|; i < |Others(s, p)| && Others(s, p)[i] == s[k]
  {
    if k > 0 {
      assert s[..k][1..] == s[1..][..k - 1] && s[..k][0] == s[0];
      OthersInOrder(s[1..], p, k - 1);
    }
  }

  /** And so with those removed. */
  lemma {:induction false} MatchingInOrder<T>(s: seq<T>, p: T -> bool, k: nat)
    requires k < |s| && p(s[k])
    ensures var i := |Matching(s[..k], p)|; i < |Matching(s, p)| && Matching(s, p)[i] == s[k]
  {
    if k > 0 {
      assert s[..k][1..] == s[1..][..k - 1] && s[..k][0] == s[0];
      MatchingInOrder(s[1..], p, k - 1);
    }
  }

  // ---- Dropping runs -----------------------------------------------------------

  /** How many leading elements of t are matched with x. */
  function RunLength<T>(x: T, t: seq<T>, same: (T, T) -> bool): (n: nat)
    ensures n <= |t|
  {
    if t != [] && same(x, t[0]) then 1 + RunLength(x, t[1..], same) else 0
  }

  /** The run is matched with x throughout, and maximal. */
  lemma {:induction false} RunIsMaximal<T>(x: T, t: seq<T>, same: (T, T) -> bool, i: nat)
    requires i <= RunLength(x, t, same) && i < |t|
    ensures same(x, t[i]) <==> i < RunLength(x, t, same)
  {
    if t != [] && same(x, t[0]) && i > 0 {
      RunIsMaximal(x, t[1..], same, i - 1);
    }
  }

  function Run<T>(s: seq<T>, same: (T, T) -> bool): (r: seq<T>)
    requires s != []
  {
    s[1..1 + RunLength(s[0], s[1..], same)]
  }

  /** What follows the first element and its run. */
  function PastRun<T>(s: seq<T>, same: (T, T) -> bool): (r: seq<T>)
    requires s != []
    ensures |r| < |s|
  {
    s[1 + RunLength(s[0], s[1..], same)..]
  }

  /** The first element of each run. */
  function Heads<T>(s: seq<T>, same: (T, T) -> bool): (r: seq<T>)
    decreases |s|
  {
    if s == [] then [] else [s[0]] + Heads(PastRun(s, same), same)
  }

  /** The elements that Heads leaves out, in order. */
  function Repeats<T>(s: seq<T>, same: (T, T) -> bool): (r: seq<T>)
    decreases |s|
  {
    if s == [] then [] else Run(s, same) + Repeats(PastRun(s, same), same)
  }

  lemma {:induction false} HeadsSplit<T>(s: seq<T>, same: (T, T) -> bool)
    ensures multiset(s) == multiset(Heads(s, same)) + multiset(Repeats(s, same))
    decreases |s|
  {
    if s != [] {
      var n := RunLength(s[0], s[1..], same);
      var run, t := s[1..1 + n], PastRun(s, same);
      CutRun(s, n);
      HeadsSplit(t, same);
      RegroupRun(s, Heads(s, same), Repeats(s, same), [s[0]], run, t, Heads(t, same), Repeats(t, same));
    }
  }

  lemma CutRun<T>(s: seq<T>, n: nat)
    requires n < |s|
    ensures s == [s[0]] + (s[1..1 + n] + s[1 + n..])
  {
  }

  lemma RegroupRun<T>(s: seq<T>, heads: seq<T>, repeats: seq<T>,
                      x: seq<T>, run: seq<T>, t: seq<T>, h: seq<T>, r: seq<T>)
    requires s == x + (run + t) && heads == x + h && repeats == run + r
    requires multiset(t) == multiset(h) + multiset(r)
    ensures multiset(s) == multiset(heads) + multiset(repeats)
  {
  }

  lemma {:induction false} HeadsCount<T>(s: seq<T>, same: (T, T) -> bool)
    ensures |s| == |Heads(s, same)| + |Repeats(s, same)|
    decreases |s|
  {
    if s != [] {
      HeadsCount(PastRun(s, same), same);
    }
  }

  /** Run number i: its head is heads[i], behind that come elements matched with the head, up to
      the start of the next run, whose element is not. */
  ghost predicate IsRun<T>(s: seq<T>, same: (T, T) -> bool, starts: seq<nat>, heads: seq<T>, i: nat)
    requires i < |starts| == |heads|
  {
    var a, b := starts[i], if i + 1 < |starts| then starts[i + 1] else |s|;
    && a < b <= |s| && heads[i] == s[a]
    && (forall k :: a < k < b ==> same(s[a], s[k]))
    && (b < |s| ==> !same(s[a], s[b]))
  }

  /** The runs cover the sequence. */
  ghost predicate AreRuns<T>(s: seq<T>, same: (T, T) -> bool, starts: seq<nat>, heads: seq<T>)
  {
    && |starts| == |heads| && (s == [] <==> starts == []) && (s != [] ==> starts[0] == 0)
    && forall i :: 0 <= i < |starts| ==> IsRun(s, same, starts, heads, i)
  }

  /** The heads are those of the maximal runs. */
  lemma {:induction false} HeadsStartRuns<T>(s: seq<T>, same: (T, T) -> bool) returns (starts: seq<nat>)
    ensures AreRuns(s, same, starts, Heads(s, same))
    decreases |s|
  {
    if s == [] {
      starts := [];
    } else {
      var t := PastRun(s, same);
      var rest := HeadsStartRuns(t, same);
      starts := [0] + Shifted(rest, |s| - |t|);
      RunInFront(s, same, rest, Heads(t, same), starts);
    }
  }

  function Shifted(starts: seq<nat>, n: nat): seq<nat> {
    seq(|starts|, i requires 0 <= i < |starts| => starts[i] + n)
  }

  lemma RunInFront<T>(s: seq<T>, same: (T, T) -> bool, rest: seq<nat>, heads: seq<T>, starts: seq<nat>)
    requires s != [] && AreRuns(PastRun(s, same), same, rest, heads)
    requires starts == [0] + Shifted(rest, |s| - |PastRun(s, same)|)
    ensures AreRuns(s, same, starts, [s[0]] + heads)
  {
    FirstRun(s, same, starts, [s[0]] + heads);
    forall i | 0 < i < |starts| ensures IsRun(s, same, starts, [s[0]] + heads, i) {
      assert IsRun(PastRun(s, same), same, rest, heads, i - 1);
      LaterRun(s, same, |s| - |PastRun(s, same)|, rest, heads, starts, i);
    }
  }

  lemma FirstRun<T>(s: seq<T>, same: (T, T) -> bool, starts: seq<nat>, heads: seq<T>)
    requires s != [] && starts != [] && starts[0] == 0 && |heads| == |starts| && heads[0] == s[0]
    requires var n := 1 + RunLength(s[0], s[1..], same); if |starts| > 1 then starts[1] == n else n == |s|
    ensures IsRun(s, same, starts, heads, 0)
  {
    var n := 1 + RunLength(s[0], s[1..], same);
    forall k | 0 < k <= n && k < |s| ensures same(s[0], s[k]) <==> k < n {
      RunIsMaximal(s[0], s[1..], same, k - 1);
    }
  }

  lemma LaterRun<T>(s: seq<T>, same: (T, T) -> bool, n: nat, rest: seq<nat>, heads: seq<T>, starts: seq<nat>, i: nat)
    requires n <= |s| && starts == [0] + Shifted(rest, n) && 0 < i < |starts| && |heads| == |rest|
    requires IsRun(s[n..], same, rest, heads, i - 1)
    ensures IsRun(s, same, starts, [s[0]] + heads, i)
  {
    var b := if i + 1 < |starts| then starts[i + 1] else |s|;
    forall k | starts[i] < k < b ensures same(s[starts[i]], s[k]) {
      assert s[k] == s[n..][k - n];
    }
  }

  // ---- Reversing ---------------------------------------------------------------

  function Reversed<T>(s: seq<T>): (r: seq<T>)
    ensures |r| == |s|
    ensures forall i :: 0 <= i < |s| ==> r[i] == s[|s| - 1 - i]
  {
    if s == [] then [] else Reversed(s[1..]) + [s[0]]
  }

  // ---- Comparators -------------------------------------------------------------

  /** Any two different elements can be put in some order. */
  ghost predicate Comparable<T>(s: seq<T>, cmp: (T, T) -> bool) {
    forall x, y {:trigger cmp(x, y)} :: x in s && y in s && x != y ==> cmp(x, y) || cmp(y, x)
  }

  ghost predicate Transitive<T>(s: seq<T>, cmp: (T, T) -> bool) {
    forall x, y, z {:trigger cmp(x, y), cmp(y, z)} ::
      x in s && y in s && z in s && cmp(x, y) && cmp(y, z) ==> cmp(x, z)
  }

  /** The elements at i and i+1 are in order. */
  ghost predicate InOrder<T>(s: seq<T>, i: int, cmp: (T, T) -> bool) {
    0 <= i && i + 1 < |s| ==> cmp(s[i], s[i + 1])
  }

  ghost predicate NeighboursOrdered<T>(s: seq<T>, cmp: (T, T) -> bool) {
    forall i :: InOrder(s, i, cmp)
  }

  ghost predicate Ordered<T>(s: seq<T>, cmp: (T, T) -> bool) {
    forall i, j {:trigger s[i], s[j]} :: 0 <= i < j < |s| ==> cmp(s[i], s[j])
  }

  lemma {:induction false} NeighboursSuffice<T>(s: seq<T>, cmp: (T, T) -> bool, i: nat, j: nat)
    requires NeighboursOrdered(s, cmp) && Transitive(s, cmp) && i < j < |s|
    ensures cmp(s[i], s[j])
    decreases j
  {
    assert InOrder(s, j - 1, cmp);
    if i < j - 1 {
      NeighboursSuffice(s, cmp, i, j - 1);
    }
  }

  lemma OrderedWhenNeighboursAre<T>(s: seq<T>, cmp: (T, T) -> bool)
    requires NeighboursOrdered(s, cmp) && Transitive(s, cmp)
    ensures Ordered(s, cmp)
  {
    forall i, j | 0 <= i < j < |s| ensures cmp(s[i], s[j]) {
      NeighboursSuffice(s, cmp, i, j);
    }
  }

  // ---- The reference: stable insertion sort ---------------------------------------

  function Placed<T>(x: T, t: seq<T>, cmp: (T, T) -> bool): (r: seq<T>) {
    if t == [] || cmp(x, t[0]) then [x] + t else [t[0]] + Placed(x, t[1..], cmp)
  }

  function StableSort<T>(s: seq<T>, cmp: (T, T) -> bool): (r: seq<T>) {
    if s == [] then [] else Placed(s[0], StableSort(s[1..], cmp), cmp)
  }

  lemma {:induction false} PlacedMembers<T>(x: T, t: seq<T>, cmp: (T, T) -> bool)
    ensures multiset(Placed(x, t, cmp)) == multiset([x]) + multiset(t)
  {
    if t != [] && !cmp(x, t[0]) {
      PlacedMembers(x, t[1..], cmp);
      assert t == [t[0]] + t[1..];
    }
  }

  /** The reference sort is a permutation. */
  lemma {:induction false} StableSortMembers<T>(s: seq<T>, cmp: (T, T) -> bool)
    ensures multiset(StableSort(s, cmp)) == multiset(s)
  {
    if s != [] {
      StableSortMembers(s[1..], cmp);
      PlacedMembers(s[0], StableSort(s[1..], cmp), cmp);
      assert s == [s[0]] + s[1..];
    }
  }

  ghost predicate Within<T>(s: seq<T>, all: seq<T>) {
    forall i {:trigger s[i]} :: 0 <= i < |s| ==> s[i] in all
  }

  lemma SameMembers<T>(s: seq<T>, t: seq<T>)
    requires multiset(s) == multiset(t)
    ensures Within(s, t) && Within(t, s)
  {
    forall i | 0 <= i < |s| ensures s[i] in t {
      assert s[i] in multiset(t);
    }
    forall i | 0 <= i < |t| ensures t[i] in s {
      assert t[i] in multiset(s);
    }
  }

  lemma OrderedCons<T>(x: T, t: seq<T>, cmp: (T, T) -> bool)
    requires NeighboursOrdered(t, cmp) && (t != [] ==> cmp(x, t[0]))
    ensures NeighboursOrdered([x] + t, cmp)
  {
    forall i ensures InOrder([x] + t, i, cmp) {
      assert InOrder(t, i - 1, cmp);
    }
  }

  lemma OrderedTail<T>(s: seq<T>, cmp: (T, T) -> bool)
    requires NeighboursOrdered(s, cmp) && s != []
    ensures NeighboursOrdered(s[1..], cmp) && (|s| > 1 ==> cmp(s[0], s[1]))
  {
    assert InOrder(s, 0, cmp);
    forall i ensures InOrder(s[1..], i, cmp) {
      assert InOrder(s, i + 1, cmp);
    }
  }

  lemma {:induction false} PlacedOrdered<T>(x: T, t: seq<T>, cmp: (T, T) -> bool)
    requires NeighboursOrdered(t, cmp) && forall y :: y in t ==> cmp(x, y) || cmp(y, x)
    ensures NeighboursOrdered(Placed(x, t, cmp), cmp)
  {
    if t == [] || cmp(x, t[0]) {
      OrderedCons(x, t, cmp);
    } else {
      OrderedTail(t, cmp);
      PlacedOrdered(x, t[1..], cmp);
      assert t[0] in t;
      OrderedCons(t[0], Placed(x, t[1..], cmp), cmp);
    }
  }

  /** The reference sort is ordered. */
  lemma {:induction false} StableSortOrdered<T>(s: seq<T>, cmp: (T, T) -> bool)
    requires Distinct(s) && Comparable(s, cmp)
    ensures NeighboursOrdered(StableSort(s, cmp), cmp)
  {
    if s != [] {
      var t := s[1..];
      var sorted := StableSort(t, cmp);
      StableSortOrdered(t, cmp);
      SortedWithin(t, t, cmp);
      forall y | y in sorted ensures cmp(s[0], y) || cmp(y, s[0]) {
        assert y in t;
        var i :| 0 <= i < |t| && t[i] == y;
        assert s[0] in s && s[i + 1] in s && s[0] != s[i + 1];
      }
      PlacedOrdered(s[0], sorted, cmp);
    }
  }

  /** The elements of `s` that are tied with `x`, in order. */
  function Ties<T>(x: T, s: seq<T>, cmp: (T, T) -> bool): (r: seq<T>) {
    if s == [] then []
    else (if cmp(x, s[0]) && cmp(s[0], x) then [s[0]] else []) + Ties(x, s[1..], cmp)
  }

  lemma TiesOfCons<T>(x: T, y: T, t: seq<T>, cmp: (T, T) -> bool)
    ensures Ties(x, [y] + t, cmp) == (if cmp(x, y) && cmp(y, x) then [y] else []) + Ties(x, t, cmp)
  {
    assert ([y] + t)[1..] == t;
  }

  lemma {:induction false} PlacedKeepsTies<T>(x: T, y: T, t: seq<T>, all: seq<T>, cmp: (T, T) -> bool)
    requires Transitive(all, cmp) && x in all && y in all && Within(t, all)
    ensures Ties(x, Placed(y, t, cmp), cmp) == Ties(x, [y] + t, cmp)
    decreases t
  {
    if t != [] && !cmp(y, t[0]) {
      var r := Placed(y, t[1..], cmp);
      assert t[0] in t;
      assert !(cmp(y, x) && cmp(x, t[0]));
      PlacedKeepsTies(x, y, t[1..], all, cmp);
      TiesOfCons(x, t[0], r, cmp);
      TiesOfCons(x, y, t[1..], cmp);
      TiesOfCons(x, y, t, cmp);
    }
  }

  /** The reference sort is stable: elements tied with one another keep their order. */
  lemma {:induction false} StableSortStable<T>(x: T, s: seq<T>, all: seq<T>, cmp: (T, T) -> bool)
    requires Transitive(all, cmp) && x in all && Within(s, all)
    ensures Ties(x, StableSort(s, cmp), cmp) == Ties(x, s, cmp)
    decreases s
  {
    if s != [] {
      var sorted := StableSort(s[1..], cmp);
      StableSortStable(x, s[1..], all, cmp);
      SortedWithin(s[1..], all, cmp);
      PlacedKeepsTies(x, s[0], sorted, all, cmp);
      TiesOfCons(x, s[0], sorted, cmp);
    }
  }

  // ---- Exchanging neighbours ------------------------------------------------------

  function Exchanged<T>(s: seq<T>, k: nat): (r: seq<T>)
    requires k + 1 < |s|
    ensures |r| == |s|
  {
    s[k := s[k + 1]][k + 1 := s[k]]
  }

  lemma ExchangedMembers<T>(s: seq<T>, k: nat)
    requires k + 1 < |s|
    ensures multiset(Exchanged(s, k)) == multiset(s)
  {
    assert s == s[..k] + [s[k]] + [s[k + 1]] + s[k + 2..];
    assert Exchanged(s, k) == s[..k] + [s[k + 1]] + [s[k]] + s[k + 2..];
  }

  lemma PlacedOnCons<T>(x: T, y: T, t: seq<T>, cmp: (T, T) -> bool)
    ensures Placed(x, [y] + t, cmp) == if cmp(x, y) then [x] + ([y] + t) else [y] + Placed(x, t, cmp)
  {
    assert ([y] + t)[1..] == t;
  }

  lemma {:induction false} PlacedCommute<T>(a: T, b: T, t: seq<T>, all: seq<T>, cmp: (T, T) -> bool)
    requires !cmp(a, b) && cmp(b, a)
    requires Transitive(all, cmp) && a in all && b in all && Within(t, all)
    ensures Placed(a, Placed(b, t, cmp), cmp) == Placed(b, Placed(a, t, cmp), cmp)
    decreases t
  {
    PlacedOnCons(a, b, t, cmp);
    PlacedOnCons(b, a, t, cmp);
    if t != [] {
      assert t[0] in t;
      var y, u := t[0], t[1..];
      PlacedCommute(a, b, u, all, cmp);
      PlacedOnCons(a, y, Placed(b, u, cmp), cmp);
      PlacedOnCons(b, y, Placed(a, u, cmp), cmp);
    }
  }

  /** Exchanging two neighbours that are out of order does not change the sorted result. */
  lemma {:induction false} ExchangeKeepsSorted<T>(s: seq<T>, k: nat, all: seq<T>, cmp: (T, T) -> bool)
    requires k + 1 < |s| && Transitive(all, cmp) && Within(s, all)
    requires !cmp(s[k], s[k + 1]) && cmp(s[k + 1], s[k])
    ensures StableSort(Exchanged(s, k), cmp) == StableSort(s, cmp)
    decreases k
  {
    if k == 0 {
      assert s == [s[0]] + ([s[1]] + s[2..]);
      assert Exchanged(s, 0) == [s[1]] + ([s[0]] + s[2..]);
      SortOfTwoMore(s[0], s[1], s[2..], cmp);
      SortOfTwoMore(s[1], s[0], s[2..], cmp);
      SortedWithin(s[2..], all, cmp);
      PlacedCommute(s[0], s[1], StableSort(s[2..], cmp), all, cmp);
    } else {
      assert Exchanged(s, k)[1..] == Exchanged(s[1..], k - 1);
      ExchangeKeepsSorted(s[1..], k - 1, all, cmp);
    }
  }

  lemma SortOfTwoMore<T>(a: T, b: T, t: seq<T>, cmp: (T, T) -> bool)
    ensures StableSort([a] + ([b] + t), cmp) == Placed(a, Placed(b, StableSort(t, cmp), cmp), cmp)
  {
    assert ([a] + ([b] + t))[1..] == [b] + t;
    assert ([b] + t)[1..] == t;
  }

  lemma SortedWithin<T>(s: seq<T>, all: seq<T>, cmp: (T, T) -> bool)
    requires Within(s, all)
    ensures Within(StableSort(s, cmp), all)
  {
    var r := StableSort(s, cmp);
    StableSortMembers(s, cmp);
    SameMembers(r, s);
    forall i | 0 <= i < |r| ensures r[i] in all {
      assert r[i] in s;
    }
  }

  /** What is ordered is its own sorted form. */
  lemma {:induction false} OrderedIsSorted<T>(s: seq<T>, cmp: (T, T) -> bool)
    requires NeighboursOrdered(s, cmp)
    ensures StableSort(s, cmp) == s
  {
    if s != [] {
      OrderedTail(s, cmp);
      OrderedIsSorted(s[1..], cmp);
    }
  }

  // ---- The measure that makes the sort terminate ------------------------------------

  function Against<T>(x: T, t: seq<T>, cmp: (T, T) -> bool): (n: nat) {
    if t == [] then 0 else (if cmp(x, t[0]) then 0 else 1) + Against(x, t[1..], cmp)
  }

  /** The number of pairs that stand the wrong way round. */
  function Inversions<T>(s: seq<T>, cmp: (T, T) -> bool): (n: nat) {
    if s == [] then 0 else Against(s[0], s[1..], cmp) + Inversions(s[1..], cmp)
  }

  lemma {:induction false} AgainstExchanged<T>(x: T, s: seq<T>, k: nat, cmp: (T, T) -> bool)
    requires k + 1 < |s|
    ensures Against(x, Exchanged(s, k), cmp) == Against(x, s, cmp)
    decreases k
  {
    var r := Exchanged(s, k);
    if k == 0 {
      assert s[1..][1..] == r[1..][1..];
    } else {
      assert r[1..] == Exchanged(s[1..], k - 1);
      AgainstExchanged(x, s[1..], k - 1, cmp);
    }
  }

  /** Each exchange of neighbours out of order removes exactly one inversion. */
  lemma {:induction false} ExchangeRemovesOne<T>(s: seq<T>, k: nat, cmp: (T, T) -> bool)
    requires k + 1 < |s| && !cmp(s[k], s[k + 1]) && cmp(s[k + 1], s[k])
    ensures Inversions(Exchanged(s, k), cmp) == Inversions(s, cmp) - 1
    decreases k
  {
    var r := Exchanged(s, k);
    if k == 0 {
      assert s[1..][1..] == s[2..] && r[1..][1..] == s[2..];
    } else {
      assert r[1..] == Exchanged(s[1..], k - 1);
      ExchangeRemovesOne(s[1..], k - 1, cmp);
      AgainstExchanged(s[0], s[1..], k - 1, cmp);
    }
  }

  // ---- One pass of the sort, and when passes end ---------------------------------------

  /** The list after comparing positions k, k+1, ... in turn and exchanging where needed. */
  function PassFrom<T>(s: seq<T>, k: nat, cmp: (T, T) -> bool): (r: seq<T>)
    ensures |r| == |s|
    decreases |s| - k
  {
    if k + 1 >= |s| then s
    else if cmp(s[k], s[k + 1]) then PassFrom(s, k + 1, cmp)
    else PassFrom(Exchanged(s, k), k + 1, cmp)
  }

  /** The list after n passes. */
  function Passes<T>(s: seq<T>, n: nat, cmp: (T, T) -> bool): (r: seq<T>)
    decreases n
  {
    if n == 0 then s else Passes(PassFrom(s, 0, cmp), n - 1, cmp)
  }

  /** Some pass is reached that exchanges nothing: the loop `while (!sorted)` ends. */
  ghost predicate Terminates<T>(s: seq<T>, cmp: (T, T) -> bool) {
    exists n :: NeighboursOrdered(Passes(s, n, cmp), cmp)
  }

  lemma {:induction false} PassMembers<T>(s: seq<T>, k: nat, cmp: (T, T) -> bool)
    ensures multiset(PassFrom(s, k, cmp)) == multiset(s)
    decreases |s| - k
  {
    if k + 1 < |s| {
      ExchangedMembers(s, k);
      PassMembers(if cmp(s[k], s[k + 1]) then s else Exchanged(s, k), k + 1, cmp);
    }
  }

  lemma {:induction false} PassesMembers<T>(s: seq<T>, n: nat, cmp: (T, T) -> bool)
    ensures multiset(Passes(s, n, cmp)) == multiset(s)
    decreases n
  {
    if n > 0 {
      PassMembers(s, 0, cmp);
      PassesMembers(PassFrom(s, 0, cmp), n - 1, cmp);
    }
  }

  lemma DistinctExchanged<T>(s: seq<T>, k: nat)
    requires Distinct(s) && k + 1 < |s|
    ensures Distinct(Exchanged(s, k))
  {
  }

  lemma ComparableExchanged<T>(s: seq<T>, k: nat, cmp: (T, T) -> bool)
    requires Comparable(s, cmp) && k + 1 < |s|
    ensures Comparable(Exchanged(s, k), cmp)
  {
    ExchangedMembers(s, k);
    SameMembers(s, Exchanged(s, k));
  }

  /** A pass that moves anything lowers the number of inversions. */
  lemma {:induction false} PassProgress<T>(s: seq<T>, k: nat, cmp: (T, T) -> bool)
    requires Distinct(s) && Comparable(s, cmp)
    ensures Distinct(PassFrom(s, k, cmp)) && Comparable(PassFrom(s, k, cmp), cmp)
    ensures Inversions(PassFrom(s, k, cmp), cmp) <= Inversions(s, cmp)
    ensures forall i :: k <= i && !InOrder(s, i, cmp) ==>
              Inversions(PassFrom(s, k, cmp), cmp) < Inversions(s, cmp)
    decreases |s| - k
  {
    if k + 1 < |s| {
      if cmp(s[k], s[k + 1]) {
        PassProgress(s, k + 1, cmp);
      } else {
        assert s[k] in s && s[k + 1] in s;
        assert cmp(s[k + 1], s[k]);
        ExchangeRemovesOne(s, k, cmp);
        DistinctExchanged(s, k);
        ComparableExchanged(s, k, cmp);
        PassProgress(Exchanged(s, k), k + 1, cmp);
      }
    }
  }

  lemma {:induction false} ComparableTerminates<T>(s: seq<T>, cmp: (T, T) -> bool) returns (n: nat)
    requires Distinct(s) && Comparable(s, cmp)
    ensures NeighboursOrdered(Passes(s, n, cmp), cmp)
    decreases Inversions(s, cmp)
  {
    n := 0;
    if !NeighboursOrdered(s, cmp) {
      PassProgress(s, 0, cmp);
      var m := ComparableTerminates(PassFrom(s, 0, cmp), cmp);
      n := m + 1;
    }
  }

  /**
   * For a transitive comparator the sort ends exactly when no two different elements are
   * refused both ways round. In particular a comparator that answers false on ties, as
   * "a < b" does, makes the sort of a list with two equal elements run for ever.
   */
  lemma {:induction false} TerminatesIffComparable<T>(s: seq<T>, cmp: (T, T) -> bool)
    requires Distinct(s) && Transitive(s, cmp)
    ensures Terminates(s, cmp) <==> Comparable(s, cmp)
  {
    if Comparable(s, cmp) {
      var n := ComparableTerminates(s, cmp);
    }
    if Terminates(s, cmp) {
      var n :| NeighboursOrdered(Passes(s, n, cmp), cmp);
      var r := Passes(s, n, cmp);
      PassesMembers(s, n, cmp);
      SameMembers(s, r);
      assert Transitive(r, cmp);
      OrderedWhenNeighboursAre(r, cmp);
      forall x, y | x in s && y in s && x != y ensures cmp(x, y) || cmp(y, x) {
        assert x in r && y in r;
        var i :| 0 <= i < |r| && r[i] == x;
        var j :| 0 <= j < |r| && r[j] == y;
        assert i < j || j < i;
      }
    }
  }

  /** Two equal numbers, compared with "less than", are exchanged for ever. */
  lemma StrictComparisonNeverEnds()
    ensures var s := [(0, 5), (1, 5)];
            !Terminates(s, (a: (int, int), b: (int, int)) => a.1 < b.1)
  {
    var s := [(0, 5), (1, 5)];
    var less := (a: (int, int), b: (int, int)) => a.1 < b.1;
    assert Transitive(s, less);
    TerminatesIffComparable(s, less);
    assert s[0] in s && s[1] in s;
    assert !less(s[0], s[1]) && !less(s[1], s[0]);
  }

  // ---- Sorting, then dropping runs ----------------------------------------------------

  lemma {:induction false} HeadFrom<T>(s: seq<T>, same: (T, T) -> bool, j: nat) returns (k: nat)
    requires j < |Heads(s, same)|
    ensures k < |s| && Heads(s, same)[j] == s[k]
    decreases |s|
  {
    k := 0;
    if j > 0 {
      var n := RunLength(s[0], s[1..], same);
      k := HeadFrom(PastRun(s, same), same, j - 1);
      k := 1 + n + k;
    }
  }

  /** `same` holds of two elements exactly when they are tied. */
  ghost predicate MatchesTies<T>(s: seq<T>, cmp: (T, T) -> bool, same: (T, T) -> bool) {
    forall x, y {:trigger same(x, y)} :: x in s && y in s ==> (same(x, y) <==> cmp(x, y) && cmp(y, x))
  }

  /** Past the run of ties with the first element, everything is strictly greater. */
  lemma BeyondTheRun<T>(s: seq<T>, cmp: (T, T) -> bool, same: (T, T) -> bool, i: nat)
    requires s != [] && Ordered(s, cmp) && Transitive(s, cmp)
    requires MatchesTies(s, cmp, same)
    requires 1 + RunLength(s[0], s[1..], same) <= i < |s|
    ensures !cmp(s[i], s[0])
  {
    var n := RunLength(s[0], s[1..], same);
    RunIsMaximal(s[0], s[1..], same, n);
    assert cmp(s[0], s[1 + n]);
    assert s[i] in s && s[0] in s && s[1 + n] in s;
    assert i == 1 + n || cmp(s[1 + n], s[i]);
  }

  lemma OrderedSuffix<T>(s: seq<T>, cmp: (T, T) -> bool, same: (T, T) -> bool, n: nat)
    requires n <= |s| && Ordered(s, cmp) && Transitive(s, cmp)
    requires MatchesTies(s, cmp, same)
    ensures Ordered(s[n..], cmp) && Transitive(s[n..], cmp) && MatchesTies(s[n..], cmp, same)
  {
    forall i, j | 0 <= i < j < |s[n..]| ensures cmp(s[n..][i], s[n..][j]) {
      assert cmp(s[n + i], s[n + j]);
    }
  }

  /** On an ordered sequence, the heads of the runs of ties ascend strictly. */
  lemma {:induction false} HeadsAscend<T>(s: seq<T>, cmp: (T, T) -> bool, same: (T, T) -> bool, i: nat, j: nat)
    requires Ordered(s, cmp) && Transitive(s, cmp)
    requires MatchesTies(s, cmp, same)
    requires i < j < |Heads(s, same)|
    ensures !cmp(Heads(s, same)[j], Heads(s, same)[i])
    decreases |s|
  {
    if i > 0 {
      PastRunOrdered(s, cmp, same);
      HeadsNext(s, same, i);
      HeadsNext(s, same, j);
      HeadsAscend(PastRun(s, same), cmp, same, i - 1, j - 1);
    } else {
      FirstIsLeast(s, cmp, same, j);
    }
  }

  lemma PastRunOrdered<T>(s: seq<T>, cmp: (T, T) -> bool, same: (T, T) -> bool)
    requires s != [] && Ordered(s, cmp) && Transitive(s, cmp) && MatchesTies(s, cmp, same)
    ensures var t := PastRun(s, same); Ordered(t, cmp) && Transitive(t, cmp) && MatchesTies(t, cmp, same)
  {
    OrderedSuffix(s, cmp, same, 1 + RunLength(s[0], s[1..], same));
  }

  lemma HeadsNext<T>(s: seq<T>, same: (T, T) -> bool, j: nat)
    requires 0 < j < |Heads(s, same)|
    ensures var r := Heads(PastRun(s, same), same); j - 1 < |r| && Heads(s, same)[j] == r[j - 1]
  {
  }

  lemma FirstIsLeast<T>(s: seq<T>, cmp: (T, T) -> bool, same: (T, T) -> bool, j: nat)
    requires Ordered(s, cmp) && Transitive(s, cmp) && MatchesTies(s, cmp, same)
    requires 0 < j < |Heads(s, same)|
    ensures !cmp(Heads(s, same)[j], s[0])
  {
    var i := LaterHead(s, same, j);
    BeyondTheRun(s, cmp, same, i);
  }

  /** A head other than the first stands past the first run. */
  lemma LaterHead<T>(s: seq<T>, same: (T, T) -> bool, j: nat) returns (i: nat)
    requires 0 < j < |Heads(s, same)|
    ensures 1 + RunLength(s[0], s[1..], same) <= i < |s| && Heads(s, same)[j] == s[i]
  {
    var k := HeadFrom(PastRun(s, same), same, j - 1);
    i := 1 + RunLength(s[0], s[1..], same) + k;
  }

  /** Every element is a head or is matched with one. */
  lemma {:induction false} HeadsRepresent<T>(s: seq<T>, same: (T, T) -> bool, i: nat) returns (h: T)
    requires i < |s|
    ensures h in Heads(s, same) && (h == s[i] || same(h, s[i]))
    decreases |s|
  {
    var n := RunLength(s[0], s[1..], same);
    if i <= n {
      h := s[0];
      if i > 0 { RunIsMaximal(s[0], s[1..], same, i - 1); }
    } else {
      h := HeadsRepresent(PastRun(s, same), same, i - 1 - n);
    }
  }

  /**
   * Sorting and then dropping runs of ties leaves a strictly ascending sequence in which
   * every original element is present or has a representative it is tied with.
   */
  lemma SortThenThin<T>(s: seq<T>, cmp: (T, T) -> bool, same: (T, T) -> bool)
    requires Distinct(s) && Comparable(s, cmp) && Transitive(s, cmp) && MatchesTies(s, cmp, same)
    ensures var r := Heads(StableSort(s, cmp), same);
            && (forall i, j :: 0 <= i < j < |r| ==> !cmp(r[j], r[i]))
            && forall x :: x in s ==> exists h :: h in r && (h == x || same(h, x))
  {
    var sorted := StableSort(s, cmp);
    var r := Heads(sorted, same);
    StableSortMembers(s, cmp);
    SameMembers(s, sorted);
    StableSortOrdered(s, cmp);
    OrderedWhenNeighboursAre(sorted, cmp);
    forall i, j | 0 <= i < j < |r| ensures !cmp(r[j], r[i]) {
      HeadsAscend(sorted, cmp, same, i, j);
    }
    forall x | x in s ensures exists h :: h in r && (h == x || same(h, x)) {
      assert x in sorted;
      var i :| 0 <= i < |sorted| && sorted[i] == x;
      var h := HeadsRepresent(sorted, same, i);
    }
  }
}
