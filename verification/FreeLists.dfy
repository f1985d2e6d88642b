/** The free lists of the heap, as sequences of chunk starts, one sequence a bucket. The
    size-class function `home` (from a length in units to a bucket) is a parameter. */
module FreeLists {
  import opened Basics
  import opened HeapChunks

  type Lists = seq<seq<nat>>
  type Classes = nat -> nat

  /** A legitimate entry of bucket `b`: a free chunk of that size class which is not being
      worked on. */
  predicate Entry(home: Classes, m: Chunks, loose: set<nat>, b: nat, u: nat)
  {
    FreeAt(m, u) && u !in loose && home(m[u].units) == b
  }

  ghost predicate Sound(home: Classes, m: Chunks, lists: Lists, loose: set<nat>)
  {
    forall b, i {:trigger lists[b][i]} :: 0 <= b < |lists| && 0 <= i < |lists[b]| ==>
      Entry(home, m, loose, b, lists[b][i])
  }

  predicate AtHome(home: Classes, m: Chunks, lists: Lists, u: nat)
  {
    u in m && home(m[u].units) < |lists| && u in lists[home(m[u].units)]
  }

  ghost predicate Complete(home: Classes, m: Chunks, lists: Lists, loose: set<nat>)
  {
    forall u {:trigger AtHome(home, m, lists, u)} :: FreeAt(m, u) && u !in loose ==> AtHome(home, m, lists, u)
  }

  /** Every free chunk is in exactly one list, that of its size class, exactly once, and the
      lists hold nothing else. The `loose` chunks are exempt: they are between two lists. */
  ghost predicate Partition(home: Classes, m: Chunks, lists: Lists, loose: set<nat>)
  {
    && Sound(home, m, lists, loose)
    && (forall b :: 0 <= b < |lists| ==> Distinct(lists[b]))
    && Complete(home, m, lists, loose)
  }

  lemma TakeOut(home: Classes, m: Chunks, lists: Lists, loose: set<nat>, b: nat, k: nat)
    requires Partition(home, m, lists, loose) && b < |lists| && k < |lists[b]|
    ensures Partition(home, m, lists[b := Without(lists[b], k)], loose + {lists[b][k]})
  {
    var elem := lists[b][k];
    var loose' := loose + {elem};
    var lists' := lists[b := Without(lists[b], k)];
    forall c, i | 0 <= c < |lists'| && 0 <= i < |lists'[c]| ensures Entry(home, m, loose', c, lists'[c][i]) {
      assert Entry(home, m, loose, b, elem);
      if c == b {
        var j := if i < k then i else i + 1;
        assert lists'[c][i] == lists[b][j];
      } else {
        assert lists'[c][i] == lists[c][i];
      }
    }
    forall u | FreeAt(m, u) && u !in loose' ensures AtHome(home, m, lists', u) {
      assert AtHome(home, m, lists, u);
      var h := home(m[u].units);
      if h == b {
        var j :| 0 <= j < |lists[b]| && lists[b][j] == u;
        assert lists'[b][if j < k then j else j - 1] == u;
      }
    }
  }

  lemma PutIn(home: Classes, m: Chunks, lists: Lists, loose: set<nat>, u: nat)
    requires Partition(home, m, lists, loose) && u in m && u in loose && home(m[u].units) < |lists|
    ensures var b := home(m[u].units);
            Partition(home, SetUsed(m, u, false), lists[b := [u] + lists[b]], loose - {u})
  {
    var b := home(m[u].units);
    var m' := SetUsed(m, u, false);
    var lists' := lists[b := [u] + lists[b]];
    forall c, i | 0 <= c < |lists'| && 0 <= i < |lists'[c]| ensures Entry(home, m', loose - {u}, c, lists'[c][i]) {
      if c == b {
        if i > 0 { assert Entry(home, m, loose, b, lists[b][i - 1]); }
      } else {
        assert Entry(home, m, loose, c, lists[c][i]);
      }
    }
    assert Distinct(lists'[b]) by {
      forall j | 0 <= j < |lists[b]| ensures lists[b][j] != u { assert Entry(home, m, loose, b, lists[b][j]); }
    }
    forall v | FreeAt(m', v) && v !in loose - {u} ensures AtHome(home, m', lists', v) {
      if v == u { assert lists'[b][0] == u; }
      else {
        assert AtHome(home, m, lists, v);
        if home(m[v].units) == b { assert v in lists'[b]; }
      }
    }
  }

  /** A change of the chunk map that leaves the listed free chunks alone keeps the lists. */
  lemma Reframe(home: Classes, m: Chunks, m': Chunks, lists: Lists, loose: set<nat>, loose': set<nat>)
    requires Partition(home, m, lists, loose)
    requires forall u :: FreeAt(m, u) && u !in loose <==> FreeAt(m', u) && u !in loose'
    requires forall u :: FreeAt(m, u) && u !in loose ==> u in m' && m'[u].units == m[u].units
    ensures Partition(home, m', lists, loose')
  {
    forall b, i | 0 <= b < |lists| && 0 <= i < |lists[b]| ensures Entry(home, m', loose', b, lists[b][i]) {
      assert Entry(home, m, loose, b, lists[b][i]);
    }
    forall u | FreeAt(m', u) && u !in loose' ensures AtHome(home, m', lists, u) {
      assert AtHome(home, m, lists, u);
    }
  }

  // ---------------------------------------------------------------- what each call does to the lists

  function EmptyLists(n: nat): (lists: Lists)
    ensures |lists| == n && forall b :: 0 <= b < n ==> lists[b] == []
  {
    seq(n, _ => [])
  }

  /** The list without the chunk x. */
  function Dropped(s: seq<nat>, x: nat): seq<nat>
  {
    if s == [] then [] else if s[0] == x then s[1..] else [s[0]] + Dropped(s[1..], x)
  }

  lemma {:induction false} DroppedAt(s: seq<nat>, k: nat)
    requires Distinct(s) && k < |s|
    ensures Dropped(s, s[k]) == Without(s, k)
    decreases |s|
  {
    if k > 0 {
      DroppedAt(s[1..], k - 1);
      assert Without(s, k) == [s[0]] + Without(s[1..], k - 1);
    }
  }

  function Delisted(home: Classes, m: Chunks, lists: Lists, w: nat): (r: Lists)
    requires w in m
    ensures |r| == |lists|
  {
    var b := home(m[w].units);
    if b < |lists| then lists[b := Dropped(lists[b], w)] else lists
  }

  function DelistedIfFree(home: Classes, m: Chunks, lists: Lists, w: nat): (r: Lists)
    ensures |r| == |lists|
  {
    if FreeAt(m, w) then Delisted(home, m, lists, w) else lists
  }

  /** A chunk is listed in front of the others of its class. */
  function Enlisted(home: Classes, m: Chunks, lists: Lists, u: nat): (r: Lists)
    requires u in m
    ensures |r| == |lists|
  {
    var b := home(m[u].units);
    if b < |lists| then lists[b := [u] + lists[b]] else lists
  }

  function AllocLists(home: Classes, m: Chunks, lists: Lists, u: nat, n: nat): (r: Lists)
    requires u in m && 0 < n <= m[u].units
    ensures |r| == |lists|
  {
    ShrinkLists(home, m, Delisted(home, m, lists, u), u, n)
  }

  function ShrinkLists(home: Classes, m: Chunks, lists: Lists, u: nat, n: nat): (r: Lists)
    requires u in m && 0 < n <= m[u].units
    ensures |r| == |lists|
  {
    if n < m[u].units then Enlisted(home, Split(m, u, n), lists, u + n) else lists
  }

  ghost function FreedLists(home: Classes, m: Chunks, lists: Lists, u: nat, end: nat): (r: Lists)
    ensures |r| == |lists|
  {
    if !Tiled(m, end) || u !in m then lists else
      JoinNextTiled(m, u, end);
      var m1 := JoinNext(m, u);
      assert Fits(m1, end, u);
      var lists1 := DelistedIfFree(home, m, lists, Past(m, u));
      var lists2 := DelistedIfFree(home, m1, lists1, m1[u].prev);
      Enlisted(home, FreeChunk(m, u, end), lists2, Joined(m1, u))
  }

  ghost function MovedLists(home: Classes, m: Chunks, lists: Lists, v: nat, n: nat, u: nat, end: nat): (r: Lists)
    requires v in m && 0 < n <= m[v].units
    ensures |r| == |lists|
  {
    FreedLists(home, AllocChunk(m, v, n), AllocLists(home, m, lists, v, n), u, end)
  }

  /** The chunk to take for `bytes` bytes: of all free chunks that are as large, one in the least
      size class, and of those the one that was listed last. */
  ghost predicate BestFit(home: Classes, m: Chunks, lists: Lists, u: nat, bytes: nat)
  {
    && FreeAt(m, u) && 8 * m[u].units >= bytes
    && (forall w :: FreeAt(m, w) && 8 * m[w].units >= bytes ==> home(m[u].units) <= home(m[w].units))
    && var b := home(m[u].units);
    b < |lists| && lists[b] != [] && lists[b][0] == u
  }

  /** There is only one such chunk. */
  lemma BestFitUnique(home: Classes, m: Chunks, lists: Lists, u: nat, v: nat, bytes: nat)
    requires BestFit(home, m, lists, u, bytes) && BestFit(home, m, lists, v, bytes)
    ensures u == v
  {
  }

  // ---------------------------------------------------------------- and what every call keeps of them

  lemma DelistedPartition(home: Classes, m: Chunks, lists: Lists, loose: set<nat>, w: nat)
    requires Partition(home, m, lists, loose) && FreeAt(m, w) && w !in loose
    ensures Partition(home, m, Delisted(home, m, lists, w), loose + {w})
  {
    assert AtHome(home, m, lists, w);
    var b := home(m[w].units);
    var k :| 0 <= k < |lists[b]| && lists[b][k] == w;
    DroppedAt(lists[b], k);
    TakeOut(home, m, lists, loose, b, k);
  }

  lemma EnlistedPartition(home: Classes, m: Chunks, lists: Lists, loose: set<nat>, u: nat)
    requires Partition(home, m, lists, loose) && FreeAt(m, u) && u in loose && home(m[u].units) < |lists|
    ensures Partition(home, m, Enlisted(home, m, lists, u), loose - {u})
  {
    PutIn(home, m, lists, loose, u);
    assert SetUsed(m, u, false) == m;
  }

  /** Cutting a tail off a chunk that is in use or not listed, and listing the tail. */
  lemma ShrinkPartition(home: Classes, m: Chunks, lists: Lists, loose: set<nat>, u: nat, n: nat)
    requires NoOverlap(m) && Partition(home, m, lists, loose) && u in m && 0 < n <= m[u].units
    requires (m[u].used || u in loose) && forall x :: x in loose ==> x in m
    requires n < m[u].units ==> home(m[u].units - n) < |lists|
    ensures Partition(home, if n < m[u].units then Split(m, u, n) else m, ShrinkLists(home, m, lists, u, n), loose)
  {
    if n < m[u].units {
      SplitNoOverlap(m, u, n);
      var m' := Split(m, u, n);
      Reframe(home, m, m', lists, loose, loose + {u + n});
      EnlistedPartition(home, m', lists, loose + {u + n}, u + n);
      assert loose + {u + n} - {u + n} == loose;
    }
  }

  lemma AllocPartition(home: Classes, m: Chunks, lists: Lists, u: nat, n: nat)
    requires NoOverlap(m) && Partition(home, m, lists, {}) && FreeAt(m, u) && 0 < n <= m[u].units
    requires n < m[u].units ==> home(m[u].units - n) < |lists|
    ensures Partition(home, AllocChunk(m, u, n), AllocLists(home, m, lists, u, n), {})
  {
    DelistedPartition(home, m, lists, {}, u);
    assert {} + {u} == {u};
    var lists1 := Delisted(home, m, lists, u);
    ShrinkPartition(home, m, lists1, {u}, u, n);
    if n < m[u].units { SplitNoOverlap(m, u, n); }
    Reframe(home, if n < m[u].units then Split(m, u, n) else m, AllocChunk(m, u, n), AllocLists(home, m, lists, u, n), {u}, {});
  }

  /** Joining the chunk `u`, which is not listed, with the chunk behind it, just taken out. */
  lemma MergePartition(home: Classes, m: Chunks, lists: Lists, u: nat, gone: set<nat>, kept: nat)
    requires NoOverlap(m) && u in m && Past(m, u) in m && m[u].units > 0
    requires gone == {u, Past(m, u)} && kept == u && Partition(home, m, lists, gone)
    ensures Partition(home, Merge(m, u), lists, {kept})
  {
    Reframe(home, m, Merge(m, u), lists, gone, {kept});
  }

  lemma JoinNextPartition(home: Classes, m: Chunks, lists: Lists, u: nat, end: nat)
    requires Tiled(m, end) && Partition(home, m, lists, {u}) && u in m
    ensures Partition(home, JoinNext(m, u), DelistedIfFree(home, m, lists, Past(m, u)), {u})
  {
    assert Fits(m, end, u);
    var v := Past(m, u);
    if FreeAt(m, v) {
      DelistedPartition(home, m, lists, {u}, v);
      assert {u} + {v} == {u, v};
      MergePartition(home, m, Delisted(home, m, lists, v), u, {u, v}, u);
    }
  }

  lemma JoinPrevPartition(home: Classes, m: Chunks, lists: Lists, u: nat, end: nat)
    requires Tiled(m, end) && Partition(home, m, lists, {u}) && Fits(m, end, u)
    ensures Partition(home, JoinPrev(m, u), DelistedIfFree(home, m, lists, m[u].prev), {Joined(m, u)})
  {
    var p := m[u].prev;
    if FreeAt(m, p) {
      assert Fits(m, end, p);
      DelistedPartition(home, m, lists, {u}, p);
      assert {u} + {p} == {p, u};
      MergePartition(home, m, Delisted(home, m, lists, p), p, {p, u}, p);
    }
  }

  lemma FreedPartition(home: Classes, m: Chunks, lists: Lists, u: nat, end: nat)
    requires Tiled(m, end) && Partition(home, m, lists, {}) && u in m && m[u].used
    requires forall x :: x in FreeChunk(m, u, end) ==> home(FreeChunk(m, u, end)[x].units) < |lists|
    ensures Partition(home, FreeChunk(m, u, end), FreedLists(home, m, lists, u, end), {})
  {
    Reframe(home, m, m, lists, {}, {u});
    JoinNextTiled(m, u, end);
    JoinNextPartition(home, m, lists, u, end);
    var m1, lists1 := JoinNext(m, u), DelistedIfFree(home, m, lists, Past(m, u));
    assert Fits(m1, end, u);
    JoinPrevPartition(home, m1, lists1, u, end);
    var lists2 := DelistedIfFree(home, m1, lists1, m1[u].prev);
    var h, m3 := Joined(m1, u), FreeChunk(m, u, end);
    assert m3 == SetUsed(JoinPrev(m1, u), h, false);
    assert h in m3 && m3[h].units == JoinPrev(m1, u)[h].units;
    ListedPartition(home, JoinPrev(m1, u), lists2, Joined(m1, u));
  }

  lemma ListedPartition(home: Classes, m: Chunks, lists: Lists, h: nat)
    requires Partition(home, m, lists, {h}) && h in m && home(m[h].units) < |lists|
    ensures var m' := SetUsed(m, h, false); Partition(home, m', Enlisted(home, m', lists, h), {})
  {
    var m' := SetUsed(m, h, false);
    Reframe(home, m, m', lists, {h}, {h});
    EnlistedPartition(home, m', lists, {h}, h);
    assert {h} - {h} == {};
  }
}
