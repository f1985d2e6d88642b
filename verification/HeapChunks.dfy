/** The chunk map of the heap: which 8-byte units start a chunk, how long it is, whether it
    is in use and where its physical predecessor starts. Unit indexes count from the heap
    start, as the `phys_prev`, `fprev` and `fnext` fields do; 0 stands for "none". */
module HeapChunks {

  const FIRST := 11        // HEAP_HEADER_SIZE / 8: the first unit behind the heap header

  datatype Chunk = Chunk(units: nat, used: bool, prev: nat)
  type Chunks = map<nat, Chunk>

  /** The unit right behind chunk `u`. */
  function Past(m: Chunks, u: nat): nat
    requires u in m
  {
    u + m[u].units
  }

  /** Chunk `u` touches its neighbours: its end is the heap end or another chunk, and its
      back-link names the chunk that ends where it starts. */
  predicate Fits(m: Chunks, end: nat, u: nat)
  {
    && u in m
    && FIRST <= u < Past(m, u) <= end
    && (Past(m, u) < end ==> Past(m, u) in m)
    && (u == FIRST ==> m[u].prev == 0)
    && (u != FIRST ==> m[u].prev in m && Past(m, m[u].prev) == u)
  }

  ghost predicate NoOverlap(m: Chunks)
  {
    forall u, v {:trigger m[u], m[v]} :: u in m && v in m && u < v ==> u + m[u].units <= v
  }

  /** The chunks tile the units from FIRST to `end` exactly. */
  ghost predicate Tiled(m: Chunks, end: nat)
  {
    && FIRST in m
    && (forall u :: u in m ==> FIRST <= u)
    && (forall u {:trigger Fits(m, end, u)} :: u in m ==> Fits(m, end, u))
    && NoOverlap(m)
  }

  predicate FreeAt(m: Chunks, u: nat)
  {
    u in m && !m[u].used
  }

  /** Chunk `u` and the chunk behind it are not both free. */
  predicate Apart(m: Chunks, u: nat)
  {
    u in m && (m[u].used || !FreeAt(m, Past(m, u)))
  }

  /** No two physically adjacent chunks are both free. */
  ghost predicate Coalesced(m: Chunks)
  {
    forall u {:trigger Apart(m, u)} :: u in m ==> Apart(m, u)
  }

  /** Sets the back-link of the chunk that starts at `v`, if there is one. */
  function Relink(m: Chunks, v: nat, prev: nat): Chunks
  {
    if v in m then m[v := m[v].(prev := prev)] else m
  }

  /** Cuts chunk `u` down to `n` units; the rest becomes a free chunk. */
  function Split(m: Chunks, u: nat, n: nat): Chunks
    requires u in m && 0 < n < m[u].units
  {
    Relink(m, Past(m, u), u + n)[u + n := Chunk(m[u].units - n, false, u)][u := m[u].(units := n)]
  }

  /** Joins chunk `u` with the chunk behind it. */
  function Merge(m: Chunks, u: nat): Chunks
    requires u in m && Past(m, u) in m
  {
    var v := Past(m, u);
    (Relink(m, Past(m, v), u) - {v})[u := m[u].(units := m[u].units + m[v].units)]
  }

  function SetUsed(m: Chunks, u: nat, used: bool): Chunks
    requires u in m
  {
    m[u := m[u].(used := used)]
  }

  /** What `mem_alloc` does to chunk `u` for a block of `n` units. */
  function AllocChunk(m: Chunks, u: nat, n: nat): Chunks
    requires u in m && 0 < n <= m[u].units
  {
    SetUsed(if n < m[u].units then Split(m, u, n) else m, u, true)
  }

  /** What `mem_free` does: join with the successor, then with the predecessor, if free. */
  function JoinNext(m: Chunks, u: nat): Chunks
    requires u in m
  {
    if FreeAt(m, Past(m, u)) then Merge(m, u) else m
  }

  /** Where the freed chunk starts once it has been joined with its predecessor. */
  function Joined(m: Chunks, u: nat): nat
    requires u in m
  {
    if FreeAt(m, m[u].prev) then m[u].prev else u
  }

  function JoinPrev(m: Chunks, u: nat): Chunks
    requires u in m && (FreeAt(m, m[u].prev) ==> Past(m, m[u].prev) == u)
  {
    if FreeAt(m, m[u].prev) then Merge(m, m[u].prev) else m
  }

  ghost function FreeChunk(m: Chunks, u: nat, end: nat): Chunks
  {
    if !Tiled(m, end) || u !in m then m else
      assert Fits(m, end, u);
      JoinNextTiled(m, u, end);
      var m1 := JoinNext(m, u);
      assert Fits(m1, end, u);
      SetUsed(JoinPrev(m1, u), Joined(m1, u), false)
  }

  /** What an in-place `mem_realloc` does to the block `u` for a new length of `n` units. */
  function ShrinkChunk(m: Chunks, u: nat, n: nat): Chunks
    requires u in m && 0 < n <= m[u].units
  {
    if n < m[u].units then Split(m, u, n) else m
  }

  // ---------------------------------------------------------------- tiling is kept

  lemma SplitFits(m: Chunks, u: nat, n: nat, end: nat, x: nat)
    requires NoOverlap(m) && Fits(m, end, u) && 0 < n < m[u].units
    requires x == u + n || Fits(m, end, x)
    ensures Fits(Split(m, u, n), end, x)
  {
    var r, p := Split(m, u, n), Past(m, u);
    assert r[u] == m[u].(units := n) && r[u + n] == Chunk(m[u].units - n, false, u);
    assert p in m ==> r[p] == m[p].(prev := u + n);
    if x != u && x != u + n && x != p {
      assert r[x] == m[x] && m[x].prev != u;
      assert x != FIRST ==> r[m[x].prev].units == m[m[x].prev].units;
    }
  }

  lemma SplitNoOverlap(m: Chunks, u: nat, n: nat)
    requires NoOverlap(m) && u in m && 0 < n < m[u].units
    ensures u + n !in m
    ensures NoOverlap(Split(m, u, n))
  {
  }

  lemma SplitTiled(m: Chunks, u: nat, n: nat, end: nat)
    requires Tiled(m, end) && u in m && 0 < n < m[u].units
    ensures u + n !in m
    ensures Tiled(Split(m, u, n), end)
  {
    assert Fits(m, end, u);
    SplitNoOverlap(m, u, n);
    forall x | x in Split(m, u, n) ensures Fits(Split(m, u, n), end, x) {
      assert x != u + n ==> Fits(m, end, x);
      SplitFits(m, u, n, end, x);
    }
  }

  lemma MergeFits(m: Chunks, u: nat, end: nat, x: nat)
    requires NoOverlap(m) && Fits(m, end, u) && Past(m, u) in m && Fits(m, end, Past(m, u))
    requires x != Past(m, u) && Fits(m, end, x)
    ensures Fits(Merge(m, u), end, x)
  {
    if x == u {
      MergedSelfFits(m, u, end);
    } else if x == Past(m, Past(m, u)) {
      MergedNextFits(m, u, end);
    } else {
      UntouchedFits(m, u, end, x);
    }
  }

  lemma MergedSelfFits(m: Chunks, u: nat, end: nat)
    requires NoOverlap(m) && Fits(m, end, u) && Past(m, u) in m && Fits(m, end, Past(m, u))
    ensures Fits(Merge(m, u), end, u)
  {
    var v, r := Past(m, u), Merge(m, u);
    assert r[u] == m[u].(units := m[u].units + m[v].units);
    if u != FIRST {
      var y := m[u].prev;
      assert y < u && r[y].units == m[y].units;
    }
  }

  lemma MergedNextFits(m: Chunks, u: nat, end: nat)
    requires NoOverlap(m) && Fits(m, end, u) && Past(m, u) in m && Fits(m, end, Past(m, u))
    requires Fits(m, end, Past(m, Past(m, u)))
    ensures Fits(Merge(m, u), end, Past(m, Past(m, u)))
  {
    var v, r := Past(m, u), Merge(m, u);
    var p := Past(m, v);
    assert u < v < p && r[p] == m[p].(prev := u) && Past(r, u) == p;
    var q := Past(m, p);
    assert q in m ==> q in r;
  }

  lemma UntouchedFits(m: Chunks, u: nat, end: nat, x: nat)
    requires NoOverlap(m) && Fits(m, end, u) && Past(m, u) in m && Fits(m, end, Past(m, u)) && Fits(m, end, x)
    requires x != u && x != Past(m, u) && x != Past(m, Past(m, u))
    ensures Fits(Merge(m, u), end, x)
  {
    var v, r := Past(m, u), Merge(m, u);
    assert r[x] == m[x];
    if x != FIRST {
      var y := m[x].prev;
      assert y != v && y != u;
      assert r[y].units == m[y].units;
    }
  }

  lemma MergeNoOverlap(m: Chunks, u: nat)
    requires NoOverlap(m) && u in m && Past(m, u) in m
    ensures NoOverlap(Merge(m, u))
  {
    var r := Merge(m, u);
    forall a, b | a in r && b in r && a < b ensures a + r[a].units <= b {
      MergeEntry(m, u, a);
      MergeEntry(m, u, b);
    }
  }

  /** What a merge does to one chunk. */
  lemma MergeEntry(m: Chunks, u: nat, x: nat)
    requires u in m && Past(m, u) in m && x in Merge(m, u)
    ensures x in m && (x == Past(m, u) ==> x == u)
    ensures Merge(m, u)[x].units == if x == u then m[u].units + m[Past(m, u)].units else m[x].units
  {
  }

  lemma MergeTiled(m: Chunks, u: nat, end: nat)
    requires Tiled(m, end) && u in m && Past(m, u) in m
    ensures Tiled(Merge(m, u), end)
  {
    MergeNoOverlap(m, u);
    assert Fits(m, end, u) && Fits(m, end, FIRST);
    var r := Merge(m, u);
    forall x | x in r ensures FIRST <= x && Fits(r, end, x) {
      MergedFits(m, u, end, x);
    }
    assert FIRST in r;
  }

  lemma MergedFits(m: Chunks, u: nat, end: nat, x: nat)
    requires Tiled(m, end) && u in m && Past(m, u) in m && x in Merge(m, u)
    ensures Fits(Merge(m, u), end, x)
  {
    assert Fits(m, end, u) && Fits(m, end, Past(m, u));
    MergeEntry(m, u, x);
    assert Fits(m, end, x);
    MergeFits(m, u, end, x);
  }

  lemma SetUsedFits(m: Chunks, u: nat, used: bool, end: nat, x: nat)
    requires u in m && Fits(m, end, x)
    ensures Fits(SetUsed(m, u, used), end, x)
  {
  }

  lemma SetUsedTiled(m: Chunks, u: nat, used: bool, end: nat)
    requires Tiled(m, end) && u in m
    ensures Tiled(SetUsed(m, u, used), end)
  {
    forall x | x in m ensures Fits(SetUsed(m, u, used), end, x) {
      assert Fits(m, end, x);
      SetUsedFits(m, u, used, end, x);
    }
  }

  lemma JoinNextTiled(m: Chunks, u: nat, end: nat)
    requires Tiled(m, end) && u in m
    ensures Tiled(JoinNext(m, u), end) && u in JoinNext(m, u)
    ensures JoinNext(m, u)[u].prev == m[u].prev
  {
    assert Fits(m, end, u);
    if FreeAt(m, Past(m, u)) { MergeTiled(m, u, end); }
  }

  lemma FreeChunkTiled(m: Chunks, u: nat, end: nat)
    requires Tiled(m, end) && u in m
    ensures Tiled(FreeChunk(m, u, end), end)
  {
    JoinNextTiled(m, u, end);
    var m1 := JoinNext(m, u);
    assert Fits(m1, end, u);
    if FreeAt(m1, m1[u].prev) { MergeTiled(m1, m1[u].prev, end); }
    SetUsedTiled(JoinPrev(m1, u), Joined(m1, u), false, end);
  }

  /** Only the neighbour behind a chunk carries its back-link. */
  lemma BackLink(m: Chunks, u: nat, end: nat)
    requires Tiled(m, end) && u in m && Past(m, u) in m
    ensures m[Past(m, u)].prev == u
  {
    var v := Past(m, u);
    assert Fits(m, end, u) && Fits(m, end, v);
    assert Fits(m, end, m[v].prev);
  }

  // ---------------------------------------------------------------- live blocks are kept

  /** The length of the block in use at `w`, 0 when there is none. */
  function Block(m: Chunks, w: nat): nat
  {
    if w in m && m[w].used then m[w].units else 0
  }

  lemma AllocBlock(m: Chunks, u: nat, n: nat, w: nat)
    requires NoOverlap(m) && FreeAt(m, u) && 0 < n <= m[u].units
    ensures Block(m, u) == 0
    ensures Block(AllocChunk(m, u, n), w) == if w == u then n else Block(m, w)
  {
    if n < m[u].units { SplitNoOverlap(m, u, n); }
  }

  lemma MergeBlock(m: Chunks, u: nat, w: nat)
    requires NoOverlap(m) && u in m && FreeAt(m, Past(m, u)) && w != u
    ensures Block(Merge(m, u), w) == Block(m, w)
  {
  }

  lemma JoinNextBlock(m: Chunks, u: nat, w: nat)
    requires NoOverlap(m) && u in m && w != u
    ensures Block(JoinNext(m, u), w) == Block(m, w)
  {
    if FreeAt(m, Past(m, u)) { MergeBlock(m, u, w); }
  }

  lemma JoinPrevBlock(m: Chunks, u: nat, w: nat)
    requires NoOverlap(m) && u in m && (FreeAt(m, m[u].prev) ==> Past(m, m[u].prev) == u)
    ensures Joined(m, u) in JoinPrev(m, u)
    ensures Block(SetUsed(JoinPrev(m, u), Joined(m, u), false), w) == if w == u then 0 else Block(m, w)
  {
  }

  lemma FreeBlock(m: Chunks, u: nat, end: nat, w: nat)
    requires Tiled(m, end) && u in m
    ensures Block(FreeChunk(m, u, end), w) == if w == u then 0 else Block(m, w)
  {
    JoinNextTiled(m, u, end);
    if w != u { JoinNextBlock(m, u, w); }
    assert Fits(JoinNext(m, u), end, u);
    JoinPrevBlock(JoinNext(m, u), u, w);
  }

  lemma ShrinkBlock(m: Chunks, u: nat, n: nat, w: nat)
    requires NoOverlap(m) && u in m && m[u].used && 0 < n < m[u].units
    ensures Block(Split(m, u, n), w) == if w == u then n else Block(m, w)
  {
    SplitNoOverlap(m, u, n);
  }

  // ---------------------------------------------------------------- coalescing

  lemma AllocApart(m: Chunks, u: nat, n: nat, x: nat)
    requires NoOverlap(m) && FreeAt(m, u) && 0 < n <= m[u].units && Apart(m, u)
    requires x == u + n || Apart(m, x)
    requires x in AllocChunk(m, u, n)
    ensures Apart(AllocChunk(m, u, n), x)
  {
  }

  lemma AllocCoalesced(m: Chunks, u: nat, n: nat)
    requires NoOverlap(m) && FreeAt(m, u) && 0 < n <= m[u].units && Coalesced(m)
    ensures Coalesced(AllocChunk(m, u, n))
  {
    assert Apart(m, u);
    forall x | x in AllocChunk(m, u, n) ensures Apart(AllocChunk(m, u, n), x) {
      assert x != u + n ==> Apart(m, x);
      AllocApart(m, u, n, x);
    }
  }

  /** Merging keeps the heap coalesced when the merged chunk is in use or is not followed
      by a free one. */
  lemma MergeApart(m: Chunks, u: nat, x: nat)
    requires NoOverlap(m) && u in m && Past(m, u) in m && m[u].units > 0 && m[Past(m, u)].units > 0
    requires m[u].used || !FreeAt(m, Past(m, Past(m, u)))
    requires x != Past(m, u) && (x == u || Apart(m, x))
    ensures Apart(Merge(m, u), x)
  {
  }

  lemma MergeCoalesced(m: Chunks, u: nat, end: nat)
    requires Tiled(m, end) && u in m && Past(m, u) in m
    requires m[u].used || !FreeAt(m, Past(m, Past(m, u)))
    requires forall x {:trigger Apart(m, x)} :: x in m && x != u ==> Apart(m, x)
    ensures Coalesced(Merge(m, u))
  {
    assert Fits(m, end, u) && Fits(m, end, Past(m, u));
    forall x | x in Merge(m, u) ensures Apart(Merge(m, u), x) {
      assert x != u ==> Apart(m, x);
      MergeApart(m, u, x);
    }
  }

  lemma ReleaseApart(m: Chunks, u: nat, end: nat, x: nat)
    requires NoOverlap(m) && Fits(m, end, u) && Fits(m, end, x) && Apart(m, x)
    requires !FreeAt(m, Past(m, u)) && !FreeAt(m, m[u].prev)
    ensures Apart(SetUsed(m, u, false), x)
  {
  }

  lemma FreeCoalesced(m: Chunks, u: nat, end: nat)
    requires Tiled(m, end) && u in m && m[u].used && Coalesced(m)
    ensures Coalesced(FreeChunk(m, u, end))
  {
    assert Fits(m, end, u);
    JoinNextTiled(m, u, end);
    var m1 := JoinNext(m, u);
    assert Coalesced(m1) && !FreeAt(m1, Past(m1, u)) by { JoinNextCoalesced(m, u, end); }
    assert Fits(m1, end, u);
    if FreeAt(m1, m1[u].prev) {
      MergeCoalesced(m1, m1[u].prev, end);
      assert SetUsed(JoinPrev(m1, u), Joined(m1, u), false) == JoinPrev(m1, u);
    } else {
      forall x | x in m1 ensures Apart(SetUsed(m1, u, false), x) {
        assert Fits(m1, end, x) && Apart(m1, x);
        ReleaseApart(m1, u, end, x);
      }
    }
  }

  lemma JoinNextCoalesced(m: Chunks, u: nat, end: nat)
    requires Tiled(m, end) && u in m && m[u].used && Coalesced(m)
    ensures Coalesced(JoinNext(m, u)) && !FreeAt(JoinNext(m, u), Past(JoinNext(m, u), u))
  {
    assert Fits(m, end, u);
    if FreeAt(m, Past(m, u)) {
      assert Apart(m, Past(m, u)) && Fits(m, end, Past(m, u));
      MergeCoalesced(m, u, end);
    }
  }

  lemma ShrinkApart(m: Chunks, u: nat, n: nat, x: nat)
    requires NoOverlap(m) && u in m && m[u].used && 0 < n < m[u].units && !FreeAt(m, Past(m, u))
    requires x == u + n || Apart(m, x)
    ensures Apart(Split(m, u, n), x)
  {
  }

  /** Splitting a block in use in place leaves its tail unmerged: the heap stays coalesced
      exactly when the chunk behind the block is not free. */
  lemma ShrinkCoalesced(m: Chunks, u: nat, n: nat, end: nat)
    requires Tiled(m, end) && u in m && m[u].used && 0 < n < m[u].units && Coalesced(m)
    ensures Coalesced(Split(m, u, n)) <==> !FreeAt(m, Past(m, u))
  {
    if FreeAt(m, Past(m, u)) {
      assert !Apart(Split(m, u, n), u + n);
    } else {
      forall x | x in Split(m, u, n) ensures Apart(Split(m, u, n), x) {
        assert x != u + n ==> Apart(m, x);
        ShrinkApart(m, u, n, x);
      }
    }
  }

  /** The loss happens: a block of four units in front of a free chunk, shrunk to two units. */
  lemma ShrinkLosesCoalescing()
    ensures var m := map[11 := Chunk(4, true, 0), 15 := Chunk(10, false, 11)];
            Tiled(m, 25) && Coalesced(m) && !Coalesced(Split(m, 11, 2))
  {
    var m := map[11 := Chunk(4, true, 0), 15 := Chunk(10, false, 11)];
    assert Fits(m, 25, 11) && Fits(m, 25, 15);
    assert FreeAt(m, Past(m, 11));
    ShrinkCoalesced(m, 11, 2, 25);
  }

  lemma SplitThenMerge(m: Chunks, u: nat, n: nat)
    requires u in m && 0 < n < m[u].units && u + n !in m
    requires Past(m, u) in m ==> m[Past(m, u)].prev == u
    ensures Merge(Split(m, u, n), u) == m
  {
    var p, m1 := Past(m, u), Split(m, u, n);
    assert m1[u] == m[u].(units := n) && m1[u + n] == Chunk(m[u].units - n, false, u);
    assert Past(m1, u) == u + n && Past(m1, u + n) == p;
    var r := Merge(m1, u);
    assert r.Keys == m.Keys;
    assert r[u] == m[u] && (p in m ==> r[p] == m[p]);
    assert forall x :: x in m && x != u && x != p ==> r[x] == m[x];
  }

  /** Joining a chunk with the tail that was cut off it undoes the cut. */
  lemma SplitThenJoin(m: Chunks, u: nat, n: nat, end: nat)
    requires Tiled(m, end) && u in m && 0 < n < m[u].units
    ensures JoinNext(Split(m, u, n), u) == m
  {
    SplitNoOverlap(m, u, n);
    if Past(m, u) in m { BackLink(m, u, end); }
    SplitThenMerge(m, u, n);
  }

  lemma ReleaseNotApart(m: Chunks, u: nat, end: nat)
    requires Tiled(m, end) && Fits(m, end, u) && FreeAt(m, Past(m, u))
    ensures !Apart(SetUsed(JoinPrev(m, u), Joined(m, u), false), Joined(m, u))
  {
  }

  /** The loss lasts: freeing the block joins it with its own tail only, and the free chunk
      behind stays apart. */
  lemma ShrinkThenFree(m: Chunks, u: nat, n: nat, end: nat)
    requires Tiled(m, end) && u in m && m[u].used && 0 < n < m[u].units && FreeAt(m, Past(m, u))
    ensures !Coalesced(FreeChunk(Split(m, u, n), u, end))
  {
    SplitTiled(m, u, n, end);
    SplitThenJoin(m, u, n, end);
    assert Fits(m, end, u);
    ReleaseNotApart(m, u, end);
    assert FreeChunk(Split(m, u, n), u, end) == SetUsed(JoinPrev(m, u), Joined(m, u), false);
    assert Joined(m, u) in SetUsed(JoinPrev(m, u), Joined(m, u), false);
  }

  /** A coalesced heap without live blocks is one free chunk. */
  lemma AllFreeIsOneChunk(m: Chunks, end: nat)
    requires Tiled(m, end) && Coalesced(m) && forall w :: Block(m, w) == 0
    ensures FIRST < end && m == map[FIRST := Chunk(end - FIRST, false, 0)]
  {
    assert Fits(m, end, FIRST) && Apart(m, FIRST);
    assert Block(m, FIRST) == 0 && Block(m, Past(m, FIRST)) == 0;
    assert forall u :: u in m ==> Fits(m, end, u);
  }

  /** Blocks in use do not share a unit. */
  lemma BlocksDisjoint(m: Chunks, end: nat, u: nat, v: nat, x: nat)
    requires Tiled(m, end)
    requires u <= x < u + Block(m, u) && v <= x < v + Block(m, v)
    ensures u == v
  {
  }

  // ---------------------------------------------------------------- accounting

  /** The units of the blocks in use that start before `limit`. */
  ghost function UsedUnits(m: Chunks, limit: nat): nat
  {
    if limit == 0 then 0 else UsedUnits(m, limit - 1) + Block(m, limit - 1)
  }

  lemma {:induction false} UsedUnitsGap(m: Chunks, a: nat, b: nat)
    requires a <= b && forall x :: a <= x < b ==> x !in m
    ensures UsedUnits(m, b) == UsedUnits(m, a)
  {
    if a < b { UsedUnitsGap(m, a, b - 1); }
  }

  lemma UsedUnitsStep(m: Chunks, u: nat)
    requires NoOverlap(m) && u in m && m[u].units > 0
    ensures UsedUnits(m, Past(m, u)) == UsedUnits(m, u) + Block(m, u)
  {
    UsedUnitsGap(m, u + 1, Past(m, u));
  }

  /** The chunks that start before `limit`, and those of them in use. */
  function Starts(m: Chunks, limit: nat): set<nat>
  {
    set x | x in m && x < limit
  }

  function Busy(m: Chunks, limit: nat): set<nat>
  {
    set x | x in m && x < limit && m[x].used
  }

  lemma CountStep(m: Chunks, u: nat)
    requires NoOverlap(m) && u in m && m[u].units > 0
    ensures |Starts(m, Past(m, u))| == |Starts(m, u)| + 1
    ensures |Busy(m, Past(m, u))| == |Busy(m, u)| + if m[u].used then 1 else 0
  {
    StartsStep(m, u);
    AddOne(Starts(m, u), u);
    if m[u].used { AddOne(Busy(m, u), u); }
  }

  lemma StartsStep(m: Chunks, u: nat)
    requires NoOverlap(m) && u in m && m[u].units > 0
    ensures Starts(m, Past(m, u)) == Starts(m, u) + {u}
    ensures Busy(m, Past(m, u)) == if m[u].used then Busy(m, u) + {u} else Busy(m, u)
  {
    assert forall x :: x in m && x < Past(m, u) ==> x < u || x == u;
  }

  lemma AddOne(s: set<nat>, x: nat)
    requires x !in s
    ensures |s + {x}| == |s| + 1
  {
  }

  lemma CountAll(m: Chunks, end: nat)
    requires Tiled(m, end)
    ensures Starts(m, FIRST) == {} == Busy(m, FIRST) && UsedUnits(m, FIRST) == 0
    ensures |Starts(m, end)| == |m|
    ensures Busy(m, end) == set x | x in m && m[x].used
  {
    UsedUnitsGap(m, 0, FIRST);
    forall x | x in m ensures x < end { assert Fits(m, end, x); }
    assert Starts(m, end) == m.Keys;
  }
}
