/** A client of the heap that performs any script of calls on pointers it holds: the allocator
    makes a run in the sense of HeapTraces. */
module HeapRuns {
  import opened Basics
  import opened SegIndex
  import opened HeapChunks
  import opened FreeLists
  import opened HeapImage
  import opened HeapAllocator
  import opened HeapTraces

  /** The payloads of the client's blocks, in the order of its pointers. */
  function Payloads(mem: Image, L: Layout, us: seq<nat>): (datas: seq<seq<u16>>)
    ensures |datas| == |us|
    ensures forall i :: 0 <= i < |us| ==> datas[i] == Data(mem, L, us[i])
  {
    seq(|us|, i requires 0 <= i < |us| => Data(mem, L, us[i]))
  }

  function Snapshot(mem: Image, L: Layout, us: seq<nat>): (w: World)
    ensures w.us == us && |w.datas| == |us|
  {
    World(L.home, L.chunks, L.lists, us, Payloads(mem, L, us))
  }

  ghost function WorldOf(h: Heap, us: seq<nat>): (w: World)
    reads h, h.mem
  {
    Snapshot(h.mem[..], h.L, us)
  }

  ghost predicate Points(table: seq<nat>, us: seq<nat>)
  {
    |table| == |us| && forall i :: 0 <= i < |us| ==> table[i] == 8 * us[i] + HEADER
  }

  /** `table` holds exactly the payload addresses of the live blocks `us`. */
  ghost predicate Holds(h: Heap, table: seq<nat>, us: seq<nat>)
    reads h, h.mem
  {
    Points(table, us) && Books(h.end, WorldOf(h, us))
  }

  /** All blocks but the one at position `k` keep their payload. */
  ghost predicate OthersKept(mem: Image, L: Layout, mem': Image, L': Layout, us: seq<nat>, k: nat)
  {
    forall i {:trigger us[i]} :: 0 <= i < |us| && i != k ==> Data(mem', L', us[i]) == Data(mem, L, us[i])
  }

  lemma PayloadsDropped(mem: Image, L: Layout, mem': Image, L': Layout, us: seq<nat>, k: nat)
    requires k < |us| && OthersKept(mem, L, mem', L', us, k)
    ensures Payloads(mem', L', Without(us, k)) == Without(Payloads(mem, L, us), k)
  {
  }

  lemma PayloadsReplaced(mem: Image, L: Layout, mem': Image, L': Layout, us: seq<nat>, k: nat, v: nat)
    requires k < |us| && OthersKept(mem, L, mem', L', us, k)
    ensures Payloads(mem', L', us[k := v]) == Payloads(mem, L, us)[k := Data(mem', L', v)]
  {
  }

  lemma PayloadsAppended(mem: Image, L: Layout, mem': Image, L': Layout, us: seq<nat>, u: nat)
    requires OthersKept(mem, L, mem', L', us, |us|)
    ensures var datas := Payloads(mem', L', us + [u]);
            datas[..|us|] == Payloads(mem, L, us) && datas[|us|] == Data(mem', L', u)
  {
  }

  /** The client's block is a block of the heap. */
  lemma HeldBlock(h: Heap, table: seq<nat>, us: seq<nat>, k: nat)
    requires h.Valid() && Holds(h, table, us) && k < |us|
    ensures us[k] in h.L.chunks && h.L.chunks[us[k]].used && Owned(h.L, us[k]) > 0
    ensures h.InHeap(8 * us[k] + HEADER)
    ensures forall i :: 0 <= i < |us| && i != k ==> us[i] != us[k]
  {
    assert us[k] in us;
    h.Covered(us[k]);
  }

  method DoFree(h: Heap, table: seq<nat>, ghost us: seq<nat>, k: nat) returns (table': seq<nat>, ghost us': seq<nat>)
    requires h.Valid() && Holds(h, table, us) && k < |table|
    modifies h`L, h.mem, h.free_segments
    ensures h.Valid() && Points(table', us')
    ensures WorldOf(h, us') == Freed(h.end, old(WorldOf(h, us)), k)
  {
    HeldBlock(h, table, us, k);
    h.MemFree(table[k], us[k]);
    table', us' := Without(table, k), Without(us, k);
    SnapshotFreed(h.end, old(h.mem[..]), old(h.L), h.mem[..], h.L, us, k);
    PointsDropped(table, us, k);
  }

  lemma PointsDropped(table: seq<nat>, us: seq<nat>, k: nat)
    requires Points(table, us) && k < |us|
    ensures Points(Without(table, k), Without(us, k))
  {
  }

  lemma SnapshotFreed(end: nat, mem: Image, L: Layout, mem': Image, L': Layout, us: seq<nat>, k: nat)
    requires k < |us| && Distinct(us) && L'.chunks == FreeChunk(L.chunks, us[k], end)
    requires L'.home == L.home && L'.lists == FreedLists(L.home, L.chunks, L.lists, us[k], end)
    requires forall w :: w != us[k] ==> Data(mem', L', w) == Data(mem, L, w)
    ensures Snapshot(mem', L', Without(us, k)) == Freed(end, Snapshot(mem, L, us), k)
  {
    assert OthersKept(mem, L, mem', L', us, k);
    PayloadsDropped(mem, L, mem', L', us, k);
  }

  /** What a realloc of block `u` that answers block `v` does: it shrinks it in place, or moves it
      to a new one. */
  ghost predicate ResizedTo(end: nat, mem: Image, L: Layout, mem': Image, L': Layout, u: nat, n: nat, v: nat)
  {
    && 0 < n <= MAX_REQUEST && |Data(mem', L', v)| == PayloadLength(Units(n)) && L'.home == L.home
    && (if FitsBlock(L.chunks, u, n)
        then v == u && Data(mem', L', v) <= Data(mem, L, v) &&
             u in L.chunks && 0 < Units(n) <= L.chunks[u].units && L'.chunks == ShrinkChunk(L.chunks, u, Units(n)) &&
             L'.lists == ShrinkLists(L.home, L.chunks, L.lists, u, Units(n))
        else Data(mem, L, u) <= Data(mem', L', v) && Grants(L.chunks, n) &&
             BestFit(L.home, L.chunks, L.lists, v, RoundUp(8 * Units(n))) &&
             CanHold(L.chunks, v, Units(n)) && L'.chunks == FreeChunk(AllocChunk(L.chunks, v, Units(n)), u, end) &&
             L'.lists == MovedLists(L.home, L.chunks, L.lists, v, Units(n), u, end))
    && forall w :: w != u && w != v ==> Data(mem', L', w) == Data(mem, L, w)
  }

  /** A realloc that answers a pointer: in place, or to a new block. */
  lemma SnapshotResized(end: nat, mem: Image, L: Layout, mem': Image, L': Layout, us: seq<nat>, k: nat, n: nat, v: nat)
    requires Books(end, Snapshot(mem, L, us)) && k < |us| && ResizedTo(end, mem, L, mem', L', us[k], n, v)
    ensures Step(end, Snapshot(mem, L, us), Realloc(k, n), true, Snapshot(mem', L', us[k := v]))
  {
    if !FitsBlock(L.chunks, us[k], n) {
      assert Block(L.chunks, v) == 0 && v !in us;
    }
    assert OthersKept(mem, L, mem', L', us, k);
    PayloadsReplaced(mem, L, mem', L', us, k, v);
    assert v == us[k] ==> us[k := v] == us;
  }

  lemma GrantsMeans(h: Heap, n: nat)
    requires 0 < n <= MAX_REQUEST
    ensures Grants(h.L.chunks, n) <==> !h.NoneReaches(RoundUp(AlignAllocSize(n)))
  {
    assert 8 * Units(n) == AlignAllocSize(n);
  }

  /** What an alloc that answers block `u` does. */
  ghost predicate GivenTo(mem: Image, L: Layout, mem': Image, L': Layout, n: nat, u: nat)
  {
    && Grants(L.chunks, n) && BestFit(L.home, L.chunks, L.lists, u, RoundUp(8 * Units(n)))
    && CanHold(L.chunks, u, Units(n)) && L'.chunks == AllocChunk(L.chunks, u, Units(n))
    && L'.home == L.home && L'.lists == AllocLists(L.home, L.chunks, L.lists, u, Units(n))
    && |Data(mem', L', u)| == PayloadLength(Units(n))
    && forall w :: w != u ==> Data(mem', L', w) == Data(mem, L, w)
  }

  method CallAlloc(h: Heap, n: nat) returns (p: nat, ghost u: nat)
    requires h.Valid()
    modifies h`L, h.mem, h.free_segments
    ensures h.Valid() && (p != 0 <==> Grants(old(h.L).chunks, n))
    ensures p == 0 ==> h.L == old(h.L) && h.mem[..] == old(h.mem[..])
    ensures p != 0 ==> p == 8 * u + HEADER && GivenTo(old(h.mem[..]), old(h.L), h.mem[..], h.L, n, u)
  {
    if 0 < n <= MAX_REQUEST { GrantsMeans(h, n); }
    p, u := h.MemAlloc(n);
    assert 8 * Units(n) == AlignAllocSize(n);
  }

  lemma PointsAppended(table: seq<nat>, us: seq<nat>, p: nat, u: nat)
    requires Points(table, us) && p == 8 * u + HEADER
    ensures Points(table + [p], us + [u])
  {
  }

  method DoAlloc(h: Heap, table: seq<nat>, ghost us: seq<nat>, n: nat) returns (table': seq<nat>, ghost us': seq<nat>, ok: bool)
    requires h.Valid() && Holds(h, table, us)
    modifies h`L, h.mem, h.free_segments
    ensures h.Valid() && Points(table', us')
    ensures Step(h.end, old(WorldOf(h, us)), Alloc(n), ok, WorldOf(h, us'))
  {
    table', us' := table, us;
    ghost var u;
    var p;
    p, u := CallAlloc(h, n);
    ok := p != 0;
    if ok {
      table', us' := table + [p], us + [u];
      PointsAppended(table, us, p, u);
      SnapshotAllocated(h.end, old(h.mem[..]), old(h.L), h.mem[..], h.L, us, n, u);
    }
  }

  lemma SnapshotAllocated(end: nat, mem: Image, L: Layout, mem': Image, L': Layout, us: seq<nat>, n: nat, u: nat)
    requires Books(end, Snapshot(mem, L, us)) && GivenTo(mem, L, mem', L', n, u)
    ensures Step(end, Snapshot(mem, L, us), Alloc(n), true, Snapshot(mem', L', us + [u]))
  {
    assert Block(L.chunks, u) == 0 && u !in us;
    assert OthersKept(mem, L, mem', L', us, |us|);
    PayloadsAppended(mem, L, mem', L', us, u);
  }

  method DoRealloc(h: Heap, table: seq<nat>, ghost us: seq<nat>, k: nat, n: nat)
    returns (table': seq<nat>, ghost us': seq<nat>, ok: bool)
    requires h.Valid() && Holds(h, table, us) && k < |table|
    modifies h`L, h.mem, h.free_segments
    ensures h.Valid() && Points(table', us')
    ensures Step(h.end, old(WorldOf(h, us)), Realloc(k, n), ok, WorldOf(h, us'))
  {
    if 0 < n <= MAX_REQUEST {
      table', us', ok := Resize(h, table, us, k, n);
      return;
    }
    table', us' := table, us;
    HeldBlock(h, table, us, k);
    ghost var v;
    var r;
    r, v := h.MemRealloc(table[k], n, us[k]);
    ok := r != 0;
    if n == 0 {
      table', us' := Without(table, k), Without(us, k);
      SnapshotFreed(h.end, old(h.mem[..]), old(h.L), h.mem[..], h.L, us, k);
      PointsDropped(table, us, k);
    }
  }

  method CallRealloc(h: Heap, ptr: nat, n: nat, ghost u: nat) returns (r: nat, ghost v: nat)
    requires h.Valid() && 0 < n <= MAX_REQUEST && h.InHeap(ptr) && ptr == 8 * u + HEADER && Owned(h.L, u) > 0
    modifies h`L, h.mem, h.free_segments
    ensures h.Valid() && (r != 0 <==> FitsBlock(old(h.L).chunks, u, n) || Grants(old(h.L).chunks, n))
    ensures r == 0 ==> h.L == old(h.L) && h.mem[..] == old(h.mem[..])
    ensures r != 0 ==> r == 8 * v + HEADER && ResizedTo(h.end, old(h.mem[..]), old(h.L), h.mem[..], h.L, u, n, v)
  {
    GrantsMeans(h, n);
    r, v := h.MemRealloc(ptr, n, u);
    assert 8 * Units(n) == AlignAllocSize(n);
  }

  /** A realloc to a size that a block can have. */
  method Resize(h: Heap, table: seq<nat>, ghost us: seq<nat>, k: nat, n: nat)
    returns (table': seq<nat>, ghost us': seq<nat>, ok: bool)
    requires h.Valid() && Holds(h, table, us) && k < |table| && 0 < n <= MAX_REQUEST
    modifies h`L, h.mem, h.free_segments
    ensures h.Valid() && Points(table', us')
    ensures Step(h.end, old(WorldOf(h, us)), Realloc(k, n), ok, WorldOf(h, us'))
  {
    table', us' := table, us;
    HeldBlock(h, table, us, k);
    ghost var v;
    var r;
    r, v := CallRealloc(h, table[k], n, us[k]);
    ok := r != 0;
    if ok {
      table', us' := table[k := r], us[k := v];
      SnapshotResized(h.end, old(h.mem[..]), old(h.L), h.mem[..], h.L, us, k, n, v);
    }
  }

  method DoWrite(h: Heap, table: seq<nat>, ghost us: seq<nat>, k: nat, offset: nat, value: u16) returns (ok: bool)
    requires h.Valid() && Holds(h, table, us) && k < |table|
    modifies h.mem
    ensures h.Valid()
    ensures Step(h.end, old(WorldOf(h, us)), Write(k, offset, value), ok, WorldOf(h, us))
  {
    HeldBlock(h, table, us, k);
    h.SizeOfChunk(us[k]);
    h.BlockLength(us[k]);
    var u := (table[k] - HEADER) / 8;
    ok := 2 * offset + 2 + HEADER <= h.Size(u);
    if ok {
      h.Store(u, offset, value);
      assert OthersKept(old(h.mem[..]), h.L, h.mem[..], h.L, us, k);
      PayloadsReplaced(old(h.mem[..]), h.L, h.mem[..], h.L, us, k, u);
      assert us[k := u] == us;
    }
  }

  /** One call of a script: it does, and answers, what Step says. */
  method Perform(h: Heap, table: seq<nat>, ghost us: seq<nat>, call: Request)
    returns (table': seq<nat>, ghost us': seq<nat>, ok: bool)
    requires h.Valid() && Holds(h, table, us)
    modifies h`L, h.mem, h.free_segments
    ensures h.Valid() && Holds(h, table', us')
    ensures Step(h.end, old(WorldOf(h, us)), call, ok, WorldOf(h, us'))
  {
    table', us', ok := table, us, false;
    match call {
      case Alloc(n) => table', us', ok := DoAlloc(h, table, us, n);
      case Free(k) => if k < |table| { table', us' := DoFree(h, table, us, k); }
      case Realloc(k, n) => if k < |table| { table', us', ok := DoRealloc(h, table, us, k, n); }
      case Write(k, offset, value) => if k < |table| { ok := DoWrite(h, table, us, k, offset, value); }
    }
    StepBooks(h.end, old(WorldOf(h, us)), call, ok, WorldOf(h, us'));
  }

  /** From a fresh heap, any script is a run, and the heap ends up valid and as the last state of
      the run says. The rest of the contract spells out what that means for the client. */
  method Replay(h: Heap, script: seq<Request>)
    returns (table: seq<nat>, answers: seq<bool>, ghost trace: seq<World>)
    requires h.Valid() && h.L.chunks == Initial(h.end).chunks && h.L.lists == Initial(h.end).lists
    modifies h`L, h.mem, h.free_segments
    ensures h.Valid() && IsRun(h.end, script, answers, trace) && Ends(h, table, trace[|script|])
    // every block is long enough and reads back what was written into it
    ensures AllAgree(trace[|script|].datas, ExpectAll(script, answers))
    // no tail left in front of a free chunk: coalesced, and restored once all is given back
    ensures Tidy(script, trace, |script|) ==> Coalesced(h.L.chunks)
    ensures Tidy(script, trace, |script|) && table == [] ==> h.L.chunks == old(h.L).chunks && h.L.lists == old(h.L).lists
  {
    table, answers, trace := Script(h, script);
    RunMeans(h.end, script, answers, trace);
  }

  /** The heap and the client's pointers are as `w` says. */
  ghost predicate Ends(h: Heap, table: seq<nat>, w: World)
    reads h, h.mem
  {
    Points(table, w.us) && w == WorldOf(h, w.us)
  }

  method Script(h: Heap, script: seq<Request>)
    returns (table: seq<nat>, answers: seq<bool>, ghost trace: seq<World>)
    requires h.Valid() && h.L.chunks == Initial(h.end).chunks && h.L.lists == Initial(h.end).lists
    modifies h`L, h.mem, h.free_segments
    ensures h.Valid() && IsRun(h.end, script, answers, trace) && Ends(h, table, trace[|script|])
  {
    InitialBooks(h.end);
    table, answers, trace := [], [], [Initial(h.end)];
    ghost var us: seq<nat> := [];
    assert WorldOf(h, us) == trace[0];
    for i := 0 to |script|
      invariant h.Valid() && Holds(h, table, us)
      invariant IsRun(h.end, script[..i], answers, trace) && trace[i] == WorldOf(h, us)
    {
      var ok;
      table, us, ok := Perform(h, table, us, script[i]);
      RunGrows(h.end, script, answers, trace, i, ok, WorldOf(h, us));
      answers, trace := answers + [ok], trace + [WorldOf(h, us)];
    }
    assert script[..|script|] == script;
  }

  lemma RunGrows(end: nat, script: seq<Request>, answers: seq<bool>, trace: seq<World>, i: nat, ok: bool, w: World)
    requires i < |script| && IsRun(end, script[..i], answers, trace)
    requires |trace[i].us| == |trace[i].datas| && Step(end, trace[i], script[i], ok, w)
    ensures IsRun(end, script[..i + 1], answers + [ok], trace + [w])
  {
    var script', answers', trace' := script[..i + 1], answers + [ok], trace + [w];
    forall j | 0 <= j < i + 1 ensures StepAt(end, script', answers', trace', j) {
      assert j < i ==> StepAt(end, script[..i], answers, trace, j);
    }
  }
}
