/** The segregated-fit heap of lib_alloc, operating in place on its buffer. Pointers are byte
    offsets from the start of the buffer; 0 is NULL. */
module HeapAllocator {
  import opened Basics
  import opened SegIndex
  import opened HeapChunks
  import opened FreeLists
  import opened HeapImage

  const HEAP_HEADER_SIZE := 88

  datatype Stat = Stat(totalSize: nat, freeSize: nat, allocatedSize: nat, nbChunks: nat, nbAllocated: nat)

  class Heap {
    const mem: array<u16>            // the whole buffer, four half-words a unit
    const free_segments: array<u16>  // heads of the free lists
    const end: nat                   // number of units in the buffer
    var nbSegs: nat

    ghost var L: Layout              // what the buffer stands for

    // -------------------------------------------------------------- header fields

    function Size(u: nat): nat
      requires 4 * u < mem.Length
      reads mem
    {
      mem[4 * u] % ALLOCATED
    }

    function IsAllocated(u: nat): bool
      requires 4 * u < mem.Length
      reads mem
    {
      mem[4 * u] >= ALLOCATED
    }

    /** The test of `ensure_chunk_valid`; false is where it throws EXCEPTION_CORRUPT. A
        back-link equal to `end` would be read outside the buffer and counts as invalid. */
    predicate ChunkValid(u: nat)
      requires 4 * u + 3 < mem.Length
      reads mem
    {
      && Size(u) % 4 == 0 && Size(u) >= 8 && 8 * u + Size(u) <= 8 * end
      && var prev := mem[4 * u + 1];
      prev != 0 ==> prev >= FIRST && prev <= end && 4 * prev < mem.Length && 8 * prev + Size(prev) == 8 * u
    }

    // -------------------------------------------------------------- invariant

    ghost predicate Base()
      reads this, mem, free_segments
    {
      && mem != free_segments && free_segments.Length == 40 && L.end == end && |L.lists| <= 40
      && Coherent(mem[..], free_segments[..], L)
    }

    ghost predicate ClassesOk()
      reads this
    {
      25 <= end && nbSegs == SegmentsFor(8 * (end - FIRST)) && |L.lists| == 4 * nbSegs && L.home == Home
    }

    ghost predicate Valid()
      reads this, mem, free_segments
    {
      Base() && ClassesOk() && L.loose == {}
    }

    lemma ChunksValid(u: nat)
      requires Base() && u in L.chunks
      ensures 4 * u + 3 < mem.Length && ChunkValid(u)
    {
      assert Fits(L.chunks, L.end, u) && HeaderOk(mem[..], L, u);
      if u != FIRST { assert HeaderOk(mem[..], L, L.chunks[u].prev); }
    }

    // -------------------------------------------------------------- mem_init

    /** `mem_init` on a buffer that passed its size checks. */
    constructor (buffer: array<u16>)
      requires buffer.Length % 4 == 0 && 100 <= buffer.Length <= (0x7FF8 + HEAP_HEADER_SIZE) / 2
      modifies buffer
      ensures Valid() && mem == buffer && end == buffer.Length / 4 && fresh(free_segments)
      ensures L.chunks == map[FIRST := Chunk(end - FIRST, false, 0)]
      ensures L.lists == Enlisted(Home, L.chunks, EmptyLists(4 * SegmentsFor(8 * (end - FIRST))), FIRST)
    {
      mem := buffer;
      free_segments := new u16[40];
      var units := buffer.Length / 4;
      end := units;
      nbSegs := SegmentsFor(8 * (units - FIRST));
      L := Layout(units, map[FIRST := Chunk(units - FIRST, false, 0)],
                  EmptyLists(4 * SegmentsFor(8 * (units - FIRST))), {FIRST}, Home);
      new;
      SegmentsBound(8 * (end - FIRST));
      forall i | 0 <= i < nbSegs * 4 {
        free_segments[i] := 0;
      }
      mem[4 * FIRST] := mem[4 * FIRST] - mem[4 * FIRST] % ALLOCATED + 8 * (end - FIRST);
      mem[4 * FIRST + 1] := 0;
      assert Base() by { InitialCoherent(mem[..], free_segments[..], L); }
      ListPush(FIRST);
    }

    static method MemInit(buffer: array<u16>) returns (h: Heap?)
      modifies buffer
      ensures h == null <==>
                2 * buffer.Length % 8 != 0 || 2 * buffer.Length < 200 || 2 * buffer.Length > 0x7FF8 + HEAP_HEADER_SIZE
      ensures h != null ==> h.Valid() && h.mem == buffer && fresh(h)
      ensures h != null ==> 8 * h.end == 2 * buffer.Length && h.L.chunks == map[FIRST := Chunk(h.end - FIRST, false, 0)]
      ensures h != null ==> h.L.lists == Enlisted(Home, h.L.chunks, EmptyLists(4 * SegmentsFor(8 * (h.end - FIRST))), FIRST)
    {
      if 2 * buffer.Length % 8 != 0 || 2 * buffer.Length < 200 || 2 * buffer.Length > 0x7FF8 + HEAP_HEADER_SIZE {
        return null;
      }
      h := new Heap(buffer);
    }

    // -------------------------------------------------------------- free lists

    /** The link writes of `list_remove`. */
    method WriteUnlink(b: nat, elem: nat)
      requires mem != free_segments && b < free_segments.Length && 4 * elem + 3 < mem.Length
      requires 4 * mem[4 * elem + 2] + 3 < mem.Length && 4 * mem[4 * elem + 3] + 3 < mem.Length
      modifies mem, free_segments
      ensures var p: int, n: int, first := old(mem[4 * elem + 2]), old(mem[4 * elem + 3]), old(free_segments[b]) == elem;
              && free_segments[..] == (if first then old(free_segments[..])[b := n] else old(free_segments[..]))
              && SameBut(old(mem[..]), mem[..], {4 * p + 3, 4 * n + 2})
              && (!first && p != 0 ==> mem[4 * p + 3] == n)
              && (n != 0 ==> mem[4 * n + 2] == if first then 0 else p)
    {
      if free_segments[b] == elem {
        var next: int := mem[4 * elem + 3];
        free_segments[b] := next;
        if next != 0 {
          mem[4 * next + 2] := 0;
        }
        return;
      }
      var p: int, n: int := mem[4 * elem + 2], mem[4 * elem + 3];
      if p != 0 {
        mem[4 * p + 3] := n;
      }
      if n != 0 {
        mem[4 * n + 2] := p;
      }
    }

    method ListRemove(b: nat, elem: nat, ghost k: nat)
      requires Base() && b < |L.lists| && k < |L.lists[b]| && L.lists[b][k] == elem
      modifies this`L, mem, free_segments
      ensures Base() && L == UnlinkLayout(old(L), b, k)
      ensures forall w :: Data(mem[..], L, w) == old(Data(mem[..], L, w))
    {
      ghost var m0, h0 := mem[..], free_segments[..];
      UnlinkReady(m0, h0, L, b, k);
      WriteUnlink(b, elem);
      Unlink(m0, h0, L, mem[..], free_segments[..], b, k);
      L := UnlinkLayout(L, b, k);
    }

    /** The size class of any chunk is in range: `seglist_index` never answers -1 for it. */
    lemma IndexOfChunk(u: nat)
      requires Base() && ClassesOk() && u in L.chunks
      ensures 4 * u < mem.Length && Size(u) > 0
      ensures SeglistIndex(nbSegs, Size(u)) == L.home(L.chunks[u].units) < |L.lists|
    {
      assert Fits(L.chunks, L.end, u) && HeaderOk(mem[..], L, u);
      IndexInRange(8 * (end - FIRST), 8 * L.chunks[u].units);
    }

    /** The writes of `list_push` in front of the list that starts at `first`. */
    method WritePush(seg: nat, u: nat, first: nat)
      requires mem != free_segments && seg < free_segments.Length && first == free_segments[seg] != u
      requires u < 0x1_0000 && 4 * u + 3 < mem.Length && 4 * first + 3 < mem.Length
      modifies mem, free_segments
      ensures Pushed(old(mem[..]), mem[..], u, first)
      ensures free_segments[..] == old(free_segments[..])[seg := u]
    {
      mem[4 * u + 3] := first;
      mem[4 * u + 2] := 0;
      mem[4 * u] := mem[4 * u] % ALLOCATED;
      if first != 0 {
        mem[4 * first + 2] := u;
      }
      free_segments[seg] := u;
    }

    method ListPush(u: nat)
      requires Base() && ClassesOk() && u in L.loose
      modifies this`L, mem, free_segments
      ensures Base() && ClassesOk() && L == PushLayout(old(L), u)
      ensures forall w :: Data(mem[..], L, w) == old(Data(mem[..], L, w))
    {
      ghost var m0, h0 := mem[..], free_segments[..];
      IndexOfChunk(u);
      var seg := SeglistIndex(nbSegs, Size(u));
      if seg < 0 { assert false; }
      var first := free_segments[seg];
      PushReady(m0, h0, L, seg, u);
      if first == u { assert false; }
      WritePush(seg, u, first);
      Push(m0, h0, L, mem[..], u);
      L := PushLayout(L, u);
    }

    // -------------------------------------------------------------- chunks

    /** The header writes of a split: the tail `v` gets a size and a back-link, the next chunk
        a new back-link, and `u` its new size. */
    method WriteCut(u: nat, v: nat, next: nat)
      requires u < v < next <= end < 0x1_0000 && mem.Length == 4 * end && Size(u) == 8 * (next - u)
      modifies mem
      ensures CutAt(old(mem[..]), mem[..], u, v, next, end)
    {
      ResizeField(mem[4 * v], 8 * (next - v));
      mem[4 * v] := mem[4 * v] - mem[4 * v] % ALLOCATED + 8 * (next - v);
      mem[4 * v + 1] := u;
      if next < end {
        mem[4 * next + 1] := v;
      }
      mem[4 * u] := mem[4 * u] - mem[4 * u] % ALLOCATED + 8 * (v - u);
    }

    /** Cuts chunk `u` down to `n` units. The new tail is not in a free list yet. */
    method SplitTail(u: nat, n: nat)
      requires Base() && Fits(L.chunks, L.end, u) && 0 < n < L.chunks[u].units && (L.chunks[u].used || u in L.loose)
      modifies this`L, mem
      ensures Base() && L == SplitLayout(old(L), u, n)
      ensures forall w :: Data(mem[..], L, w) ==
                if w == u && Owned(old(L), u) > 0 then Payload(old(mem[..]), u, n) else old(Data(mem[..], L, w))
    {
      ghost var m0 := mem[..];
      SplitReady(m0, free_segments[..], L, u);
      WriteCut(u, u + n, u + Size(u) / 8);
      assert Cut(m0, mem[..], L, u, n);
      SplitDone(m0, mem[..], free_segments[..], L, u, n);
      L := SplitLayout(L, u, n);
    }

    /** The header writes of a merge of `u` with the chunk `v` behind it. */
    method WriteMerge(u: nat, v: nat, next: nat)
      requires u < v < next <= end < 0x1_0000 && mem.Length == 4 * end
      requires Size(v) == 8 * (next - v) && Size(u) + Size(v) < ALLOCATED
      modifies mem
      ensures FusedAt(old(mem[..]), mem[..], u, v, next, end)
    {
      GrowField(mem[4 * u], Size(v));
      if next < end {
        mem[4 * next + 1] := u;
      }
      mem[4 * u] := mem[4 * u] + Size(v);
      mem[4 * v], mem[4 * v + 1], mem[4 * v + 2], mem[4 * v + 3] := 0, 0, 0, 0;
    }

    /** Joins the loose chunk `u` with the loose chunk behind it. */
    method Join(u: nat, v: nat)
      requires Base() && u in L.chunks && v in L.chunks && v == Past(L.chunks, u) && u in L.loose && v in L.loose
      modifies this`L, mem
      ensures Base() && L == MergeLayout(old(L), u)
      ensures forall x :: Data(mem[..], L, x) == old(Data(mem[..], L, x))
    {
      ghost var m0 := mem[..];
      MergeReady(m0, free_segments[..], L, u);
      WriteMerge(u, v, v + Size(v) / 8);
      MergeCoherent(m0, mem[..], free_segments[..], L, u);
      L := MergeLayout(L, u);
    }

    /** Takes the free chunk `w` out of its list. */
    method Detach(w: nat)
      requires Base() && ClassesOk() && FreeAt(L.chunks, w) && w !in L.loose
      modifies this`L, mem, free_segments
      ensures Base() && ClassesOk() && L.chunks == old(L).chunks && L.loose == old(L).loose + {w}
      ensures L.lists == Delisted(L.home, L.chunks, old(L).lists, w)
      ensures forall x :: Data(mem[..], L, x) == old(Data(mem[..], L, x))
    {
      IndexOfChunk(w);
      assert AtHome(L.home, L.chunks, L.lists, w);
      var seg := SeglistIndex(nbSegs, Size(w));
      ghost var k :| 0 <= k < |L.lists[seg]| && L.lists[seg][k] == w;
      DroppedAt(L.lists[seg], k);
      if seg >= 0 {
        ListRemove(seg, w, k);
      }
    }

    /** Joins the loose chunk `u` with its physical neighbour `w`, if that one is free.
        Returns the start of the resulting chunk. */
    method Coalesce(u: nat, w: nat) returns (h: nat)
      requires Base() && ClassesOk() && L.loose == {u} && u in L.chunks && w in L.chunks && u != w
      requires w == Past(L.chunks, u) || u == Past(L.chunks, w)
      modifies this`L, mem, free_segments
      ensures Base() && ClassesOk() && L.loose == {h}
      ensures !FreeAt(old(L).chunks, w) ==> h == u && L == old(L)
      ensures FreeAt(old(L).chunks, w) ==>
                h == (if u < w then u else w) && Past(old(L).chunks, h) in old(L).chunks && L.chunks == Merge(old(L).chunks, h)
      ensures FreeAt(old(L).chunks, w) ==> L.lists == Delisted(L.home, old(L).chunks, old(L).lists, w)
      ensures forall x :: Data(mem[..], L, x) == old(Data(mem[..], L, x))
    {
      h := u;
      ChunksValid(w);
      if !ChunkValid(w) { assert false; }
      assert HeaderOk(mem[..], L, w) && Fits(L.chunks, L.end, w) && Fits(L.chunks, L.end, u);
      if !IsAllocated(w) {
        Detach(w);
        if u < w {
          Join(u, w);
        } else {
          Join(w, u);
          h := w;
        }
      }
    }

    // -------------------------------------------------------------- mem_free

    method CoalesceNext(u: nat)
      requires Base() && ClassesOk() && L.loose == {u} && Fits(L.chunks, L.end, u)
      modifies this`L, mem, free_segments
      ensures Base() && ClassesOk() && L.loose == {u} && L.chunks == JoinNext(old(L).chunks, u)
      ensures L.lists == DelistedIfFree(L.home, old(L).chunks, old(L).lists, Past(old(L).chunks, u))
      ensures forall w :: Data(mem[..], L, w) == old(Data(mem[..], L, w))
    {
      SizeOfChunk(u);
      if u + Size(u) / 8 < end {
        var h := Coalesce(u, u + Size(u) / 8);
      }
    }

    method CoalescePrev(u: nat) returns (h: nat)
      requires Base() && ClassesOk() && L.loose == {u} && Fits(L.chunks, L.end, u)
      modifies this`L, mem, free_segments
      ensures Base() && ClassesOk() && L.loose == {h}
      ensures h == Joined(old(L).chunks, u) && L.chunks == JoinPrev(old(L).chunks, u)
      ensures L.lists == DelistedIfFree(L.home, old(L).chunks, old(L).lists, old(L).chunks[u].prev)
      ensures forall w :: Data(mem[..], L, w) == old(Data(mem[..], L, w))
    {
      h := u;
      assert HeaderOk(mem[..], L, u);
      if mem[4 * u + 1] != 0 {
        h := Coalesce(u, mem[4 * u + 1]);
      }
    }

    /** Joins the loose chunk `u` with its free neighbours and lists the result. */
    method Release(u: nat)
      requires Base() && ClassesOk() && L.loose == {u} && Fits(L.chunks, L.end, u)
      modifies this`L, mem, free_segments
      ensures Valid() && L.chunks == FreeChunk(old(L).chunks, u, end)
      ensures L.lists == FreedLists(Home, old(L).chunks, old(L).lists, u, end)
      ensures forall w :: Data(mem[..], L, w) == old(Data(mem[..], L, w))
    {
      JoinNextTiled(L.chunks, u, end);
      CoalesceNext(u);
      assert Fits(L.chunks, L.end, u);
      var h := CoalescePrev(u);
      ListPush(h);
    }

    /** Frees the block at `ptr`, the payload address of chunk `u`. */
    method MemFree(ptr: nat, ghost u: nat)
      requires Valid() && ptr == 8 * u + HEADER && u in L.chunks
      modifies this`L, mem, free_segments
      ensures Valid()
      ensures !old(L).chunks[u].used ==> L == old(L) && mem[..] == old(mem[..])
      ensures old(L).chunks[u].used ==> L.chunks == FreeChunk(old(L).chunks, u, end)
      ensures old(L).chunks[u].used ==> L.lists == FreedLists(Home, old(L).chunks, old(L).lists, u, end)
      ensures Coalesced(old(L).chunks) ==> Coalesced(L.chunks)
      ensures forall w :: Data(mem[..], L, w) == if w == u then [] else old(Data(mem[..], L, w))
    {
      var h := (ptr - HEADER) / 8;
      ChunksValid(h);
      if !ChunkValid(h) { assert false; }
      ChunkFields(h);
      if !IsAllocated(h) {
        return;
      }
      assert Fits(L.chunks, L.end, h);
      Loosen(mem[..], free_segments[..], L, h);
      L := L.(loose := L.loose + {h});
      Release(h);
      if Coalesced(old(L).chunks) { FreeCoalesced(old(L).chunks, u, end); }
    }

    // -------------------------------------------------------------- mem_alloc

    /** Every chunk from the bucket of the rounded request on is large enough. */
    lemma HeadFits(b: nat, size: nat)
      requires Base() && ClassesOk() && size > 0 && b < |L.lists| && free_segments[b] != 0
      requires 0 <= SeglistIndexUp(nbSegs, size) <= b
      ensures var u := free_segments[b];
              && L.lists[b] != [] && L.lists[b][0] == u && FreeAt(L.chunks, u) && u !in L.loose
              && 8 * L.chunks[u].units >= RoundUp(size) >= size
    {
      assert ChainOk(mem[..], free_segments[..][b], L.lists[b]);
      var u := L.lists[b][0];
      assert Entry(L.home, L.chunks, L.loose, b, u) && Fits(L.chunks, L.end, u);
      GoodFit(size, 8 * L.chunks[u].units);
      RoundUpAtLeast(size);
    }

    ghost predicate NoneReaches(bytes: nat)
      reads this
    {
      forall u :: FreeAt(L.chunks, u) ==> 8 * L.chunks[u].units < bytes
    }

    /** When those buckets are all empty, no free chunk reaches the rounded request. */
    lemma NothingFits(size: nat)
      requires Valid() && size > 0
      requires var i := SeglistIndexUp(nbSegs, size);
               i < 0 || forall b :: i <= b < |L.lists| ==> free_segments[b] == 0
      ensures NoneReaches(RoundUp(size))
    {
      forall u | FreeAt(L.chunks, u) ensures 8 * L.chunks[u].units < RoundUp(size) {
        assert Fits(L.chunks, L.end, u);
        BucketOfChunk(u);
        if SeglistIndexUp(nbSegs, size) < 0 {
          UpOutOfRange(8 * (end - FIRST), size, 8 * L.chunks[u].units);
        } else {
          GoodFit(size, 8 * L.chunks[u].units);
        }
      }
    }

    /** Sets the allocated bit of a loose chunk and clears its links. */
    method Claim(u: nat)
      requires Base() && u in L.loose
      modifies this`L, mem
      ensures Base() && L == ClaimLayout(old(L), u)
      ensures forall w :: w != u ==> Data(mem[..], L, w) == old(Data(mem[..], L, w))
    {
      ghost var m0 := mem[..];
      assert HeaderOk(m0, L, u);
      mem[4 * u] := mem[4 * u] % ALLOCATED + ALLOCATED;
      mem[4 * u + 3] := 0;
      mem[4 * u + 2] := 0;
      ClaimCoherent(m0, mem[..], free_segments[..], L, u);
      L := ClaimLayout(L, u);
    }

    /** Splits chunk `u` after `n` units and lists the tail. */
    method CutAndList(u: nat, n: nat)
      requires Base() && ClassesOk() && Fits(L.chunks, L.end, u) && 0 < n < L.chunks[u].units
      requires L.chunks[u].used || u in L.loose
      modifies this`L, mem, free_segments
      ensures Base() && ClassesOk() && L.chunks == Split(old(L).chunks, u, n) && L.loose == old(L).loose
      ensures L.lists == Enlisted(Home, L.chunks, old(L).lists, u + n)
      ensures forall w :: Data(mem[..], L, w) ==
                if w == u && Owned(old(L), u) > 0 then Payload(old(mem[..]), u, n) else old(Data(mem[..], L, w))
    {
      SplitTail(u, n);
      assert ClassesOk() && u + n in L.loose;
      ListPush(u + n);
      SplitNoOverlap(old(L).chunks, u, n);
      SplitThenPush(old(L), u, n);
    }

    /** Takes the head of bucket `seg` off its list. */
    method TakeHead(seg: nat, u: nat)
      requires Valid() && seg < |L.lists| && L.lists[seg] != [] && L.lists[seg][0] == u && FreeAt(L.chunks, u)
      modifies this`L, mem, free_segments
      ensures Base() && ClassesOk() && L.chunks == old(L).chunks && L.loose == {u}
      ensures L.lists == Delisted(Home, L.chunks, old(L).lists, u)
      ensures forall w :: Data(mem[..], L, w) == old(Data(mem[..], L, w))
    {
      DroppedAt(L.lists[seg], 0);
      assert Entry(L.home, L.chunks, L.loose, seg, L.lists[seg][0]);
      ListRemove(seg, u, 0);
    }

    /** Gives back what chunk `u` has beyond `n` units. */
    method Trim(u: nat, n: nat)
      requires Base() && ClassesOk() && L.loose == {u} && FreeAt(L.chunks, u) && 0 < n <= L.chunks[u].units
      modifies this`L, mem, free_segments
      ensures Base() && ClassesOk() && L.loose == {u}
      ensures L.chunks == (if n < old(L).chunks[u].units then Split(old(L).chunks, u, n) else old(L).chunks)
      ensures L.lists == ShrinkLists(Home, old(L).chunks, old(L).lists, u, n)
      ensures forall w :: w != u ==> Data(mem[..], L, w) == old(Data(mem[..], L, w))
    {
      assert Fits(L.chunks, L.end, u);
      SizeOfChunk(u);
      if Size(u) >= 8 * n + 8 {
        CutAndList(u, n);
      }
    }

    /** Turns the first `size` bytes of the free chunk `u`, head of bucket `seg`, into a block. */
    method Carve(seg: nat, u: nat, size: nat)
      requires Valid() && seg < |L.lists| && L.lists[seg] != [] && L.lists[seg][0] == u
      requires FreeAt(L.chunks, u) && size % 8 == 0 && 0 < size <= 8 * L.chunks[u].units
      modifies this`L, mem, free_segments
      ensures Valid()
      ensures L.chunks == AllocChunk(old(L).chunks, u, size / 8)
      ensures L.lists == AllocLists(Home, old(L).chunks, old(L).lists, u, size / 8)
      ensures forall w :: w != u ==> Data(mem[..], L, w) == old(Data(mem[..], L, w))
    {
      TakeHead(seg, u);
      Trim(u, size / 8);
      Claim(u);
    }

    /** The search loop of `mem_alloc`: the first non-empty bucket from `start` on. */
    method FindBucket(start: nat) returns (seg: nat)
      requires Valid() && start <= |L.lists|
      ensures start <= seg <= |L.lists|
      ensures forall b :: start <= b < seg ==> free_segments[b] == 0
      ensures seg < |L.lists| ==> free_segments[seg] != 0
    {
      seg := start;
      while seg < nbSegs * 4 && free_segments[seg] == 0
        invariant start <= seg <= |L.lists|
        invariant forall b :: start <= b < seg ==> free_segments[b] == 0
      {
        seg := seg + 1;
      }
    }

    lemma StartInRange(size: nat)
      requires ClassesOk() && size > 0 && SeglistIndexUp(nbSegs, size) >= 0
      ensures SeglistIndexUp(nbSegs, size) <= |L.lists|
    {
      RoundUpAtLeast(size);
      assert RoundUp(size) / Pow2(SubShift(Segment(RoundUp(size)))) % 4 < 4;
    }

    /** Good fit: a free chunk (0 if none) from the buckets that are sure to hold `size` bytes. */
    method FindFit(size: nat) returns (seg: nat, u: nat)
      requires Valid() && size > 0
      ensures u == 0 <==> NoneReaches(RoundUp(size))
      ensures u != 0 ==> seg < |L.lists| && L.lists[seg] != [] && L.lists[seg][0] == u == free_segments[seg]
      ensures u != 0 ==> BestFit(Home, L.chunks, L.lists, u, RoundUp(size)) && RoundUp(size) >= size
    {
      seg, u := 0, 0;
      var start := SeglistIndexUp(nbSegs, size);
      if start < 0 {
        NothingFits(size);
        return;
      }
      StartInRange(size);
      seg := FindBucket(start);
      if seg == nbSegs * 4 {
        NothingFits(size);
        return;
      }
      HeadFits(seg, size);
      u := free_segments[seg];
      FirstBucket(seg, size);
    }

    /** The head of the first non-empty bucket is in the least size class that reaches the rounded
        request, and is the chunk of that class that was listed last. */
    lemma FirstBucket(seg: nat, size: nat)
      requires Valid() && size > 0 && seg < |L.lists| && free_segments[seg] != 0
      requires 0 <= SeglistIndexUp(nbSegs, size) <= seg
      requires forall b :: SeglistIndexUp(nbSegs, size) <= b < seg ==> free_segments[b] == 0
      ensures BestFit(Home, L.chunks, L.lists, free_segments[seg], RoundUp(size))
    {
      HeadFits(seg, size);
      assert Entry(L.home, L.chunks, L.loose, seg, L.lists[seg][0]);
      forall w | FreeAt(L.chunks, w) && 8 * L.chunks[w].units >= RoundUp(size) ensures seg <= Home(L.chunks[w].units) {
        BucketOfChunk(w);
        GoodFit(size, 8 * L.chunks[w].units);
      }
    }

    /** The bucket of a free chunk is not empty. */
    lemma BucketOfChunk(w: nat)
      requires Valid() && FreeAt(L.chunks, w)
      ensures L.chunks[w].units > 0 && Home(L.chunks[w].units) < |L.lists| && free_segments[Home(L.chunks[w].units)] != 0
    {
      assert Fits(L.chunks, L.end, w) && AtHome(L.home, L.chunks, L.lists, w);
      var b := L.home(L.chunks[w].units);
      assert ChainOk(mem[..], free_segments[..][b], L.lists[b]);
      var i :| 0 <= i < |L.lists[b]| && L.lists[b][i] == w;
      assert Entry(L.home, L.chunks, L.loose, b, L.lists[b][0]);
    }

    /** The payload of a block of `n` units. */
    lemma BlockLength(w: nat)
      requires Base() && Owned(L, w) > 0
      ensures |Data(mem[..], L, w)| == 4 * Owned(L, w) - 2
    {
      assert Fits(L.chunks, L.end, w);
    }

    /** `mem_alloc` on an aligned block size; returns the chunk, 0 when nothing fits. */
    method AllocBlock(size: nat) returns (u: nat)
      requires Valid() && size > 0 && size % 8 == 0
      modifies this`L, mem, free_segments
      ensures Valid()
      ensures u == 0 <==> old(NoneReaches(RoundUp(size)))
      ensures u == 0 ==> L == old(L) && mem[..] == old(mem[..])
      ensures u != 0 ==> BestFit(Home, old(L).chunks, old(L).lists, u, RoundUp(size)) && size <= RoundUp(size)
      ensures u != 0 ==> L.chunks == AllocChunk(old(L).chunks, u, size / 8)
      ensures u != 0 ==> L.lists == AllocLists(Home, old(L).chunks, old(L).lists, u, size / 8)
      ensures forall w :: u == 0 || w != u ==> Data(mem[..], L, w) == old(Data(mem[..], L, w))
    {
      var seg;
      seg, u := FindFit(size);
      if u == 0 {
        return;
      }
      ChunksValid(u);
      if !ChunkValid(u) { assert false; }
      SizeOfChunk(u);
      if size > Size(u) { assert false; }
      Carve(seg, u, size);
    }

    lemma SizeOfChunk(u: nat)
      requires Base() && u in L.chunks
      ensures 4 * u + 3 < mem.Length && Size(u) == 8 * L.chunks[u].units
    {
      assert HeaderOk(mem[..], L, u);
    }

    /** Returns the payload address 8u + 4 of a new block `u`, or NULL. */
    method MemAlloc(nbBytes: nat) returns (ptr: nat, ghost u: nat)
      requires Valid()
      modifies this`L, mem, free_segments
      ensures Valid()
      ensures ptr == 0 <==>
                nbBytes == 0 || nbBytes > MAX_REQUEST || old(NoneReaches(RoundUp(AlignAllocSize(nbBytes))))
      ensures ptr == 0 ==> u == 0 && L == old(L) && mem[..] == old(mem[..])
      ensures ptr != 0 ==> ptr == 8 * u + HEADER
      ensures ptr != 0 ==> FreeAt(old(L).chunks, u) && AlignAllocSize(nbBytes) <= 8 * old(L).chunks[u].units
      ensures ptr != 0 ==> BestFit(Home, old(L).chunks, old(L).lists, u, RoundUp(AlignAllocSize(nbBytes)))
      ensures ptr != 0 ==> L.chunks == AllocChunk(old(L).chunks, u, AlignAllocSize(nbBytes) / 8)
      ensures ptr != 0 ==> L.lists == AllocLists(Home, old(L).chunks, old(L).lists, u, AlignAllocSize(nbBytes) / 8)
      ensures ptr != 0 ==> 2 * |Data(mem[..], L, u)| == AlignAllocSize(nbBytes) - HEADER >= nbBytes
      ensures Coalesced(old(L).chunks) ==> Coalesced(L.chunks)
      ensures forall w :: ptr == 0 || w != u ==> Data(mem[..], L, w) == old(Data(mem[..], L, w))
    {
      u := 0;
      AlignIsLeast(nbBytes, 0);
      if nbBytes == 0 {
        return 0, 0;
      }
      if nbBytes > MAX_REQUEST {
        return 0, 0;
      }
      var block := AllocBlock(AlignAllocSize(nbBytes));
      if block == 0 {
        return 0, 0;
      }
      BlockLength(block);
      if Coalesced(old(L).chunks) { AllocCoalesced(old(L).chunks, block, AlignAllocSize(nbBytes) / 8); }
      return 8 * block + HEADER, block;
    }

    // -------------------------------------------------------------- mem_realloc

    method WriteCopy(dst: nat, src: nat, n: nat)
      requires dst + n <= mem.Length && src + n <= mem.Length && (src + n <= dst || dst + n <= src)
      modifies mem
      ensures mem[..][dst..dst + n] == old(mem[..])[src..src + n]
      ensures forall i :: 0 <= i < mem.Length && (i < dst || i >= dst + n) ==> mem[..][i] == old(mem[..])[i]
    {
      forall i | 0 <= i < n {
        mem[dst + i] := mem[src + i];
      }
    }

    /** `memcpy` of the first `n` half-words of block `u` into block `v`. */
    method CopyPayload(u: nat, v: nat, n: nat)
      requires Base() && u != v && n == 4 * Owned(L, u) - 2 && 0 < Owned(L, u) <= Owned(L, v)
      modifies mem
      ensures Base()
      ensures forall w :: w != v ==> Data(mem[..], L, w) == old(Data(mem[..], L, w))
      ensures old(Data(mem[..], L, u)) <= Data(mem[..], L, v) && |Data(mem[..], L, v)| == old(|Data(mem[..], L, v)|)
    {
      ghost var m0 := mem[..];
      BlocksApart(m0, L, u, v);
      WriteCopy(4 * v + 2, 4 * u + 2, n);
      CopyDone(m0, mem[..], free_segments[..], L, u, v, 4 * v + 2, 4 * u + 2, n);
    }

    /** The in-place branch for a new block of `n` units: gives the tail of block `u` back if a
        free chunk fits there. */
    method ShrinkInPlace(u: nat, n: nat)
      requires Valid() && 0 < n <= Owned(L, u)
      modifies this`L, mem, free_segments
      ensures Valid()
      ensures forall w :: w != u ==> Data(mem[..], L, w) == old(Data(mem[..], L, w))
      ensures Data(mem[..], L, u) <= old(Data(mem[..], L, u)) && |Data(mem[..], L, u)| == 4 * n - 2
      ensures L.chunks == ShrinkChunk(old(L).chunks, u, n)
      ensures L.lists == ShrinkLists(Home, old(L).chunks, old(L).lists, u, n)
      ensures Coalesced(old(L).chunks) ==>
                (Coalesced(L.chunks) <==> n == Owned(old(L), u) || !FreeAt(old(L).chunks, Past(old(L).chunks, u)))
    {
      BlockLength(u);
      assert Fits(L.chunks, L.end, u);
      SizeOfChunk(u);
      if Size(u) - 8 * n >= 8 {
        if Coalesced(L.chunks) { ShrinkCoalesced(L.chunks, u, n, end); }
        PayloadPrefix(mem[..], u, n, Owned(L, u));
        CutAndList(u, n);
      }
    }

    /** Copies block `u` into the larger block `v` and frees `u`. */
    method Relocate(u: nat, v: nat)
      requires Valid() && u != v && 0 < Owned(L, u) <= Owned(L, v)
      modifies this`L, mem, free_segments
      ensures Valid()
      ensures old(Data(mem[..], L, u)) <= Data(mem[..], L, v) && |Data(mem[..], L, v)| == old(|Data(mem[..], L, v)|)
      ensures Data(mem[..], L, u) == [] && L.chunks == FreeChunk(old(L).chunks, u, end)
      ensures L.lists == FreedLists(Home, old(L).chunks, old(L).lists, u, end)
      ensures forall w :: w != u && w != v ==> Data(mem[..], L, w) == old(Data(mem[..], L, w))
      ensures Coalesced(old(L).chunks) ==> Coalesced(L.chunks)
    {
      SizeOfChunk(u);
      CopyPayload(u, v, (Size(u) - HEADER) / 2);
      MemFree(8 * u + HEADER, u);
    }

    /** Allocates the block that is to replace the smaller block `u`. */
    method AllocLarger(u: nat, size: nat) returns (r: nat, ghost v: nat)
      requires Valid() && Owned(L, u) > 0 && 8 * Owned(L, u) - HEADER < size <= MAX_REQUEST
      modifies this`L, mem, free_segments
      ensures Valid()
      ensures r == 0 <==> old(NoneReaches(RoundUp(AlignAllocSize(size))))
      ensures r == 0 ==> L == old(L) && mem[..] == old(mem[..])
      ensures r != 0 ==> r == 8 * v + HEADER && v != u && old(Data(mem[..], L, v)) == []
      ensures r != 0 ==> 0 < Owned(L, u) <= Owned(L, v) && 2 * |Data(mem[..], L, v)| == AlignAllocSize(size) - HEADER >= size
      ensures r != 0 ==> FreeAt(old(L).chunks, v) && AlignAllocSize(size) <= 8 * old(L).chunks[v].units
      ensures r != 0 ==> BestFit(Home, old(L).chunks, old(L).lists, v, RoundUp(AlignAllocSize(size)))
      ensures r != 0 ==> L.chunks == AllocChunk(old(L).chunks, v, AlignAllocSize(size) / 8)
      ensures r != 0 ==> L.lists == AllocLists(Home, old(L).chunks, old(L).lists, v, AlignAllocSize(size) / 8)
      ensures forall w :: r == 0 || w != v ==> Data(mem[..], L, w) == old(Data(mem[..], L, w))
      ensures Coalesced(old(L).chunks) ==> Coalesced(L.chunks)
    {
      BlockLength(u);
      r, v := MemAlloc(size);
      if r != 0 {
        assert Data(mem[..], L, u) == old(Data(mem[..], L, u));
        BlockLength(u);
        BlockLength(v);
      }
    }

    /** The moving branch: a larger block, the old contents copied, the old block freed. */
    method MoveBlock(u: nat, size: nat) returns (r: nat, ghost v: nat)
      requires Valid() && Owned(L, u) > 0 && 8 * Owned(L, u) - HEADER < size <= MAX_REQUEST
      modifies this`L, mem, free_segments
      ensures Valid()
      ensures r == 0 <==> old(NoneReaches(RoundUp(AlignAllocSize(size))))
      ensures r == 0 ==> L == old(L) && mem[..] == old(mem[..])
      ensures r != 0 ==> r == 8 * v + HEADER && v != u && old(Data(mem[..], L, v)) == []
      ensures r != 0 ==> old(Data(mem[..], L, u)) <= Data(mem[..], L, v)
      ensures r != 0 ==> 2 * |Data(mem[..], L, v)| == AlignAllocSize(size) - HEADER >= size
      ensures r != 0 ==> Data(mem[..], L, u) == []
      ensures r != 0 ==> FreeAt(old(L).chunks, v) && AlignAllocSize(size) <= 8 * old(L).chunks[v].units
      ensures r != 0 ==> BestFit(Home, old(L).chunks, old(L).lists, v, RoundUp(AlignAllocSize(size)))
      ensures r != 0 ==> L.chunks == FreeChunk(AllocChunk(old(L).chunks, v, AlignAllocSize(size) / 8), u, end)
      ensures r != 0 ==> L.lists == MovedLists(Home, old(L).chunks, old(L).lists, v, AlignAllocSize(size) / 8, u, end)
      ensures forall w :: w != u && w != v ==> Data(mem[..], L, w) == old(Data(mem[..], L, w))
      ensures Coalesced(old(L).chunks) ==> Coalesced(L.chunks)
    {
      r, v := AllocLarger(u, size);
      if r != 0 {
        var w := (r - HEADER) / 8;
        assert w == v;
        Relocate(u, w);
      }
    }

    /** `ptr` lies in the chunk area of the buffer. */
    predicate InHeap(ptr: nat)
    {
      HEAP_HEADER_SIZE <= ptr < 8 * end
    }

    method MemRealloc(ptr: nat, size: nat, ghost u: nat) returns (r: nat, ghost v: nat)
      requires Valid()
      requires InHeap(ptr) ==> ptr == 8 * u + HEADER && Owned(L, u) > 0
      modifies this`L, mem, free_segments
      ensures Valid()
      // a pointer outside the heap, or a failure: nothing changes
      ensures ptr != 0 && !InHeap(ptr) ==> r == 0
      // NULL asks for a new block
      ensures ptr == 0 ==>
                (r == 0 <==> size == 0 || size > MAX_REQUEST || old(NoneReaches(RoundUp(AlignAllocSize(size)))))
      ensures ptr == 0 && r != 0 ==>
                BestFit(Home, old(L).chunks, old(L).lists, v, RoundUp(AlignAllocSize(size))) &&
                FreeAt(old(L).chunks, v) && AlignAllocSize(size) <= 8 * old(L).chunks[v].units &&
                L.chunks == AllocChunk(old(L).chunks, v, AlignAllocSize(size) / 8) &&
                L.lists == AllocLists(Home, old(L).chunks, old(L).lists, v, AlignAllocSize(size) / 8)
      ensures InHeap(ptr) && size > 0 ==>
                (r == 0 <==> size > MAX_REQUEST ||
                             (8 * Owned(old(L), u) - HEADER < size && old(NoneReaches(RoundUp(AlignAllocSize(size))))))
      ensures r == 0 && !(InHeap(ptr) && size == 0) ==> L == old(L) && mem[..] == old(mem[..])
      // size 0 frees the block
      ensures InHeap(ptr) && size == 0 ==>
                r == 0 && Data(mem[..], L, u) == [] && L.chunks == FreeChunk(old(L).chunks, u, end) &&
                L.lists == FreedLists(Home, old(L).chunks, old(L).lists, u, end)
      // a request that fits the old block keeps the pointer, any other moves the block
      ensures InHeap(ptr) && 0 < size <= MAX_REQUEST && size + HEADER <= 8 * Owned(old(L), u) ==>
                r == ptr && v == u && L.chunks == ShrinkChunk(old(L).chunks, u, AlignAllocSize(size) / 8) &&
                L.lists == ShrinkLists(Home, old(L).chunks, old(L).lists, u, AlignAllocSize(size) / 8)
      ensures InHeap(ptr) && r != 0 && size + HEADER > 8 * Owned(old(L), u) ==>
                v != u && BestFit(Home, old(L).chunks, old(L).lists, v, RoundUp(AlignAllocSize(size))) &&
                FreeAt(old(L).chunks, v) && AlignAllocSize(size) <= 8 * old(L).chunks[v].units &&
                L.chunks == FreeChunk(AllocChunk(old(L).chunks, v, AlignAllocSize(size) / 8), u, end) &&
                L.lists == MovedLists(Home, old(L).chunks, old(L).lists, v, AlignAllocSize(size) / 8, u, end)
      // the new block is large enough and keeps the common prefix; a moved block is freed
      ensures r != 0 ==> r == 8 * v + HEADER && 2 * |Data(mem[..], L, v)| == AlignAllocSize(size) - HEADER >= size
      ensures InHeap(ptr) && r != 0 && v == u ==> Data(mem[..], L, u) <= old(Data(mem[..], L, u))
      ensures InHeap(ptr) && r != 0 && v != u ==>
                old(Data(mem[..], L, u)) <= Data(mem[..], L, v) && Data(mem[..], L, u) == []
      ensures r != 0 && (v != u || !InHeap(ptr)) ==> old(Data(mem[..], L, v)) == []
      // every other block keeps its contents
      ensures forall w :: (w != u || !InHeap(ptr)) && (w != v || r == 0) ==> Data(mem[..], L, w) == old(Data(mem[..], L, w))
      // coalescing is lost only by an in-place shrink in front of a free chunk
      ensures Coalesced(old(L).chunks) ==>
                (Coalesced(L.chunks) <==>
                 !(&& InHeap(ptr) && 0 < size <= 8 * Owned(old(L), u) - HEADER && size <= MAX_REQUEST
                   && AlignAllocSize(size) < 8 * Owned(old(L), u) && FreeAt(old(L).chunks, Past(old(L).chunks, u))))
    {
      v := u;
      if ptr == 0 {
        r, v := MemAlloc(size);
        return;
      }
      if ptr < HEAP_HEADER_SIZE || ptr >= 8 * end {
        return 0, u;
      }
      if size == 0 {
        MemFree(ptr, u);
        return 0, u;
      }
      if size > MAX_REQUEST {
        return 0, u;
      }
      var h := (ptr - HEADER) / 8;
      ChunksValid(h);
      if !ChunkValid(h) { assert false; }
      SizeOfChunk(h);
      var newSize := AlignAllocSize(size);
      AlignIsLeast(size, Size(h));
      if Size(h) - HEADER >= size {
        ShrinkInPlace(h, newSize / 8);
        return ptr, h;
      }
      r, v := MoveBlock(h, size);
    }

    // -------------------------------------------------------------- mem_stat

    method MemStat() returns (stat: Stat)
      requires Valid()
      ensures stat.totalSize == 8 * end == HEAP_HEADER_SIZE + stat.freeSize + stat.allocatedSize
      ensures stat.nbChunks == |L.chunks|
      ensures stat.nbAllocated == |set x | x in L.chunks && L.chunks[x].used|
      ensures stat.allocatedSize == 8 * UsedUnits(L.chunks, end)
    {
      stat := Stat(HEAP_HEADER_SIZE, 0, 0, 0, 0);
      var u, more := FIRST, true;
      CountAll(L.chunks, end);
      while more
        invariant FIRST <= u <= end && (if more then u in L.chunks else u == end)
        invariant stat.nbChunks == |Starts(L.chunks, u)| && stat.nbAllocated == |Busy(L.chunks, u)|
        invariant stat.totalSize == 8 * u == HEAP_HEADER_SIZE + stat.freeSize + stat.allocatedSize
        invariant stat.allocatedSize == 8 * UsedUnits(L.chunks, u)
        decreases end - u, more
      {
        ChunkFields(u);
        UsedUnitsStep(L.chunks, u);
        CountStep(L.chunks, u);
        var size := Size(u);
        stat := stat.(nbChunks := stat.nbChunks + 1, totalSize := stat.totalSize + size);
        if IsAllocated(u) {
          stat := stat.(nbAllocated := stat.nbAllocated + 1, allocatedSize := stat.allocatedSize + size);
        } else {
          stat := stat.(freeSize := stat.freeSize + size);
        }
        u := u + size / 8;
        more := u < end;
      }
    }

    lemma ChunkFields(u: nat)
      requires Valid() && u in L.chunks
      ensures 4 * u + 3 < mem.Length && Size(u) == 8 * L.chunks[u].units && IsAllocated(u) == L.chunks[u].used
      ensures u < Past(L.chunks, u) <= end && (Past(L.chunks, u) < end ==> Past(L.chunks, u) in L.chunks)
    {
      assert HeaderOk(mem[..], L, u) && Fits(L.chunks, L.end, u);
    }

    lemma Covered(u: nat)
      requires Valid() && Owned(L, u) > 0
      ensures u in L.chunks && HEAP_HEADER_SIZE <= 8 * u + HEADER < 8 * end
    {
      assert Fits(L.chunks, L.end, u);
    }

    /** What a client may do with its block: write one half-word of the payload. */
    method Store(u: nat, offset: nat, value: u16)
      requires Valid() && Owned(L, u) > 0 && offset < 4 * Owned(L, u) - 2
      modifies mem
      ensures Valid()
      ensures offset < old(|Data(mem[..], L, u)|) && Data(mem[..], L, u) == old(Data(mem[..], L, u))[offset := value]
      ensures forall w :: w != u ==> Data(mem[..], L, w) == old(Data(mem[..], L, w))
    {
      ghost var m0 := mem[..];
      BlockLength(u);
      assert Fits(L.chunks, L.end, u);
      mem[4 * u + 2 + offset] := value;
      PayloadWrite(m0, mem[..], free_segments[..], L, u);
    }
  }
}
