/** Whole runs of the heap, seen by a client: what each call does to the chunks, to the blocks
    the client holds and to their payloads, and what holds of every run of such calls. */
module HeapTraces {
  import opened Basics
  import opened SegIndex
  import opened HeapChunks
  import opened FreeLists
  import opened HeapImage

  /** A call; `k` names one of the client's pointers. */
  datatype Request =
    | Alloc(n: nat)
    | Free(k: nat)
    | Realloc(k: nat, n: nat)
    | Write(k: nat, offset: nat, value: u16)

  /** The size classes and the chunks of the heap, the lists of the free ones, the blocks the client
      holds and their payloads, block by block. */
  datatype World = World(home: Classes, chunks: Chunks, lists: Lists, us: seq<nat>, datas: seq<seq<u16>>)

  /** The smallest heap, of 200 bytes, in units. */
  const MIN_UNITS := 25

  /** The number of free lists of a heap. */
  function NbLists(end: nat): nat
  {
    if end < MIN_UNITS then 0 else 4 * SegmentsFor(8 * (end - FIRST))
  }

  /** The length in units of the block for a request of `n` bytes. */
  ghost function Units(n: nat): (r: nat)
    ensures r > 0 && 8 * r == AlignAllocSize(n) >= n + HEADER
  {
    AlignIsLeast(n, 0);
    AlignAllocSize(n) / 8
  }

  /** Length of the payload of a block, in half-words. */
  function PayloadLength(units: nat): int
  {
    4 * units - 2
  }

  // ---------------------------------------------------------------- one call

  /** The heap can serve a request of `n` bytes. */
  ghost predicate Grants(m: Chunks, n: nat)
  {
    0 < n <= MAX_REQUEST && exists u :: FreeAt(m, u) && 8 * m[u].units >= RoundUp(8 * Units(n))
  }

  predicate CanHold(m: Chunks, u: nat, units: nat)
  {
    FreeAt(m, u) && 0 < units <= m[u].units
  }

  /** The free chunk that serves a request for `units` units: in the least size class that is sure
      to hold it, the chunk that was listed last. */
  ghost predicate Chosen(w: World, u: nat, units: nat)
  {
    units > 0 && BestFit(w.home, w.chunks, w.lists, u, RoundUp(8 * units))
  }

  /** A new block in that chunk, behind the blocks held so far. */
  ghost predicate Allocated(w: World, units: nat, w': World)
  {
    var j := |w.us|;
    && |w'.us| == j + 1 == |w'.datas| && w'.us[..j] == w.us && w'.datas[..j] == w.datas
    && Chosen(w, w'.us[j], units) && CanHold(w.chunks, w'.us[j], units)
    && w'.chunks == AllocChunk(w.chunks, w'.us[j], units)
    && w'.lists == AllocLists(w.home, w.chunks, w.lists, w'.us[j], units) && w'.home == w.home
    && |w'.datas[j]| == PayloadLength(units)
  }

  ghost function Freed(end: nat, w: World, k: nat): World
    requires k < |w.us| == |w.datas|
  {
    World(w.home, FreeChunk(w.chunks, w.us[k], end), FreedLists(w.home, w.chunks, w.lists, w.us[k], end),
          Without(w.us, k), Without(w.datas, k))
  }

  /** The block is cut down to `units`; what it held so far is kept. */
  ghost predicate Shrunk(w: World, k: nat, units: nat, w': World)
    requires k < |w.us| == |w.datas|
  {
    && w.us[k] in w.chunks && 0 < units <= w.chunks[w.us[k]].units
    && w'.chunks == ShrinkChunk(w.chunks, w.us[k], units) && w'.us == w.us
    && w'.lists == ShrinkLists(w.home, w.chunks, w.lists, w.us[k], units) && w'.home == w.home
    && |w'.datas| == |w.datas| && w'.datas == w.datas[k := w'.datas[k]]
    && w'.datas[k] <= w.datas[k] && |w'.datas[k]| == PayloadLength(units)
  }

  /** The contents move to a new block, and the old block is freed. */
  ghost predicate Moved(end: nat, w: World, k: nat, units: nat, w': World)
    requires k < |w.us| == |w.datas|
  {
    && |w'.us| == |w.us| && w'.us == w.us[k := w'.us[k]]
    && Chosen(w, w'.us[k], units) && CanHold(w.chunks, w'.us[k], units)
    && w'.chunks == FreeChunk(AllocChunk(w.chunks, w'.us[k], units), w.us[k], end)
    && w'.lists == MovedLists(w.home, w.chunks, w.lists, w'.us[k], units, w.us[k], end) && w'.home == w.home
    && |w'.datas| == |w.datas| && w'.datas == w.datas[k := w'.datas[k]]
    && w.datas[k] <= w'.datas[k] && |w'.datas[k]| == PayloadLength(units)
  }

  ghost predicate Stored(w: World, k: nat, offset: nat, value: u16, w': World)
    requires k < |w.us| == |w.datas| && offset < |w.datas[k]|
  {
    && w'.home == w.home && w'.chunks == w.chunks && w'.lists == w.lists && w'.us == w.us
    && |w'.datas| == |w.datas| && w'.datas == w.datas[k := w'.datas[k]]
    && w'.datas[k] == w.datas[k][offset := value]
  }

  /** The request fits the block that the client already has. */
  predicate FitsBlock(m: Chunks, u: nat, n: nat)
  {
    n + HEADER <= 8 * Block(m, u)
  }

  /** What a call does and what it answers: a pointer other than NULL, or a write inside the
      block. A pointer that the client does not hold is not passed on. */
  ghost predicate Step(end: nat, w: World, call: Request, ok: bool, w': World)
    requires |w.us| == |w.datas|
  {
    match call
    case Alloc(n) =>
      ok == Grants(w.chunks, n) && if ok then Allocated(w, Units(n), w') else w' == w
    case Free(k) =>
      !ok && w' == if k < |w.us| then Freed(end, w, k) else w
    case Realloc(k, n) =>
      if k >= |w.us| || n > MAX_REQUEST then !ok && w' == w
      else if n == 0 then !ok && w' == Freed(end, w, k)
      else if FitsBlock(w.chunks, w.us[k], n) then ok && Shrunk(w, k, Units(n), w')
      else ok == Grants(w.chunks, n) && if ok then Moved(end, w, k, Units(n), w') else w' == w
    case Write(k, offset, value) =>
      ok == (k < |w.us| && offset < |w.datas[k]|) && if ok then Stored(w, k, offset, value, w') else w' == w
  }

  // ---------------------------------------------------------------- what every call keeps

  /** The client holds exactly the blocks in use, each once, with all of its payload, and every
      free chunk is in exactly one list, that of its size class. */
  ghost predicate Books(end: nat, w: World)
  {
    && Tiled(w.chunks, end) && Covers(w.home, |w.lists|, end) && Partition(w.home, w.chunks, w.lists, {})
    && |w.us| == |w.datas| && Distinct(w.us)
    && (forall u :: Block(w.chunks, u) > 0 <==> u in w.us)
    && Lengths(w)
  }

  ghost predicate Lengths(w: World)
    requires |w.us| == |w.datas|
  {
    forall i {:trigger w.us[i]} :: 0 <= i < |w.us| ==> |w.datas[i]| == PayloadLength(Block(w.chunks, w.us[i]))
  }

  lemma LengthAt(w: World, k: nat)
    requires |w.us| == |w.datas| && Lengths(w) && k < |w.us|
    ensures |w.datas[k]| == PayloadLength(Block(w.chunks, w.us[k]))
  {
  }

  lemma AllocTiled(m: Chunks, u: nat, n: nat, end: nat)
    requires Tiled(m, end) && CanHold(m, u, n)
    ensures Tiled(AllocChunk(m, u, n), end)
  {
    if n < m[u].units { SplitTiled(m, u, n, end); }
    SetUsedTiled(if n < m[u].units then Split(m, u, n) else m, u, true, end);
  }

  lemma InWithout(s: seq<nat>, k: nat, w: nat)
    requires k < |s| && Distinct(s)
    ensures w in Without(s, k) <==> w in s && w != s[k]
  {
    if w in s && w != s[k] {
      var i :| 0 <= i < |s| && s[i] == w;
      assert Without(s, k)[if i < k then i else i - 1] == w;
    }
    if w in Without(s, k) {
      var i :| 0 <= i < |s| - 1 && Without(s, k)[i] == w;
      assert s[if i < k then i else i + 1] == w;
    }
  }

  lemma Replaced(s: seq<nat>, k: nat, v: nat)
    requires k < |s| && Distinct(s) && (v == s[k] || v !in s)
    ensures forall w :: w in s[k := v] <==> w == v || (w in s && w != s[k])
    ensures Distinct(s[k := v])
  {
    assert s[k := v][k] == v;
    forall w | w in s && w != s[k] ensures w in s[k := v] {
      var i :| 0 <= i < |s| && s[i] == w;
      assert s[k := v][i] == w;
    }
  }

  /** There is a list for every chunk that the heap can have. */
  ghost predicate Covers(home: Classes, n: nat, end: nat)
  {
    forall units :: 0 < units <= end - FIRST ==> home(units) < n
  }

  lemma InRange(home: Classes, n: nat, end: nat, m: Chunks, x: nat)
    requires Covers(home, n, end) && Tiled(m, end) && x in m
    ensures m[x].units > 0 && home(m[x].units) < n
  {
    assert Fits(m, end, x);
  }

  lemma TailInRange(home: Classes, k: nat, end: nat, m: Chunks, x: nat, n: nat)
    requires Covers(home, k, end) && Tiled(m, end) && x in m && 0 < n < m[x].units
    ensures home(m[x].units - n) < k
  {
    assert Fits(m, end, x);
  }

  lemma HomeCovers(end: nat)
    requires MIN_UNITS <= end
    ensures Covers(Home, NbLists(end), end)
  {
    forall units | 0 < units <= end - FIRST ensures Home(units) < NbLists(end) {
      IndexInRange(8 * (end - FIRST), 8 * units);
    }
  }

  lemma AllocatedLists(end: nat, home: Classes, m: Chunks, lists: Lists, u: nat, units: nat)
    requires Tiled(m, end) && Covers(home, |lists|, end) && Partition(home, m, lists, {}) && CanHold(m, u, units)
    ensures Partition(home, AllocChunk(m, u, units), AllocLists(home, m, lists, u, units), {})
  {
    if units < m[u].units { TailInRange(home, |lists|, end, m, u, units); }
    AllocPartition(home, m, lists, u, units);
  }

  lemma FreedListsKept(end: nat, home: Classes, m: Chunks, lists: Lists, u: nat)
    requires Tiled(m, end) && Covers(home, |lists|, end) && Partition(home, m, lists, {}) && u in m && m[u].used
    ensures Partition(home, FreeChunk(m, u, end), FreedLists(home, m, lists, u, end), {})
  {
    FreeChunkTiled(m, u, end);
    var m' := FreeChunk(m, u, end);
    forall x | x in m' ensures home(m'[x].units) < |lists| { InRange(home, |lists|, end, m', x); }
    FreedPartition(home, m, lists, u, end);
  }

  lemma ShrunkLists(end: nat, home: Classes, m: Chunks, lists: Lists, u: nat, units: nat)
    requires Tiled(m, end) && Covers(home, |lists|, end) && Partition(home, m, lists, {})
    requires u in m && m[u].used && 0 < units <= m[u].units
    ensures Partition(home, ShrinkChunk(m, u, units), ShrinkLists(home, m, lists, u, units), {})
  {
    if units < m[u].units { TailInRange(home, |lists|, end, m, u, units); }
    ShrinkPartition(home, m, lists, {}, u, units);
  }

  lemma AllocatedBooks(end: nat, w: World, units: nat, w': World)
    requires Books(end, w) && Allocated(w, units, w')
    ensures Books(end, w')
  {
    var u := w'.us[|w.us|];
    AllocTiled(w.chunks, u, units, end);
    AllocatedLists(end, w.home, w.chunks, w.lists, u, units);
    AllocatedHeld(w, units, w');
  }

  /** The blocks held after an allocation. */
  lemma AllocatedHeld(w: World, units: nat, w': World)
    requires NoOverlap(w.chunks) && |w.us| == |w.datas| && Distinct(w.us) && Lengths(w)
    requires forall u :: Block(w.chunks, u) > 0 <==> u in w.us
    requires Allocated(w, units, w')
    ensures Distinct(w'.us) && Lengths(w') && forall u :: Block(w'.chunks, u) > 0 <==> u in w'.us
  {
    var j := |w.us|;
    var u := w'.us[j];
    forall x ensures Block(w'.chunks, x) == if x == u then units else Block(w.chunks, x) {
      AllocBlock(w.chunks, u, units, x);
    }
    AllocBlock(w.chunks, u, units, u);
    assert u !in w.us;
    assert w'.us == w.us + [u];
    forall i | 0 <= i < j ensures w'.us[i] == w.us[i] && w'.datas[i] == w.datas[i] && w'.us[i] != u {
      assert w'.datas[i] == w'.datas[..j][i] && w.us[i] in w.us;
    }
  }

  lemma FreedBooks(end: nat, w: World, k: nat)
    requires Books(end, w) && k < |w.us|
    ensures Books(end, Freed(end, w, k))
  {
    var u, w' := w.us[k], Freed(end, w, k);
    assert u in w.us;
    FreeChunkTiled(w.chunks, u, end);
    FreedListsKept(end, w.home, w.chunks, w.lists, u);
    forall x ensures Block(w'.chunks, x) == if x == u then 0 else Block(w.chunks, x) {
      FreeBlock(w.chunks, u, end, x);
    }
    DistinctWithout(w.us, k);
    forall x ensures Block(w'.chunks, x) > 0 <==> x in w'.us {
      InWithout(w.us, k, x);
    }
    forall i | 0 <= i < |w'.us| ensures |w'.datas[i]| == PayloadLength(Block(w'.chunks, w'.us[i])) {
      DroppedAt(w, k, i);
    }
  }

  lemma DroppedAt(w: World, k: nat, i: nat)
    requires |w.us| == |w.datas| && Distinct(w.us) && k < |w.us| && i < |w.us| - 1
    ensures var j := if i < k then i else i + 1;
            Without(w.us, k)[i] == w.us[j] != w.us[k] && Without(w.datas, k)[i] == w.datas[j]
  {
  }

  lemma ShrunkBooks(end: nat, w: World, k: nat, units: nat, w': World)
    requires Books(end, w) && k < |w.us| && Shrunk(w, k, units, w')
    ensures Books(end, w')
  {
    var u := w.us[k];
    assert u in w.us;
    if units < w.chunks[u].units { SplitTiled(w.chunks, u, units, end); }
    ShrunkLists(end, w.home, w.chunks, w.lists, u, units);
    forall x ensures Block(w'.chunks, x) == if x == u then units else Block(w.chunks, x) {
      if units < w.chunks[u].units { ShrinkBlock(w.chunks, u, units, x); }
    }
    forall i | 0 <= i < |w.us| ensures |w'.datas[i]| == PayloadLength(Block(w'.chunks, w.us[i])) {
      assert i != k ==> w.us[i] != u;
    }
  }

  lemma MovedBlocks(end: nat, m: Chunks, u: nat, v: nat, units: nat, x: nat)
    requires Tiled(m, end) && Block(m, u) > 0 && CanHold(m, v, units)
    ensures var m1 := AllocChunk(m, v, units);
            && Tiled(m1, end) && u in m1 && m1[u].used && Tiled(FreeChunk(m1, u, end), end)
            && Block(FreeChunk(m1, u, end), x) == if x == v then units else if x == u then 0 else Block(m, x)
  {
    var m1 := AllocChunk(m, v, units);
    AllocTiled(m, v, units, end);
    AllocBlock(m, v, units, u);
    AllocBlock(m, v, units, x);
    FreeChunkTiled(m1, u, end);
    FreeBlock(m1, u, end, x);
  }

  lemma MovedBooks(end: nat, w: World, k: nat, units: nat, w': World)
    requires Books(end, w) && k < |w.us| && Moved(end, w, k, units, w')
    ensures Books(end, w')
  {
    var u, v := w.us[k], w'.us[k];
    assert u in w.us;
    forall x ensures Tiled(w'.chunks, end) && Block(w'.chunks, x) == if x == v then units else if x == u then 0 else Block(w.chunks, x) {
      MovedBlocks(end, w.chunks, u, v, units, x);
    }
    MovedBlocks(end, w.chunks, u, v, units, v);
    AllocatedLists(end, w.home, w.chunks, w.lists, v, units);
    FreedListsKept(end, w.home, AllocChunk(w.chunks, v, units), AllocLists(w.home, w.chunks, w.lists, v, units), u);
    assert v !in w.us;
    Replaced(w.us, k, v);
    forall i | 0 <= i < |w.us| ensures |w'.datas[i]| == PayloadLength(Block(w'.chunks, w'.us[i])) {
      assert i != k ==> w.us[i] != u && w.us[i] in w.us;
    }
  }

  /** Every call keeps the books. */
  lemma StepBooks(end: nat, w: World, call: Request, ok: bool, w': World)
    requires Books(end, w) && Step(end, w, call, ok, w')
    ensures Books(end, w')
  {
    match call {
      case Alloc(n) => if ok { AllocatedBooks(end, w, Units(n), w'); }
      case Free(k) => if k < |w.us| { FreedBooks(end, w, k); }
      case Realloc(k, n) =>
        if k < |w.us| && n <= MAX_REQUEST {
          if n == 0 {
            FreedBooks(end, w, k);
          } else if FitsBlock(w.chunks, w.us[k], n) {
            ShrunkBooks(end, w, k, Units(n), w');
          } else if ok {
            MovedBooks(end, w, k, Units(n), w');
          }
        }
      case Write(k, offset, value) => if ok { StoredBooks(end, w, k, offset, value, w'); }
    }
  }

  lemma StoredBooks(end: nat, w: World, k: nat, offset: nat, value: u16, w': World)
    requires Books(end, w) && k < |w.us| && offset < |w.datas[k]| && Stored(w, k, offset, value, w')
    ensures Books(end, w')
  {
    forall i | 0 <= i < |w.us| ensures |w'.datas[i]| == PayloadLength(Block(w'.chunks, w'.us[i])) {
      assert |w.datas[i]| == PayloadLength(Block(w.chunks, w.us[i]));
    }
  }

  // ---------------------------------------------------------------- coalescing

  /** The one call that costs the heap its coalescing: a realloc that shrinks a block in place
      in front of a free chunk. */
  ghost predicate LeavesTail(w: World, call: Request)
  {
    && call.Realloc? && call.k < |w.us| && 0 < call.n <= MAX_REQUEST
    && var u := w.us[call.k];
    FitsBlock(w.chunks, u, call.n) && Units(call.n) < Block(w.chunks, u) && FreeAt(w.chunks, Past(w.chunks, u))
  }

  /** A call takes a coalesced heap to a coalesced heap exactly when it is not that one. */
  lemma StepCoalesced(end: nat, w: World, call: Request, ok: bool, w': World)
    requires Books(end, w) && Step(end, w, call, ok, w') && Coalesced(w.chunks)
    ensures Coalesced(w'.chunks) <==> !LeavesTail(w, call)
  {
    match call {
      case Alloc(n) => if ok { AllocCoalesced(w.chunks, w'.us[|w.us|], Units(n)); }
      case Free(k) => if k < |w.us| { FreedCoalesced(end, w, k); }
      case Realloc(k, n) =>
        if k < |w.us| && n <= MAX_REQUEST {
          if n == 0 {
            FreedCoalesced(end, w, k);
          } else if FitsBlock(w.chunks, w.us[k], n) {
            assert w.us[k] in w.us;
            if Units(n) < w.chunks[w.us[k]].units { ShrinkCoalesced(w.chunks, w.us[k], Units(n), end); }
          } else if ok {
            MovedCoalesced(end, w, k, Units(n), w');
          }
        }
      case Write(k, offset, value) =>
    }
  }

  lemma FreedCoalesced(end: nat, w: World, k: nat)
    requires Books(end, w) && k < |w.us| && Coalesced(w.chunks)
    ensures Coalesced(Freed(end, w, k).chunks)
  {
    assert w.us[k] in w.us;
    FreeCoalesced(w.chunks, w.us[k], end);
  }

  lemma MovedCoalesced(end: nat, w: World, k: nat, units: nat, w': World)
    requires Books(end, w) && k < |w.us| && Moved(end, w, k, units, w') && Coalesced(w.chunks)
    ensures Coalesced(w'.chunks)
  {
    var u, v := w.us[k], w'.us[k];
    assert u in w.us;
    AllocCoalesced(w.chunks, v, units);
    MovedBlocks(end, w.chunks, u, v, units, u);
    FreeCoalesced(AllocChunk(w.chunks, v, units), u, end);
  }

  // ---------------------------------------------------------------- what the client expects

  /** What a client knows of one of its blocks: the bytes it asked for, and the half-words it
      has written, by offset. */
  datatype View = View(size: nat, words: map<nat, u16>)

  /** What the client expects of each of its pointers after a call with the answer `ok`. */
  function Expect(views: seq<View>, call: Request, ok: bool): seq<View>
  {
    match call
    case Alloc(n) => if ok then views + [View(n, map[])] else views
    case Free(k) => if k < |views| then Without(views, k) else views
    case Realloc(k, n) =>
      if k >= |views| then views
      else if ok then views[k := First(views[k], n)]
      else if n == 0 then Without(views, k)
      else views
    case Write(k, offset, value) =>
      if k < |views| && ok then views[k := Put(views[k], offset, value)] else views
  }

  function Put(view: View, offset: nat, value: u16): View
  {
    view.(words := map o | o in view.words.Keys + {offset} :: if o == offset then value else view.words[o])
  }

  /** What was written into the first `n` bytes. */
  function First(view: View, n: nat): View
  {
    View(n, map offset | offset in view.words && 2 * offset + 2 <= n :: view.words[offset])
  }

  function ExpectAll(script: seq<Request>, answers: seq<bool>): seq<View>
    requires |answers| == |script|
  {
    if script == [] then []
    else Expect(ExpectAll(script[..|script| - 1], answers[..|script| - 1]), script[|script| - 1], answers[|script| - 1])
  }

  /** The block is as long as asked for and reads back what was written. */
  predicate Agrees(data: seq<u16>, view: View)
  {
    2 * |data| >= view.size &&
    forall offset :: offset in view.words ==> offset < |data| && data[offset] == view.words[offset]
  }

  ghost predicate AllAgree(datas: seq<seq<u16>>, views: seq<View>)
  {
    |views| == |datas| && forall i {:trigger views[i]} {:trigger datas[i]} :: 0 <= i < |views| ==> Agrees(datas[i], views[i])
  }

  lemma WithoutAgree(datas: seq<seq<u16>>, views: seq<View>, k: nat)
    requires AllAgree(datas, views) && k < |views|
    ensures AllAgree(Without(datas, k), Without(views, k))
  {
    forall i | 0 <= i < |views| - 1 ensures Agrees(Without(datas, k)[i], Without(views, k)[i]) {
      var j := if i < k then i else i + 1;
      assert Without(datas, k)[i] == datas[j] && Without(views, k)[i] == views[j];
    }
  }

  lemma ReplaceAgree(datas: seq<seq<u16>>, views: seq<View>, k: nat, data: seq<u16>, view: View)
    requires AllAgree(datas, views) && k < |views| && Agrees(data, view)
    ensures AllAgree(datas[k := data], views[k := view])
  {
  }

  lemma AppendAgree(datas: seq<seq<u16>>, views: seq<View>, datas': seq<seq<u16>>, view: View)
    requires AllAgree(datas, views) && |datas'| == |datas| + 1 && datas'[..|datas|] == datas
    requires Agrees(datas'[|datas|], view)
    ensures AllAgree(datas', views + [view])
  {
    forall i | 0 <= i < |datas| ensures Agrees(datas'[i], views[i]) {
      assert datas'[i] == datas'[..|datas|][i];
    }
  }

  /** Cutting a block down, or moving it into a longer one, keeps what fits the new size. */
  lemma FirstAgrees(data: seq<u16>, view: View, data': seq<u16>, n: nat)
    requires Agrees(data, view) && (data' <= data || data <= data') && 2 * |data'| >= n
    ensures Agrees(data', First(view, n))
  {
  }

  lemma PutAgrees(data: seq<u16>, view: View, offset: nat, value: u16, data': seq<u16>)
    requires Agrees(data, view) && offset < |data| && data' == data[offset := value]
    ensures Agrees(data', Put(view, offset, value))
  {
  }

  /** Whatever the client expects of its blocks before a call it may expect, updated by the
      call, after it. */
  lemma StepAgrees(end: nat, w: World, call: Request, ok: bool, w': World, views: seq<View>)
    requires |w.us| == |w.datas| && Step(end, w, call, ok, w') && AllAgree(w.datas, views)
    ensures AllAgree(w'.datas, Expect(views, call, ok))
  {
    match call {
      case Alloc(n) => if ok { AppendAgree(w.datas, views, w'.datas, View(n, map[])); }
      case Free(k) => if k < |views| { WithoutAgree(w.datas, views, k); }
      case Realloc(k, n) =>
        if k < |views| && n <= MAX_REQUEST {
          if n == 0 {
            WithoutAgree(w.datas, views, k);
          } else if ok {
            FirstAgrees(w.datas[k], views[k], w'.datas[k], n);
            ReplaceAgree(w.datas, views, k, w'.datas[k], First(views[k], n));
          }
        }
      case Write(k, offset, value) =>
        if ok {
          PutAgrees(w.datas[k], views[k], offset, value, w'.datas[k]);
          ReplaceAgree(w.datas, views, k, w'.datas[k], Put(views[k], offset, value));
        }
    }
  }

  // ---------------------------------------------------------------- runs

  ghost function Initial(end: nat): World
  {
    var m := map[FIRST := Chunk(if end < FIRST then 0 else end - FIRST, false, 0)];
    World(Home, m, Enlisted(Home, m, EmptyLists(NbLists(end)), FIRST), [], [])
  }

  /** `trace` is a run of the script: it starts with the initial heap, and each call does what
      Step says, with the answer recorded for it. */
  ghost predicate IsRun(end: nat, script: seq<Request>, answers: seq<bool>, trace: seq<World>)
  {
    && |trace| == |script| + 1 && |answers| == |script| && trace[0] == Initial(end)
    && forall i :: 0 <= i < |script| ==> StepAt(end, script, answers, trace, i)
  }

  ghost predicate StepAt(end: nat, script: seq<Request>, answers: seq<bool>, trace: seq<World>, i: nat)
    requires i < |script| == |answers| && |trace| == |script| + 1
  {
    |trace[i].us| == |trace[i].datas| && Step(end, trace[i], script[i], answers[i], trace[i + 1])
  }

  lemma InitialBooks(end: nat)
    requires MIN_UNITS <= end
    ensures Books(end, Initial(end)) && Coalesced(Initial(end).chunks)
  {
    var m := Initial(end).chunks;
    assert Fits(m, end, FIRST) && Apart(m, FIRST);
    HomeCovers(end);
    FirstListed(Home, NbLists(end), m, end);
  }

  lemma FirstListed(home: Classes, n: nat, m: Chunks, end: nat)
    requires FIRST < end && m == map[FIRST := Chunk(end - FIRST, false, 0)] && Covers(home, n, end)
    ensures Partition(home, m, Enlisted(home, m, EmptyLists(n), FIRST), {})
  {
    assert Partition(home, m, EmptyLists(n), {FIRST});
    EnlistedPartition(home, m, EmptyLists(n), {FIRST}, FIRST);
    assert {FIRST} - {FIRST} == {};
  }

  /** With one free chunk there is one list, and it holds that chunk. */
  lemma OneChunkLists(home: Classes, m: Chunks, lists: Lists, end: nat)
    requires FIRST < end && m == map[FIRST := Chunk(end - FIRST, false, 0)] && Partition(home, m, lists, {})
    ensures lists == Enlisted(home, m, EmptyLists(|lists|), FIRST)
  {
    assert AtHome(home, m, lists, FIRST);
    var h := home(m[FIRST].units);
    forall b | 0 <= b < |lists| ensures lists[b] == if b == h then [FIRST] else [] {
      forall i | 0 <= i < |lists[b]| ensures lists[b][i] == FIRST && b == h {
        assert Entry(home, m, {}, b, lists[b][i]);
      }
      AtMostOne(lists[b], FIRST);
    }
    assert [FIRST] + EmptyLists(|lists|)[h] == [FIRST];
    assert lists == Enlisted(home, m, EmptyLists(|lists|), FIRST);
  }

  lemma FirstTwo(s: seq<nat>)
    requires Distinct(s) && |s| > 1
    ensures s[0] != s[1]
  {
  }

  lemma AtMostOne(s: seq<nat>, x: nat)
    requires Distinct(s) && forall i :: 0 <= i < |s| ==> s[i] == x
    ensures s == if x in s then [x] else []
  {
    if |s| > 1 {
      FirstTwo(s);
      assert false;
    }
    assert |s| == 1 ==> s == [s[0]];
  }

  lemma {:induction false} RunHome(end: nat, script: seq<Request>, answers: seq<bool>, trace: seq<World>, i: nat)
    requires IsRun(end, script, answers, trace) && i <= |script|
    ensures trace[i].home == Home && |trace[i].lists| == NbLists(end)
    decreases i
  {
    if i > 0 {
      RunHome(end, script, answers, trace, i - 1);
      assert StepAt(end, script, answers, trace, i - 1);
      StepHome(end, trace[i - 1], script[i - 1], answers[i - 1], trace[i]);
    }
  }

  lemma StepHome(end: nat, w: World, call: Request, ok: bool, w': World)
    requires |w.us| == |w.datas| && Step(end, w, call, ok, w')
    ensures w'.home == w.home && |w'.lists| == |w.lists|
  {
  }

  /** In every state of every run the chunks tile the heap and the client holds exactly the
      blocks in use. */
  lemma {:induction false} RunBooks(end: nat, script: seq<Request>, answers: seq<bool>, trace: seq<World>, i: nat)
    requires MIN_UNITS <= end && IsRun(end, script, answers, trace) && i <= |script|
    ensures Books(end, trace[i])
    decreases i
  {
    if i == 0 {
      InitialBooks(end);
    } else {
      RunBooks(end, script, answers, trace, i - 1);
      assert StepAt(end, script, answers, trace, i - 1);
      StepBooks(end, trace[i - 1], script[i - 1], answers[i - 1], trace[i]);
    }
  }

  /** In every state of every run each block is as long as the client asked for and reads back
      what the client wrote into it, through all moves and all other calls. */
  lemma {:induction false} RunAgrees(end: nat, script: seq<Request>, answers: seq<bool>, trace: seq<World>, i: nat)
    requires IsRun(end, script, answers, trace) && i <= |script|
    ensures AllAgree(trace[i].datas, ExpectAll(script[..i], answers[..i]))
    decreases i
  {
    if i > 0 {
      RunAgrees(end, script, answers, trace, i - 1);
      assert StepAt(end, script, answers, trace, i - 1);
      ExpectNext(script, answers, i - 1);
      StepAgrees(end, trace[i - 1], script[i - 1], answers[i - 1], trace[i], ExpectAll(script[..i - 1], answers[..i - 1]));
    }
  }

  lemma ExpectNext(script: seq<Request>, answers: seq<bool>, i: nat)
    requires i < |script| == |answers|
    ensures ExpectAll(script[..i + 1], answers[..i + 1]) == Expect(ExpectAll(script[..i], answers[..i]), script[i], answers[i])
  {
    assert script[..i + 1][..i] == script[..i];
    assert answers[..i + 1][..i] == answers[..i];
  }

  /** No call before the i-th leaves a tail in front of a free chunk. */
  ghost predicate Tidy(script: seq<Request>, trace: seq<World>, i: nat)
    requires i <= |script| < |trace|
  {
    forall j {:trigger script[j]} :: 0 <= j < i ==> !LeavesTail(trace[j], script[j])
  }

  /** A run keeps the heap coalesced exactly as long as no call leaves a tail: up to that call it
      is coalesced, and after that call it is not. */
  lemma {:induction false} RunCoalesced(end: nat, script: seq<Request>, answers: seq<bool>, trace: seq<World>, i: nat)
    requires MIN_UNITS <= end && IsRun(end, script, answers, trace) && i <= |script| && Tidy(script, trace, i)
    ensures Coalesced(trace[i].chunks)
    ensures i < |script| ==> (Coalesced(trace[i + 1].chunks) <==> !LeavesTail(trace[i], script[i]))
    decreases i
  {
    if i == 0 {
      InitialBooks(end);
    } else {
      RunCoalesced(end, script, answers, trace, i - 1);
      assert !LeavesTail(trace[i - 1], script[i - 1]);
    }
    if i < |script| {
      RunBooks(end, script, answers, trace, i);
      assert StepAt(end, script, answers, trace, i);
      StepCoalesced(end, trace[i], script[i], answers[i], trace[i + 1]);
    }
  }

  /** A run that never leaves a tail, and in which the client has given everything back, ends
      with the initial heap. */
  lemma RunRestores(end: nat, script: seq<Request>, answers: seq<bool>, trace: seq<World>)
    requires MIN_UNITS <= end && IsRun(end, script, answers, trace) && Tidy(script, trace, |script|)
    requires trace[|script|].us == []
    ensures trace[|script|] == Initial(end)
  {
    var w := trace[|script|];
    RunBooks(end, script, answers, trace, |script|);
    RunCoalesced(end, script, answers, trace, |script|);
    AllFreeIsOneChunk(w.chunks, end);
    RunHome(end, script, answers, trace, |script|);
    OneChunkLists(w.home, w.chunks, w.lists, end);
  }

  /** What every run means for the client. */
  lemma RunMeans(end: nat, script: seq<Request>, answers: seq<bool>, trace: seq<World>)
    requires MIN_UNITS <= end && IsRun(end, script, answers, trace)
    ensures AllAgree(trace[|script|].datas, ExpectAll(script, answers))
    ensures Tidy(script, trace, |script|) ==> Coalesced(trace[|script|].chunks)
    ensures Tidy(script, trace, |script|) && trace[|script|].us == [] ==> trace[|script|] == Initial(end)
  {
    assert script[..|script|] == script && answers[..|script|] == answers;
    RunAgrees(end, script, answers, trace, |script|);
    if Tidy(script, trace, |script|) {
      RunCoalesced(end, script, answers, trace, |script|);
      if trace[|script|].us == [] { RunRestores(end, script, answers, trace); }
    }
  }

  /** In particular a run without realloc does, whatever else the client calls. */
  lemma RunWithoutRealloc(end: nat, script: seq<Request>, answers: seq<bool>, trace: seq<World>)
    requires MIN_UNITS <= end && IsRun(end, script, answers, trace)
    requires forall i :: 0 <= i < |script| ==> !script[i].Realloc?
    ensures Coalesced(trace[|script|].chunks)
    ensures trace[|script|].us == [] ==> trace[|script|] == Initial(end)
  {
    RunCoalesced(end, script, answers, trace, |script|);
    if trace[|script|].us == [] { RunRestores(end, script, answers, trace); }
  }

  // ---------------------------------------------------------------- which chunk is taken

  /** Two worlds that differ at most in what the blocks hold. */
  predicate SameShape(w: World, v: World)
  {
    w.chunks == v.chunks && w.lists == v.lists && w.us == v.us
  }

  /** What a call answers and where it puts a block is determined by the heap before it. */
  lemma StepDetermined(end: nat, w: World, v: World, call: Request, ok: bool, w': World, ok': bool, v': World)
    requires Books(end, w) && Books(end, v) && SameShape(w, v) && w.home == v.home
    requires Step(end, w, call, ok, w') && Step(end, v, call, ok', v')
    ensures ok == ok' && SameShape(w', v')
  {
    match call {
      case Alloc(n) => if ok { AllocatedDetermined(w, v, Units(n), w', v'); }
      case Free(k) =>
      case Realloc(k, n) =>
        if k < |w.us| && 0 < n <= MAX_REQUEST && !FitsBlock(w.chunks, w.us[k], n) && ok {
          MovedDetermined(end, w, v, k, Units(n), w', v');
        }
      case Write(k, offset, value) =>
        if k < |w.us| { LengthAt(w, k); LengthAt(v, k); }
    }
  }

  lemma AllocatedDetermined(w: World, v: World, units: nat, w': World, v': World)
    requires SameShape(w, v) && w.home == v.home && Allocated(w, units, w') && Allocated(v, units, v')
    ensures SameShape(w', v')
  {
    var j := |w.us|;
    BestFitUnique(w.home, w.chunks, w.lists, w'.us[j], v'.us[j], RoundUp(8 * units));
    assert w'.us == w.us + [w'.us[j]] && v'.us == v.us + [v'.us[j]];
  }

  lemma MovedDetermined(end: nat, w: World, v: World, k: nat, units: nat, w': World, v': World)
    requires SameShape(w, v) && w.home == v.home && k < |w.us| == |w.datas| && |v.us| == |v.datas|
    requires Moved(end, w, k, units, w') && Moved(end, v, k, units, v')
    ensures SameShape(w', v')
  {
    BestFitUnique(w.home, w.chunks, w.lists, w'.us[k], v'.us[k], RoundUp(8 * units));
  }

  /** Two runs of one script give the same answers and the same pointers throughout. */
  lemma {:induction false} RunDetermined(end: nat, script: seq<Request>, a: seq<bool>, b: seq<bool>, t: seq<World>, u: seq<World>, i: nat)
    requires MIN_UNITS <= end && IsRun(end, script, a, t) && IsRun(end, script, b, u) && i <= |script|
    ensures SameShape(t[i], u[i]) && forall j :: 0 <= j < i ==> a[j] == b[j]
    decreases i
  {
    if i > 0 {
      RunDetermined(end, script, a, b, t, u, i - 1);
      NextDetermined(end, script, a, b, t, u, i - 1);
    }
  }

  lemma NextDetermined(end: nat, script: seq<Request>, a: seq<bool>, b: seq<bool>, t: seq<World>, u: seq<World>, i: nat)
    requires MIN_UNITS <= end && IsRun(end, script, a, t) && IsRun(end, script, b, u) && i < |script|
    requires SameShape(t[i], u[i])
    ensures SameShape(t[i + 1], u[i + 1]) && a[i] == b[i]
  {
    RunBooks(end, script, a, t, i);
    RunBooks(end, script, b, u, i);
    RunHome(end, script, a, t, i);
    RunHome(end, script, b, u, i);
    assert StepAt(end, script, a, t, i) && StepAt(end, script, b, u, i);
    StepDetermined(end, t[i], u[i], script[i], a[i], t[i + 1], b[i], u[i + 1]);
  }

  /** Last in, first out: a block between two blocks in use, freed and asked for again, comes back at
      the same place exactly when its size is not rounded up to a larger class. */
  lemma FreeThenAlloc(end: nat, w: World, k: nat, n: nat, ok: bool, w': World)
    requires Books(end, w) && w.home == Home && k < |w.us| && 0 < n <= MAX_REQUEST && Units(n) == Block(w.chunks, w.us[k])
    requires var m, u := w.chunks, w.us[k]; u in m && !FreeAt(m, Past(m, u)) && !FreeAt(m, m[u].prev)
    requires Step(end, Freed(end, w, k), Alloc(n), ok, w')
    ensures var j := |w.us| - 1;
            ok && w'.us[j] == w.us[k] <==> RoundUp(8 * Units(n)) == 8 * Units(n)
  {
    var u, w1, units := w.us[k], Freed(end, w, k), Units(n);
    RoundUpAtLeast(8 * units);
    FreedAlone(end, w, k);
    if RoundUp(8 * units) == 8 * units {
      ExactFit(w1.chunks, w1.lists, u);
      BestFitUnique(Home, w1.chunks, w1.lists, u, w'.us[|w.us| - 1], 8 * units);
    }
  }

  /** Freeing such a block lists it, and nothing else changes. */
  lemma FreedAlone(end: nat, w: World, k: nat)
    requires Books(end, w) && k < |w.us|
    requires var m, u := w.chunks, w.us[k]; u in m && !FreeAt(m, Past(m, u)) && !FreeAt(m, m[u].prev)
    ensures var u, w1 := w.us[k], Freed(end, w, k);
            && w1.chunks == SetUsed(w.chunks, u, false) && w1.chunks[u].units == Block(w.chunks, u)
            && var b := w.home(w1.chunks[u].units);
            b < |w1.lists| && w1.lists[b] != [] && w1.lists[b][0] == u
  {
    var m, u := w.chunks, w.us[k];
    assert u in w.us && Fits(m, end, u);
    InRange(w.home, |w.lists|, end, m, u);
    assert w.home(m[u].units) < |w.lists|;
  }

  /** The chunk of the very size asked for is in the least class that reaches it. */
  lemma ExactFit(m: Chunks, lists: Lists, u: nat)
    requires FreeAt(m, u) && m[u].units > 0
    requires var b := Home(m[u].units); b < |lists| && lists[b] != [] && lists[b][0] == u
    ensures BestFit(Home, m, lists, u, 8 * m[u].units)
  {
    forall x | FreeAt(m, x) && 8 * m[x].units >= 8 * m[u].units ensures Home(m[u].units) <= Home(m[x].units) {
      IndexMonotone(8 * m[u].units, 8 * m[x].units);
    }
  }

  // ---------------------------------------------------------------- a run that leaves a tail

  const FRAGMENTING := [Alloc(28), Realloc(0, 12), Free(0)]

  /** In a heap of 200 bytes, 28 bytes allocated, cut down to 12 and freed: nothing is held any
      more, but the free space stays in two pieces for good. */
  lemma FragmentedRun(answers: seq<bool>, trace: seq<World>)
    requires IsRun(25, FRAGMENTING, answers, trace)
    ensures answers == [true, true, false]
    ensures trace[3].chunks == map[11 := Chunk(4, false, 0), 15 := Chunk(10, false, 11)]
    ensures trace[3].us == [] && trace[3].datas == []
    ensures !Coalesced(trace[3].chunks)
  {
    AfterTwoCalls(answers, trace);
    assert StepAt(25, FRAGMENTING, answers, trace, 2);
    ThirdCall(trace[2], trace[3]);
    assert !Apart(trace[3].chunks, 11);
  }

  lemma AfterTwoCalls(answers: seq<bool>, trace: seq<World>)
    requires IsRun(25, FRAGMENTING, answers, trace)
    ensures answers[0] && answers[1] && trace[2].us == [11] && |trace[2].datas| == 1
    ensures trace[2].chunks == map[11 := Chunk(2, true, 0), 13 := Chunk(2, false, 11), 15 := Chunk(10, false, 13)]
  {
    AfterOneCall(answers, trace);
    assert StepAt(25, FRAGMENTING, answers, trace, 1);
    SecondCall(trace[1], answers[1], trace[2]);
  }

  lemma AfterOneCall(answers: seq<bool>, trace: seq<World>)
    requires IsRun(25, FRAGMENTING, answers, trace)
    ensures answers[0] && trace[1].us == [11] && |trace[1].datas| == 1
    ensures trace[1].chunks == map[11 := Chunk(4, true, 0), 15 := Chunk(10, false, 11)]
  {
    assert StepAt(25, FRAGMENTING, answers, trace, 0);
    FirstCall(answers[0], trace[1]);
  }

  lemma FirstCall(ok: bool, w: World)
    requires Step(25, Initial(25), Alloc(28), ok, w)
    ensures ok && w.chunks == map[11 := Chunk(4, true, 0), 15 := Chunk(10, false, 11)]
    ensures w.us == [11] && |w.datas| == 1
  {
    FirstGrant();
    FirstBlock(w);
  }

  lemma FirstBlock(w: World)
    requires Allocated(Initial(25), 4, w)
    ensures w.chunks == map[11 := Chunk(4, true, 0), 15 := Chunk(10, false, 11)]
    ensures w.us == [11] && |w.datas| == 1
  {
    assert CanHold(Initial(25).chunks, w.us[0], 4);
    assert w.us[0] == 11;
  }

  lemma FirstGrant()
    ensures Units(28) == 4 && Grants(Initial(25).chunks, 28)
  {
    var m := Initial(25).chunks;
    assert Units(28) == 4;
    RoundUpSmall(32);
    assert FreeAt(m, 11) && 8 * m[11].units >= RoundUp(8 * Units(28));
  }

  lemma SecondCall(w: World, ok: bool, w': World)
    requires w.chunks == map[11 := Chunk(4, true, 0), 15 := Chunk(10, false, 11)] && w.us == [11] && |w.datas| == 1
    requires Step(25, w, Realloc(0, 12), ok, w')
    ensures ok && w'.us == [11] && |w'.datas| == 1
    ensures w'.chunks == map[11 := Chunk(2, true, 0), 13 := Chunk(2, false, 11), 15 := Chunk(10, false, 13)]
  {
    assert Units(12) == 2;
  }

  lemma ThirdCall(w: World, w': World)
    requires w.chunks == map[11 := Chunk(2, true, 0), 13 := Chunk(2, false, 11), 15 := Chunk(10, false, 13)]
    requires w.us == [11] && |w.datas| == 1 && Step(25, w, Free(0), false, w')
    ensures w'.chunks == map[11 := Chunk(4, false, 0), 15 := Chunk(10, false, 11)] && w'.us == [] && w'.datas == []
  {
    var m := w.chunks;
    assert Fits(m, 25, 11) && Fits(m, 25, 13) && Fits(m, 25, 15);
    assert Tiled(m, 25);
    assert JoinNext(m, 11) == map[11 := Chunk(4, true, 0), 15 := Chunk(10, false, 11)];
  }
}
