/** The heap buffer as a sequence of 16-bit half-words, and what it means for its contents
    to represent a chunk map and free lists.

    Unit `u` (8 bytes) is half-words 4u .. 4u+3: the packed size and allocated bit, the
    physical back-link, and either the two free-list links or the first payload bytes. */
module HeapImage {
  import opened Basics
  import opened HeapChunks
  import opened FreeLists

  type Image = seq<u16>

  const ALLOCATED := 0x8000

  /** The bookkeeping an image stands for. The `loose` chunks are between two lists. */
  datatype Layout = Layout(end: nat, chunks: Chunks, lists: Lists, loose: set<nat>, home: Classes)

  ghost predicate Shape(mem: Image, L: Layout)
  {
    && 25 <= L.end <= 4106 && |mem| == 4 * L.end
    && Tiled(L.chunks, L.end)
    && (forall u :: u in L.chunks ==> 4 * u + 3 < |mem|)
    && L.loose <= L.chunks.Keys
    && Partition(L.home, L.chunks, L.lists, L.loose)
  }

  ghost predicate HeaderOk(mem: Image, L: Layout, u: nat)
  {
    && u in L.chunks && 4 * u + 3 < |mem|
    && mem[4 * u] % ALLOCATED == 8 * L.chunks[u].units
    && mem[4 * u + 1] == L.chunks[u].prev
    && (u !in L.loose ==> (mem[4 * u] >= ALLOCATED <==> L.chunks[u].used))
  }

  /** The links of one node agree with the order of its list `s`. */
  ghost predicate NodeOk(mem: Image, s: seq<nat>, i: nat)
  {
    && i < |s| && 4 * s[i] + 3 < |mem|
    && mem[4 * s[i] + 2] == (if i == 0 then 0 else s[i - 1])
    && mem[4 * s[i] + 3] == (if i == |s| - 1 then 0 else s[i + 1])
  }

  /** `head` starts a doubly-linked list that runs through `s` and ends. */
  ghost predicate ChainOk(mem: Image, head: nat, s: seq<nat>)
  {
    && head == (if s == [] then 0 else s[0])
    && forall i {:trigger NodeOk(mem, s, i)} :: 0 <= i < |s| ==> NodeOk(mem, s, i)
  }

  ghost predicate Headers(mem: Image, L: Layout)
  {
    forall u {:trigger HeaderOk(mem, L, u)} :: u in L.chunks ==> HeaderOk(mem, L, u)
  }

  ghost predicate Chains(mem: Image, heads: Image, L: Layout)
  {
    && |L.lists| <= |heads|
    && forall b {:trigger L.lists[b]} :: 0 <= b < |L.lists| ==> ChainOk(mem, heads[b], L.lists[b])
  }

  /** The image represents the layout. */
  ghost predicate Coherent(mem: Image, heads: Image, L: Layout)
  {
    Shape(mem, L) && Headers(mem, L) && Chains(mem, heads, L)
  }

  /** The length in units of the block a client owns at `w`, 0 when there is none. */
  function Owned(L: Layout, w: nat): nat
  {
    if w in L.loose then 0 else Block(L.chunks, w)
  }

  /** The payload of a block of `n` units at `w`. */
  function Payload(mem: Image, w: nat, n: nat): seq<u16>
  {
    if n == 0 || 4 * (w + n) > |mem| then [] else mem[4 * w + 2..4 * (w + n)]
  }

  /** The payload of the block owned at `w`; empty when there is no such block. */
  function Data(mem: Image, L: Layout, w: nat): seq<u16>
  {
    Payload(mem, w, Owned(L, w))
  }

  /** The two images differ at most at the half-words `xs`. */
  ghost predicate SameBut(mem: Image, mem': Image, xs: set<int>)
  {
    |mem'| == |mem| && forall i :: 0 <= i < |mem| && i !in xs ==> mem'[i] == mem[i]
  }

  ghost predicate Positive(s: seq<nat>)
  {
    forall i :: 0 <= i < |s| ==> s[i] > 0
  }

  /** Half-word `x` is no payload of a block in use. */
  ghost predicate Outside(L: Layout, x: int)
  {
    forall w: nat {:trigger Owned(L, w)} :: Owned(L, w) > 0 ==> x < 4 * w + 2 || x >= 4 * (w + Owned(L, w))
  }

  /** The header half-words of any chunk, and the links of one not in use, are no payload. */
  lemma HeaderOutside(L: Layout, u: nat)
    requires Tiled(L.chunks, L.end) && u in L.chunks
    ensures Outside(L, 4 * u) && Outside(L, 4 * u + 1)
    ensures !L.chunks[u].used || u in L.loose ==> Outside(L, 4 * u + 2) && Outside(L, 4 * u + 3)
  {
    assert Fits(L.chunks, L.end, u);
  }

  lemma DataKept(mem: Image, mem': Image, L: Layout, L': Layout, w: nat, xs: set<int>)
    requires SameBut(mem, mem', xs) && forall x :: x in xs ==> Outside(L, x)
    requires Owned(L, w) == Owned(L', w)
    ensures Data(mem, L, w) == Data(mem', L', w)
  {
  }

  lemma AllDataKept(mem: Image, mem': Image, L: Layout, L': Layout, xs: set<int>)
    requires SameBut(mem, mem', xs) && forall x :: x in xs ==> Outside(L, x)
    requires forall w :: Owned(L, w) == Owned(L', w)
    ensures forall w :: Data(mem', L', w) == Data(mem, L, w)
  {
    forall w: nat ensures Data(mem', L', w) == Data(mem, L, w) {
      DataKept(mem, mem', L, L', w, xs);
    }
  }

  lemma PayloadPrefix(mem: Image, w: nat, n: nat, k: nat)
    requires 0 < n <= k && 4 * (w + k) <= |mem|
    ensures Payload(mem, w, n) <= Payload(mem, w, k) && |Payload(mem, w, n)| == 4 * n - 2
  {
  }

  // ---------------------------------------------------------------- taking a node out

  function PrevIn(s: seq<nat>, k: nat): nat
    requires k < |s|
  {
    if k == 0 then 0 else s[k - 1]
  }

  function NextIn(s: seq<nat>, k: nat): nat
    requires k < |s|
  {
    if k == |s| - 1 then 0 else s[k + 1]
  }

  ghost predicate Unlinked(mem: Image, mem': Image, s: seq<nat>, k: nat)
    requires k < |s|
  {
    var p, n := PrevIn(s, k), NextIn(s, k);
    && SameBut(mem, mem', {4 * p + 3, 4 * n + 2})
    && (p != 0 ==> 4 * p + 3 < |mem| && mem'[4 * p + 3] == n)
    && (n != 0 ==> 4 * n + 2 < |mem| && mem'[4 * n + 2] == p)
  }

  lemma UnlinkNode(mem: Image, mem': Image, s: seq<nat>, k: nat, i: nat)
    requires k < |s| && Unlinked(mem, mem', s, k) && Distinct(s) && Positive(s)
    requires i < |s| && i != k && NodeOk(mem, s, i)
    ensures NodeOk(mem', Without(s, k), if i < k then i else i - 1)
  {
    WithoutAt(s, k, i);
    if i > 0 { if i - 1 != k { WithoutAt(s, k, i - 1); } else if k > 0 { WithoutAt(s, k, k - 1); } }
    if i + 1 < |s| { if i + 1 != k { WithoutAt(s, k, i + 1); } else if k + 1 < |s| { WithoutAt(s, k, k + 1); } }
  }

  lemma WithoutAt(s: seq<nat>, k: nat, i: nat)
    requires k < |s| && i < |s| && i != k
    ensures |Without(s, k)| == |s| - 1 && Without(s, k)[if i < k then i else i - 1] == s[i]
  {
  }

  lemma UnlinkChain(mem: Image, mem': Image, s: seq<nat>, k: nat, head: nat)
    requires k < |s| && Unlinked(mem, mem', s, k) && Distinct(s) && Positive(s)
    requires ChainOk(mem, head, s)
    ensures ChainOk(mem', if k == 0 then NextIn(s, k) else head, Without(s, k))
  {
    var t := Without(s, k);
    forall i | 0 <= i < |t| ensures NodeOk(mem', t, i) {
      var j := if i < k then i else i + 1;
      assert NodeOk(mem, s, j);
      UnlinkNode(mem, mem', s, k, j);
    }
  }

  lemma OtherChain(mem: Image, mem': Image, s: seq<nat>, head: nat, xs: set<int>)
    requires ChainOk(mem, head, s) && SameBut(mem, mem', xs)
    requires forall u :: u in s ==> 4 * u + 2 !in xs && 4 * u + 3 !in xs
    ensures ChainOk(mem', head, s)
  {
    forall i | 0 <= i < |s| ensures NodeOk(mem', s, i) {
      assert NodeOk(mem, s, i);
      assert s[i] in s;
    }
  }

  /** Writing link half-words only leaves the headers alone. */
  lemma HeadersKept(mem: Image, mem': Image, L: Layout, L': Layout, xs: set<int>)
    requires Headers(mem, L) && SameBut(mem, mem', xs) && forall x :: x in xs ==> x % 4 >= 2
    requires L'.chunks == L.chunks && L.loose <= L'.loose
    ensures Headers(mem', L')
  {
    forall u | u in L.chunks ensures HeaderOk(mem', L', u) {
      assert HeaderOk(mem, L, u);
    }
  }

  lemma UnlinkChains(mem: Image, heads: Image, L: Layout, mem': Image, heads': Image, L': Layout, b: nat, k: nat)
    requires Coherent(mem, heads, L) && b < |L.lists| && k < |L.lists[b]|
    requires Unlinked(mem, mem', L.lists[b], k)
    requires heads' == if k == 0 then heads[b := NextIn(L.lists[b], k)] else heads
    requires L'.lists == L.lists[b := Without(L.lists[b], k)]
    ensures Chains(mem', heads', L')
  {
    LinkOutside(L, b, k);
    forall c | 0 <= c < |L.lists| ensures ChainOk(mem', heads'[c], L'.lists[c]) {
      assert ChainOk(mem, heads[c], L.lists[c]);
      if c == b {
        UnlinkChain(mem, mem', L.lists[b], k, heads[b]);
      } else {
        OtherBucket(L, b, k, c);
        OtherChain(mem, mem', L.lists[c], heads[c],
          {4 * PrevIn(L.lists[b], k) + 3, 4 * NextIn(L.lists[b], k) + 2});
      }
    }
  }

  function UnlinkLayout(L: Layout, b: nat, k: nat): Layout
    requires b < |L.lists| && k < |L.lists[b]|
  {
    L.(lists := L.lists[b := Without(L.lists[b], k)], loose := L.loose + {L.lists[b][k]})
  }

  lemma UnlinkShape(mem: Image, mem': Image, L: Layout, b: nat, k: nat)
    requires Shape(mem, L) && b < |L.lists| && k < |L.lists[b]| && |mem'| == |mem|
    ensures Shape(mem', UnlinkLayout(L, b, k))
    ensures forall w :: Owned(L, w) == Owned(UnlinkLayout(L, b, k), w)
  {
    TakeOut(L.home, L.chunks, L.lists, L.loose, b, k);
    assert Entry(L.home, L.chunks, L.loose, b, L.lists[b][k]);
  }

  /** Unlinking a node the way `list_remove` does keeps the image coherent. */
  lemma Unlink(mem: Image, heads: Image, L: Layout, mem': Image, heads': Image, b: nat, k: nat)
    requires Coherent(mem, heads, L) && b < |L.lists| && k < |L.lists[b]|
    requires Unlinked(mem, mem', L.lists[b], k)
    requires heads' == if k == 0 then heads[b := NextIn(L.lists[b], k)] else heads
    ensures Coherent(mem', heads', UnlinkLayout(L, b, k))
    ensures forall w :: Data(mem', UnlinkLayout(L, b, k), w) == Data(mem, L, w)
  {
    var L' := UnlinkLayout(L, b, k);
    var xs := {4 * PrevIn(L.lists[b], k) + 3, 4 * NextIn(L.lists[b], k) + 2};
    assert Shape(mem', L') by { UnlinkShape(mem, mem', L, b, k); }
    assert Headers(mem', L') by { HeadersKept(mem, mem', L, L', xs); }
    assert Chains(mem', heads', L') by { UnlinkChains(mem, heads, L, mem', heads', L', b, k); }
    assert forall w :: Data(mem', L', w) == Data(mem, L, w) by {
      UnlinkShape(mem, mem', L, b, k);
      LinkOutside(L, b, k);
      AllDataKept(mem, mem', L, L', xs);
    }
  }

  /** What `list_remove` reads at the node to take out. */
  lemma UnlinkReady(mem: Image, heads: Image, L: Layout, b: nat, k: nat)
    requires Coherent(mem, heads, L) && b < |L.lists| && k < |L.lists[b]|
    ensures var s := L.lists[b];
            && 4 * s[k] + 3 < |mem| && mem[4 * s[k] + 2] == PrevIn(s, k) && mem[4 * s[k] + 3] == NextIn(s, k)
            && 4 * PrevIn(s, k) + 3 < |mem| && 4 * NextIn(s, k) + 3 < |mem|
            && (heads[b] == s[k] <==> k == 0)
  {
    var s := L.lists[b];
    assert ChainOk(mem, heads[b], s) && NodeOk(mem, s, k);
    if k > 0 { assert NodeOk(mem, s, k - 1); }
    if k < |s| - 1 { assert NodeOk(mem, s, k + 1); }
  }

  /** What `list_push` reads at the chunk to push and at the head of its list. */
  lemma PushReady(mem: Image, heads: Image, L: Layout, b: nat, u: nat)
    requires Coherent(mem, heads, L) && u in L.loose && b < |L.lists|
    ensures 0 < u < 0x1_0000 && 4 * u + 3 < |mem|
    ensures heads[b] != u && 4 * heads[b] + 3 < |mem|
  {
    assert ChainOk(mem, heads[b], L.lists[b]);
    LooseUnlisted(L, u, b);
  }

  lemma LinkOutside(L: Layout, b: nat, k: nat)
    requires Tiled(L.chunks, L.end) && Partition(L.home, L.chunks, L.lists, L.loose) && b < |L.lists| && k < |L.lists[b]|
    ensures Positive(L.lists[b])
    ensures Outside(L, 4 * PrevIn(L.lists[b], k) + 3) && Outside(L, 4 * NextIn(L.lists[b], k) + 2)
  {
    var s := L.lists[b];
    forall i | 0 <= i < |s| ensures s[i] > 0 && Outside(L, 4 * s[i] + 2) && Outside(L, 4 * s[i] + 3) {
      assert Entry(L.home, L.chunks, L.loose, b, s[i]);
      HeaderOutside(L, s[i]);
    }
    assert Outside(L, 2) && Outside(L, 3) by {
      assert forall w: nat :: Owned(L, w) > 0 ==> w >= FIRST;
    }
  }

  /** Nodes of another bucket are not the neighbours of `lists[b][k]`. */
  lemma OtherBucket(L: Layout, b: nat, k: nat, c: nat)
    requires Tiled(L.chunks, L.end) && Partition(L.home, L.chunks, L.lists, L.loose)
    requires b < |L.lists| && k < |L.lists[b]| && c < |L.lists| && c != b
    ensures forall u :: u in L.lists[c] ==> u > 0 && u != PrevIn(L.lists[b], k) && u != NextIn(L.lists[b], k)
  {
    forall i, j | 0 <= i < |L.lists[c]| && 0 <= j < |L.lists[b]|
      ensures L.lists[c][i] > 0 && L.lists[c][i] != L.lists[b][j]
    {
      assert Entry(L.home, L.chunks, L.loose, c, L.lists[c][i]) && Entry(L.home, L.chunks, L.loose, b, L.lists[b][j]);
    }
  }

  // ---------------------------------------------------------------- putting a node in front

  function PushLayout(L: Layout, u: nat): Layout
    requires u in L.chunks
  {
    var b := L.home(L.chunks[u].units);
    L.(chunks := SetUsed(L.chunks, u, false), loose := L.loose - {u},
       lists := if b < |L.lists| then L.lists[b := [u] + L.lists[b]] else L.lists)
  }

  ghost predicate Pushed(mem: Image, mem': Image, u: nat, first: nat)
  {
    && SameBut(mem, mem', {4 * u, 4 * u + 2, 4 * u + 3, 4 * first + 2})
    && 4 * u + 3 < |mem| && 4 * first + 2 < |mem|
    && mem'[4 * u] == mem[4 * u] % ALLOCATED
    && mem'[4 * u + 2] == 0 && mem'[4 * u + 3] == first
    && (first != 0 ==> mem'[4 * first + 2] == u)
  }

  lemma PushNode(mem: Image, mem': Image, u: nat, s: seq<nat>, i: nat)
    requires Pushed(mem, mem', u, if s == [] then 0 else s[0]) && Positive(s) && Distinct(s) && u > 0 && u !in s
    requires i < |s| && NodeOk(mem, s, i)
    ensures NodeOk(mem', [u] + s, i + 1)
  {
  }

  lemma PushChain(mem: Image, mem': Image, u: nat, s: seq<nat>)
    requires Pushed(mem, mem', u, if s == [] then 0 else s[0]) && Positive(s) && Distinct(s) && u > 0 && u !in s
    requires ChainOk(mem, if s == [] then 0 else s[0], s)
    ensures ChainOk(mem', u, [u] + s)
  {
    var t := [u] + s;
    PushHead(mem, mem', u, s);
    forall i | 0 <= i < |t| ensures NodeOk(mem', t, i) {
      if i > 0 {
        assert NodeOk(mem, s, i - 1);
        PushNode(mem, mem', u, s, i - 1);
      }
    }
  }

  lemma PushHead(mem: Image, mem': Image, u: nat, s: seq<nat>)
    requires Pushed(mem, mem', u, if s == [] then 0 else s[0]) && Positive(s) && u > 0 && u !in s
    ensures NodeOk(mem', [u] + s, 0)
  {
  }

  lemma LooseUnlisted(L: Layout, u: nat, c: nat)
    requires Tiled(L.chunks, L.end) && Partition(L.home, L.chunks, L.lists, L.loose) && u in L.loose && c < |L.lists|
    ensures u !in L.lists[c] && Positive(L.lists[c])
    ensures L.lists[c] != [] ==> L.lists[c][0] in L.chunks
  {
    forall i | 0 <= i < |L.lists[c]| ensures L.lists[c][i] > 0 && L.lists[c][i] != u && L.lists[c][i] in L.chunks {
      assert Entry(L.home, L.chunks, L.loose, c, L.lists[c][i]);
    }
  }

  lemma PushChains(mem: Image, heads: Image, L: Layout, mem': Image, u: nat)
    requires Coherent(mem, heads, L) && u in L.loose && u < 0x1_0000 && L.home(L.chunks[u].units) < |L.lists|
    requires Pushed(mem, mem', u, heads[L.home(L.chunks[u].units)])
    ensures Chains(mem', heads[L.home(L.chunks[u].units) := u], PushLayout(L, u))
  {
    var b := L.home(L.chunks[u].units);
    var L' := PushLayout(L, u);
    forall c | 0 <= c < |L.lists| ensures ChainOk(mem', heads[b := u][c], L'.lists[c]) {
      assert ChainOk(mem, heads[c], L.lists[c]) && ChainOk(mem, heads[b], L.lists[b]);
      LooseUnlisted(L, u, c);
      if c == b {
        PushChain(mem, mem', u, L.lists[b]);
      } else {
        if L.lists[b] != [] { OtherBucket(L, b, 0, c); HeadOther(L, b, c); }
        OtherChain(mem, mem', L.lists[c], heads[c], {4 * u, 4 * u + 2, 4 * u + 3, 4 * heads[b] + 2});
      }
    }
  }

  lemma HeadOther(L: Layout, b: nat, c: nat)
    requires Partition(L.home, L.chunks, L.lists, L.loose) && b < |L.lists| && c < |L.lists| && c != b && L.lists[b] != []
    ensures L.lists[b][0] !in L.lists[c]
  {
    assert Entry(L.home, L.chunks, L.loose, b, L.lists[b][0]);
    forall i | 0 <= i < |L.lists[c]| ensures L.lists[c][i] != L.lists[b][0] {
      assert Entry(L.home, L.chunks, L.loose, c, L.lists[c][i]);
    }
  }

  lemma PushHeaders(mem: Image, L: Layout, mem': Image, u: nat, first: nat)
    requires Headers(mem, L) && u in L.loose && u in L.chunks && L.home(L.chunks[u].units) < |L.lists|
    requires Pushed(mem, mem', u, first)
    ensures Headers(mem', PushLayout(L, u))
  {
    forall x | x in L.chunks ensures HeaderOk(mem', PushLayout(L, u), x) {
      assert HeaderOk(mem, L, x);
    }
  }

  lemma PushShape(mem: Image, mem': Image, L: Layout, u: nat)
    requires Shape(mem, L) && u in L.loose && L.home(L.chunks[u].units) < |L.lists| && |mem'| == |mem|
    ensures Shape(mem', PushLayout(L, u))
    ensures forall w :: Owned(L, w) == Owned(PushLayout(L, u), w)
  {
    PutIn(L.home, L.chunks, L.lists, L.loose, u);
    SetUsedTiled(L.chunks, u, false, L.end);
  }

  /** Pushing a loose chunk the way `list_push` does keeps the image coherent. */
  lemma Push(mem: Image, heads: Image, L: Layout, mem': Image, u: nat)
    requires Coherent(mem, heads, L) && u in L.loose && u < 0x1_0000 && L.home(L.chunks[u].units) < |L.lists|
    requires Pushed(mem, mem', u, heads[L.home(L.chunks[u].units)])
    ensures Coherent(mem', heads[L.home(L.chunks[u].units) := u], PushLayout(L, u))
    ensures forall w :: Data(mem', PushLayout(L, u), w) == Data(mem, L, w)
  {
    var b := L.home(L.chunks[u].units);
    var L' := PushLayout(L, u);
    assert Shape(mem', L') by { PushShape(mem, mem', L, u); }
    assert Headers(mem', L') by { PushHeaders(mem, L, mem', u, heads[b]); }
    assert Chains(mem', heads[b := u], L') by { PushChains(mem, heads, L, mem', u); }
    assert forall w :: Data(mem', L', w) == Data(mem, L, w) by {
      PushShape(mem, mem', L, u);
      HeaderOutside(L, u);
      assert ChainOk(mem, heads[b], L.lists[b]);
      HeadOutside(L, b);
      AllDataKept(mem, mem', L, L', {4 * u, 4 * u + 2, 4 * u + 3, 4 * heads[b] + 2});
    }
  }

  lemma HeadOutside(L: Layout, b: nat)
    requires Tiled(L.chunks, L.end) && Partition(L.home, L.chunks, L.lists, L.loose) && b < |L.lists|
    ensures Outside(L, 4 * (if L.lists[b] == [] then 0 else L.lists[b][0]) + 2)
  {
    if L.lists[b] != [] {
      assert Entry(L.home, L.chunks, L.loose, b, L.lists[b][0]);
      HeaderOutside(L, L.lists[b][0]);
    } else {
      assert forall w: nat :: Owned(L, w) > 0 ==> w >= FIRST;
    }
  }

  // ---------------------------------------------------------------- splitting a chunk

  function SplitLayout(L: Layout, u: nat, n: nat): Layout
    requires u in L.chunks && 0 < n < L.chunks[u].units
  {
    L.(chunks := Split(L.chunks, u, n), loose := L.loose + {u + n})
  }

  /** The header writes of a split of `u`, whose successor is `next`, at `v`. */
  ghost predicate CutAt(mem: Image, mem': Image, u: nat, v: nat, next: nat, end: nat)
  {
    && u < v < next <= end && |mem| == 4 * end
    && SameBut(mem, mem', {4 * u, 4 * v, 4 * v + 1, 4 * next + 1})
    && mem'[4 * u] == mem[4 * u] - mem[4 * u] % ALLOCATED + 8 * (v - u)
    && mem'[4 * v] % ALLOCATED == 8 * (next - v)
    && mem'[4 * v + 1] == u
    && (next < end ==> mem'[4 * next + 1] == v)
  }

  ghost predicate Cut(mem: Image, mem': Image, L: Layout, u: nat, n: nat)
    requires u in L.chunks && 0 < n < L.chunks[u].units
  {
    CutAt(mem, mem', u, u + n, Past(L.chunks, u), L.end)
  }

  /** What a split of `u` reads. */
  lemma SplitReady(mem: Image, heads: Image, L: Layout, u: nat)
    requires Coherent(mem, heads, L) && u in L.chunks
    ensures u < Past(L.chunks, u) <= L.end < 0x1_0000 && |mem| == 4 * L.end
    ensures mem[4 * u] % ALLOCATED == 8 * L.chunks[u].units
  {
    assert Fits(L.chunks, L.end, u) && HeaderOk(mem, L, u);
  }

  /** Rewriting the 15-bit size field keeps the allocated bit. */
  lemma ResizeField(word: u16, size: nat)
    requires size < ALLOCATED
    ensures (word - word % ALLOCATED + size) % ALLOCATED == size
    ensures word - word % ALLOCATED + size >= ALLOCATED <==> word >= ALLOCATED
  {
  }

  lemma GrowField(word: u16, more: nat)
    requires word % ALLOCATED + more < ALLOCATED
    ensures (word + more) % ALLOCATED == word % ALLOCATED + more
    ensures word + more >= ALLOCATED <==> word >= ALLOCATED
  {
  }

  lemma CutHeader(mem: Image, mem': Image, L: Layout, u: nat, n: nat, x: nat)
    requires Fits(L.chunks, L.end, u) && 0 < n < L.chunks[u].units && L.end < 0x1000 + FIRST
    requires Cut(mem, mem', L, u, n) && u + n !in L.chunks && 4 * (u + n) + 3 < |mem| == 4 * L.end
    requires x == u + n || (HeaderOk(mem, L, x) && Fits(L.chunks, L.end, x))
    ensures HeaderOk(mem', SplitLayout(L, u, n), x)
  {
    if x == u { ResizeField(mem[4 * u], 8 * n); }
  }

  lemma CutHeaders(mem: Image, mem': Image, heads: Image, L: Layout, u: nat, n: nat)
    requires Coherent(mem, heads, L) && u in L.chunks && 0 < n < L.chunks[u].units
    requires Cut(mem, mem', L, u, n)
    ensures Headers(mem', SplitLayout(L, u, n))
  {
    assert Fits(L.chunks, L.end, u);
    SplitNoOverlap(L.chunks, u, n);
    forall x | x in SplitLayout(L, u, n).chunks ensures HeaderOk(mem', SplitLayout(L, u, n), x) {
      assert x != u + n ==> HeaderOk(mem, L, x) && Fits(L.chunks, L.end, x);
      CutHeader(mem, mem', L, u, n, x);
    }
  }

  lemma CutPartition(L: Layout, u: nat, n: nat)
    requires Tiled(L.chunks, L.end) && Partition(L.home, L.chunks, L.lists, L.loose)
    requires u in L.chunks && 0 < n < L.chunks[u].units && (L.chunks[u].used || u in L.loose)
    ensures Partition(L.home, SplitLayout(L, u, n).chunks, L.lists, L.loose + {u + n})
  {
    SplitNoOverlap(L.chunks, u, n);
    Reframe(L.home, L.chunks, Split(L.chunks, u, n), L.lists, L.loose, L.loose + {u + n});
  }

  /** Header half-words are in no list node. */
  lemma HeadersNotLinks(mem: Image, mem': Image, heads: Image, L: Layout, L': Layout, xs: set<int>)
    requires Chains(mem, heads, L) && L'.lists == L.lists && SameBut(mem, mem', xs)
    requires forall x :: x in xs ==> x % 4 < 2
    ensures Chains(mem', heads, L')
  {
    forall b | 0 <= b < |L.lists| ensures ChainOk(mem', heads[b], L.lists[b]) {
      assert ChainOk(mem, heads[b], L.lists[b]);
      forall u | u in L.lists[b] ensures 4 * u + 2 !in xs && 4 * u + 3 !in xs {
        assert (4 * u + 2) % 4 == 2 && (4 * u + 3) % 4 == 3;
      }
      OtherChain(mem, mem', L.lists[b], heads[b], xs);
    }
  }

  lemma CutOwned(L: Layout, u: nat, n: nat, w: nat)
    requires Tiled(L.chunks, L.end) && u in L.chunks && 0 < n < L.chunks[u].units
    requires L.loose <= L.chunks.Keys
    ensures Owned(SplitLayout(L, u, n), w) == if w == u && Owned(L, u) > 0 then n else Owned(L, w)
  {
    SplitNoOverlap(L.chunks, u, n);
  }

  lemma CutOutside(L: Layout, u: nat, n: nat, w: nat, x: int)
    requires NoOverlap(L.chunks) && Fits(L.chunks, L.end, u) && 0 < n < L.chunks[u].units
    requires Fits(L.chunks, L.end, w)
    requires x in {4 * u, 4 * (u + n), 4 * (u + n) + 1, 4 * Past(L.chunks, u) + 1}
    ensures x < 4 * w + 2 || x >= 4 * (w + if w == u then n else L.chunks[w].units)
  {
  }

  lemma CutData(mem: Image, mem': Image, L: Layout, u: nat, n: nat, w: nat)
    requires Shape(mem, L) && Fits(L.chunks, L.end, u) && 0 < n < L.chunks[u].units
    requires Cut(mem, mem', L, u, n)
    ensures Data(mem', SplitLayout(L, u, n), w)
         == if w == u && Owned(L, u) > 0 then Payload(mem, u, n) else Data(mem, L, w)
  {
    CutOwned(L, u, n, w);
    if Owned(L, w) > 0 {
      assert Fits(L.chunks, L.end, w);
      var xs := {4 * u, 4 * (u + n), 4 * (u + n) + 1, 4 * Past(L.chunks, u) + 1};
      var n' := if w == u then n else L.chunks[w].units;
      forall x | x in xs ensures x < 4 * w + 2 || x >= 4 * (w + n') {
        CutOutside(L, u, n, w, x);
      }
      DataOfKept(mem, mem', w, n', xs);
    }
  }

  lemma SplitData(mem: Image, mem': Image, L: Layout, u: nat, n: nat)
    requires Shape(mem, L) && Fits(L.chunks, L.end, u) && 0 < n < L.chunks[u].units
    requires Cut(mem, mem', L, u, n)
    ensures forall w :: Data(mem', SplitLayout(L, u, n), w)
                     == if w == u && Owned(L, u) > 0 then Payload(mem, u, n) else Data(mem, L, w)
  {
    forall w: nat
      ensures Data(mem', SplitLayout(L, u, n), w)
           == if w == u && Owned(L, u) > 0 then Payload(mem, u, n) else Data(mem, L, w)
    {
      CutData(mem, mem', L, u, n, w);
    }
  }

  lemma DataOfKept(mem: Image, mem': Image, w: nat, n: nat, xs: set<int>)
    requires SameBut(mem, mem', xs) && forall x :: x in xs ==> x < 4 * w + 2 || x >= 4 * (w + n)
    ensures Payload(mem, w, n) == Payload(mem', w, n)
  {
  }

  lemma SplitShape(mem: Image, mem': Image, L: Layout, u: nat, n: nat)
    requires Shape(mem, L) && u in L.chunks && 0 < n < L.chunks[u].units && (L.chunks[u].used || u in L.loose)
    requires |mem'| == |mem|
    ensures Shape(mem', SplitLayout(L, u, n))
  {
    assert Fits(L.chunks, L.end, u);
    SplitTiled(L.chunks, u, n, L.end);
    CutPartition(L, u, n);
  }

  /** Splitting an unlisted chunk keeps the image coherent, its tail still to be listed. */
  lemma SplitCoherent(mem: Image, mem': Image, heads: Image, L: Layout, u: nat, n: nat)
    requires Coherent(mem, heads, L) && u in L.chunks && 0 < n < L.chunks[u].units && (L.chunks[u].used || u in L.loose)
    requires Cut(mem, mem', L, u, n)
    ensures Coherent(mem', heads, SplitLayout(L, u, n))
  {
    var L' := SplitLayout(L, u, n);
    assert |mem'| == |mem|;
    assert Shape(mem', L') by { SplitShape(mem, mem', L, u, n); }
    assert Headers(mem', L') by { CutHeaders(mem, mem', heads, L, u, n); }
    assert Chains(mem', heads, L') by { CutChains(mem, mem', heads, L, u, n); }
  }

  lemma CutChains(mem: Image, mem': Image, heads: Image, L: Layout, u: nat, n: nat)
    requires Chains(mem, heads, L) && u in L.chunks && 0 < n < L.chunks[u].units
    requires Cut(mem, mem', L, u, n)
    ensures Chains(mem', heads, SplitLayout(L, u, n))
  {
    var xs := {4 * u, 4 * (u + n), 4 * (u + n) + 1, 4 * Past(L.chunks, u) + 1};
    HeadersNotLinks(mem, mem', heads, L, SplitLayout(L, u, n), xs);
  }

  /** The image and the payloads after a split. */
  lemma SplitDone(mem: Image, mem': Image, heads: Image, L: Layout, u: nat, n: nat)
    requires Coherent(mem, heads, L) && Fits(L.chunks, L.end, u) && 0 < n < L.chunks[u].units
    requires L.chunks[u].used || u in L.loose
    requires Cut(mem, mem', L, u, n)
    ensures Coherent(mem', heads, SplitLayout(L, u, n))
    ensures forall w :: Data(mem', SplitLayout(L, u, n), w)
                     == if w == u && Owned(L, u) > 0 then Payload(mem, u, n) else Data(mem, L, w)
  {
    SplitCoherent(mem, mem', heads, L, u, n);
    SplitData(mem, mem', L, u, n);
  }

  /** Listing the tail that was split off changes nothing else. */
  lemma SplitThenPush(L: Layout, u: nat, n: nat)
    requires NoOverlap(L.chunks) && u in L.chunks && 0 < n < L.chunks[u].units && u + n !in L.loose
    ensures u + n in SplitLayout(L, u, n).chunks
    ensures var L' := PushLayout(SplitLayout(L, u, n), u + n);
            && L'.chunks == Split(L.chunks, u, n) && L'.loose == L.loose
            && L'.lists == Enlisted(L.home, Split(L.chunks, u, n), L.lists, u + n)
  {
    SplitNoOverlap(L.chunks, u, n);
    var m := Split(L.chunks, u, n);
    assert m[u + n] == Chunk(L.chunks[u].units - n, false, u);
    assert SetUsed(m, u + n, false) == m;
  }

  // ---------------------------------------------------------------- merging two chunks

  function MergeLayout(L: Layout, u: nat): Layout
    requires u in L.chunks && Past(L.chunks, u) in L.chunks
  {
    L.(chunks := Merge(L.chunks, u), loose := L.loose - {Past(L.chunks, u)})
  }

  /** The header writes of a merge of `u` with `v`, whose successor is `next`. */
  ghost predicate FusedAt(mem: Image, mem': Image, u: nat, v: nat, next: nat, end: nat)
  {
    && u < v < next <= end && |mem| == 4 * end
    && SameBut(mem, mem', {4 * u, 4 * v, 4 * v + 1, 4 * v + 2, 4 * v + 3, 4 * next + 1})
    && mem'[4 * u] == mem[4 * u] + 8 * (next - v)
    && (next < end ==> mem'[4 * next + 1] == u)
  }

  ghost predicate Fused(mem: Image, mem': Image, L: Layout, u: nat)
    requires u in L.chunks && Past(L.chunks, u) in L.chunks
  {
    var v := Past(L.chunks, u);
    FusedAt(mem, mem', u, v, Past(L.chunks, v), L.end)
  }

  lemma FusedHeader(mem: Image, mem': Image, L: Layout, u: nat, x: nat)
    requires Fits(L.chunks, L.end, u) && Past(L.chunks, u) in L.chunks
    requires Fits(L.chunks, L.end, Past(L.chunks, u)) && Fused(mem, mem', L, u)
    requires u in L.loose && L.end < 0x1000 + FIRST
    requires x != Past(L.chunks, u) && HeaderOk(mem, L, x) && Fits(L.chunks, L.end, x)
    ensures HeaderOk(mem', MergeLayout(L, u), x)
  {
    if x == u {
      GrowField(mem[4 * u], 8 * L.chunks[Past(L.chunks, u)].units);
    } else if x == Past(L.chunks, Past(L.chunks, u)) {
      assert mem'[4 * x] == mem[4 * x];
    } else {
      assert mem'[4 * x] == mem[4 * x] && mem'[4 * x + 1] == mem[4 * x + 1];
    }
  }

  lemma FusedHeaders(mem: Image, mem': Image, heads: Image, L: Layout, u: nat)
    requires Coherent(mem, heads, L) && u in L.chunks && Past(L.chunks, u) in L.chunks
    requires u in L.loose && Fused(mem, mem', L, u)
    ensures Headers(mem', MergeLayout(L, u))
  {
    assert Fits(L.chunks, L.end, u) && Fits(L.chunks, L.end, Past(L.chunks, u));
    forall x | x in MergeLayout(L, u).chunks ensures HeaderOk(mem', MergeLayout(L, u), x) {
      assert HeaderOk(mem, L, x) && Fits(L.chunks, L.end, x);
      FusedHeader(mem, mem', L, u, x);
    }
  }

  lemma FusedChains(mem: Image, mem': Image, heads: Image, L: Layout, u: nat)
    requires Coherent(mem, heads, L) && u in L.chunks && Past(L.chunks, u) in L.chunks
    requires u in L.loose && Past(L.chunks, u) in L.loose && Fused(mem, mem', L, u)
    ensures Chains(mem', heads, MergeLayout(L, u))
  {
    var v := Past(L.chunks, u);
    forall b | 0 <= b < |L.lists| ensures ChainOk(mem', heads[b], L.lists[b]) {
      assert ChainOk(mem, heads[b], L.lists[b]);
      LooseUnlisted(L, v, b);
      OtherChain(mem, mem', L.lists[b], heads[b],
        {4 * u, 4 * v, 4 * v + 1, 4 * v + 2, 4 * v + 3, 4 * Past(L.chunks, v) + 1});
    }
  }

  lemma FusedOutside(L: Layout, u: nat)
    requires Tiled(L.chunks, L.end) && u in L.chunks && Past(L.chunks, u) in L.chunks && Past(L.chunks, u) in L.loose
    ensures var v := Past(L.chunks, u);
            forall x :: x in {4 * u, 4 * v, 4 * v + 1, 4 * v + 2, 4 * v + 3, 4 * Past(L.chunks, v) + 1} ==> Outside(L, x)
  {
    var v := Past(L.chunks, u);
    var next := Past(L.chunks, v);
    HeaderOutside(L, u);
    HeaderOutside(L, v);
    assert Fits(L.chunks, L.end, v);
    if next < L.end { HeaderOutside(L, next); } else { EndOutside(L, 4 * next + 1); }
  }

  lemma EndOutside(L: Layout, x: int)
    requires Tiled(L.chunks, L.end) && x >= 4 * L.end
    ensures Outside(L, x)
  {
    forall w: nat | Owned(L, w) > 0 ensures x >= 4 * (w + Owned(L, w)) { assert Fits(L.chunks, L.end, w); }
  }

  /** What a merge of `u` with the chunk behind it reads. */
  lemma MergeReady(mem: Image, heads: Image, L: Layout, u: nat)
    requires Coherent(mem, heads, L) && u in L.chunks && Past(L.chunks, u) in L.chunks
    ensures var v := Past(L.chunks, u);
            && u < v < Past(L.chunks, v) <= L.end < 0x1_0000 && |mem| == 4 * L.end
            && mem[4 * v] % ALLOCATED == 8 * L.chunks[v].units
            && mem[4 * u] % ALLOCATED + mem[4 * v] % ALLOCATED < ALLOCATED
  {
    var v := Past(L.chunks, u);
    assert Fits(L.chunks, L.end, u) && Fits(L.chunks, L.end, v);
    assert HeaderOk(mem, L, u) && HeaderOk(mem, L, v);
  }

  lemma MergeFree(m: Chunks, loose: set<nat>, u: nat, x: nat)
    requires NoOverlap(m) && u in m && Past(m, u) in m && u in loose && Past(m, u) in loose
    requires m[u].units > 0 && m[Past(m, u)].units > 0
    ensures FreeAt(m, x) && x !in loose <==> FreeAt(Merge(m, u), x) && x !in loose - {Past(m, u)}
    ensures FreeAt(m, x) && x !in loose ==> x in Merge(m, u) && Merge(m, u)[x].units == m[x].units
  {
  }

  lemma MergeShape(mem: Image, mem': Image, L: Layout, u: nat)
    requires |mem'| == |mem| && Shape(mem, L) && u in L.chunks && Past(L.chunks, u) in L.chunks
    requires u in L.loose && Past(L.chunks, u) in L.loose
    ensures Shape(mem', MergeLayout(L, u))
  {
    assert Fits(L.chunks, L.end, u) && Fits(L.chunks, L.end, Past(L.chunks, u));
    MergeTiled(L.chunks, u, L.end);
    forall x: nat
      ensures FreeAt(L.chunks, x) && x !in L.loose <==>
              FreeAt(Merge(L.chunks, u), x) && x !in L.loose - {Past(L.chunks, u)}
      ensures FreeAt(L.chunks, x) && x !in L.loose ==>
              x in Merge(L.chunks, u) && Merge(L.chunks, u)[x].units == L.chunks[x].units
    {
      MergeFree(L.chunks, L.loose, u, x);
    }
    Reframe(L.home, L.chunks, Merge(L.chunks, u), L.lists, L.loose, L.loose - {Past(L.chunks, u)});
  }

  lemma MergeOwned(L: Layout, u: nat, w: nat)
    requires Tiled(L.chunks, L.end) && u in L.chunks && Past(L.chunks, u) in L.chunks
    requires u in L.loose && Past(L.chunks, u) in L.loose
    ensures Owned(MergeLayout(L, u), w) == Owned(L, w)
  {
    assert Fits(L.chunks, L.end, u);
  }

  /** Merging two loose chunks keeps the image coherent. */
  lemma MergeCoherent(mem: Image, mem': Image, heads: Image, L: Layout, u: nat)
    requires Coherent(mem, heads, L) && u in L.chunks && Past(L.chunks, u) in L.chunks
    requires u in L.loose && Past(L.chunks, u) in L.loose && Fused(mem, mem', L, u)
    ensures Coherent(mem', heads, MergeLayout(L, u))
    ensures forall w :: Data(mem', MergeLayout(L, u), w) == Data(mem, L, w)
  {
    var v, L' := Past(L.chunks, u), MergeLayout(L, u);
    assert Shape(mem', L') by { MergeShape(mem, mem', L, u); }
    assert Headers(mem', L') by { FusedHeaders(mem, mem', heads, L, u); }
    assert Chains(mem', heads, L') by { FusedChains(mem, mem', heads, L, u); }
    assert forall w :: Data(mem', L', w) == Data(mem, L, w) by {
      FusedOutside(L, u);
      forall w: nat ensures Owned(L, w) == Owned(L', w) {
        MergeOwned(L, u, w);
      }
      AllDataKept(mem, mem', L, L', {4 * u, 4 * v, 4 * v + 1, 4 * v + 2, 4 * v + 3, 4 * Past(L.chunks, v) + 1});
    }
  }

  // ---------------------------------------------------------------- handing a chunk out

  function ClaimLayout(L: Layout, u: nat): Layout
    requires u in L.chunks
  {
    L.(chunks := SetUsed(L.chunks, u, true), loose := L.loose - {u})
  }

  ghost predicate Claimed(mem: Image, mem': Image, u: nat)
  {
    && SameBut(mem, mem', {4 * u, 4 * u + 2, 4 * u + 3})
    && 4 * u + 3 < |mem| && mem'[4 * u] == mem[4 * u] % ALLOCATED + ALLOCATED
  }

  lemma ClaimShape(mem: Image, L: Layout, u: nat)
    requires Shape(mem, L) && u in L.loose
    ensures Shape(mem, ClaimLayout(L, u))
  {
    SetUsedTiled(L.chunks, u, true, L.end);
    var L' := ClaimLayout(L, u);
    Reframe(L.home, L.chunks, L'.chunks, L.lists, L.loose, L'.loose);
  }

  lemma ClaimHeaders(mem: Image, mem': Image, L: Layout, u: nat)
    requires Headers(mem, L) && u in L.chunks && u in L.loose && Claimed(mem, mem', u)
    ensures Headers(mem', ClaimLayout(L, u))
  {
    forall x | x in L.chunks ensures HeaderOk(mem', ClaimLayout(L, u), x) {
      assert HeaderOk(mem, L, x);
    }
  }

  /** Marking a loose chunk as in use keeps the image coherent and adds one owned block. */
  lemma ClaimCoherent(mem: Image, mem': Image, heads: Image, L: Layout, u: nat)
    requires Coherent(mem, heads, L) && u in L.loose && Claimed(mem, mem', u)
    ensures Coherent(mem', heads, ClaimLayout(L, u))
    ensures forall w :: w != u ==> Data(mem', ClaimLayout(L, u), w) == Data(mem, L, w)
  {
    var xs := {4 * u, 4 * u + 2, 4 * u + 3};
    ClaimShape(mem, L, u);
    ClaimHeaders(mem, mem', L, u);
    forall b | 0 <= b < |L.lists| ensures ChainOk(mem', heads[b], L.lists[b]) {
      assert ChainOk(mem, heads[b], L.lists[b]);
      LooseUnlisted(L, u, b);
      OtherChain(mem, mem', L.lists[b], heads[b], xs);
    }
    HeaderOutside(L, u);
    forall w: nat | w != u ensures Data(mem', ClaimLayout(L, u), w) == Data(mem, L, w) {
      DataKept(mem, mem', L, ClaimLayout(L, u), w, xs);
    }
  }

  // ---------------------------------------------------------------- taking a block back

  /** A block in use may be taken from its owner: it becomes loose. */
  lemma Loosen(mem: Image, heads: Image, L: Layout, u: nat)
    requires Coherent(mem, heads, L) && u in L.chunks && L.chunks[u].used
    ensures Coherent(mem, heads, L.(loose := L.loose + {u}))
    ensures forall w :: Data(mem, L.(loose := L.loose + {u}), w) == if w == u then [] else Data(mem, L, w)
  {
    var L' := L.(loose := L.loose + {u});
    Reframe(L.home, L.chunks, L.chunks, L.lists, L.loose, L'.loose);
    HeadersKept(mem, mem, L, L', {});
    forall b | 0 <= b < |L'.lists| ensures ChainOk(mem, heads[b], L'.lists[b]) {
      assert ChainOk(mem, heads[b], L.lists[b]);
    }
  }

  // ---------------------------------------------------------------- writing a payload

  /** The two images differ at most inside the block owned at `v`. */
  ghost predicate OnlyInside(mem: Image, mem': Image, L: Layout, v: nat)
  {
    |mem'| == |mem| &&
    forall i :: 0 <= i < |mem| && (i < 4 * v + 2 || i >= 4 * (v + Owned(L, v))) ==> mem'[i] == mem[i]
  }

  lemma InsideHeader(mem: Image, mem': Image, L: Layout, v: nat, x: nat)
    requires Tiled(L.chunks, L.end) && Owned(L, v) > 0 && OnlyInside(mem, mem', L, v) && HeaderOk(mem, L, x)
    ensures HeaderOk(mem', L, x)
  {
    assert Fits(L.chunks, L.end, x) && Fits(L.chunks, L.end, v);
  }

  lemma InsideNode(mem: Image, mem': Image, L: Layout, v: nat, b: nat, i: nat)
    requires Tiled(L.chunks, L.end) && Owned(L, v) > 0 && OnlyInside(mem, mem', L, v)
    requires b < |L.lists| && i < |L.lists[b]| && Entry(L.home, L.chunks, L.loose, b, L.lists[b][i])
    requires NodeOk(mem, L.lists[b], i)
    ensures NodeOk(mem', L.lists[b], i)
  {
    assert Fits(L.chunks, L.end, L.lists[b][i]) && Fits(L.chunks, L.end, v);
  }

  lemma InsideData(mem: Image, mem': Image, L: Layout, v: nat, w: nat)
    requires Tiled(L.chunks, L.end) && Owned(L, v) > 0 && OnlyInside(mem, mem', L, v) && w != v
    ensures Data(mem', L, w) == Data(mem, L, w)
  {
  }

  /** An owner who writes inside its own block disturbs nobody. */
  lemma PayloadWrite(mem: Image, mem': Image, heads: Image, L: Layout, v: nat)
    requires Coherent(mem, heads, L) && Owned(L, v) > 0 && OnlyInside(mem, mem', L, v)
    ensures Coherent(mem', heads, L)
    ensures forall w :: w != v ==> Data(mem', L, w) == Data(mem, L, w)
  {
    forall x | x in L.chunks ensures HeaderOk(mem', L, x) {
      assert HeaderOk(mem, L, x);
      InsideHeader(mem, mem', L, v, x);
    }
    forall b | 0 <= b < |L.lists| ensures ChainOk(mem', heads[b], L.lists[b]) {
      assert ChainOk(mem, heads[b], L.lists[b]);
      forall i | 0 <= i < |L.lists[b]| ensures NodeOk(mem', L.lists[b], i) {
        assert NodeOk(mem, L.lists[b], i) && Entry(L.home, L.chunks, L.loose, b, L.lists[b][i]);
        InsideNode(mem, mem', L, v, b, i);
      }
    }
    forall w: nat | w != v ensures Data(mem', L, w) == Data(mem, L, w) {
      InsideData(mem, mem', L, v, w);
    }
  }

  /** Copying the whole of block `u` to the front of the block `v`. */
  lemma CopyCoherent(mem: Image, mem': Image, heads: Image, L: Layout, u: nat, v: nat)
    requires Coherent(mem, heads, L) && u != v && 0 < Owned(L, u) <= Owned(L, v) && |mem'| == |mem|
    requires 4 * (v + Owned(L, u)) <= |mem| && 4 * (u + Owned(L, u)) <= |mem|
    requires mem'[4 * v + 2..4 * (v + Owned(L, u))] == mem[4 * u + 2..4 * (u + Owned(L, u))]
    requires forall i :: 0 <= i < |mem| && (i < 4 * v + 2 || i >= 4 * (v + Owned(L, u))) ==> mem'[i] == mem[i]
    ensures Coherent(mem', heads, L)
    ensures forall w :: w != v ==> Data(mem', L, w) == Data(mem, L, w)
    ensures Data(mem, L, u) <= Data(mem', L, v) && |Data(mem', L, v)| == |Data(mem, L, v)|
  {
    assert Fits(L.chunks, L.end, v);
    PayloadWrite(mem, mem', heads, L, v);
    CopyPrefix(mem, mem', u, v, Owned(L, u), Owned(L, v));
  }

  /** The same for a copy of `n` half-words from `src` to `dst`. */
  lemma CopyDone(mem: Image, mem': Image, heads: Image, L: Layout, u: nat, v: nat, dst: nat, src: nat, n: nat)
    requires Coherent(mem, heads, L) && u != v && 0 < Owned(L, u) <= Owned(L, v) && |mem'| == |mem|
    requires dst == 4 * v + 2 && src == 4 * u + 2 && n == 4 * Owned(L, u) - 2
    requires dst + n <= |mem| && src + n <= |mem| && mem'[dst..dst + n] == mem[src..src + n]
    requires forall i :: 0 <= i < |mem| && (i < dst || i >= dst + n) ==> mem'[i] == mem[i]
    ensures Coherent(mem', heads, L)
    ensures forall w :: w != v ==> Data(mem', L, w) == Data(mem, L, w)
    ensures Data(mem, L, u) <= Data(mem', L, v) && |Data(mem', L, v)| == |Data(mem, L, v)|
  {
    CopyCoherent(mem, mem', heads, L, u, v);
  }

  /** Two blocks lie in the buffer, one behind the other. */
  lemma BlocksApart(mem: Image, L: Layout, u: nat, v: nat)
    requires Shape(mem, L) && u != v && Owned(L, u) > 0 && Owned(L, v) > 0
    ensures 4 * (u + Owned(L, u)) <= |mem| && 4 * (v + Owned(L, v)) <= |mem|
    ensures u + Owned(L, u) <= v || v + Owned(L, v) <= u
  {
    assert Fits(L.chunks, L.end, u) && Fits(L.chunks, L.end, v);
  }

  lemma CopyPrefix(mem: Image, mem': Image, u: nat, v: nat, n: nat, k: nat)
    requires |mem'| == |mem| && 0 < n <= k && 4 * (v + k) <= |mem| && 4 * (u + n) <= |mem|
    requires mem'[4 * v + 2..4 * (v + n)] == mem[4 * u + 2..4 * (u + n)]
    ensures Payload(mem, u, n) <= Payload(mem', v, k)
  {
    assert Payload(mem', v, k)[..4 * n - 2] == mem'[4 * v + 2..4 * (v + n)];
  }

  // ---------------------------------------------------------------- the initial image

  /** A fresh heap: one chunk, not listed yet, and empty lists. */
  lemma InitialCoherent(mem: Image, heads: Image, L: Layout)
    requires 25 <= L.end <= 4106 && |mem| == 4 * L.end && |L.lists| <= |heads|
    requires L.chunks == map[FIRST := Chunk(L.end - FIRST, false, 0)] && L.loose == {FIRST}
    requires mem[4 * FIRST] % ALLOCATED == 8 * (L.end - FIRST) && mem[4 * FIRST + 1] == 0
    requires forall b :: 0 <= b < |L.lists| ==> L.lists[b] == [] && heads[b] == 0
    ensures Coherent(mem, heads, L)
  {
    assert Fits(L.chunks, L.end, FIRST);
  }
}
