/** Size classes of the heap allocator: alignment of requests and the map from a
    chunk size to the index of the free list ("bucket") that holds it. */
module SegIndex {

  const HEADER := 4                // bytes in front of an allocated payload
  const LINEAR := 5                // every size below 64 shares segment 5
  const MAX_BLOCK := 0x7FFF        // largest value of the 15-bit size field
  const MAX_REQUEST := MAX_BLOCK - 11

  function Pow2(n: nat): (r: nat)
    ensures r > 0
  {
    if n == 0 then 1 else 2 * Pow2(n - 1)
  }

  /** `31 - __builtin_clz(n)`: the position of the highest set bit. */
  function Log2(n: nat): nat
    requires n > 0
  {
    if n < 2 then 0 else 1 + Log2(n / 2)
  }

  /** In words of four bytes: enough for the request, one for the header, an even number. */
  function AlignAllocSize(request: nat): nat
  {
    var words := (request + 3) / 4;
    if words % 2 == 1 then 4 * words + HEADER else 4 * words + HEADER + 4
  }

  function Segment(size: nat): nat
    requires size > 0
  {
    if Log2(size) < LINEAR then LINEAR else Log2(size)
  }

  /** log2 of the width of one sub-segment. */
  function SubShift(seg: nat): nat
    requires seg >= LINEAR
  {
    if seg == LINEAR then seg - 1 else seg - 2
  }

  /** The bucket of a size, before the comparison with the number of segments in use. */
  function RawIndex(size: nat): nat
    requires size > 0
  {
    var seg := Segment(size);
    (seg - LINEAR) * 4 + size / Pow2(SubShift(seg)) % 4
  }

  function SeglistIndex(nbSegs: nat, size: nat): int
    requires size > 0
  {
    if Segment(size) - LINEAR >= nbSegs then -1 else RawIndex(size)
  }

  /** Rounds a size up to the next sub-segment boundary. */
  function RoundUp(size: nat): nat
    requires size > 0
  {
    var sub := Pow2(SubShift(Segment(size)));
    (size + sub - 1) / sub * sub
  }

  function SeglistIndexUp(nbSegs: nat, size: nat): int
    requires size > 0
  {
    RoundUpAtLeast(size);
    SeglistIndex(nbSegs, RoundUp(size))
  }

  /** Reference definition of the size classes: the least size that belongs to bucket `b`. */
  function BucketFloor(b: nat): nat
  {
    if b < 4 then 16 * b else (4 + b % 4) * Pow2(b / 4 + 3)
  }

  /** The bucket of a chunk of `units` 8-byte units. */
  function Home(units: nat): nat
  {
    if units == 0 then 0 else RawIndex(8 * units)
  }

  // ---------------------------------------------------------------- powers and logarithms

  lemma {:induction false} Pow2Monotone(a: nat, b: nat)
    requires a <= b
    ensures Pow2(a) <= Pow2(b)
  {
    if a < b { Pow2Monotone(a, b - 1); }
  }

  lemma {:induction false} Log2Bounds(n: nat)
    requires n > 0
    ensures Pow2(Log2(n)) <= n < Pow2(Log2(n) + 1)
  {
    if n >= 2 { Log2Bounds(n / 2); }
  }

  lemma Log2Monotone(a: nat, b: nat)
    requires 0 < a <= b
    ensures Log2(a) <= Log2(b)
  {
    Log2Bounds(a);
    Log2Bounds(b);
    if Log2(b) < Log2(a) { Pow2Monotone(Log2(b) + 1, Log2(a)); }
  }

  lemma Log2Small()
    ensures Pow2(4) == 16 && Pow2(5) == 32 && Pow2(6) == 64
  {
    assert Pow2(3) == 8;
  }

  // ---------------------------------------------------------------- alignment

  /** An aligned size is the least multiple of 8 that holds the header and the request. */
  lemma AlignIsLeast(request: nat, other: nat)
    ensures AlignAllocSize(request) % 8 == 0
    ensures AlignAllocSize(request) >= request + HEADER
    ensures other % 8 == 0 && other >= request + HEADER ==> other >= AlignAllocSize(request)
  {
    LeastWords(request, (request + 3) / 4, other / 8);
  }

  lemma LeastWords(request: nat, q: nat, pairs: nat)
    requires request <= 4 * q < request + 4
    ensures 8 * pairs >= request + HEADER ==> 8 * pairs >= if q % 2 == 1 then 4 * (q + 1) else 4 * (q + 2)
  {
    if 8 * pairs >= request + HEADER {
      assert 2 * pairs >= q + 1;
    }
  }

  // ---------------------------------------------------------------- rounding

  lemma RoundsToMultiple(size: nat, sub: nat)
    requires sub > 0
    ensures size <= (size + sub - 1) / sub * sub < size + sub
  {
    var q, r := (size + sub - 1) / sub, (size + sub - 1) % sub;
    assert size + sub - 1 == q * sub + r;
  }

  lemma RoundUpAtLeast(size: nat)
    requires size > 0
    ensures RoundUp(size) >= size
  {
    RoundsToMultiple(size, Pow2(SubShift(Segment(size))));
  }

  /** The rounding adds less than a quarter of the size, from 64 bytes on. */
  lemma RoundUpOverhead(size: nat)
    requires size >= 64
    ensures 4 * (RoundUp(size) - size) < size
  {
    Log2Small();
    Log2Bounds(size);
    Log2AtLeast(size, 6);
    var s := Log2(size);
    RoundsToMultiple(size, Pow2(s - 2));
    assert Pow2(s) == 2 * Pow2(s - 1) == 4 * Pow2(s - 2);
  }

  lemma Log2AtLeast(size: nat, k: nat)
    requires size > 0
    ensures Pow2(k) <= size <==> k <= Log2(size)
  {
    Log2Bounds(size);
    if k <= Log2(size) { Pow2Monotone(k, Log2(size)); } else { Pow2Monotone(Log2(size) + 1, k); }
  }

  /** The shape of a size above the linear segment. */
  lemma UpperBounds(size: nat)
    requires size >= 64
    ensures Log2(size) >= 6 && 4 * Pow2(Log2(size) - 2) <= size < 8 * Pow2(Log2(size) - 2)
  {
    Log2Small();
    Log2AtLeast(size, 6);
    Log2Bounds(size);
    Pow2Steps(Log2(size));
  }

  lemma UpperShape(size: nat) returns (p: nat)
    requires size >= 64
    ensures Log2(size) >= 6 && p == Pow2(Log2(size) - 2) > 0 && 4 * p <= size < 8 * p
    ensures 4 <= size / p < 8
    ensures RawIndex(size) == (Log2(size) - LINEAR) * 4 + size / p - 4
  {
    UpperBounds(size);
    p := Pow2(Log2(size) - 2);
    DivBetween(size, p, 4, 8);
    IndexFrom(size, p);
  }

  lemma Pow2Steps(s: nat)
    requires s >= 2
    ensures Pow2(s + 1) == 8 * Pow2(s - 2) && Pow2(s) == 4 * Pow2(s - 2)
  {
    assert Pow2(s + 1) == 2 * Pow2(s) && Pow2(s) == 2 * Pow2(s - 1);
  }

  lemma IndexFrom(size: nat, p: nat)
    requires size > 0 && Log2(size) >= 6 && p == Pow2(Log2(size) - 2) && 4 <= size / p < 8
    ensures RawIndex(size) == (Log2(size) - LINEAR) * 4 + size / p - 4
  {
    assert Segment(size) == Log2(size) && SubShift(Segment(size)) == Log2(size) - 2;
  }

  lemma DivBetween(n: nat, p: nat, lo: nat, hi: nat)
    requires p > 0 && lo * p <= n < hi * p
    ensures lo <= n / p < hi
  {
    DivAtLeast(n, p, lo);
    DivAtLeast(n, p, hi);
  }

  lemma DivAtLeast(n: nat, p: nat, j: nat)
    requires p > 0
    ensures n / p >= j <==> n >= j * p
  {
    var q, r := n / p, n % p;
    assert n == q * p + r;
    if q >= j { assert q * p >= j * p; } else { assert (q + 1) * p <= j * p; }
  }

  lemma LinearShape(size: nat)
    requires 0 < size < 64
    ensures RawIndex(size) == size / 16 < 4
  {
    Log2Small();
    Log2AtLeast(size, 6);
    Log2AtLeast(size, 5);
    assert Segment(size) == LINEAR;
  }

  // ---------------------------------------------------------------- the size classes

  lemma FloorOfLarge(b: nat)
    requires b >= 4
    ensures BucketFloor(b) >= 64
  {
    Log2Small();
    Pow2Monotone(4, b / 4 + 3);
  }

  lemma MulBounds(j: nat, q: nat)
    requires j < 4
    ensures 4 * q <= (4 + j) * q <= 7 * q
  {
    assert j == 0 || j == 1 || j == 2 || j == 3;
  }

  /** Classes below and above the segment of a size. */
  lemma OtherSegment(size: nat, k: nat, j: nat)
    requires size >= 64 && k >= 1 && j < 4 && k != Log2(size) - 5
    ensures k < Log2(size) - 5 <==> size >= (4 + j) * Pow2(k + 3)
  {
    UpperBounds(size);
    if k < Log2(size) - 5 {
      Pow2Apart(k + 3, Log2(size) - 2);
    } else {
      Pow2Apart(Log2(size) - 2, k + 3);
    }
    FarFromFloor(size, Pow2(Log2(size) - 2), Pow2(k + 3), j);
  }

  lemma FarFromFloor(size: nat, p: nat, q: nat, j: nat)
    requires 4 * p <= size < 8 * p && j < 4 && q > 0 && (2 * q <= p || 2 * p <= q)
    ensures size >= (4 + j) * q <==> 2 * q <= p
  {
    MulBounds(j, q);
  }

  lemma Pow2Apart(a: nat, b: nat)
    requires a < b
    ensures 2 * Pow2(a) <= Pow2(b)
  {
    Pow2Monotone(a + 1, b);
  }

  lemma LargeMatchesFloor(size: nat, k: nat, j: nat)
    requires size >= 64 && k >= 1 && j < 4
    ensures RawIndex(size) >= 4 * k + j <==> size >= (4 + j) * Pow2(k + 3)
  {
    var p := UpperShape(size);
    if k == Log2(size) - 5 {
      DivAtLeast(size, p, 4 + j);
    } else {
      OtherSegment(size, k, j);
    }
  }

  /** The index computed with shifts and masks is the class whose floor is the greatest
      one not above the size. */
  lemma IndexMatchesFloor(size: nat, b: nat)
    requires size > 0
    ensures RawIndex(size) >= b <==> size >= BucketFloor(b)
  {
    if size < 64 {
      LinearShape(size);
      if b >= 4 { FloorOfLarge(b); }
    } else if b >= 4 {
      LargeMatchesFloor(size, b / 4, b % 4);
    } else {
      var p := UpperShape(size);
    }
  }

  lemma IndexMonotone(a: nat, b: nat)
    requires 0 < a <= b
    ensures RawIndex(a) <= RawIndex(b)
  {
    IndexMatchesFloor(a, RawIndex(a));
    IndexMatchesFloor(b, RawIndex(a));
  }

  /** `q` sub-segments of width 2^(s-2), with 4 <= q < 8, open bucket `(s-5)*4 + q-4`. */
  lemma MultipleIsFloor(s: nat, q: nat)
    requires s >= 6 && 4 <= q < 8
    ensures var size := q * Pow2(s - 2);
            size > 0 && RawIndex(size) == (s - 5) * 4 + q - 4 && BucketFloor(RawIndex(size)) == size
  {
    var p := Pow2(s - 2);
    var size := q * p;
    Pow2Steps(s);
    assert 4 * p <= size <= 7 * p;
    Log2AtLeast(size, s);
    Log2AtLeast(size, s + 1);
    assert Segment(size) == s;
    DivAtLeast(size, p, q);
    DivAtLeast(size, p, q + 1);
    assert (q + 1) * p == size + p;
    assert size / p == q;
    assert RawIndex(size) / 4 == s - 5 && RawIndex(size) % 4 == q - 4;
  }

  lemma RoundUpSmall(size: nat)
    requires 0 < size < 64
    ensures RoundUp(size) == (size + 15) / 16 * 16
    ensures BucketFloor(RawIndex((size + 15) / 16 * 16)) == (size + 15) / 16 * 16
  {
    Log2Small();
    Log2AtLeast(size, 6);
    var r := (size + 15) / 16 * 16;
    if r < 64 { LinearShape(r); } else { MultipleIsFloor(6, 4); }
  }

  lemma CeilBetween(n: nat, p: nat, lo: nat, hi: nat)
    requires p > 0 && lo * p <= n < hi * p
    ensures lo <= (n + p - 1) / p <= hi
  {
    assert (hi + 1) * p == hi * p + p;
    DivBetween(n + p - 1, p, lo, hi + 1);
  }

  lemma RoundUpLarge(size: nat) returns (s: nat, q: nat)
    requires size >= 64
    ensures s >= 6 && 4 <= q < 8 && RoundUp(size) == q * Pow2(s - 2)
  {
    var p := UpperShape(size);
    s := Log2(size);
    CeilBetween(size, p, 4, 8);
    q := (size + p - 1) / p;
    RoundUpBy(size, p);
    if q == 8 {
      s, q := s + 1, 4;
      assert Pow2(s - 2) == 2 * p;
    }
  }

  lemma RoundUpBy(size: nat, p: nat)
    requires size > 0 && Log2(size) >= 6 && p == Pow2(Log2(size) - 2)
    ensures RoundUp(size) == (size + p - 1) / p * p
  {
    assert SubShift(Segment(size)) == Log2(size) - 2;
  }

  /** A rounded size is exactly the floor of its own bucket. */
  lemma RoundUpIsFloor(size: nat)
    requires size > 0
    ensures RoundUp(size) > 0 && RoundUp(size) == BucketFloor(RawIndex(RoundUp(size)))
  {
    RoundUpAtLeast(size);
    if size < 64 {
      RoundUpSmall(size);
    } else {
      var s, q := RoundUpLarge(size);
      MultipleIsFloor(s, q);
    }
  }

  /** Good fit: the buckets from `SeglistIndexUp(request)` on hold exactly the sizes that
      reach the rounded request, so each of their chunks is large enough. */
  lemma GoodFit(request: nat, size: nat)
    requires request > 0 && size > 0
    ensures RoundUp(request) > 0
    ensures RawIndex(size) >= RawIndex(RoundUp(request)) <==> size >= RoundUp(request)
    ensures RawIndex(size) >= RawIndex(RoundUp(request)) ==> size >= request
  {
    RoundUpAtLeast(request);
    RoundUpIsFloor(request);
    IndexMatchesFloor(size, RawIndex(RoundUp(request)));
  }

  /** The number of segments `mem_init` sets up for a first chunk of `largest` bytes. */
  function SegmentsFor(largest: nat): nat
    requires largest >= 32
  {
    Log2Small();
    Log2AtLeast(largest, 5);
    Log2(largest) - LINEAR + 1
  }

  /** With that many segments no size up to the first chunk's is out of range. */
  lemma IndexInRange(largest: nat, size: nat)
    requires 0 < size <= largest && largest >= 32
    ensures SeglistIndex(SegmentsFor(largest), size) == RawIndex(size) < 4 * SegmentsFor(largest)
  {
    Log2Small();
    Log2AtLeast(largest, LINEAR);
    Log2Monotone(size, largest);
    var sub := size / Pow2(SubShift(Segment(size)));
    assert RawIndex(size) == (Segment(size) - LINEAR) * 4 + sub % 4;
  }

  /** A rounded request without a bucket is larger than any chunk. */
  lemma UpOutOfRange(largest: nat, request: nat, size: nat)
    requires request > 0 && largest >= 32 && 0 < size <= largest
    requires SeglistIndexUp(SegmentsFor(largest), request) < 0
    ensures size < RoundUp(request)
  {
    RoundUpAtLeast(request);
    if size >= RoundUp(request) { IndexInRange(largest, RoundUp(request)); }
  }

  /** At most ten segments are ever in use, so forty list heads suffice. */
  lemma SegmentsBound(largest: nat)
    requires 32 <= largest < 0x8000
    ensures SegmentsFor(largest) <= 10
  {
    Log2Small();
    assert Pow2(9) == 512 && Pow2(12) == 4096 && Pow2(15) == 0x8000;
    Log2AtLeast(largest, 15);
  }
}
