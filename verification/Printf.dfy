/** Number formatting of src/os_printf.c: digit generation with wrapping arithmetic, padding
    through a 32-byte scratch buffer, and a bounded destination. */
module Printf {
  import opened Basics
  import opened Radix
  import opened Utf8

  const PCBUF_SIZE := 32

  // ---------------------------------------------------------------- the destination

  /** What one more chunk adds to a destination that still holds all of `total`. */
  lemma OutputStep(total: Bytes, data: Bytes, capacity: nat)
    requires WellFormed(total) && WellFormed(data) && |total| <= capacity
    ensures WellFormed(total + data) && Truncated(total, capacity) == total
    ensures var len := if |data| > capacity - |total| then capacity - |total| else |data|;
            && Truncated(total + data, capacity) == total + data[..len - Trailing(data[..len])]
            && (len == |data| ==> Trailing(data[..len]) == 0)
  {
    var len := if |data| > capacity - |total| then capacity - |total| else |data|;
    TruncatedAll(total, capacity);
    TruncatedMore(total, data, capacity);
    TrailingBound(data, len);
    BoundAtEnd(data);
  }

  /** The context of `sprintf_output`: where the next byte goes, the room left, and the number of
      bytes seen. */
  class Sink {
    const dst: array<u8>
    var pos: nat
    var room: nat
    var written: nat
    ghost var total: Bytes           // everything output so far
    ghost var whole: bool            // has each piece of it been made of whole characters?
    ghost const capacity: nat

    ghost predicate Valid()
      reads this, dst
    {
      && written == |total| && pos + room <= capacity <= dst.Length
      && (forall i :: pos <= i < dst.Length ==> dst[i] == 0)
      && (whole ==> Exact())
    }

    /** The destination holds as many whole characters of the output as fit, and either has
        room for more or has been filled. */
    ghost predicate Exact()
      requires pos + room <= capacity <= dst.Length
      reads this, dst
    {
      && WellFormed(total) && pos <= |total|
      && pos == |Truncated(total, capacity)| && dst[..pos] == Truncated(total, capacity)
      && (room == 0 || (pos == |total| && pos + room == capacity))
      && (room == 0 ==> |total| >= capacity)
    }

    constructor (dst: array<u8>, capacity: nat)
      requires capacity <= dst.Length && forall i :: 0 <= i < dst.Length ==> dst[i] == 0
      ensures Valid() && whole && total == [] && this.dst == dst && this.capacity == capacity
    {
      this.dst, this.capacity, this.whole := dst, capacity, true;
      this.pos, this.room, this.written, this.total := 0, capacity, 0, [];
    }

    /** The count that snprintf returns. A destination with one byte more than its capacity
        holds the text as it should. */
    method Close() returns (r: nat)
      requires Valid() && capacity == dst.Length - 1
      ensures r == |total| && dst[dst.Length - 1] == 0
      ensures whole ==> Holds(dst[..], total)
    {
      r := written;
      assert dst[..][..pos] == dst[..pos];
    }

    method Copy(data: Bytes)
      requires pos + |data| <= dst.Length
      modifies dst
      ensures dst[..pos + |data|] == old(dst[..pos]) + data
      ensures forall i :: pos + |data| <= i < dst.Length ==> dst[i] == old(dst[i])
    {
      forall i | 0 <= i < |data| {
        dst[pos + i] := data[i];
      }
    }

    /** The copying part of `sprintf_output`: what fits, less a character cut off at its end.
        The room that character would have taken is lost. */
    method Append(data: Bytes)
      requires pos + room <= dst.Length
      modifies this`pos, this`room, dst
      ensures var len := if |data| > old(room) then old(room) else |data|;
              && room == old(room) - len && pos == old(pos) + len - Trailing(data[..len])
              && dst[..pos] == old(dst[..pos]) + data[..len - Trailing(data[..len])]
      ensures forall i :: pos <= i < dst.Length ==> dst[i] == old(dst[i])
    {
      var len := |data|;
      if len > room {
        len := room;
      }
      var nbTruncated := FindInvalidTrailingBytes(data, len);
      len := len - nbTruncated;
      room := room - nbTruncated;
      Copy(data[..len]);
      pos := pos + len;
      room := room - len;
    }

    /** For any bytes at all: the part that fits is stored, less a character cut off at its end.
        For whole characters the destination stays exact. */
    method Output(data: Bytes)
      requires Valid()
      modifies this, dst
      ensures Valid() && total == old(total) + data && whole == (old(whole) && WellFormed(data))
      ensures var len := if |data| > old(room) then old(room) else |data|;
              && room == old(room) - len && pos == old(pos) + len - Trailing(data[..len])
              && dst[..pos] == old(dst[..pos]) + data[..len - Trailing(data[..len])]
    {
      written := written + |data|;
      ghost var before := total;
      total, whole := total + data, whole && WellFormed(data);
      if room == 0 {
        if whole { TruncatedFull(before, data, capacity); }
        assert data[..0] == [];
        return;
      }
      if whole { OutputStep(before, data, capacity); }
      Append(data);
    }
  }

  // ---------------------------------------------------------------- the scratch buffer

  /** pcBuf and ulPos, in front of a destination. */
  class Scratch {
    const sink: Sink
    const buf: array<u8>
    var pos: nat

    ghost predicate Valid()
      reads this, sink, sink.dst, buf
    {
      && buf.Length == PCBUF_SIZE && buf != sink.dst && pos <= PCBUF_SIZE && sink.Valid()
      && forall i :: 0 <= i < pos ==> buf[i] < 0x80
    }

    /** Everything emitted, whether flushed or not. */
    ghost function Stream(): Bytes
      requires Valid()
      reads this, sink, sink.dst, buf
    {
      sink.total + buf[..pos]
    }

    constructor (sink: Sink)
      requires sink.Valid()
      ensures Valid() && this.sink == sink && Stream() == sink.total && fresh(buf) && pos == 0
    {
      this.sink := sink;
      this.buf := new u8[PCBUF_SIZE];
      this.pos := 0;
    }

    method Put(c: u8)
      requires Valid() && pos < PCBUF_SIZE && c < 0x80
      modifies this, buf
      ensures Valid() && Stream() == old(Stream()) + [c] && pos == old(pos) + 1
    {
      buf[pos] := c;
      pos := pos + 1;
      assert buf[..pos] == old(buf[..pos]) + [c];
    }

    method Flush()
      requires Valid()
      modifies this, sink, sink.dst
      ensures Valid() && Stream() == old(Stream()) && pos == 0
      ensures sink.total == old(Stream()) && sink.whole == old(sink.whole)
    {
      AsciiWellFormed(buf[..pos]);
      sink.Output(buf[..pos]);
      pos := 0;
    }
  }

  // ---------------------------------------------------------------- reference text

  function Repeat(c: u8, n: nat): Bytes
  {
    seq(n, _ => c)
  }

  /** g_pcHex and g_pcHex_cap. */
  function HexDigit(d: nat, cap: bool): u8
    requires d < 16
  {
    if d < 10 then '0' as int + d else if cap then 'A' as int + (d - 10) else 'a' as int + (d - 10)
  }

  const MINUS: u8 := '-' as int
  const ZERO: u8 := '0' as int

  /** The numeral of `v`, at least one digit. */
  ghost function Numeral(v: nat, base: nat): seq<nat>
    requires base >= 2
  {
    if v == 0 then [0] else Digits(v, base)
  }

  function TextOf(digits: seq<nat>, cap: bool): Bytes
    requires forall i :: 0 <= i < |digits| ==> digits[i] < 16
  {
    seq(|digits|, i requires 0 <= i < |digits| => HexDigit(digits[i], cap))
  }

  /** Padding and sign in front of a numeral of `n` digits. */
  function Prefix(neg: bool, n: nat, width: nat, fill: u8): Bytes
  {
    var actual := n + if neg then 1 else 0;
    var pad := if width > actual then width - actual else 0;
    if neg && fill == ZERO then [MINUS] + Repeat(fill, pad)
    else Repeat(fill, pad) + if neg then [MINUS] else []
  }

  /** A formatted number, as one unbuffered string. */
  ghost function NumberText(neg: bool, v: nat, base: nat, cap: bool, width: nat, fill: u8): Bytes
    requires 2 <= base <= 16
  {
    NumeralInBase(v, base);
    Prefix(neg, |Numeral(v, base)|, width, fill) + TextOf(Numeral(v, base), cap)
  }

  lemma NumeralInBase(v: nat, base: nat)
    requires base >= 2
    ensures InBase(Numeral(v, base), base)
  {
    DigitsOf(v, base);
  }

  // ---------------------------------------------------------------- generating digits

  /** The power search: `len` digits, `idx` the weight of the first. The products wrap around at
      `word` (2^32 or 2^64); the quotient test notices that, so the search still stops right. */
  method PowerSearch(value: nat, base: nat, word: nat) returns (idx: nat, len: nat)
    requires base >= 2 && 0 < base < word && value < word
    ensures len >= 1 && idx == Pow(base, len - 1) && value < base * idx && (len > 1 ==> idx <= value)
  {
    idx, len := 1, 1;
    while idx * base % word <= value && idx * base % word / base == idx
      invariant len >= 1 && idx == Pow(base, len - 1) && 0 < idx < word && (len > 1 ==> idx <= value)
      decreases value - idx
    {
      NoWrap(idx, base, word);
      SmallMod(idx * base, word);
      idx := idx * base % word;
      len := len + 1;
    }
    StopsRight(idx, base, word, value);
  }

  /** A product that passes the quotient test has not wrapped around. */
  lemma NoWrap(idx: nat, base: nat, word: nat)
    requires base >= 2 && word > 0 && idx > 0 && idx * base % word / base == idx
    ensures idx * base < word && idx * base > idx
  {
    var w := idx * base % word;
    assert w == idx * base % word < word;
    assert w >= w / base * base;
  }

  lemma SmallMod(x: nat, word: nat)
    requires x < word
    ensures x % word == x
  {
  }

  /** The test on the wrapped product goes on exactly where the exact product would. */
  lemma StopsRight(idx: nat, base: nat, word: nat, value: nat)
    requires base >= 2 && 0 < idx < word && value < word
    ensures idx * base % word <= value && idx * base % word / base == idx <==> base * idx <= value
  {
    if idx * base % word / base == idx {
      NoWrap(idx, base, word);
      SmallMod(idx * base, word);
    } else if idx * base < word {
      SmallMod(idx * base, word);
      DivModOf(idx, base, 0);
    }
  }

  lemma DivDiv(v: nat, p: nat, b: nat)
    requires p > 0 && b > 0
    ensures b * p > 0 && v / p / b == v / (b * p)
  {
    var q := v / p;
    Euclid(v, p);
    Euclid(q, b);
    TwoDivisions(p, b, q / b, q % b, v % p, q, v);
  }

  lemma Euclid(v: nat, p: nat)
    requires p > 0
    ensures v == v / p * p + v % p && v % p < p
  {
  }

  lemma TwoDivisions(p: nat, b: nat, q: nat, r: nat, s: nat, w: nat, v: nat)
    requires p > 0 && b > 0 && r < b && s < p && w == q * b + r && v == w * p + s
    ensures b * p > 0 && v / (b * p) == q
  {
    Distribute(q, b, r, p);
    TimesCommute(p, b);
    MulAddBound(r, b, s, p);
    DivModOf(q, b * p, r * p + s);
  }

  /** The digit of weight b^k, as `(value / idx) % base` computes it. */
  ghost function DigitAt(v: nat, b: nat, k: nat): nat
    requires b >= 2
  {
    PowPositive(b, k);
    v / Pow(b, k) % b
  }

  /** The first `n` of `len` digits of `v`, place by place. */
  ghost function Places(v: nat, b: nat, len: nat, n: nat): seq<nat>
    requires b >= 2 && n <= len
  {
    if n == 0 then [] else Places(v, b, len, n - 1) + [DigitAt(v, b, len - n)]
  }

  lemma DigitShift(v: nat, b: nat, k: nat)
    requires b >= 2
    ensures DigitAt(v, b, k + 1) == DigitAt(v / b, b, k)
  {
    PowPositive(b, k);
    DivSwap(v, b, Pow(b, k));
  }

  lemma {:induction false} PlacesShift(v: nat, b: nat, len: nat, n: nat)
    requires b >= 2 && n < len
    ensures Places(v, b, len, n) == Places(v / b, b, len - 1, n)
    decreases n
  {
    if n > 0 {
      PlacesShift(v, b, len, n - 1);
      DigitShift(v, b, len - 1 - n);
    }
  }

  lemma LastDigit(v: nat, b: nat)
    requires b >= 2
    ensures DigitAt(v, b, 0) == v % b
  {
    assert Pow(b, 0) == 1 && v / 1 == v;
  }

  lemma DivSwap(v: nat, b: nat, p: nat)
    requires b > 0 && p > 0
    ensures b * p > 0 && v / b / p == v / (b * p)
  {
    DivDiv(v, b, p);
    assert p * b == b * p;
  }

  lemma DivBounds(v: nat, b: nat, p: nat)
    requires b > 0 && b * p <= v
    ensures p <= v / b
  {
    var q, r := v / b, v % b;
    assert v == q * b + r;
    if q < p { MulMono(q + 1, p, b, b); }
  }

  lemma DivBelow(v: nat, b: nat, p: nat)
    requires b > 0 && v < b * p
    ensures v / b < p
  {
    var q, r := v / b, v % b;
    assert v == q * b + r;
    if q >= p { MulMono(p, q, b, b); }
  }

  /** Place by place one gets the numeral. */
  lemma {:induction false} PlacesAreNumeral(v: nat, b: nat, len: nat)
    requires b >= 2 && len >= 1 && v < b * Pow(b, len - 1) && (len > 1 ==> Pow(b, len - 1) <= v)
    ensures Places(v, b, len, len) == Numeral(v, b)
    decreases len
  {
    LastDigit(v, b);
    if len == 1 {
      assert Places(v, b, 1, 0) == [] && Pow(b, 0) == 1;
      DivModOf(0, b, v);
      assert v > 0 ==> Digits(v, b) == Digits(0, b) + [v];
    } else {
      assert Pow(b, len - 1) == b * Pow(b, len - 2);
      DivBounds(v, b, Pow(b, len - 2));
      DivBelow(v, b, Pow(b, len - 1));
      PowPositive(b, len - 2);
      PlacesAreNumeral(v / b, b, len - 1);
      PlacesShift(v, b, len, len - 1);
    }
  }

  // ---------------------------------------------------------------- emitting

  lemma RepeatMore(c: u8, n: nat)
    ensures Repeat(c, n) + [c] == Repeat(c, n + 1)
  {
  }

  method FillChunk(out: Scratch, fill: u8, n: nat)
    requires out.Valid() && out.pos + n <= PCBUF_SIZE && fill < 0x80
    modifies out, out.buf
    ensures out.Valid() && out.Stream() == old(out.Stream()) + Repeat(fill, n) && out.pos == old(out.pos) + n
  {
    assert Repeat(fill, 0) == [];
    for i := 0 to n
      invariant out.Valid() && out.pos == old(out.pos) + i
      invariant out.Stream() == old(out.Stream()) + Repeat(fill, i)
    {
      RepeatMore(fill, i);
      out.Put(fill);
    }
  }

  lemma RepeatSplit(c: u8, m: nat, n: nat)
    ensures Repeat(c, m) + Repeat(c, n) == Repeat(c, m + n)
  {
  }

  /** Emits `n` fill characters, flushing whenever the scratch buffer is full and more are to
      come. */
  method EmitPadding(out: Scratch, fill: u8, n: nat)
    requires out.Valid() && out.pos < PCBUF_SIZE && fill < 0x80
    modifies out, out.buf, out.sink, out.sink.dst
    ensures out.sink.whole == old(out.sink.whole)
    ensures out.Valid() && out.Stream() == old(out.Stream()) + Repeat(fill, n)
  {
    var needed := n;
    assert Repeat(fill, 0) == [];
    while needed > 0
      invariant 0 <= needed <= n && out.Valid() && (needed > 0 ==> out.pos < PCBUF_SIZE)
      invariant out.sink.whole == old(out.sink.whole)
      invariant out.Stream() == old(out.Stream()) + Repeat(fill, n - needed)
    {
      var chunk := needed;
      if chunk > PCBUF_SIZE - out.pos {
        chunk := PCBUF_SIZE - out.pos;
      }
      FillChunk(out, fill, chunk);
      RepeatSplit(fill, n - needed, chunk);
      needed := needed - chunk;
      if out.pos >= PCBUF_SIZE && needed > 0 {
        out.Flush();
      }
    }
  }

  /** apply_padding_output. */
  method ApplyPadding(out: Scratch, width: nat, neg: bool, fill: u8, numLen: nat)
    requires out.Valid() && out.pos == 0 && fill < 0x80
    modifies out, out.buf, out.sink, out.sink.dst
    ensures out.sink.whole == old(out.sink.whole)
    ensures out.Valid() && out.Stream() == old(out.Stream()) + Prefix(neg, numLen, width, fill)
  {
    var actual := numLen;
    if neg {
      actual := actual + 1;
    }
    var padding := 0;
    if width > actual {
      padding := width - actual;
    }
    var sign := neg;
    if sign && fill == ZERO {
      out.Put(MINUS);
      sign := false;
    }
    EmitPadding(out, fill, padding);
    if sign {
      if out.pos >= PCBUF_SIZE {
        out.Flush();
      }
      out.Put(MINUS);
    }
  }

  lemma NextWeight(b: nat, k: nat)
    requires b >= 2
    ensures Pow(b, k) > 0 && Pow(b, k) / b == if k == 0 then 0 else Pow(b, k - 1)
  {
    PowPositive(b, k);
    if k > 0 { DivModOf(Pow(b, k - 1), b, 0); }
  }

  lemma DigitSmall(v: nat, b: nat, k: nat)
    requires 2 <= b <= 16
    ensures DigitAt(v, b, k) < 16
  {
  }

  /** Puts the digit of weight `idx`, making room first if the buffer is full. */
  method EmitDigit(out: Scratch, value: nat, base: nat, cap: bool, idx: nat, ghost k: nat)
    requires out.Valid() && 2 <= base <= 16 && idx == Pow(base, k)
    modifies out, out.buf, out.sink, out.sink.dst
    ensures out.sink.whole == old(out.sink.whole)
    ensures out.Valid() && DigitAt(value, base, k) < 16
    ensures out.Stream() == old(out.Stream()) + [HexDigit(DigitAt(value, base, k), cap)]
  {
    PowPositive(base, k);
    DigitSmall(value, base, k);
    if out.pos >= PCBUF_SIZE {
      out.Flush();
    }
    out.Put(HexDigit(value / idx % base, cap));
  }

  lemma {:induction false} NumeralLength(v: nat, b: nat, len: nat)
    requires b >= 2 && Places(v, b, len, len) == Numeral(v, b)
    ensures |Numeral(v, b)| == len
  {
    PlacesLength(v, b, len, len);
  }

  lemma {:induction false} PlacesLength(v: nat, b: nat, len: nat, n: nat)
    requires b >= 2 && n <= len
    ensures |Places(v, b, len, n)| == n
    decreases n
  {
    if n > 0 { PlacesLength(v, b, len, n - 1); }
  }

  lemma {:induction false} PlaceIs(v: nat, b: nat, len: nat, n: nat, i: nat)
    requires b >= 2 && i < n <= len
    ensures |Places(v, b, len, n)| == n && Places(v, b, len, n)[i] == DigitAt(v, b, len - 1 - i)
    decreases n
  {
    PlacesLength(v, b, len, n - 1);
    if i < n - 1 { PlaceIs(v, b, len, n - 1, i); }
  }

  /** The text of all the places, character by character. */
  lemma PlacesText(v: nat, b: nat, len: nat, cap: bool)
    requires 2 <= b <= 16
    ensures InBase(Places(v, b, len, len), 16) && |TextOf(Places(v, b, len, len), cap)| == len
    ensures forall i :: 0 <= i < len ==>
              TextOf(Places(v, b, len, len), cap)[i] == (DigitSmall(v, b, len - 1 - i); HexDigit(DigitAt(v, b, len - 1 - i), cap))
  {
    PlacesLength(v, b, len, len);
    forall i | 0 <= i < len ensures Places(v, b, len, len)[i] == DigitAt(v, b, len - 1 - i) < 16 {
      PlaceIs(v, b, len, len, i);
      DigitSmall(v, b, len - 1 - i);
    }
  }

  ghost function DigitText(value: nat, base: nat, cap: bool, len: nat): Bytes
    requires 2 <= base <= 16
  {
    PlacesText(value, base, len, cap);
    TextOf(Places(value, base, len, len), cap)
  }

  /** One round of the conversion loop: the digit of weight `idx`, and the next weight. */
  method EmitNext(out: Scratch, value: nat, base: nat, cap: bool, idx: nat, ghost len: nat, ghost n: nat) returns (next: nat)
    requires out.Valid() && 2 <= base <= 16 && n < len && idx == Pow(base, len - 1 - n)
    modifies out, out.buf, out.sink, out.sink.dst
    ensures out.Valid() && out.sink.whole == old(out.sink.whole)
    ensures n < |DigitText(value, base, cap, len)|
    ensures out.Stream() == old(out.Stream()) + [DigitText(value, base, cap, len)[n]]
    ensures if n + 1 == len then next == 0 else 0 < next == Pow(base, len - 2 - n)
  {
    PlacesText(value, base, len, cap);
    EmitDigit(out, value, base, cap, idx, len - 1 - n);
    NextWeight(base, len - 1 - n);
    if n + 1 < len { NextWeight(base, len - 2 - n); }
    next := idx / base;
  }

  /** The conversion loop: the digits of `value`, most significant first. */
  method EmitDigits(out: Scratch, value: nat, base: nat, cap: bool, first: nat, ghost len: nat)
    requires out.Valid() && 2 <= base <= 16 && len >= 1 && first == Pow(base, len - 1)
    modifies out, out.buf, out.sink, out.sink.dst
    ensures out.Valid() && out.sink.whole == old(out.sink.whole)
    ensures out.Stream() == old(out.Stream()) + DigitText(value, base, cap, len)
  {
    PlacesText(value, base, len, cap);
    ghost var text := DigitText(value, base, cap, len);
    ghost var n: nat := 0;
    var idx := first;
    PowPositive(base, len - 1);
    while idx != 0
      invariant n <= len && |text| == len && (if n == len then idx == 0 else 0 < idx == Pow(base, len - 1 - n))
      invariant out.Valid() && out.Stream() == old(out.Stream()) + text[..n] && out.sink.whole == old(out.sink.whole)
      decreases len - n
    {
      idx := EmitNext(out, value, base, cap, idx, len, n);
      PrefixNext(old(out.Stream()), text, n);
      n := n + 1;
    }
    assert text[..len] == text;
  }

  lemma PrefixNext(before: Bytes, text: Bytes, n: nat)
    requires n < |text|
    ensures before + text[..n] + [text[n]] == before + text[..n + 1]
  {
  }

  /** Padding, sign and digits into the scratch buffer. */
  method EmitNumber(out: Scratch, neg: bool, value: nat, base: nat, cap: bool, width: nat, fill: u8, word: nat)
    requires out.Valid() && out.pos == 0 && 2 <= base <= 16 < word && value < word && fill < 0x80
    modifies out, out.buf, out.sink, out.sink.dst
    ensures out.sink.whole == old(out.sink.whole)
    ensures out.Valid() && out.Stream() == old(out.Stream()) + NumberText(neg, value, base, cap, width, fill)
  {
    var idx, len := PowerSearch(value, base, word);
    PlacesAreNumeral(value, base, len);
    NumeralLength(value, base, len);
    ApplyPadding(out, width, neg, fill, len);
    EmitDigits(out, value, base, cap, idx, len);
  }

  /** The `convert` and `%ll` paths: a sign, a magnitude below `word`, a base, a width and a fill
      character. */
  method FormatNumber(sink: Sink, neg: bool, value: nat, base: nat, cap: bool, width: nat, fill: u8, word: nat)
    requires sink.Valid() && 2 <= base <= 16 < word && value < word && fill < 0x80
    modifies sink, sink.dst
    ensures sink.Valid() && sink.whole == old(sink.whole)
    ensures sink.total == old(sink.total) + NumberText(neg, value, base, cap, width, fill)
  {
    var out := new Scratch(sink);
    EmitNumber(out, neg, value, base, cap, width, fill, word);
    if out.pos > 0 {
      out.Flush();
    }
    assert sink.total == out.Stream();
  }

  // ---------------------------------------------------------------- snprintf

  /** The parts of a format with its arguments: literal text and number conversions. `word` is
      2^32 for %d, %u, %x and %X, 2^64 for their %ll forms. */
  datatype Piece =
    | Text(bytes: Bytes)
    | Signed(n: int, width: nat, fill: u8, word: nat)
    | Unsigned(v: nat, width: nat, fill: u8, word: nat)
    | Hex(v: nat, cap: bool, width: nat, fill: u8, word: nat)

  predicate IsWord(word: nat)
  {
    word == 0x1_0000_0000 || word == 0x1_0000_0000_0000_0000
  }

  /** 7-bit fill characters, values that fit, and no signed minimum. */
  predicate Formattable(p: Piece)
  {
    match p
    case Text(bytes) => true
    case Signed(n, _, fill, word) => IsWord(word) && -(word as int) < 2 * n < word && fill < 0x80
    case Unsigned(v, _, fill, word) => IsWord(word) && v < word && fill < 0x80
    case Hex(v, _, _, fill, word) => IsWord(word) && v < word && fill < 0x80
  }

  /** Numbers are made of whole characters; literal text need not be. */
  predicate IsWhole(p: Piece)
  {
    p.Text? ==> WellFormed(p.bytes)
  }

  /** What the four number conversions hand to the common code: the sign, the magnitude, the
      base and the case of the digits. */
  datatype Conversion = Conversion(neg: bool, value: nat, base: nat, cap: bool)

  function ConversionOf(p: Piece): (c: Conversion)
    requires !p.Text?
    ensures 2 <= c.base <= 16
  {
    match p
    case Signed(n, _, _, _) => Conversion(n < 0, if n < 0 then -n else n, 10, false)
    case Unsigned(v, _, _, _) => Conversion(false, v, 10, false)
    case Hex(v, cap, _, _, _) => Conversion(false, v, 16, cap)
  }

  ghost function PieceText(p: Piece): Bytes
  {
    if p.Text? then p.bytes
    else
      var c := ConversionOf(p);
      NumberText(c.neg, c.value, c.base, c.cap, p.width, p.fill)
  }

  /** The text of the first `n` pieces. */
  ghost function TextUpTo(ps: seq<Piece>, n: nat): Bytes
    requires n <= |ps|
  {
    if n == 0 then [] else TextUpTo(ps, n - 1) + PieceText(ps[n - 1])
  }

  ghost function FormatText(ps: seq<Piece>): Bytes
  {
    TextUpTo(ps, |ps|)
  }

  method FormatPiece(sink: Sink, p: Piece)
    requires sink.Valid() && Formattable(p)
    modifies sink, sink.dst
    ensures sink.Valid() && sink.total == old(sink.total) + PieceText(p)
    ensures sink.whole == (old(sink.whole) && IsWhole(p))
  {
    if p.Text? {
      sink.Output(p.bytes);
    } else {
      var c := ConversionOf(p);
      FormatNumber(sink, c.neg, c.value, c.base, c.cap, p.width, p.fill, p.word);
    }
  }

  /** Returns the full length and leaves a NUL-terminated text followed by zeros. If the literal
      texts are made of whole characters, that is the longest prefix of whole characters. */
  method Snprintf(str: array<u8>, ps: seq<Piece>) returns (r: int)
    requires forall i :: 0 <= i < |ps| ==> Formattable(ps[i])
    modifies str
    ensures str.Length == 0 ==> r == -1
    ensures str.Length > 0 ==> r == |FormatText(ps)| && str[str.Length - 1] == 0
    ensures str.Length > 0 && AllWhole(ps) ==> Holds(str[..], FormatText(ps))
  {
    if str.Length < 1 {
      return -1;
    }
    forall i | 0 <= i < str.Length {
      str[i] := 0;
    }
    r := FormatInto(str, ps);
  }

  ghost predicate AllWhole(ps: seq<Piece>)
  {
    forall i :: 0 <= i < |ps| ==> IsWhole(ps[i])
  }

  /** `b` holds the longest prefix of whole characters of `text` that leaves room for the NUL, and
      zeros behind it. */
  ghost predicate Holds(b: Bytes, text: Bytes)
    requires b != []
  {
    && WellFormed(text)
    && var t := Truncated(text, |b| - 1);
    |t| < |b| && b[..|t|] == t && forall i :: |t| <= i < |b| ==> b[i] == 0
  }

  method FormatInto(str: array<u8>, ps: seq<Piece>) returns (r: nat)
    requires str.Length > 0 && forall i :: 0 <= i < str.Length ==> str[i] == 0
    requires forall i :: 0 <= i < |ps| ==> Formattable(ps[i])
    modifies str
    ensures r == |FormatText(ps)| && str[str.Length - 1] == 0
    ensures AllWhole(ps) ==> Holds(str[..], FormatText(ps))
  {
    var sink := new Sink(str, str.Length - 1);
    FormatAll(sink, ps);
    r := sink.Close();
  }

  method FormatAll(sink: Sink, ps: seq<Piece>)
    requires sink.Valid() && sink.whole && sink.total == [] && forall i :: 0 <= i < |ps| ==> Formattable(ps[i])
    modifies sink, sink.dst
    ensures sink.Valid() && sink.total == FormatText(ps) && (AllWhole(ps) ==> sink.whole)
  {
    for i := 0 to |ps|
      invariant sink.Valid() && sink.total == TextUpTo(ps, i)
      invariant AllWhole(ps) ==> sink.whole
    {
      FormatNext(sink, ps, i);
    }
  }

  method FormatNext(sink: Sink, ps: seq<Piece>, i: nat)
    requires sink.Valid() && i < |ps| && Formattable(ps[i]) && sink.total == TextUpTo(ps, i)
    modifies sink, sink.dst
    ensures sink.Valid() && sink.total == TextUpTo(ps, i + 1) && (old(sink.whole) && AllWhole(ps) ==> sink.whole)
  {
    FormatPiece(sink, ps[i]);
  }

  predicate IsAscii(s: Bytes)
  {
    forall i :: 0 <= i < |s| ==> s[i] < 0x80
  }

  lemma NumberIsAscii(neg: bool, v: nat, base: nat, cap: bool, width: nat, fill: u8)
    requires 2 <= base <= 16 && fill < 0x80
    ensures IsAscii(NumberText(neg, v, base, cap, width, fill))
  {
    NumeralInBase(v, base);
  }

  lemma PieceIsAscii(p: Piece)
    requires Formattable(p) && (p.Text? ==> IsAscii(p.bytes))
    ensures IsAscii(PieceText(p))
  {
    if !p.Text? {
      var c := ConversionOf(p);
      NumberIsAscii(c.neg, c.value, c.base, c.cap, p.width, p.fill);
    }
  }

  lemma {:induction false} FormatIsAscii(ps: seq<Piece>, n: nat)
    requires forall i :: 0 <= i < |ps| ==> Formattable(ps[i]) && (ps[i].Text? ==> IsAscii(ps[i].bytes))
    requires n <= |ps|
    ensures IsAscii(TextUpTo(ps, n))
    decreases n
  {
    if n > 0 {
      FormatIsAscii(ps, n - 1);
      PieceIsAscii(ps[n - 1]);
    }
  }

  /** For numbers and 7-bit text the destination gets exactly the first characters. */
  lemma AsciiFormat(ps: seq<Piece>, n: nat)
    requires forall i :: 0 <= i < |ps| ==> Formattable(ps[i]) && (ps[i].Text? ==> IsAscii(ps[i].bytes))
    ensures var t := FormatText(ps);
            WellFormed(t) && Truncated(t, n) == t[..if n < |t| then n else |t|]
  {
    FormatIsAscii(ps, |ps|);
    AsciiWellFormed(FormatText(ps));
    AsciiTruncated(FormatText(ps), n);
  }

  /** The digits of a formatted number denote its magnitude. */
  lemma NumberDenotes(v: nat, base: nat)
    requires 2 <= base <= 16
    ensures InBase(Numeral(v, base), base) && Value(Numeral(v, base), base) == v
    ensures Numeral(v, base) == [0] || Minimal(Numeral(v, base))
  {
    DigitsOf(v, base);
    if v == 0 { ValueSnoc([], 0, base); assert [] + [0] == [0]; }
  }
}
