/** The TLV engine of lib_tlv: a three-step loop over DER-style numbers, a handler table and
    reception flags, against the grammar of the payload. */
module Tlv {
  import opened Basics

  /** A 64-bit flag word, as the set of positions of its one bits. */
  type Flags = set<nat>

  /** What a handler receives: the tag, the value bytes and the raw bytes of the triplet. */
  datatype Item = Item(tag: nat, value: Bytes, raw: Bytes)


  /** A callback answers whether it accepts and leaves a new output state, either way. It may
      look at the reception flags. */
  type Callback<!T> = (Item, Flags, T) -> (bool, T)

  datatype Handler<!T> = Handler(tag: nat, func: Option<Callback<T>>, isUnique: bool)

  // ---------------------------------------------------------------- the grammar

  /** The big-endian number in the bytes from `i` up to `j`. */
  function BigEndian(p: Bytes, i: nat, j: nat): nat
    requires i <= j <= |p|
  {
    if i == j then 0 else BigEndian(p, i, j - 1) * 256 + p[j - 1]
  }

  /** The bytes from `i` up to `j` encode the number `v`: one byte below 128, or a count byte and
      one to four big-endian bytes (section 8.1.3 of ITU-T X.690, without asking for the shortest
      form). */
  ghost predicate IsDer(p: Bytes, i: nat, j: nat, v: nat)
  {
    && i < j <= |p|
    && (|| (j == i + 1 && p[i] == v < 0x80)
        || (i + 2 <= j <= i + 5 && p[i] == 0x80 + (j - i - 1) && v == BigEndian(p, i + 1, j)))
  }

  /** The number behind a count byte of 0x84, with its most significant byte first. */
  lemma FourByteNumber(a: u8, b: u8, c: u8, d: u8)
    ensures IsDer([0x84, a, b, c, d], 0, 5, ((a * 0x100 + b) * 0x100 + c) * 0x100 + d)
  {
    var p := [0x84, a, b, c, d];
    assert BigEndian(p, 1, 2) == a && BigEndian(p, 1, 3) == a * 0x100 + b;
    assert BigEndian(p, 1, 4) == (a * 0x100 + b) * 0x100 + c;
  }

  /** The raw bytes of an item are an encoded tag up to `a`, an encoded length up to `b`, and as
      many value bytes. */
  ghost predicate IsTriplet(it: Item, a: nat, b: nat)
  {
    && 0 < a < b <= |it.raw| <= b + 0xFFFF && it.value == it.raw[b..]
    && IsDer(it.raw, 0, a, it.tag) && IsDer(it.raw, a, b, |it.value|)
  }

  ghost predicate WellFormed(it: Item)
  {
    exists a, b :: IsTriplet(it, a, b)
  }

  /** The raw bytes of the items, one behind the other. */
  function Raw(items: seq<Item>): Bytes
  {
    if items == [] then [] else items[0].raw + Raw(items[1..])
  }

  // ---------------------------------------------------------------- reading a number

  /** A number read at an offset, and the offset behind it. */
  datatype Number = Number(v: nat, next: nat)

  function U4BE(buf: Bytes): nat
    requires |buf| == 4
  {
    buf[0] as int * 0x100_0000 + buf[1] as int * 0x1_0000 + buf[2] as int * 0x100 + buf[3]
  }

  ghost function DerAt(p: Bytes, o: nat): Option<Number>
    requires o < |p|
  {
    if p[o] < 0x80 then Some(Number(p[o], o + 1)) else
      var n := p[o] - 0x80;
      if o + 1 + n > |p| || n > 4 || n == 0 then None
      else Some(Number(BigEndian(p, o + 1, o + 1 + n), o + 1 + n))
  }

  lemma PaddedValue(p: Bytes, i: nat, j: nat)
    requires i < j <= |p| && j <= i + 4
    ensures U4BE(seq(4 - (j - i), _ => 0) + p[i..j]) == BigEndian(p, i, j)
  {
    assert j - i == 1 || j - i == 2 || j - i == 3 || j - i == 4;
    assert BigEndian(p, i, i) == 0 && BigEndian(p, i, i + 1) == p[i];
    if j - i >= 2 { assert BigEndian(p, i, i + 2) == p[i] as int * 256 + p[i + 1]; }
    if j - i >= 3 { assert BigEndian(p, i, i + 3) == BigEndian(p, i, i + 2) * 256 + p[i + 2]; }
  }

  /** Reading at an offset succeeds exactly on an encoding that starts there, and finds it. */
  lemma DerMatchesGrammar(p: Bytes, o: nat, v: nat, next: nat)
    requires o < |p|
    ensures DerAt(p, o) == Some(Number(v, next)) <==> IsDer(p, o, next, v)
  {
  }

  // ---------------------------------------------------------------- reading a triplet

  datatype Parsed = Parsed(item: Item, next: nat)

  /** Reads the triplet at an offset: the item and the offset behind it. */
  ghost function ReadTriplet(p: Bytes, o: nat): Option<Parsed>
  {
    if o >= |p| then None else
      match DerAt(p, o)
      case None => None
      case Some(Number(tag, o1)) =>
        if o1 >= |p| then None else
          match DerAt(p, o1)
          case None => None
          case Some(Number(len, o2)) =>
            if len > 0xFFFF || o2 + len > |p| then None
            else Some(Parsed(Item(tag, p[o2..o2 + len], p[o..o2 + len]), o2 + len))
  }

  lemma PrefixSlice(p: Bytes, o: nat, a: Bytes, rest: Bytes)
    requires o <= |p| && p[o..] == a + rest
    ensures o + |a| <= |p| && p[o..o + |a|] == a && p[o + |a|..] == rest
  {
    assert p[o..o + |a|] == p[o..][..|a|];
    assert p[o + |a|..] == p[o..][|a|..];
  }

  lemma TripletFromNumbers(p: Bytes, o: nat, o1: nat, o2: nat, next: nat, tag: nat)
    requires o < o1 < o2 <= next <= |p| && next - o2 <= 0xFFFF
    requires DerAt(p, o) == Some(Number(tag, o1)) && DerAt(p, o1) == Some(Number(next - o2, o2))
    ensures ReadTriplet(p, o) == Some(Parsed(Item(tag, p[o2..next], p[o..next]), next))
  {
  }

  ghost predicate StandsAt(it: Item, p: Bytes, o: nat)
  {
    o + |it.raw| <= |p| && p[o..o + |it.raw|] == it.raw
  }

  lemma {:induction false} BigEndianShift(p: Bytes, o: nat, raw: Bytes, i: nat, j: nat)
    requires i <= j <= |raw| && o + |raw| <= |p| && forall k :: 0 <= k < |raw| ==> raw[k] == p[o + k]
    ensures BigEndian(raw, i, j) == BigEndian(p, o + i, o + j)
  {
    if i < j { BigEndianShift(p, o, raw, i, j - 1); }
  }

  lemma DerShift(p: Bytes, o: nat, raw: Bytes, i: nat, j: nat, v: nat)
    requires o + |raw| <= |p| && forall k :: 0 <= k < |raw| ==> raw[k] == p[o + k]
    requires j <= |raw|
    ensures IsDer(raw, i, j, v) <==> IsDer(p, o + i, o + j, v)
  {
    if i + 1 <= j { BigEndianShift(p, o, raw, i + 1, j); }
  }

  lemma ReadCut(p: Bytes, o: nat, it: Item, a: nat, b: nat)
    requires IsTriplet(it, a, b) && StandsAt(it, p, o)
    ensures ReadTriplet(p, o) == Some(Parsed(it, o + |it.raw|))
  {
    var n := |it.raw|;
    SlicesAt(p, o, it.raw, b);
    NumbersAt(p, o, it.raw, a, b, it.tag, n - b);
    TripletFromNumbers(p, o, o + a, o + b, o + n, it.tag);
  }

  lemma SlicesAt(p: Bytes, o: nat, raw: Bytes, b: nat)
    requires o + |raw| <= |p| && p[o..o + |raw|] == raw && b <= |raw|
    ensures p[o + b..o + |raw|] == raw[b..]
    ensures forall k :: 0 <= k < |raw| ==> raw[k] == p[o + k]
  {
  }

  lemma NumbersAt(p: Bytes, o: nat, raw: Bytes, a: nat, b: nat, tag: nat, len: nat)
    requires o + |raw| <= |p| && (forall k :: 0 <= k < |raw| ==> raw[k] == p[o + k])
    requires a < b <= |raw| && IsDer(raw, 0, a, tag) && IsDer(raw, a, b, len)
    ensures DerAt(p, o) == Some(Number(tag, o + a)) && DerAt(p, o + a) == Some(Number(len, o + b))
  {
    DerShift(p, o, raw, 0, a, tag);
    DerShift(p, o, raw, a, b, len);
    DerMatchesGrammar(p, o, tag, o + a);
    DerMatchesGrammar(p, o + a, len, o + b);
  }

  /** A triplet of the grammar at an offset is the one the engine reads there. */
  lemma ReadComplete(p: Bytes, o: nat, it: Item)
    requires WellFormed(it) && StandsAt(it, p, o)
    ensures ReadTriplet(p, o) == Some(Parsed(it, o + |it.raw|))
  {
    var a: nat, b: nat :| IsTriplet(it, a, b);
    ReadCut(p, o, it, a, b);
  }

  /** What the engine reads at an offset is a triplet of the grammar that stands there. */
  lemma ReadSound(p: Bytes, o: nat)
    requires ReadTriplet(p, o).Some?
    ensures var Parsed(it, next) := ReadTriplet(p, o).value;
            WellFormed(it) && o < next <= |p| && it.raw == p[o..next]
  {
    var Parsed(it, next) := ReadTriplet(p, o).value;
    var o1 := DerAt(p, o).value.next;
    var o2 := DerAt(p, o1).value.next;
    DerMatchesGrammar(p, o, it.tag, o1);
    DerMatchesGrammar(p, o1, |it.value|, o2);
    assert forall k :: 0 <= k < |it.raw| ==> it.raw[k] == p[o + k];
    DerShift(p, o, it.raw, 0, o1 - o, it.tag);
    DerShift(p, o, it.raw, o1 - o, o2 - o, |it.value|);
    assert it.raw[o2 - o..] == p[o2..next];
    assert IsTriplet(it, o1 - o, o2 - o);
  }

  // ---------------------------------------------------------------- splitting a payload

  /** Anything that reads one item at an offset, and any notion of a good item. */
  type Reader = (Bytes, nat) -> Option<Parsed>
  type Grammar = Item -> bool

  ghost predicate AllGood(good: Grammar, items: seq<Item>)
  {
    forall i :: 0 <= i < |items| ==> good(items[i])
  }

  ghost predicate Advances(read: Reader, p: Bytes)
  {
    forall o: nat {:trigger read(p, o)} :: read(p, o).Some? ==> o < read(p, o).value.next <= |p|
  }

  /** The reader reads exactly the good items. */
  ghost predicate Reads(read: Reader, good: Grammar, p: Bytes)
  {
    && Advances(read, p)
    && (forall o: nat {:trigger read(p, o)} :: read(p, o).Some? ==>
          good(read(p, o).value.item) && read(p, o).value.item.raw == p[o..read(p, o).value.next])
    && (forall o: nat, it {:trigger StandsAt(it, p, o)} :: good(it) && StandsAt(it, p, o) ==>
          read(p, o) == Some(Parsed(it, o + |it.raw|)))
  }

  lemma EngineReadsGrammar(p: Bytes)
    ensures Reads(ReadTriplet, WellFormed, p)
  {
    forall o: nat | ReadTriplet(p, o).Some?
      ensures o < ReadTriplet(p, o).value.next <= |p| && WellFormed(ReadTriplet(p, o).value.item)
      ensures ReadTriplet(p, o).value.item.raw == p[o..ReadTriplet(p, o).value.next]
    {
      ReadSound(p, o);
    }
    forall o: nat, it | WellFormed(it) && StandsAt(it, p, o) ensures ReadTriplet(p, o) == Some(Parsed(it, o + |it.raw|)) {
      ReadComplete(p, o, it);
    }
  }

  ghost function Split(read: Reader, p: Bytes, o: nat): Option<seq<Item>>
    requires o <= |p| && Advances(read, p)
    decreases |p| - o
  {
    if o == |p| then Some([]) else
      match read(p, o)
      case None => None
      case Some(Parsed(it, next)) =>
        match Split(read, p, next)
        case None => None
        case Some(rest) => Some([it] + rest)
  }

  lemma {:induction false} SplitComplete(read: Reader, good: Grammar, p: Bytes, o: nat, items: seq<Item>)
    requires o <= |p| && Reads(read, good, p) && AllGood(good, items) && Raw(items) == p[o..]
    ensures Split(read, p, o) == Some(items)
    decreases |items|
  {
    if items != [] {
      var it, rest := items[0], items[1..];
      PrefixSlice(p, o, it.raw, Raw(rest));
      assert StandsAt(it, p, o);
      SplitComplete(read, good, p, o + |it.raw|, rest);
      assert items == [it] + rest;
    }
  }

  lemma {:induction false} SplitSound(read: Reader, good: Grammar, p: Bytes, o: nat)
    requires o <= |p| && Reads(read, good, p) && Split(read, p, o).Some?
    ensures AllGood(good, Split(read, p, o).value) && Raw(Split(read, p, o).value) == p[o..]
    decreases |p| - o
  {
    if o < |p| {
      var Parsed(it, next) := read(p, o).value;
      SplitSound(read, good, p, next);
      assert Split(read, p, o).value[1..] == Split(read, p, next).value;
      assert p[o..] == p[o..next] + p[next..];
    }
  }

  /** A payload has at most one split into triplets, and reading one by one finds it. */
  lemma SplitIsGrammar(p: Bytes, items: seq<Item>)
    ensures Advances(ReadTriplet, p)
    ensures Split(ReadTriplet, p, 0) == Some(items) <==> AllGood(WellFormed, items) && Raw(items) == p
  {
    assert p[0..] == p;
    EngineReadsGrammar(p);
    if Split(ReadTriplet, p, 0) == Some(items) { SplitSound(ReadTriplet, WellFormed, p, 0); }
    if AllGood(WellFormed, items) && Raw(items) == p { SplitComplete(ReadTriplet, WellFormed, p, 0, items); }
  }

  // ---------------------------------------------------------------- handling the items

  /** Output, reception flags and the items that were handed to callbacks so far. */
  datatype State<T> = State(out: T, flags: Flags, calls: seq<Item>)

  datatype Verdict<T> = Accepted(state: State<T>) | Rejected(state: State<T>)

  /** A parser: the table, the optional common callback and the map from tags to flags. */
  datatype Config<!T> = Config(handlers: seq<Handler<T>>, common: Option<Callback<T>>, flagOf: nat -> Flags)

  function Find<T>(handlers: seq<Handler<T>>, tag: nat): (i: nat)
    ensures i <= |handlers| && (i < |handlers| ==> handlers[i].tag == tag)
    ensures forall k :: 0 <= k < i ==> handlers[k].tag != tag
  {
    if handlers == [] || handlers[0].tag == tag then 0 else
      var i := Find(handlers[1..], tag);
      assert forall k :: 1 <= k < 1 + i ==> handlers[k] == handlers[1..][k - 1];
      1 + i
  }

  function Call<T>(f: Option<Callback<T>>, it: Item, flags: Flags, out: T): (bool, T)
  {
    if f.None? then (true, out) else f.value(it, flags, out)
  }

  /** What becomes of one item: lookup, uniqueness, common callback, own callback, flag. */
  function Apply<T>(c: Config<T>, it: Item, s: State<T>): Verdict<T>
  {
    var i := Find(c.handlers, it.tag);
    if i == |c.handlers| then Rejected(s) else
      var h, flag := c.handlers[i], c.flagOf(it.tag);
      if h.isUnique && flag <= s.flags then Rejected(s) else
        var (ok1, out1) := Call(c.common, it, s.flags, s.out);
        if !ok1 then Rejected(State(out1, s.flags, s.calls + [it])) else
          var (ok2, out2) := Call(h.func, it, s.flags, out1);
          if !ok2 then Rejected(State(out2, s.flags, s.calls + [it]))
          else Accepted(State(out2, s.flags + flag, s.calls + [it]))
  }

  function Fold<T>(c: Config<T>, items: seq<Item>, s: State<T>): Verdict<T>
  {
    if items == [] then Accepted(s) else
      match Apply(c, items[0], s)
      case Accepted(s1) => Fold(c, items[1..], s1)
      case Rejected(s1) => Rejected(s1)
  }

  /** Reading and handling item by item, as the engine does. */
  ghost function Run<T>(read: Reader, c: Config<T>, p: Bytes, o: nat, s: State<T>): Verdict<T>
    requires o <= |p| && Advances(read, p)
    decreases |p| - o
  {
    if o == |p| then Accepted(s) else
      match read(p, o)
      case None => Rejected(s)
      case Some(Parsed(it, next)) =>
        match Apply(c, it, s)
        case Accepted(s1) => Run(read, c, p, next, s1)
        case Rejected(s1) => Rejected(s1)
  }

  lemma {:induction false} RunIsFold<T>(read: Reader, c: Config<T>, p: Bytes, o: nat, s: State<T>)
    requires o <= |p| && Advances(read, p)
    ensures Split(read, p, o).Some? ==> Run(read, c, p, o, s) == Fold(c, Split(read, p, o).value, s)
    ensures Split(read, p, o).None? ==> Run(read, c, p, o, s).Rejected?
    decreases |p| - o
  {
    if o < |p| && read(p, o).Some? {
      var Parsed(it, next) := read(p, o).value;
      var v := Apply(c, it, s);
      if v.Accepted? { RunIsFold(read, c, p, next, v.state); }
      if Split(read, p, o).Some? {
        assert Split(read, p, o).value[0] == it && Split(read, p, o).value[1..] == Split(read, p, next).value;
      }
    }
  }

  /** The outcome of the engine on a payload, from an initial output state. */
  ghost function Outcome<T>(c: Config<T>, p: Bytes, out: T): Verdict<T>
  {
    ReadAdvances(p);
    Run(ReadTriplet, c, p, 0, State(out, {}, []))
  }

  lemma ReadAdvances(p: Bytes)
    ensures Advances(ReadTriplet, p)
  {
    EngineReadsGrammar(p);
  }

  /** The engine accepts a payload exactly when it is a sequence of triplets that the handlers
      accept in order. */
  lemma AcceptedIffGrammar<T>(c: Config<T>, p: Bytes, out: T, s': State<T>)
    ensures Outcome(c, p, out) == Accepted(s') <==>
              exists items :: AllGood(WellFormed, items) && Raw(items) == p && Fold(c, items, State(out, {}, [])) == Accepted(s')
  {
    ReadAdvances(p);
    RunIsFold(ReadTriplet, c, p, 0, State(out, {}, []));
    if Split(ReadTriplet, p, 0).Some? { SplitIsGrammar(p, Split(ReadTriplet, p, 0).value); }
    forall items | AllGood(WellFormed, items) && Raw(items) == p ensures Split(ReadTriplet, p, 0) == Some(items) {
      SplitIsGrammar(p, items);
    }
  }

  // ---------------------------------------------------------------- the engine

  /** get_der_value_as_uint32: reads a number and advances the offset. */
  method GetDerU32(p: Bytes, offset: nat) returns (ok: bool, next: nat, v: nat)
    requires offset < |p|
    ensures ok == DerAt(p, offset).Some? && (ok ==> DerAt(p, offset) == Some(Number(v, next)))
  {
    next, v := offset, 0;
    if p[offset] >= 0x80 {
      var byteLength := p[offset] - 0x80;
      next := next + 1;
      if next + byteLength > |p| {
        return false, next, v;
      }
      if byteLength > 4 || byteLength == 0 {
        return false, next, v;
      }
      var buf: Bytes := seq(4 - byteLength, _ => 0);
      buf := buf + p[next..next + byteLength];
      v := U4BE(buf);
      PaddedValue(p, next, next + byteLength);
      next := next + byteLength;
      return true, next, v;
    }
    return true, next + 1, p[offset];
  }

  /** get_der_value_as_uint16: the same, refusing numbers above 16 bits. */
  method GetDerU16(p: Bytes, offset: nat) returns (ok: bool, next: nat, v: nat)
    requires offset < |p|
    ensures ok == (DerAt(p, offset).Some? && DerAt(p, offset).value.v <= 0xFFFF)
    ensures ok ==> DerAt(p, offset) == Some(Number(v, next))
  {
    ok, next, v := GetDerU32(p, offset);
    if ok && v > 0xFFFF {
      ok := false;
    }
  }

  method FindHandler<T>(handlers: seq<Handler<T>>, tag: nat) returns (idx: nat)
    ensures idx == Find(handlers, tag)
  {
    idx := 0;
    while idx < |handlers|
      invariant idx <= |handlers| && forall k :: 0 <= k < idx ==> handlers[k].tag != tag
    {
      if handlers[idx].tag == tag {
        return;
      }
      idx := idx + 1;
    }
  }

  datatype Step = TAG | LENGTH | VALUE

  /** What the engine knows about the triplet it is in the middle of. */
  ghost predicate Progress(p: Bytes, step: Step, start: nat, offset: nat, tag: nat, size: nat)
  {
    && start <= offset <= |p|
    && match step
       case TAG => start == offset
       case LENGTH => start < |p| && DerAt(p, start) == Some(Number(tag, offset))
       case VALUE =>
         && start < |p| && DerAt(p, start).Some? && DerAt(p, start).value.v == tag && size <= 0xFFFF
         && DerAt(p, start).value.next < |p| && DerAt(p, DerAt(p, start).value.next) == Some(Number(size, offset))
  }

  lemma TripletFromSteps(p: Bytes, start: nat, offset: nat, tag: nat, size: nat)
    requires Progress(p, VALUE, start, offset, tag, size) && offset + size <= |p|
    ensures start < offset + size
    ensures ReadTriplet(p, start) == Some(Parsed(Item(tag, p[offset..offset + size], p[start..offset + size]), offset + size))
  {
  }

  /** The failures of the engine, step by step: nothing is handed out any more. */
  lemma TagFails<T>(c: Config<T>, p: Bytes, start: nat, s: State<T>)
    requires start < |p| && Advances(ReadTriplet, p)
    requires DerAt(p, start).Some? ==> Find(c.handlers, DerAt(p, start).value.v) == |c.handlers|
    ensures Run(ReadTriplet, c, p, start, s) == Rejected(s)
  {
  }

  lemma LengthFails<T>(c: Config<T>, p: Bytes, start: nat, offset: nat, tag: nat, s: State<T>)
    requires Progress(p, LENGTH, start, offset, tag, 0) && Advances(ReadTriplet, p)
    requires offset < |p| && DerAt(p, offset).Some? ==> DerAt(p, offset).value.v > 0xFFFF
    ensures Run(ReadTriplet, c, p, start, s) == Rejected(s)
  {
  }

  lemma ValueFails<T>(c: Config<T>, p: Bytes, start: nat, offset: nat, tag: nat, size: nat, s: State<T>)
    requires Progress(p, VALUE, start, offset, tag, size) && Advances(ReadTriplet, p) && offset + size > |p|
    ensures Run(ReadTriplet, c, p, start, s) == Rejected(s)
  {
  }

  lemma RunHandles<T>(read: Reader, c: Config<T>, p: Bytes, start: nat, s: State<T>, it: Item, next: nat)
    requires Advances(read, p) && start < next <= |p| && read(p, start) == Some(Parsed(it, next))
    ensures Run(read, c, p, start, s) ==
              match Apply(c, it, s)
              case Accepted(s1) => Run(read, c, p, next, s1)
              case Rejected(s1) => Rejected(s1)
  {
  }

  /** The TAG step: a number that one of the handlers is for. */
  method TagStep<T>(c: Config<T>, p: Bytes, start: nat, ghost s: State<T>)
    returns (ok: bool, offset: nat, tag: nat, handler: nat)
    requires start < |p| && Advances(ReadTriplet, p)
    ensures if ok then Progress(p, LENGTH, start, offset, tag, 0) && start < offset && handler == Find(c.handlers, tag) < |c.handlers|
            else Run(ReadTriplet, c, p, start, s) == Rejected(s)
  {
    handler := 0;
    ok, offset, tag := GetDerU32(p, start);
    if ok {
      handler := FindHandler(c.handlers, tag);
      ok := handler != |c.handlers|;
    }
    if !ok {
      TagFails(c, p, start, s);
    }
  }

  /** The LENGTH step: a number of at most 16 bits. */
  method LengthStep<T>(ghost c: Config<T>, p: Bytes, ghost start: nat, at: nat, ghost tag: nat, ghost s: State<T>)
    returns (ok: bool, offset: nat, size: nat)
    requires Progress(p, LENGTH, start, at, tag, 0) && at < |p| && Advances(ReadTriplet, p)
    ensures if ok then Progress(p, VALUE, start, offset, tag, size) && at < offset
            else Run(ReadTriplet, c, p, start, s) == Rejected(s)
  {
    ok, offset, size := GetDerU16(p, at);
    if !ok {
      LengthFails(c, p, start, at, tag, s);
    }
  }

  /** The VALUE step: the bytes of the value are there, and the item is handled. */
  method ValueStep<T>(c: Config<T>, p: Bytes, start: nat, at: nat, tag: nat, size: nat, handler: nat, s: State<T>)
    returns (ok: bool, offset: nat, s': State<T>)
    requires Progress(p, VALUE, start, at, tag, size) && Advances(ReadTriplet, p)
    requires handler == Find(c.handlers, tag) < |c.handlers|
    ensures if ok then offset == at + size <= |p| && Run(ReadTriplet, c, p, start, s) == Run(ReadTriplet, c, p, offset, s')
            else Run(ReadTriplet, c, p, start, s) == Rejected(s')
  {
    offset := at;
    if offset + size > |p| {
      ValueFails(c, p, start, offset, tag, size, s);
      return false, offset, s;
    }
    TripletFromSteps(p, start, offset, tag, size);
    var item := Item(tag, p[offset..offset + size], p[start..offset + size]);
    offset := offset + size;
    RunHandles(ReadTriplet, c, p, start, s, item, offset);
    ok, s' := HandleItem(c, handler, item, s);
  }

  /** _parse_tlv_internal: the loop over the steps TAG, LENGTH and VALUE. */
  method Parse<T>(c: Config<T>, p: Bytes, out: T) returns (ok: bool, s: State<T>)
    ensures Outcome(c, p, out) == if ok then Accepted(s) else Rejected(s)
  {
    ReadAdvances(p);
    s := State(out, {}, []);
    var step := TAG;
    var offset: nat, start: nat, tag: nat, size: nat, handler: nat := 0, 0, 0, 0, 0;
    while offset < |p| || (step == VALUE && size == 0)
      invariant Progress(p, step, start, offset, tag, size)
      invariant step != TAG ==> handler == Find(c.handlers, tag) < |c.handlers|
      invariant Outcome(c, p, out) == Run(ReadTriplet, c, p, start, s)
      decreases |p| - offset, step == VALUE
    {
      match step {
        case TAG =>
          start := offset;
          ok, offset, tag, handler := TagStep(c, p, offset, s);
          if !ok {
            return;
          }
          step := LENGTH;
        case LENGTH =>
          ok, offset, size := LengthStep(c, p, start, offset, tag, s);
          if !ok {
            return;
          }
          step := VALUE;
        case VALUE =>
          ok, offset, s := ValueStep(c, p, start, offset, tag, size, handler, s);
          if !ok {
            return;
          }
          start, step := offset, TAG;
      }
    }
    if step != TAG {
      if step == LENGTH {
        LengthFails(c, p, start, offset, tag, s);
      } else {
        ValueFails(c, p, start, offset, tag, size, s);
      }
      return false, s;
    }
    if offset != |p| { assert false; }
    return true, s;
  }

  /** The tail of the VALUE step: uniqueness, common callback, own callback, flag. */
  method HandleItem<T>(c: Config<T>, handler: nat, it: Item, s: State<T>) returns (ok: bool, s': State<T>)
    requires handler == Find(c.handlers, it.tag) < |c.handlers|
    ensures Apply(c, it, s) == if ok then Accepted(s') else Rejected(s')
  {
    var h, flag := c.handlers[handler], c.flagOf(it.tag);
    if h.isUnique && s.flags * flag == flag {
      return false, s;
    }
    s' := s.(calls := s.calls + [it]);
    if c.common.Some? {
      var r := c.common.value(it, s.flags, s.out);
      s' := s'.(out := r.1);
      if !r.0 {
        return false, s';
      }
    }
    if h.func.Some? {
      var r := h.func.value(it, s.flags, s'.out);
      s' := s'.(out := r.1);
      if !r.0 {
        return false, s';
      }
    }
    return true, s'.(flags := s.flags + flag);
  }

  // ---------------------------------------------------------------- generated parsers

  /** A parser made by DEFINE_TLV_PARSER: at most 64 distinct tags, the i-th with flag 1 << i. */
  ghost predicate Generated<T>(c: Config<T>)
  {
    && |c.handlers| <= 64
    && (forall i, j :: 0 <= i < j < |c.handlers| ==> c.handlers[i].tag != c.handlers[j].tag)
    && (forall t :: c.flagOf(t) == if Find(c.handlers, t) < |c.handlers| then {Find(c.handlers, t)} else {})
  }

  ghost predicate Occurs(items: seq<Item>, tag: nat)
  {
    exists k :: 0 <= k < |items| && items[k].tag == tag
  }

  ghost predicate UniqueTag<T>(c: Config<T>, tag: nat)
  {
    Find(c.handlers, tag) < |c.handlers| && c.handlers[Find(c.handlers, tag)].isUnique
  }

  /** No callback has been given a unique tag twice. */
  ghost predicate NoRepeat<T>(c: Config<T>, calls: seq<Item>)
  {
    forall j, k :: 0 <= j < k < |calls| && calls[j].tag == calls[k].tag ==> !UniqueTag(c, calls[j].tag)
  }

  /** The flags are those of the tags handed out. */
  ghost predicate FlagsMatch<T>(c: Config<T>, s: State<T>)
  {
    && (forall i :: i in s.flags ==> i < |c.handlers|)
    && (forall i :: 0 <= i < |c.handlers| ==> (i in s.flags <==> Occurs(s.calls, c.handlers[i].tag)))
  }

  lemma FindDistinct<T>(c: Config<T>, i: nat)
    requires Generated(c) && i < |c.handlers|
    ensures Find(c.handlers, c.handlers[i].tag) == i
  {
  }

  lemma OccursSnoc(calls: seq<Item>, it: Item, tag: nat)
    ensures Occurs(calls + [it], tag) <==> Occurs(calls, tag) || it.tag == tag
  {
    if it.tag == tag { assert (calls + [it])[|calls|].tag == tag; }
    if Occurs(calls, tag) {
      var k :| 0 <= k < |calls| && calls[k].tag == tag;
      assert (calls + [it])[k].tag == tag;
    }
  }

  lemma ApplyKeeps<T>(c: Config<T>, it: Item, s: State<T>)
    requires Generated(c) && FlagsMatch(c, s) && NoRepeat(c, s.calls)
    ensures NoRepeat(c, Apply(c, it, s).state.calls)
    ensures Apply(c, it, s).Accepted? ==>
              FlagsMatch(c, Apply(c, it, s).state) && Apply(c, it, s).state.calls == s.calls + [it]
  {
    var i := Find(c.handlers, it.tag);
    if i < |c.handlers| && !(c.handlers[i].isUnique && {i} <= s.flags) {
      forall k | 0 <= k < |c.handlers|
        ensures k in s.flags + {i} <==> Occurs(s.calls + [it], c.handlers[k].tag)
      {
        OccursSnoc(s.calls, it, c.handlers[k].tag);
        FindDistinct(c, k);
      }
    }
  }

  lemma HeadMoved(calls: seq<Item>, items: seq<Item>)
    requires items != []
    ensures calls + [items[0]] + items[1..] == calls + items
  {
  }

  lemma {:induction false} FoldKeeps<T>(c: Config<T>, items: seq<Item>, s: State<T>)
    requires Generated(c) && FlagsMatch(c, s) && NoRepeat(c, s.calls)
    ensures NoRepeat(c, Fold(c, items, s).state.calls)
    ensures Fold(c, items, s).Accepted? ==>
              FlagsMatch(c, Fold(c, items, s).state) && Fold(c, items, s).state.calls == s.calls + items
  {
    if items == [] {
      assert s.calls + items == s.calls;
    } else {
      ApplyKeeps(c, items[0], s);
      var v := Apply(c, items[0], s);
      if v.Accepted? {
        FoldKeeps(c, items[1..], v.state);
        HeadMoved(s.calls, items);
      }
    }
  }

  lemma {:induction false} RunKeeps<T>(read: Reader, c: Config<T>, p: Bytes, o: nat, s: State<T>)
    requires Generated(c) && o <= |p| && Advances(read, p) && FlagsMatch(c, s) && NoRepeat(c, s.calls)
    ensures NoRepeat(c, Run(read, c, p, o, s).state.calls)
    decreases |p| - o
  {
    if o < |p| && read(p, o).Some? {
      var Parsed(it, next) := read(p, o).value;
      ApplyKeeps(c, it, s);
      if Apply(c, it, s).Accepted? { RunKeeps(read, c, p, next, Apply(c, it, s).state); }
    }
  }

  /** Whatever the payload, no callback sees a unique tag twice; on success the items handed out
      are the triplets of the payload, each once and in order, their raw slices make up the whole
      payload, and the flags are exactly those of the tags that occurred. */
  lemma GeneratedParser<T>(c: Config<T>, p: Bytes, out: T)
    requires Generated(c)
    ensures NoRepeat(c, Outcome(c, p, out).state.calls)
    ensures Outcome(c, p, out).Accepted? ==>
              var s := Outcome(c, p, out).state;
              FlagsMatch(c, s) && Raw(s.calls) == p && AllGood(WellFormed, s.calls)
  {
    var s := State(out, {}, []);
    ReadAdvances(p);
    RunKeeps(ReadTriplet, c, p, 0, s);
    RunIsFold(ReadTriplet, c, p, 0, s);
    if Split(ReadTriplet, p, 0).Some? {
      var items := Split(ReadTriplet, p, 0).value;
      SplitIsGrammar(p, items);
      FoldKeeps(c, items, s);
      assert s.calls + items == items;
    }
  }

  /** tlv_check_received_tags. */
  method CheckReceivedTags(flagOf: nat -> Flags, flags: Flags, tags: seq<nat>) returns (ok: bool)
    ensures ok <==> forall i :: 0 <= i < |tags| ==> flagOf(tags[i]) != {} && flagOf(tags[i]) <= flags
  {
    for i := 0 to |tags|
      invariant forall k :: 0 <= k < i ==> flagOf(tags[k]) != {} && flagOf(tags[k]) <= flags
    {
      var flag := flagOf(tags[i]);
      if flag == {} {
        return false;
      }
      if flags * flag != flag {
        assert !(flag <= flags);
        return false;
      }
    }
    return true;
  }

  /** After a success the check answers whether every listed tag is known and occurred. */
  lemma ReceivedMeansOccurred<T>(c: Config<T>, s: State<T>, tag: nat)
    requires Generated(c) && FlagsMatch(c, s)
    ensures c.flagOf(tag) != {} && c.flagOf(tag) <= s.flags <==>
              Find(c.handlers, tag) < |c.handlers| && Occurs(s.calls, tag)
  {
  }

  // ---------------------------------------------------------------- install_params.py

  /** encodelv; None where it raises. */
  function EncodeLv(value: Bytes): Option<Bytes>
  {
    var n := |value|;
    if n < 128 then Some([n] + value)
    else if n < 256 then Some([0x81, n] + value)
    else if n < 65536 then Some([0x82, n / 256, n % 256] + value)
    else None
  }

  function EncodeTlv(tag: u8, value: Bytes): Option<Bytes>
  {
    match EncodeLv(value)
    case None => None
    case Some(lv) => Some([tag] + lv)
  }

  function LengthBytes(n: nat): Bytes
    requires n < 65536
  {
    if n < 128 then [n] else if n < 256 then [0x81, n] else [0x82, n / 256, n % 256]
  }

  lemma LengthIsDer(n: nat)
    requires n < 65536
    ensures IsDer(LengthBytes(n), 0, |LengthBytes(n)|, n)
  {
    var len := LengthBytes(n);
    if 128 <= n {
      assert BigEndian(len, 1, 1) == 0 && BigEndian(len, 1, 2) == len[1];
    }
  }

  datatype Param = Param(tag: u8, value: Bytes)

  ghost predicate Encodable(params: seq<Param>)
  {
    forall i :: 0 <= i < |params| ==> params[i].tag < 128 && |params[i].value| < 65536
  }

  /** The install parameters: encodetlv outputs one behind the other. */
  function Serialized(params: seq<Param>): Bytes
  {
    if params == [] then [] else
      (match EncodeTlv(params[0].tag, params[0].value)
       case None => []
       case Some(raw) => raw) + Serialized(params[1..])
  }

  /** An encodetlv output with a tag below 128 is a triplet with that tag and value. */
  lemma EncodedIsTriplet(p: Param)
    requires p.tag < 128 && |p.value| < 65536
    ensures EncodeTlv(p.tag, p.value).Some? && WellFormed(Item(p.tag, p.value, EncodeTlv(p.tag, p.value).value))
  {
    var len := LengthBytes(|p.value|);
    LengthIsDer(|p.value|);
    EncodedForm(p.tag, p.value);
    FormIsTriplet(p.tag, len, p.value);
    assert IsTriplet(Item(p.tag, p.value, [p.tag] + (len + p.value)), 1, 1 + |len|);
  }

  lemma EncodedForm(tag: u8, value: Bytes)
    requires tag < 128 && |value| < 65536
    ensures EncodeTlv(tag, value) == Some([tag] + (LengthBytes(|value|) + value))
  {
  }

  lemma FormIsTriplet(tag: u8, len: Bytes, value: Bytes)
    requires tag < 128 && |value| < 65536 && IsDer(len, 0, |len|, |value|)
    ensures IsTriplet(Item(tag, value, [tag] + (len + value)), 1, 1 + |len|)
  {
    var raw := [tag] + (len + value);
    FormSlices(tag, len, value);
    DerShift(raw, 1, len, 0, |len|, |value|);
    assert IsDer(raw, 0, 1, tag);
  }

  lemma FormSlices(tag: u8, len: Bytes, value: Bytes)
    ensures var raw := [tag] + (len + value);
            && |raw| == 1 + |len| + |value| && raw[0] == tag && raw[1 + |len|..] == value
            && forall k :: 0 <= k < |len| ==> len[k] == raw[1 + k]
  {
  }

  ghost predicate SameParams(items: seq<Item>, params: seq<Param>)
  {
    |items| == |params| &&
    forall i :: 0 <= i < |params| ==> items[i].tag == params[i].tag && items[i].value == params[i].value
  }

  lemma {:induction false} SerializedItems(params: seq<Param>) returns (items: seq<Item>)
    requires Encodable(params)
    ensures AllGood(WellFormed, items) && Raw(items) == Serialized(params) && SameParams(items, params)
  {
    if params == [] {
      items := [];
    } else {
      var p := params[0];
      EncodedIsTriplet(p);
      var rest := SerializedItems(params[1..]);
      items := [Item(p.tag, p.value, EncodeTlv(p.tag, p.value).value)] + rest;
      assert items[1..] == rest;
    }
  }

  /** Parsing install parameters gives the same tags and values back, in the same order. */
  lemma SerializedSplits(params: seq<Param>) returns (items: seq<Item>)
    requires Encodable(params)
    ensures Advances(ReadTriplet, Serialized(params)) && Split(ReadTriplet, Serialized(params), 0) == Some(items)
    ensures SameParams(items, params)
  {
    items := SerializedItems(params);
    SplitIsGrammar(Serialized(params), items);
  }

  /** No callback ever refuses an item. */
  ghost predicate Lenient<T(!new)>(c: Config<T>)
  {
    && (forall it, flags, out :: Call(c.common, it, flags, out).0)
    && (forall i :: 0 <= i < |c.handlers| ==> forall it, flags, out :: Call(c.handlers[i].func, it, flags, out).0)
  }

  ghost predicate AllKnown<T>(c: Config<T>, items: seq<Item>)
  {
    forall i :: 0 <= i < |items| ==> Find(c.handlers, items[i].tag) < |c.handlers|
  }

  lemma ApplyAccepts<T(!new)>(c: Config<T>, it: Item, s: State<T>)
    requires Generated(c) && Lenient(c) && FlagsMatch(c, s) && NoRepeat(c, s.calls + [it])
    requires Find(c.handlers, it.tag) < |c.handlers|
    ensures Apply(c, it, s).Accepted?
  {
    var calls := s.calls + [it];
    assert calls[|s.calls|] == it && forall k :: 0 <= k < |s.calls| ==> calls[k] == s.calls[k];
  }

  lemma {:induction false} FoldAccepts<T(!new)>(c: Config<T>, items: seq<Item>, s: State<T>)
    requires Generated(c) && Lenient(c) && FlagsMatch(c, s) && AllKnown(c, items) && NoRepeat(c, s.calls + items)
    ensures Fold(c, items, s).Accepted? && Fold(c, items, s).state.calls == s.calls + items
  {
    if items == [] {
      assert s.calls + items == s.calls;
    } else {
      var it, rest := items[0], items[1..];
      assert s.calls + items == s.calls + [it] + rest;
      NoRepeatPrefix(c, s.calls + [it], rest);
      NoRepeatPrefix(c, s.calls, [it]);
      ApplyAccepts(c, it, s);
      ApplyKeeps(c, it, s);
      FoldAccepts(c, rest, Apply(c, it, s).state);
    }
  }

  lemma NoRepeatPrefix<T>(c: Config<T>, a: seq<Item>, b: seq<Item>)
    requires NoRepeat(c, a + b)
    ensures NoRepeat(c, a)
  {
    assert forall k :: 0 <= k < |a| ==> a[k] == (a + b)[k];
  }

  ghost predicate NoRepeatedParam<T>(c: Config<T>, params: seq<Param>)
  {
    forall j, k :: 0 <= j < k < |params| && params[j].tag == params[k].tag ==> !UniqueTag(c, params[j].tag)
  }

  /** The install parameters go through any generated parser that knows their tags: it accepts
      them and hands out exactly the same tags and values. */
  lemma SerializedAccepted<T(!new)>(c: Config<T>, params: seq<Param>, out: T)
    requires Generated(c) && Lenient(c) && Encodable(params) && NoRepeatedParam(c, params)
    requires forall i :: 0 <= i < |params| ==> Find(c.handlers, params[i].tag) < |c.handlers|
    ensures Outcome(c, Serialized(params), out).Accepted?
    ensures SameParams(Outcome(c, Serialized(params), out).state.calls, params)
  {
    var items := SerializedItems(params);
    ParamsFold(c, params, items, out);
    AcceptedIffGrammar(c, Serialized(params), out, Fold(c, items, State(out, {}, [])).state);
  }

  lemma ParamsFold<T(!new)>(c: Config<T>, params: seq<Param>, items: seq<Item>, out: T)
    requires Generated(c) && Lenient(c) && NoRepeatedParam(c, params) && SameParams(items, params)
    requires forall i :: 0 <= i < |params| ==> Find(c.handlers, params[i].tag) < |c.handlers|
    ensures Fold(c, items, State(out, {}, [])).Accepted? && Fold(c, items, State(out, {}, [])).state.calls == items
  {
    var s := State(out, {}, []);
    assert s.calls + items == items;
    FoldAccepts(c, items, s);
  }
}
