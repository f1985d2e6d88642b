/**
 * BIP32 derivation paths: their text form, their text parser and their binary reader,
 * which live in three files and undo one another.
 */
module Bip32 {
  import opened Basics
  import opened Radix
  import opened Utf8
  import opened Printf

  const MAX_BIP32_PATH: nat := 10
  const HARDENED: nat := 0x8000_0000
  const WILDCARD: nat := 0x7fff_ffff
  const SLASH: u8 := 0x2F
  const QUOTE: u8 := 0x27
  const STAR: u8 := 0x2A
  const PLUS: u8 := 0x2B
  const UNDERSCORE: u8 := 0x5F

  // ---- The text of a path -------------------------------------------------------------

  /** The digits of v, without leading zeros. */
  function Decimal(v: nat): (s: Bytes)
    ensures s != []
  {
    if v < 10 then [0x30 + v] else Decimal(v / 10) + [0x30 + v % 10]
  }

  function NumberPart(e: u32): Bytes {
    Decimal(e % HARDENED)
  }

  function ElementText(e: u32): Bytes {
    NumberPart(e) + if e >= HARDENED then [QUOTE] else []
  }

  /** The texts from i on, with a slash between neighbours. */
  function JoinFrom(xs: seq<Bytes>, i: nat): Bytes
    requires i <= |xs|
    decreases |xs| - i
  {
    if i == |xs| then []
    else if i + 1 == |xs| then xs[i]
    else xs[i] + ([SLASH] + JoinFrom(xs, i + 1))
  }

  function Texts(path: seq<u32>): (xs: seq<Bytes>)
    ensures |xs| == |path|
    ensures forall i :: 0 <= i < |path| ==> xs[i] == ElementText(path[i])
  {
    seq(|path|, i requires 0 <= i < |path| => ElementText(path[i]))
  }

  function PathText(path: seq<u32>): Bytes {
    JoinFrom(Texts(path), 0)
  }

  /** The part of the text that is printed last: the closing quote, or the last number. */
  function LastPart(path: seq<u32>): Bytes
    requires path != []
  {
    var e := path[|path| - 1];
    if e >= HARDENED then [QUOTE] else NumberPart(e)
  }

  predicate IsDigit(c: u8) {
    0x30 <= c <= 0x39
  }

  predicate AllDigits(s: Bytes) {
    forall i :: 0 <= i < |s| ==> IsDigit(s[i])
  }

  /** The number that the digits of s denote; other characters are skipped. */
  function DecimalValue(s: Bytes): nat {
    if s == [] then 0
    else
      var front, c := DecimalValue(s[..|s| - 1]), s[|s| - 1];
      if IsDigit(c) then front * 10 + (c - 0x30) else front
  }

  /** The digits denote the number, and there is one of them exactly below ten. */
  lemma {:induction false} DecimalDenotes(v: nat)
    ensures AllDigits(Decimal(v)) && DecimalValue(Decimal(v)) == v
    ensures |Decimal(v)| == 1 <==> v < 10
  {
    if v < 10 {
      assert DecimalValue([0x30 + v]) == DecimalValue([]) * 10 + v;
    } else {
      DecimalDenotes(v / 10);
      assert Decimal(v)[..|Decimal(v)| - 1] == Decimal(v / 10);
    }
  }

  /** What "%u" prints is the decimal text. */
  lemma {:induction false} PrintsDecimal(v: nat)
    ensures InBase(Numeral(v, 10), 10) && TextOf(Numeral(v, 10), false) == Decimal(v)
  {
    NumeralInBase(v, 10);
    if v < 10 {
      assert v > 0 ==> Digits(v, 10) == Digits(0, 10) + [v];
    } else {
      PrintsDecimal(v / 10);
      assert Digits(v, 10) == Digits(v / 10, 10) + [v % 10];
    }
  }

  /** The number part is made of digits, and they denote the index of the element. */
  lemma NumberPartDenotes(e: u32)
    ensures AllDigits(NumberPart(e)) && DecimalValue(NumberPart(e)) == e % HARDENED
    ensures |NumberPart(e)| == 1 <==> e % HARDENED < 10
  {
    DecimalDenotes(e % HARDENED);
  }

  // ---- Printing it ----------------------------------------------------------------------

  predicate Visible(t: Bytes) {
    t != [] && forall i :: 0 <= i < |t| ==> 0 < t[i] < 0x80
  }

  /**
   * `b` holds the text `s`, cut off where the room ends, and zeros after it; `offset` is
   * where the next piece of text goes.
   */
  predicate Printed(b: Bytes, offset: nat, s: Bytes) {
    && offset < |b| && offset == (if |s| < |b| then |s| else |b| - 1)
    && b[..offset] == s[..offset]
    && forall i :: offset <= i < |b| ==> b[i] == 0
  }

  ghost predicate Cleared(b: Bytes) {
    forall i :: 0 <= i < |b| ==> b[i] == 0
  }

  method CopyInto(room: array<u8>, out: array<u8>, offset: nat)
    requires offset + room.Length == out.Length && room != out
    modifies out
    ensures out[..offset] == old(out[..offset]) && out[offset..] == room[..]
  {
    for i := 0 to room.Length
      invariant out[..offset] == old(out[..offset])
      invariant forall j :: offset <= j < offset + i ==> out[j] == room[j - offset]
    {
      out[offset + i] := room[i];
    }
  }

  method Strlen(out: array<u8>, offset: nat, ghost n: nat) returns (len: nat)
    requires offset + n < out.Length && out[offset + n] == 0
    requires forall i :: offset <= i < offset + n ==> out[i] != 0
    ensures len == n
  {
    len := 0;
    while out[offset + len] != 0
      invariant len <= n
      decreases n - len
    {
      len := len + 1;
    }
  }

  /** snprintf into the part of `out` that begins at `offset`, then strlen of what it left. */
  method SnprintfAt(out: array<u8>, offset: nat, p: Piece) returns (written: nat)
    requires offset < out.Length && Formattable(p) && Visible(PieceText(p))
    modifies out
    ensures out[..offset] == old(out[..offset]) && Printed(out[offset..], written, PieceText(p))
  {
    var room := PrintPiece(out.Length - offset, p);
    CopyInto(room, out, offset);
    VisibleThenZero(out[..], offset, PieceText(p));
    written := Strlen(out, offset, Fitting(|PieceText(p)|, out.Length - offset));
  }

  /** Where a text of n characters ends in a buffer of `room` bytes. */
  function Fitting(n: nat, room: nat): nat
    requires room > 0
  {
    if n < room then n else room - 1
  }

  method PrintPiece(size: nat, p: Piece) returns (room: array<u8>)
    requires size > 0 && Formattable(p) && Visible(PieceText(p))
    ensures fresh(room) && room.Length == size && Printed(room[..], Fitting(|PieceText(p)|, size), PieceText(p))
  {
    room := new u8[size];
    PieceAsText(p, size - 1);
    var r := Snprintf(room, [p]);
    assert IsWhole([p][0]);
    assert Holds(room[..], PieceText(p));
    TruncatedIsPrinted(room[..], PieceText(p), Truncated(PieceText(p), size - 1));
  }

  lemma TruncatedIsPrinted(b: Bytes, t: Bytes, cut: Bytes)
    requires b != [] && cut == t[..Fitting(|t|, |b|)] && b[..|cut|] == cut
    requires forall i :: |cut| <= i < |b| ==> b[i] == 0
    ensures Printed(b, Fitting(|t|, |b|), t)
  {
  }

  lemma VisibleThenZero(b: Bytes, offset: nat, t: Bytes)
    requires offset < |b| && Visible(t) && Printed(b[offset..], Fitting(|t|, |b| - offset), t)
    ensures var n := Fitting(|t|, |b| - offset);
            b[offset + n] == 0 && forall i :: offset <= i < offset + n ==> b[i] != 0
  {
    var n, c := Fitting(|t|, |b| - offset), b[offset..];
    assert c[n] == b[offset + n];
    forall i | offset <= i < offset + n ensures b[i] != 0 {
      assert b[i] == c[i - offset] == c[..n][i - offset] == t[..n][i - offset];
    }
  }

  lemma PieceAsText(p: Piece, n: nat)
    requires Formattable(p) && Visible(PieceText(p))
    ensures FormatText([p]) == PieceText(p) && IsWhole(p) && WellFormed(PieceText(p))
    ensures Truncated(PieceText(p), n) == PieceText(p)[..Fitting(|PieceText(p)|, n + 1)]
  {
    assert TextUpTo([p], 0) == [];
    assert TextUpTo([p], 1) == PieceText(p);
    AsciiWellFormed(PieceText(p));
    AsciiTruncated(PieceText(p), n);
  }

  method Clear(out: array<u8>)
    modifies out
    ensures Cleared(out[..])
  {
    for i := 0 to out.Length
      invariant forall j :: 0 <= j < i ==> out[j] == 0
    {
      out[i] := 0;
    }
  }

  /** One piece of the text; refused, and everything cleared, when no room at all is left. */
  method Print(out: array<u8>, offset: nat, p: Piece, ghost s: Bytes) returns (next: nat, ok: bool)
    requires Printed(out[..], offset, s) || (offset == 0 < out.Length && s == [])
    requires Formattable(p) && Visible(PieceText(p))
    modifies out
    ensures ok == (|s| < out.Length - 1)
    ensures if ok then Printed(out[..], next, s + PieceText(p)) else Cleared(out[..])
  {
    next := offset;
    ghost var b := out[..];
    var written := SnprintfAt(out, offset, p);
    if written == 0 || written >= out.Length - offset {
      Clear(out);
      return next, false;
    }
    PrintedMore(b, out[..], offset, s, PieceText(p), written);
    next := offset + written;
    ok := true;
  }

  lemma PrintedMore(b: Bytes, b': Bytes, offset: nat, s: Bytes, t: Bytes, written: nat)
    requires (Printed(b, offset, s) || (offset == 0 && s == [])) && |b'| == |b| && offset < |b|
    requires b'[..offset] == b[..offset] && Printed(b'[offset..], written, t) && written > 0
    ensures Printed(b', offset + written, s + t)
  {
    assert |s| == offset && b[..offset] == s;
    var c, n := b'[offset..], offset + written;
    assert b'[..n] == b'[..offset] + c[..written];
    assert (s + t)[..n] == s + t[..written];
    forall i | n <= i < |b'| ensures b'[i] == 0 {
      assert b'[i] == c[i - offset];
    }
  }

  lemma PieceTexts(e: u32)
    ensures PieceText(Unsigned(e % HARDENED, 0, 0x20, 0x1_0000_0000)) == NumberPart(e)
    ensures Visible(NumberPart(e)) && Visible([QUOTE]) && Visible([SLASH])
    ensures WellFormed([QUOTE]) && WellFormed([SLASH])
  {
    NumberPartDenotes(e);
    PrintsDecimal(e % HARDENED);
    assert PieceText(Unsigned(e % HARDENED, 0, 0x20, 0x1_0000_0000)) == TextOf(Numeral(e % HARDENED, 10), false);
    AsciiWellFormed([QUOTE]);
    AsciiWellFormed([SLASH]);
  }

  /** The number and the quote of one element. */
  method PrintElement(out: array<u8>, offset: nat, e: u32, ghost s: Bytes) returns (next: nat, ok: bool)
    requires Printed(out[..], offset, s) || (offset == 0 < out.Length && s == [])
    modifies out
    ensures ok == (|s| + BeforeQuote(e) < out.Length - 1)
    ensures if ok then Printed(out[..], next, s + ElementText(e)) else Cleared(out[..])
  {
    PieceTexts(e);
    next, ok := Print(out, offset, Unsigned(e % HARDENED, 0, 0x20, 0x1_0000_0000), s);
    if ok && e >= HARDENED {
      next, ok := Print(out, next, Text([QUOTE]), s + NumberPart(e));
      assert s + NumberPart(e) + [QUOTE] == s + ElementText(e);
    } else {
      assert ok ==> s + NumberPart(e) == s + ElementText(e);
    }
  }

  /** The number, the quote and, before another element, the slash. */
  method PrintOne(out: array<u8>, offset: nat, e: u32, more: bool, ghost s: Bytes) returns (next: nat, ok: bool)
    requires Printed(out[..], offset, s) || (offset == 0 < out.Length && s == [])
    modifies out
    ensures ok == (|s| + (if more then |ElementText(e)| else BeforeQuote(e)) < out.Length - 1)
    ensures if ok then Printed(out[..], next, s + ElementText(e) + Separator(more))
            else Cleared(out[..])
  {
    next, ok := PrintElement(out, offset, e, s);
    if ok && more {
      PieceTexts(e);
      next, ok := Print(out, next, Text([SLASH]), s + ElementText(e));
    }
    assert s + ElementText(e) + [] == s + ElementText(e);
  }

  /** How much of an element is printed before the last of its parts. */
  function BeforeQuote(e: u32): nat {
    if e >= HARDENED then |NumberPart(e)| else 0
  }

  /** All but the part printed last leaves room for one more character and the NUL. */
  ghost predicate Accepts(path: seq<u32>, room: nat)
    requires path != []
  {
    |PathText(path)| - |LastPart(path)| + 1 < room
  }

  /**
   * bip32_path_format. It answers true exactly when all but the part printed last leaves
   * room for one more character; the text is then cut off at the end of the room. On a
   * path of a wrong length nothing is written; on any other refusal all is cleared.
   */
  method Bip32PathFormat(path: seq<u32>, out: array<u8>) returns (ok: bool)
    requires out.Length > 0
    modifies out
    ensures path == [] || |path| > MAX_BIP32_PATH ==> !ok && out[..] == old(out[..])
    ensures 0 < |path| <= MAX_BIP32_PATH ==>
              && ok == Accepts(path, out.Length)
              && (!ok ==> Cleared(out[..]))
              && (ok ==> exists n :: Printed(out[..], n, PathText(path)))
  {
    if |path| == 0 || |path| > MAX_BIP32_PATH {
      return false;
    }
    var offset := 0;
    ghost var s: Bytes := [];
    ghost var xs := Texts(path);
    for i := 0 to |path|
      invariant s + JoinFrom(xs, i) == JoinFrom(xs, 0)
      invariant if i == 0 then offset == 0 && s == [] else Printed(out[..], offset, s)
      invariant i == |path| ==> Accepts(path, out.Length)
    {
      PathStep(path, i, s);
      if i + 1 < |path| { UpToSlash(path, i, s); } else { UpToEnd(path, i, s); }
      offset, ok := PrintOne(out, offset, path[i], i != |path| - 1, s);
      if !ok {
        return;
      }
      s := s + ElementText(path[i]) + Separator(i + 1 < |path|);
    }
    assert s == PathText(path);
    ok := true;
  }

  ghost function Separator(more: bool): Bytes {
    if more then [SLASH] else []
  }

  /** The text up to and including element i, and its separator. */
  lemma PathStep(path: seq<u32>, i: nat, s: Bytes)
    requires i < |path| && s + JoinFrom(Texts(path), i) == JoinFrom(Texts(path), 0)
    ensures s + ElementText(path[i]) + Separator(i + 1 < |path|) + JoinFrom(Texts(path), i + 1) == JoinFrom(Texts(path), 0)
  {
    JoinStep(Texts(path), i, s, ElementText(path[i]));
  }

  /** How much is printed up to the slash behind element i: no more than all but the part
      printed last. */
  lemma UpToSlash(path: seq<u32>, i: nat, s: Bytes)
    requires i + 1 < |path| && s + JoinFrom(Texts(path), i) == JoinFrom(Texts(path), 0)
    ensures |s| + |ElementText(path[i])| <= |PathText(path)| - |LastPart(path)|
  {
    LastIsPart(path);
    JoinLengths(Texts(path), i, s);
  }

  /** How much is printed up to the last part of the last element: all but that part. */
  lemma UpToEnd(path: seq<u32>, i: nat, s: Bytes)
    requires i + 1 == |path| && s + JoinFrom(Texts(path), i) == JoinFrom(Texts(path), 0)
    ensures |s| + BeforeQuote(path[i]) == |PathText(path)| - |LastPart(path)|
  {
    LastIsPart(path);
    JoinLengths(Texts(path), i, s);
  }

  lemma LastIsPart(path: seq<u32>)
    requires path != []
    ensures |Texts(path)[|path| - 1]| == |LastPart(path)| + BeforeQuote(path[|path| - 1])
  {
  }

  /** How the text before element i, the element and what follows add up. */
  lemma JoinStep(xs: seq<Bytes>, i: nat, s: Bytes, x: Bytes)
    requires i < |xs| && x == xs[i] && s + JoinFrom(xs, i) == JoinFrom(xs, 0)
    ensures s + x + Separator(i + 1 < |xs|) + JoinFrom(xs, i + 1) == JoinFrom(xs, 0)
  {
    if i + 1 < |xs| {
      Regrouped(s, x, [SLASH], JoinFrom(xs, i + 1));
    } else {
      Regrouped(s, x, [], []);
    }
  }

  lemma JoinLengths(xs: seq<Bytes>, i: nat, s: Bytes)
    requires i < |xs| && s + JoinFrom(xs, i) == JoinFrom(xs, 0)
    ensures if i + 1 < |xs| then |s| + |xs[i]| + |xs[|xs| - 1]| <= |JoinFrom(xs, 0)|
            else |s| + |xs[i]| == |JoinFrom(xs, 0)|
  {
    assert |s| + |JoinFrom(xs, i)| == |JoinFrom(xs, 0)|;
    if i + 1 < |xs| {
      LastIsIn(xs, i + 1);
    }
  }

  lemma Regrouped(a: Bytes, b: Bytes, c: Bytes, d: Bytes)
    ensures a + (b + (c + d)) == a + b + c + d && a + (b + c) == a + b + c
    ensures b + ([] + []) == b
  {
  }

  lemma {:induction false} LastIsIn(xs: seq<Bytes>, i: nat)
    requires i < |xs|
    ensures |xs[|xs| - 1]| <= |JoinFrom(xs, i)|
    decreases |xs| - i
  {
    if i + 1 < |xs| {
      LastIsIn(xs, i + 1);
    }
  }

  /**
   * The check on the length written never fires for the part printed last. A path is safe
   * from being cut off with the answer true, whatever the room, exactly when its last
   * element is hardened or has a single digit.
   */
  lemma NeverCutSilently(path: seq<u32>)
    requires path != []
    ensures (forall room: nat :: Accepts(path, room) ==> |PathText(path)| < room) <==>
            path[|path| - 1] >= HARDENED || path[|path| - 1] < 10
  {
    LastPartLength(path);
    if |LastPart(path)| > 1 {
      var room := |PathText(path)| - |LastPart(path)| + 2;
      assert Accepts(path, room) && room <= |PathText(path)|;
    }
  }

  lemma LastPartLength(path: seq<u32>)
    requires path != []
    ensures 1 <= |LastPart(path)| <= |PathText(path)|
    ensures |LastPart(path)| == 1 <==> path[|path| - 1] >= HARDENED || path[|path| - 1] < 10
  {
    NumberPartDenotes(path[|path| - 1]);
    LastPartWithin(path);
  }

  lemma LastPartWithin(path: seq<u32>)
    requires path != []
    ensures |LastPart(path)| <= |PathText(path)|
  {
    LastIsPart(path);
    LastIsIn(Texts(path), 0);
  }

  /** The path 44 printed into two bytes: the answer is true and the text is "4". */
  lemma CutSilently()
    ensures Accepts([44], 2) && |PathText([44])| == 2
  {
    assert Decimal(44) == Decimal(4) + [0x34];
    assert ElementText(44) == Decimal(44);
    assert PathText([44]) == Texts([44])[0];
  }

  // ---- Parsing the text ---------------------------------------------------------------------

  function FirstSlash(s: Bytes): (k: nat)
    ensures k <= |s|
  {
    if s == [] || s[0] == SLASH then 0 else 1 + FirstSlash(s[1..])
  }

  /** str.split on slashes: always at least one element. */
  function Split(s: Bytes): (xs: seq<Bytes>)
    ensures |xs| > 0
    decreases |s|
  {
    var k := FirstSlash(s);
    if k == |s| then [s] else [s[..k]] + Split(s[k + 1..])
  }

  predicate NoSlash(s: Bytes) {
    forall i :: 0 <= i < |s| ==> s[i] != SLASH
  }

  lemma SplitCons(x: Bytes, t: Bytes)
    requires NoSlash(x)
    ensures Split(x) == [x] && Split(x + ([SLASH] + t)) == [x] + Split(t)
  {
    SlashAfter(x, [SLASH] + t);
    SlashAfter(x, []);
    assert x + [] == x;
    var s := x + ([SLASH] + t);
    assert s[..|x|] == x && s[|x| + 1..] == t;
  }

  lemma {:induction false} SlashAfter(x: Bytes, t: Bytes)
    requires NoSlash(x) && (t == [] || t[0] == SLASH)
    ensures FirstSlash(x + t) == |x|
  {
    if x != [] {
      SlashAfter(x[1..], t);
      assert (x + t)[1..] == x[1..] + t;
    }
  }

  ghost predicate NoSlashes(xs: seq<Bytes>) {
    forall j {:trigger xs[j]} :: 0 <= j < |xs| ==> NoSlash(xs[j])
  }

  /** Splitting undoes joining, whatever the elements are, as long as none holds a slash. */
  lemma {:induction false} SplitJoin(xs: seq<Bytes>, i: nat)
    requires i < |xs| && NoSlashes(xs)
    ensures Split(JoinFrom(xs, i)) == xs[i..]
    decreases |xs| - i
  {
    var x := xs[i];
    if i + 1 < |xs| {
      SplitJoin(xs, i + 1);
      SplitCons(x, JoinFrom(xs, i + 1));
      ConsSlice(xs, i);
    } else {
      SplitCons(x, []);
      assert xs[i..] == [x];
    }
  }

  lemma ConsSlice(xs: seq<Bytes>, i: nat)
    requires i < |xs|
    ensures xs[i..] == [xs[i]] + xs[i + 1..]
  {
  }

  predicate IsSpace(c: u8) {
    9 <= c <= 13 || c == 0x20
  }

  function Strip(s: Bytes): Bytes
    decreases |s|
  {
    if s == [] then []
    else if IsSpace(s[0]) then Strip(s[1..])
    else if IsSpace(s[|s| - 1]) then Strip(s[..|s| - 1])
    else s
  }

  /** Digits, with single underscores allowed between two of them. */
  predicate Grouped(s: Bytes) {
    && s != [] && IsDigit(s[0]) && IsDigit(s[|s| - 1])
    && forall i :: 0 < i < |s| ==> IsDigit(s[i]) || (s[i] == UNDERSCORE && IsDigit(s[i - 1]))
  }

  /** int() on 7-bit text: blanks around, a sign, and digits grouped by underscores. */
  function IntOf(s: Bytes): (v: Option<int>) {
    var t := Strip(s);
    if t != [] && (t[0] == PLUS || t[0] == MINUS) then
      var n: int := DecimalValue(t[1..]);
      if Grouped(t[1..]) then Some(if t[0] == MINUS then -n else n) else None
    else if Grouped(t) then Some(DecimalValue(t)) else None
  }

  lemma IntOfDigits(s: Bytes)
    requires s != [] && AllDigits(s)
    ensures IntOf(s) == Some(DecimalValue(s))
  {
    assert IsDigit(s[0]) && IsDigit(s[|s| - 1]);
    assert Strip(s) == s;
  }

  predicate AllSpaces(s: Bytes) {
    forall i :: 0 <= i < |s| ==> IsSpace(s[i])
  }

  lemma {:induction false} StripAround(a: Bytes, t: Bytes, b: Bytes)
    requires AllSpaces(a) && AllSpaces(b) && t != [] && !IsSpace(t[0]) && !IsSpace(t[|t| - 1])
    ensures Strip(a + t + b) == t
    decreases |a| + |b|
  {
    var s := a + t + b;
    if a != [] {
      assert s[0] == a[0] && s[1..] == a[1..] + t + b;
      StripAround(a[1..], t, b);
    } else if b != [] {
      assert s[0] == t[0] && s[|s| - 1] == b[|b| - 1] && s[..|s| - 1] == a + t + b[..|b| - 1];
      StripAround(a, t, b[..|b| - 1]);
    } else {
      assert s == t;
    }
  }

  /** Blanks around a number and a sign in front of it are understood. */
  lemma IntOfSigned(a: Bytes, sign: Bytes, d: Bytes, b: Bytes)
    requires AllSpaces(a) && AllSpaces(b) && d != [] && AllDigits(d)
    requires sign == [] || sign == [PLUS] || sign == [MINUS]
    ensures IntOf(a + (sign + d) + b) == Some(if sign == [MINUS] then -(DecimalValue(d) as int) else DecimalValue(d))
  {
    var t := sign + d;
    assert IsDigit(d[0]) && IsDigit(d[|d| - 1]);
    assert t[|t| - 1] == d[|d| - 1] && t[0] == if sign == [] then d[0] else sign[0];
    StripAround(a, t, b);
    assert t[|sign|..] == d;
  }

  /**
   * One element as the 32-bit number to pack; None where the script raises: no number, the
   * reserved or too large an index, or a value that struct.pack refuses.
   */
  function ParseElement(s: Bytes): (v: Option<u32>) {
    if s != [] && s[|s| - 1] == QUOTE then
      match IntOf(s[..|s| - 1])
      case None => None
      case Some(n) =>
        // 0x80000000 | n
        var m := if n >= 0 && n / HARDENED % 2 == 0 then n + HARDENED else n;
        if 0 <= m < 0x1_0000_0000 then Some(m) else None
    else if s == [STAR] then Some(WILDCARD)
    else
      match IntOf(s)
      case None => None
      case Some(n) => if 0 <= n < WILDCARD then Some(n) else None
  }

  function Pack(v: u32): (r: Bytes)
    ensures |r| == 4
  {
    var a := v / 0x100;
    var b := a / 0x100;
    [b / 0x100, b % 0x100, a % 0x100, v % 0x100]
  }

  function PackAll(path: seq<u32>): (r: Bytes)
    ensures |r| == 4 * |path|
  {
    if path == [] then [] else PackAll(path[..|path| - 1]) + Pack(path[|path| - 1])
  }

  /** One element more, for whatever a single element is parsed to. */
  function Appended(front: Option<seq<u32>>, v: Option<u32>): Option<seq<u32>> {
    if front.None? || v.None? then None else Some(front.value + [v.value])
  }

  /** The values of all elements, or None if any of them is refused. */
  function ParseAll(xs: seq<Bytes>): (r: Option<seq<u32>>)
    ensures r.Some? ==> |r.value| == |xs|
  {
    if xs == [] then Some([])
    else Appended(ParseAll(xs[..|xs| - 1]), ParseElement(xs[|xs| - 1]))
  }

  /** The bytes of a parsed path: its length, then each element. */
  function Encoded(path: seq<u32>): (r: Bytes)
    requires |path| < 0x100
  {
    [|path|] + PackAll(path)
  }

  /** A refused element refuses every text that holds it. */
  lemma {:induction false} ParsePrefix(xs: seq<Bytes>, n: nat)
    requires n <= |xs| && ParseAll(xs[..n]).None?
    ensures ParseAll(xs).None?
    decreases |xs|
  {
    if n < |xs| {
      assert xs[..|xs| - 1][..n] == xs[..n];
      ParsePrefix(xs[..|xs| - 1], n);
    } else {
      assert xs[..n] == xs;
    }
  }

  lemma ParseNext(xs: seq<Bytes>, n: nat)
    requires n < |xs|
    ensures ParseAll(xs[..n + 1]) == Appended(ParseAll(xs[..n]), ParseElement(xs[n]))
    ensures ParseElement(xs[n]).None? ==> ParseAll(xs).None?
  {
    assert xs[..n + 1][..n] == xs[..n];
    if ParseElement(xs[n]).None? { ParsePrefix(xs, n + 1); }
  }

  lemma PackNext(path: seq<u32>, v: u32)
    ensures PackAll(path + [v]) == PackAll(path) + Pack(v)
  {
    assert (path + [v])[..|path|] == path;
  }

  method ParseBip32Path(text: Bytes) returns (result: Option<Bytes>)
    ensures var xs := Split(text);
            result == if |xs| >= 0x100 || ParseAll(xs).None? then None else Some(Encoded(ParseAll(xs).value))
  {
    var elements := Split(text);
    if |elements| >= 0x100 {
      return None;
    }
    result := PackElements(elements);
  }

  /** The loop over the elements. */
  method PackElements(elements: seq<Bytes>) returns (result: Option<Bytes>)
    requires |elements| < 0x100
    ensures result == if ParseAll(elements).None? then None else Some(Encoded(ParseAll(elements).value))
  {
    var bytes: Bytes := [|elements|];
    assert Packed(elements, 0, bytes);
    for i := 0 to |elements|
      invariant Packed(elements, i, bytes)
    {
      var v := ParseElement(elements[i]);
      PackedNext(elements, i, bytes);
      if v == None {
        return None;
      }
      bytes := bytes + Pack(v.value);
    }
    assert elements[..|elements|] == elements;
    return Some(bytes);
  }

  /** The first i elements have been parsed and their bytes put behind the length. */
  ghost predicate Packed(xs: seq<Bytes>, i: nat, bytes: Bytes)
    requires i <= |xs| < 0x100
  {
    var path := ParseAll(xs[..i]);
    path.Some? && bytes == [|xs|] + PackAll(path.value)
  }

  lemma PackedNext(xs: seq<Bytes>, i: nat, bytes: Bytes)
    requires i < |xs| < 0x100 && Packed(xs, i, bytes)
    ensures var v := ParseElement(xs[i]);
            if v.None? then ParseAll(xs).None? else Packed(xs, i + 1, bytes + Pack(v.value))
  {
    var v, path := ParseElement(xs[i]), ParseAll(xs[..i]).value;
    ParseNext(xs, i);
    if v.Some? {
      PackNext(path, v.value);
      Regrouped([|xs|], PackAll(path), Pack(v.value), []);
    }
  }

  // ---- Reading the bytes ------------------------------------------------------------------

  function ReadU32Be(s: Bytes, offset: nat): (v: u32)
    requires offset + 4 <= |s|
  {
    s[offset] as int * 0x100_0000 + s[offset + 1] as int * 0x1_0000 + s[offset + 2] as int * 0x100 + s[offset + 3]
  }

  /** What read_u32_be gives back is what was packed. */
  lemma ReadPacked(s: Bytes, offset: nat, v: u32)
    requires offset + 4 <= |s| && s[offset..offset + 4] == Pack(v)
    ensures ReadU32Be(s, offset) == v
  {
    var t := s[offset..offset + 4];
    assert s[offset] == t[0] && s[offset + 1] == t[1] && s[offset + 2] == t[2] && s[offset + 3] == t[3];
  }

  /** The most significant byte stands first. */
  lemma BigEndianOrder(a: u8, b: u8, c: u8, d: u8)
    ensures ReadU32Be([a, b, c, d], 0) == ((a * 0x100 + b) * 0x100 + c) * 0x100 + d
    ensures Pack(((a * 0x100 + b) * 0x100 + c) * 0x100 + d) == [a, b, c, d]
  {
    var x := a * 0x100 + b;
    var y := x * 0x100 + c;
    var v := y * 0x100 + d;
    assert v / 0x100 == y && v % 0x100 == d;
    assert y / 0x100 == x && y % 0x100 == c;
    assert x / 0x100 == a && x % 0x100 == b;
  }

  /** The numbers read from consecutive groups of four bytes. */
  function Words(s: Bytes, offset: nat, n: nat): (r: seq<u32>)
    requires offset + 4 * n <= |s|
    ensures |r| == n
  {
    if n == 0 then [] else Words(s, offset, n - 1) + [ReadU32Be(s, offset + 4 * (n - 1))]
  }

  method Bip32PathRead(input: Bytes, out: array<u32>, outLen: nat) returns (ok: bool)
    requires outLen <= MAX_BIP32_PATH ==> outLen <= out.Length
    modifies out
    ensures ok == (input != [] && 0 < outLen <= MAX_BIP32_PATH && 4 * outLen <= |input|)
    ensures ok ==> out[..outLen] == Words(input, 0, outLen)
    ensures ok ==> out[outLen..] == old(out[outLen..])
  {
    if |input| == 0 {
      return false;
    }
    if outLen == 0 || outLen > MAX_BIP32_PATH {
      return false;
    }
    var offset := 0;
    for i := 0 to outLen
      invariant offset == 4 * i && offset <= |input|
      invariant out[..i] == Words(input, 0, i)
      invariant out[outLen..] == old(out[outLen..])
    {
      if offset + 4 > |input| {
        return false;
      }
      out[i] := ReadU32Be(input, offset);
      assert out[..i + 1] == out[..i] + [out[i]];
      offset := offset + 4;
    }
    return true;
  }

  class PathBip32 {
    const path: array<u32>
    var length: nat

    constructor ()
      ensures fresh(path) && path.Length == MAX_BIP32_PATH && length == 0
    {
      path := new u32[MAX_BIP32_PATH];
      length := 0;
    }
  }

  class Buffer {
    const ptr: Bytes
    var offset: nat

    ghost predicate Valid()
      reads this
    {
      offset <= |ptr| < 0x1_0000_0000
    }

    constructor (ptr: Bytes, offset: nat)
      requires offset <= |ptr| < 0x1_0000_0000
      ensures Valid() && this.ptr == ptr && this.offset == offset
    {
      this.ptr, this.offset := ptr, offset;
    }

    predicate CanRead(n: nat)
      reads this
      requires Valid()
    {
      |ptr| - offset >= n
    }

    /** The first test is for a sum that wraps around at 2^32. */
    method SeekCur(n: u32) returns (ok: bool)
      requires Valid()
      modifies this
      ensures Valid() && ok == (old(offset) + n <= |ptr|)
      ensures offset == old(offset) + if ok then n else 0
    {
      var sum := (offset + n) % 0x1_0000_0000;
      if sum < offset || sum > |ptr| {
        return false;
      }
      offset := sum;
      return true;
    }

    /**
     * buffer_get_path_bip32. A buffer whose path is refused has still given up its length
     * byte.
     */
    method GetPathBip32(bip32: PathBip32) returns (ok: bool)
      requires Valid() && bip32.path.Length == MAX_BIP32_PATH
      modifies this, bip32, bip32.path
      ensures Valid() && ok == Decoded(ptr[old(offset)..]).Some?
      ensures ok ==> bip32.length <= MAX_BIP32_PATH && bip32.path[..bip32.length] == Decoded(ptr[old(offset)..]).value
      ensures ok ==> offset == old(offset) + 1 + 4 * bip32.length
      ensures !ok ==> offset == old(offset) + if old(offset) < |ptr| then 1 else 0
    {
      if !CanRead(1) {
        return false;
      }
      bip32.length := ptr[offset];
      offset := offset + 1;
      assert ptr[old(offset)..][0] == bip32.length && ptr[old(offset)..][1..] == ptr[offset..];
      if !CanRead(4 * bip32.length) {
        return false;
      }
      var done := Bip32PathRead(ptr[offset..], bip32.path, bip32.length);
      if !done {
        return false;
      }
      var _ := SeekCur(4 * bip32.length);
      return true;
    }
  }

  /** The path at the start of some bytes. */
  function Decoded(s: Bytes): (r: Option<seq<u32>>)
    ensures r.Some? ==> 0 < |r.value| <= MAX_BIP32_PATH
  {
    if s != [] && 0 < s[0] <= MAX_BIP32_PATH && 1 + 4 * s[0] <= |s| then Some(Words(s[1..], 0, s[0])) else None
  }

  // ---- Round trips --------------------------------------------------------------------------

  lemma {:induction false} WordsOfPacked(path: seq<u32>, rest: Bytes, n: nat)
    requires n <= |path|
    ensures Words(PackAll(path) + rest, 0, n) == path[..n]
    decreases n
  {
    if n > 0 {
      WordsOfPacked(path, rest, n - 1);
      PackedAt(path, n - 1);
      var s := PackAll(path) + rest;
      assert s[4 * (n - 1)..4 * (n - 1) + 4] == PackAll(path)[4 * (n - 1)..4 * (n - 1) + 4];
      ReadPacked(s, 4 * (n - 1), path[n - 1]);
    }
  }

  lemma {:induction false} PackedAt(path: seq<u32>, i: nat)
    requires i < |path|
    ensures PackAll(path)[4 * i..4 * i + 4] == Pack(path[i])
    decreases |path|
  {
    var front := path[..|path| - 1];
    if i < |path| - 1 {
      PackedAt(front, i);
      assert PackAll(path)[4 * i..4 * i + 4] == PackAll(front)[4 * i..4 * i + 4];
    }
  }

  /** The binary reader undoes the encoder, whatever bytes follow. */
  lemma DecodeEncoded(path: seq<u32>, rest: Bytes)
    requires 0 < |path| <= MAX_BIP32_PATH
    ensures Decoded(Encoded(path) + rest) == Some(path) && |Encoded(path)| == 1 + 4 * |path|
  {
    var s := Encoded(path) + rest;
    assert s[0] == |path| && s[1..] == PackAll(path) + rest;
    WordsOfPacked(path, rest, |path|);
    assert path[..|path|] == path;
  }

  /** An element survives printing and parsing unless it is the reserved one. */
  lemma ParsePrinted(e: u32)
    ensures NoSlash(ElementText(e))
    ensures ParseElement(ElementText(e)) == if e == WILDCARD then None else Some(e)
  {
    NumberPartDenotes(e);
    HardenedBit(e);
    ParseParts(NumberPart(e), ElementText(e), e);
  }

  lemma ParseParts(n: Bytes, s: Bytes, e: u32)
    requires n != [] && AllDigits(n) && DecimalValue(n) == e % HARDENED
    requires s == n + if e >= HARDENED then [QUOTE] else []
    requires e >= HARDENED ==> e % HARDENED / HARDENED % 2 == 0 && e % HARDENED + HARDENED == e
    ensures NoSlash(s) && ParseElement(s) == if e == WILDCARD then None else Some(e)
  {
    IntOfDigits(n);
    if e >= HARDENED {
      assert s[..|s| - 1] == n && s[|s| - 1] == QUOTE;
    } else {
      assert s == n && IsDigit(s[|s| - 1]) && IsDigit(s[0]);
    }
  }

  lemma HardenedBit(e: u32)
    ensures e >= HARDENED ==> e % HARDENED / HARDENED % 2 == 0 && e % HARDENED + HARDENED == e
  {
  }

  /** What ParseElement must make of the text of each element. */
  ghost predicate ParsesAs(x: Bytes, e: u32) {
    ParseElement(x) == if e == WILDCARD then None else Some(e)
  }

  lemma {:induction false} ParseTexts(xs: seq<Bytes>, path: seq<u32>)
    requires |xs| == |path| && forall i :: 0 <= i < |path| ==> ParsesAs(xs[i], path[i])
    ensures ParseAll(xs) == if WILDCARD in path then None else Some(path)
    decreases |path|
  {
    if path != [] {
      var front, last := path[..|path| - 1], path[|path| - 1];
      assert path == front + [last];
      assert ParsesAs(xs[|path| - 1], last);
      ParseTexts(xs[..|path| - 1], front);
    }
  }

  /**
   * Printing and then parsing gives the encoding of the same path exactly when the path
   * does not hold the unhardened 0x7fffffff, which the parser keeps for the wildcard.
   */
  lemma ParseFormatted(path: seq<u32>)
    requires path != []
    ensures Split(PathText(path)) == Texts(path)
    ensures ParseAll(Split(PathText(path))) == if WILDCARD in path then None else Some(path)
  {
    var xs := Texts(path);
    forall j | 0 <= j < |xs| ensures NoSlash(xs[j]) && ParsesAs(xs[j], path[j]) {
      ParsePrinted(path[j]);
    }
    SplitJoin(xs, 0);
    assert xs[0..] == xs;
    ParseTexts(xs, path);
  }

  function Ascii(s: string): Bytes
    requires forall i :: 0 <= i < |s| ==> s[i] as int < 0x80
  {
    seq(|s|, i requires 0 <= i < |s| => s[i] as int)
  }

  /** A path with its text and its bytes written out. */
  lemma LiteralPath()
    ensures PathText([0x8000_002C, 1]) == Ascii("44'/1")
    ensures Encoded([0x8000_002C, 1]) == [2, 0x80, 0, 0, 0x2C, 0, 0, 0, 1]
  {
    assert Decimal(44) == Decimal(4) + [0x34];
    var xs := Texts([0x8000_002C, 1]);
    assert xs[0] == [0x34, 0x34, 0x27] && xs[1] == [0x31];
    assert JoinFrom(xs, 1) == xs[1];
    assert PackAll([0x8000_002C]) == PackAll([]) + Pack(0x8000_002C);
    assert [0x8000_002C, 1][..1] == [0x8000_002C];
  }

  /** The wildcard is written as a star and packed as 7f ff ff ff. */
  lemma WildcardElement()
    ensures ParseAll(Split(Ascii("*"))) == Some([0x7fff_ffff])
    ensures Encoded([0x7fff_ffff]) == [1, 0x7f, 0xff, 0xff, 0xff]
  {
    StarParses();
    StarPacks();
  }

  lemma StarPacks()
    ensures Encoded([0x7fff_ffff]) == [1, 0x7f, 0xff, 0xff, 0xff]
  {
    BigEndianOrder(0x7f, 0xff, 0xff, 0xff);
    assert PackAll([0x7fff_ffff]) == PackAll([]) + Pack(0x7fff_ffff) == Pack(0x7fff_ffff);
  }

  lemma StarParses()
    ensures ParseAll(Split(Ascii("*"))) == Some([0x7fff_ffff])
  {
    var star := Ascii("*");
    assert star == [STAR] && NoSlash(star);
    SplitCons(star, []);
    assert ParseElement(star) == Some(0x7fff_ffff);
    var xs := [star];
    assert xs[..0] == [] && ParseAll(xs) == Appended(Some([]), ParseElement(star));
    var path: seq<u32> := [0x7fff_ffff];
    assert [] + path == path;
  }

  /**
   * The whole circle: printed with enough room, parsed, and read back from a buffer, the
   * path is the same and exactly its own 1 + 4n bytes are consumed.
   */
  lemma FormatParseRead(path: seq<u32>, b: Bytes, n: nat, rest: Bytes)
    requires 0 < |path| <= MAX_BIP32_PATH && WILDCARD !in path
    requires |PathText(path)| < |b| && Printed(b, n, PathText(path))
    ensures Accepts(path, |b|)
    ensures ParseAll(Split(b[..n])) == Some(path)
    ensures Decoded(Encoded(path) + rest) == Some(path) && |Encoded(path)| == 1 + 4 * |path|
  {
    LastPartLength(path);
    assert PathText(path)[..n] == PathText(path);
    ParseFormatted(path);
    DecodeEncoded(path, rest);
  }
}
