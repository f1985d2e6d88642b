/** What the text of a number conversion says to someone who reads it: a reader of its own, which
    knows nothing of how the text was made, gives the argument back. */
module PrintfReading {
  import opened Basics
  import opened Radix
  import opened Utf8
  import opened Printf

  const SPACE: u8 := 0x20

  // ---------------------------------------------------------------- the reader

  /** The value of a digit, decimal or hexadecimal, in either case; -1 for anything else. */
  function DigitValue(c: u8): int
  {
    if 0x30 <= c <= 0x39 then c - 0x30
    else if 0x61 <= c <= 0x66 then c - 0x61 + 10
    else if 0x41 <= c <= 0x46 then c - 0x41 + 10
    else -1
  }

  predicate AreDigits(s: Bytes, base: nat)
  {
    s != [] && forall i :: 0 <= i < |s| ==> 0 <= DigitValue(s[i]) < base
  }

  function ReadDigits(s: Bytes, base: nat): int
  {
    if s == [] then 0 else ReadDigits(s[..|s| - 1], base) * base + DigitValue(s[|s| - 1])
  }

  function SkipSpaces(s: Bytes): Bytes
  {
    if s != [] && s[0] == SPACE then SkipSpaces(s[1..]) else s
  }

  /** Blanks, a minus sign or none, and digits. */
  function ReadNumber(s: Bytes, base: nat): Option<int>
  {
    var t := SkipSpaces(s);
    if t != [] && t[0] == 0x2D then
      if AreDigits(t[1..], base) then Some(-ReadDigits(t[1..], base)) else None
    else if AreDigits(t, base) then Some(ReadDigits(t, base)) else None
  }

  // ---------------------------------------------------------------- digits

  lemma {:induction false} ReadsText(ds: seq<nat>, base: nat, cap: bool)
    requires base <= 16 && InBase(ds, base)
    ensures ReadDigits(TextOf(ds, cap), base) == Value(ds, base)
    ensures forall i :: 0 <= i < |ds| ==> DigitValue(TextOf(ds, cap)[i]) == ds[i]
  {
    if ds != [] {
      var front := ds[..|ds| - 1];
      ReadsText(front, base, cap);
      assert TextOf(ds, cap)[..|ds| - 1] == TextOf(front, cap);
      assert ReadDigits(TextOf(ds, cap), base) == ReadDigits(TextOf(front, cap), base) * base + ds[|ds| - 1];
    }
  }

  lemma {:induction false} ZerosRead(k: nat, s: Bytes, base: nat)
    ensures ReadDigits(Repeat(ZERO, k) + s, base) == ReadDigits(s, base)
    decreases |s| + k
  {
    var t := Repeat(ZERO, k) + s;
    if s != [] {
      assert t[..|t| - 1] == Repeat(ZERO, k) + s[..|s| - 1];
      ZerosRead(k, s[..|s| - 1], base);
    } else if k > 0 {
      assert t[..|t| - 1] == Repeat(ZERO, k - 1) + [];
      ZerosRead(k - 1, [], base);
      assert t[|t| - 1] == ZERO;
    }
  }

  lemma {:induction false} SpacesSkipped(k: nat, s: Bytes)
    requires s == [] || s[0] != SPACE
    ensures SkipSpaces(Repeat(SPACE, k) + s) == s
    decreases k
  {
    if k > 0 {
      assert (Repeat(SPACE, k) + s)[1..] == Repeat(SPACE, k - 1) + s;
      SpacesSkipped(k - 1, s);
    } else {
      assert Repeat(SPACE, 0) + s == s;
    }
  }

  // ---------------------------------------------------------------- layout

  ghost function DigitsText(v: nat, base: nat, cap: bool): (s: Bytes)
    requires 2 <= base <= 16
  {
    NumeralInBase(v, base);
    TextOf(Numeral(v, base), cap)
  }

  /** How many fill characters there are. */
  function Padding(width: nat, neg: bool, n: nat): nat
  {
    var need := n + if neg then 1 else 0;
    if width > need then width - need else 0
  }

  /** `t` is the digits `d` behind `k` fill characters; a minus sign stands before the zeros, but
      after the blanks. */
  ghost predicate LaidOut(t: Bytes, neg: bool, d: Bytes, k: nat, fill: u8)
  {
    t == if neg && fill == ZERO then [MINUS] + (Repeat(ZERO, k) + d)
         else Repeat(fill, k) + if neg then [MINUS] + d else d
  }

  lemma PrefixLaidOut(neg: bool, d: Bytes, width: nat, fill: u8)
    ensures LaidOut(Prefix(neg, |d|, width, fill) + d, neg, d, Padding(width, neg, |d|), fill)
  {
    var pad := Repeat(fill, Padding(width, neg, |d|));
    assert [MINUS] + pad + d == [MINUS] + (pad + d);
    assert pad + [MINUS] + d == pad + ([MINUS] + d);
    assert pad + [] + d == pad + d;
  }

  /** The text is as long as the digits and the sign need, or as the width asks for, and it is laid
      out as printf promises. */
  lemma Layout(neg: bool, v: nat, base: nat, cap: bool, width: nat, fill: u8)
    requires 2 <= base <= 16
    ensures var d, t := DigitsText(v, base, cap), NumberText(neg, v, base, cap, width, fill);
            var need := |d| + if neg then 1 else 0;
            && d != [] && |t| == (if width > need then width else need)
            && LaidOut(t, neg, d, Padding(width, neg, |d|), fill)
  {
    NumberDenotes(v, base);
    var d := DigitsText(v, base, cap);
    PrefixLaidOut(neg, d, width, fill);
    assert |Prefix(neg, |d|, width, fill)| == Padding(width, neg, |d|) + if neg then 1 else 0;
  }

  /** Read in its base, with any width and either fill, the text is the number. */
  lemma NumberReads(neg: bool, v: nat, base: nat, cap: bool, width: nat, fill: u8)
    requires 2 <= base <= 16 && (fill == SPACE || fill == ZERO)
    ensures ReadNumber(NumberText(neg, v, base, cap, width, fill), base) == Some(Negated(neg, v))
  {
    Layout(neg, v, base, cap, width, fill);
    DigitsRead(v, base, cap);
    var d := DigitsText(v, base, cap);
    LaidOutReads(NumberText(neg, v, base, cap, width, fill), neg, d, base, Padding(width, neg, |d|), fill);
  }

  function Negated(neg: bool, v: int): int
  {
    if neg then -v else v
  }

  /** The digits denote the value, with no zero in front of another digit. */
  lemma DigitsRead(v: nat, base: nat, cap: bool)
    requires 2 <= base <= 16
    ensures var d := DigitsText(v, base, cap);
            AreDigits(d, base) && ReadDigits(d, base) == v && (|d| == 1 || d[0] != ZERO)
  {
    NumberDenotes(v, base);
    ReadsText(Numeral(v, base), base, cap);
  }

  lemma LaidOutReads(t: Bytes, neg: bool, d: Bytes, base: nat, k: nat, fill: u8)
    requires AreDigits(d, base) && (fill == SPACE || fill == ZERO) && LaidOut(t, neg, d, k, fill)
    ensures ReadNumber(t, base) == Some(Negated(neg, ReadDigits(d, base)))
  {
    if fill == SPACE {
      SignedRead(neg, d, base, k);
    } else {
      ZerosAreDigits(k, d, base);
      ZerosRead(k, d, base);
      var z := Repeat(ZERO, k) + d;
      var s := if neg then [MINUS] + z else z;
      SignedRead(neg, z, base, 0);
      assert Repeat(SPACE, 0) + s == s;
    }
  }

  lemma SignedRead(neg: bool, d: Bytes, base: nat, k: nat)
    requires AreDigits(d, base)
    ensures ReadNumber(Repeat(SPACE, k) + (if neg then [MINUS] + d else d), base) == Some(Negated(neg, ReadDigits(d, base)))
  {
    var s := if neg then [MINUS] + d else d;
    assert 0 <= DigitValue(d[0]);
    SpacesSkipped(k, s);
    assert neg ==> s[1..] == d;
  }

  lemma ZerosAreDigits(k: nat, d: Bytes, base: nat)
    requires AreDigits(d, base)
    ensures AreDigits(Repeat(ZERO, k) + d, base)
  {
    var z := Repeat(ZERO, k) + d;
    assert 0 <= DigitValue(d[0]) < base;
    forall i | 0 <= i < |z| ensures 0 <= DigitValue(z[i]) < base {
      assert z[i] == if i < k then ZERO else d[i - k];
    }
  }

  // ---------------------------------------------------------------- the conversions

  /** %d and %lld print the number that they are given, in decimal. */
  lemma SignedReads(n: int, width: nat, fill: u8, word: nat)
    requires fill == SPACE || fill == ZERO
    ensures ReadNumber(PieceText(Signed(n, width, fill, word)), 10) == Some(n)
  {
    NumberReads(n < 0, if n < 0 then -n else n, 10, false, width, fill);
  }

  /** The minus sign stands there exactly for negative numbers. */
  lemma SignStands(n: int, width: nat, fill: u8, word: nat)
    requires fill == SPACE || fill == ZERO
    ensures MINUS in PieceText(Signed(n, width, fill, word)) <==> n < 0
  {
    NumberSign(n < 0, if n < 0 then -n else n, width, fill);
  }

  lemma NumberSign(neg: bool, v: nat, width: nat, fill: u8)
    requires fill == SPACE || fill == ZERO
    ensures MINUS in NumberText(neg, v, 10, false, width, fill) <==> neg
  {
    Layout(neg, v, 10, false, width, fill);
    DigitsRead(v, 10, false);
    var d := DigitsText(v, 10, false);
    SignLaidOut(NumberText(neg, v, 10, false, width, fill), neg, d, Padding(width, neg, |d|), fill);
  }

  lemma SignLaidOut(t: Bytes, neg: bool, d: Bytes, k: nat, fill: u8)
    requires AreDigits(d, 10) && fill != MINUS && LaidOut(t, neg, d, k, fill)
    ensures MINUS in t <==> neg
  {
    forall i | 0 <= i < |d| ensures d[i] != MINUS { assert DigitValue(d[i]) >= 0; }
    if neg { assert t[if fill == ZERO then 0 else k] == MINUS; }
  }

  /** %u and %llu likewise. */
  lemma UnsignedReads(v: nat, width: nat, fill: u8, word: nat)
    requires fill == SPACE || fill == ZERO
    ensures ReadNumber(PieceText(Unsigned(v, width, fill, word)), 10) == Some(v)
  {
    NumberReads(false, v, 10, false, width, fill);
  }

  /** %x and %X print it in hexadecimal. */
  lemma HexReads(v: nat, cap: bool, width: nat, fill: u8, word: nat)
    requires fill == SPACE || fill == ZERO
    ensures ReadNumber(PieceText(Hex(v, cap, width, fill, word)), 16) == Some(v)
  {
    NumberReads(false, v, 16, cap, width, fill);
  }

  /** A character of a hexadecimal numeral: a blank, a digit, or a letter of the case asked for. */
  predicate IsHexCharacter(c: u8, cap: bool)
  {
    c == SPACE || 0x30 <= c <= 0x39 || if cap then 0x41 <= c <= 0x46 else 0x61 <= c <= 0x66
  }

  /** With the letters of %x in lower case and those of %X in upper case. */
  lemma HexLetters(v: nat, cap: bool, width: nat, fill: u8, word: nat)
    requires fill == SPACE || fill == ZERO
    ensures forall c :: c in PieceText(Hex(v, cap, width, fill, word)) ==> IsHexCharacter(c, cap)
  {
    Layout(false, v, 16, cap, width, fill);
    NumeralInBase(v, 16);
    HexText(Numeral(v, 16), cap);
    var d := DigitsText(v, 16, cap);
    BehindFill(fill, Padding(width, false, |d|), d, cap);
  }

  lemma HexText(ds: seq<nat>, cap: bool)
    requires InBase(ds, 16)
    ensures forall c :: c in TextOf(ds, cap) ==> IsHexCharacter(c, cap)
  {
    forall i | 0 <= i < |ds| ensures IsHexCharacter(TextOf(ds, cap)[i], cap) {
      assert TextOf(ds, cap)[i] == HexDigit(ds[i], cap);
    }
  }

  lemma BehindFill(fill: u8, k: nat, d: Bytes, cap: bool)
    requires (fill == SPACE || fill == ZERO) && forall c :: c in d ==> IsHexCharacter(c, cap)
    ensures forall c :: c in Repeat(fill, k) + d ==> IsHexCharacter(c, cap)
  {
  }
}
