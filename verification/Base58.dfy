/** The base 58 codec of lib_standard_app: in-place radix conversion against the numeral of
    the same integer. */
module Base58 {
  import opened Basics
  import opened Radix

  const MAX_DEC_INPUT_SIZE := 164
  const MAX_ENC_INPUT_SIZE := 120
  const NO_DIGIT := 0xFF

  /** BASE58_TABLE, as the six runs of the alphabet; NO_DIGIT elsewhere. */
  function DigitOf(c: char): nat
  {
    if '1' <= c <= '9' then c as int - '1' as int
    else if 'A' <= c <= 'H' then c as int - 'A' as int + 9
    else if 'J' <= c <= 'N' then c as int - 'J' as int + 17
    else if 'P' <= c <= 'Z' then c as int - 'P' as int + 22
    else if 'a' <= c <= 'k' then c as int - 'a' as int + 33
    else if 'm' <= c <= 'z' then c as int - 'm' as int + 44
    else NO_DIGIT
  }

  /** BASE58_ALPHABET. */
  function CharOf(d: nat): char
    requires d < 58
  {
    if d < 9 then '1' + d as char
    else if d < 17 then 'A' + (d - 9) as char
    else if d < 22 then 'J' + (d - 17) as char
    else if d < 33 then 'P' + (d - 22) as char
    else if d < 44 then 'a' + (d - 33) as char
    else 'm' + (d - 44) as char
  }

  lemma Alphabet(d: nat, c: char)
    requires d < 58
    ensures DigitOf(CharOf(d)) == d
    ensures DigitOf(c) != NO_DIGIT ==> DigitOf(c) < 58 && CharOf(DigitOf(c)) == c
  {
  }

  const ALPHABET := "123456789" + ("ABCDEFGH" + ("JKLMN" + ("PQRSTUVWXYZ" + ("abcdefghijk" + "mnopqrstuvwxyz"))))

  /** The characters of `run` follow one another. */
  predicate IsRun(run: string, first: char)
  {
    forall i :: 0 <= i < |run| ==> run[i] as int == first as int + i
  }

  lemma AlphabetRuns()
    ensures IsRun("123456789", '1') && IsRun("ABCDEFGH", 'A') && IsRun("JKLMN", 'J')
    ensures IsRun("PQRSTUVWXYZ", 'P') && IsRun("abcdefghijk", 'a') && IsRun("mnopqrstuvwxyz", 'm')
  {
  }

  /** The digits in order are the 58 characters of the Bitcoin alphabet. */
  lemma LiteralAlphabet(d: nat)
    requires d < 58
    ensures |ALPHABET| == 58 && CharOf(d) == ALPHABET[d]
  {
    AlphabetRuns();
  }

  /** No other character is a digit. */
  lemma OnlyAlphabet(c: char)
    ensures DigitOf(c) == NO_DIGIT <==> c !in ALPHABET
  {
    LiteralAlphabet(0);
    if DigitOf(c) != NO_DIGIT {
      Alphabet(0, c);
      LiteralAlphabet(DigitOf(c));
    } else if c in ALPHABET {
      var d :| 0 <= d < |ALPHABET| && ALPHABET[d] == c;
      LiteralAlphabet(d);
      Alphabet(d, c);
    }
  }

  // ---------------------------------------------------------------- reference definitions

  function LeadingZeros(s: seq<nat>): (k: nat)
    ensures k <= |s| && (forall i :: 0 <= i < k ==> s[i] == 0) && Minimal(s[k..])
  {
    if s == [] || s[0] != 0 then 0 else
      var k := LeadingZeros(s[1..]);
      assert forall i :: 1 <= i < k + 1 ==> s[i] == s[1..][i - 1];
      assert s[1..][k..] == s[k + 1..];
      k + 1
  }

  /** The change of base both directions share: leading zeros one for one, then the numeral in
      base `c` of the integer that `s` stands for in base `b`. */
  ghost function Recode(s: seq<nat>, b: nat, c: nat): seq<nat>
    requires c >= 2
  {
    Zeros(LeadingZeros(s)) + Digits(Value(s, b), c)
  }

  function Text(digits: seq<nat>): string
    requires forall i :: 0 <= i < |digits| ==> digits[i] < 58
  {
    seq(|digits|, i requires 0 <= i < |digits| => CharOf(digits[i]))
  }

  function DigitsOfText(text: string): seq<nat>
  {
    seq(|text|, i requires 0 <= i < |text| => DigitOf(text[i]))
  }

  /** Section 3 of draft-msporny-base58-02: a '1' for each leading zero byte, then the base 58
      numeral of the integer the bytes stand for. */
  ghost function Encoding(bytes: seq<nat>): string
  {
    DigitsOf(Value(bytes, 256), 58);
    Text(Recode(bytes, 256, 58))
  }

  ghost predicate Decodable(text: string)
  {
    2 <= |text| <= MAX_DEC_INPUT_SIZE && forall i :: 0 <= i < |text| ==> DigitOf(text[i]) != NO_DIGIT
  }

  /** Section 4 of the draft: a zero byte for each leading '1', then the bytes of the integer. */
  ghost function Decoding(text: string): seq<nat>
  {
    Recode(DigitsOfText(text), 58, 256)
  }

  // ---------------------------------------------------------------- how many digits suffice

  lemma EightBytes()
    ensures Pow(256, 8) <= Pow(58, 11)
    ensures Pow(256, 1) <= Pow(58, 2) && Pow(256, 2) <= Pow(58, 3) && Pow(256, 3) <= Pow(58, 5)
    ensures Pow(256, 4) <= Pow(58, 6) && Pow(256, 5) <= Pow(58, 7) && Pow(256, 6) <= Pow(58, 9)
    ensures Pow(256, 7) <= Pow(58, 10)
  {
    assert Pow(256, 2) == 0x1_0000 && Pow(256, 4) == 0x1_0000_0000 && Pow(256, 6) == 0x1_0000_0000_0000;
    assert Pow(58, 2) == 3364 && Pow(58, 4) == 11316496 && Pow(58, 6) == 38068692544;
    assert Pow(58, 8) == 128063081718016 && Pow(58, 10) == 430804206899405824;
  }

  /** 256^k <= 58^(138k/100 + 1): the encoder's buffer holds any k bytes. */
  lemma {:induction false} DigitsSuffice(k: nat)
    ensures Pow(256, k) <= Pow(58, k * 138 / 100 + 1)
    decreases k
  {
    EightBytes();
    if k < 8 {
      PowMonotone(58, 0, 1);
    } else {
      DigitsSuffice(k - 8);
      PowAdd(256, 8, k - 8);
      PowAdd(58, 11, (k - 8) * 138 / 100 + 1);
      MulMono(Pow(256, 8), Pow(58, 11), Pow(256, k - 8), Pow(58, (k - 8) * 138 / 100 + 1));
      PowMonotone(58, 11 + ((k - 8) * 138 / 100 + 1), k * 138 / 100 + 1);
    }
  }

  // ---------------------------------------------------------------- base58_encode

  lemma SuffixStep(s: seq<nat>, j: nat, b: nat)
    requires j < |s|
    ensures Value(s[j..], b) == s[j] * Pow(b, |s| - 1 - j) + Value(s[j + 1..], b)
  {
    assert s[j..] == [s[j]] + s[j + 1..];
    ValueCons(s[j], s[j + 1..], b);
  }

  lemma LeadingZerosIgnored(s: seq<nat>, j: nat, b: nat)
    requires j <= |s| && forall i :: 0 <= i < j ==> s[i] == 0
    ensures Value(s, b) == Value(s[j..], b)
  {
    assert s == Zeros(j) + s[j..];
    ZerosValue(j, s[j..], b);
  }

  /** One digit of the long multiplication: what leaves the digit is what the carry gains. */
  lemma CarryStep(old_: nat, carry: nat, p: nat, rest: nat, restOld: nat, x: nat)
    requires rest + carry * p == 256 * restOld + x
    ensures var t := carry + 256 * old_;
            (t % 58) * p + rest + (t / 58) * (58 * p) == 256 * (old_ * p + restOld) + x
  {
    var t := carry + 256 * old_;
    var q, d := t / 58, t % 58;
    calc {
      d * p + rest + q * (58 * p);
      d * p + q * 58 * p + rest;
      (d + q * 58) * p + rest;
      t * p + rest;
      carry * p + 256 * old_ * p + rest;
      256 * (old_ * p) + 256 * restOld + x;
    }
  }

  /** The digits from `k` on, together with the carry, hold 256 times the old ones plus `x`. */
  ghost predicate Multiplied(s: seq<nat>, was: seq<nat>, k: nat, carry: nat, x: nat)
  {
    && k <= |s| == |was|
    && Value(s[k..], 58) + carry * Pow(58, |s| - k) == 256 * Value(was[k..], 58) + x
  }

  lemma MulStep(s: seq<nat>, s': seq<nat>, was: seq<nat>, k: nat, carry: nat, x: nat)
    requires k < |s| == |was| && Multiplied(s, was, k + 1, carry, x)
    requires s' == s[k := (carry + 256 * was[k]) % 58]
    ensures Multiplied(s', was, k, (carry + 256 * was[k]) / 58, x)
  {
    assert s'[k + 1..] == s[k + 1..];
    SuffixStep(s', k, 58);
    SuffixStep(was, k, 58);
    CarryStep(was[k], carry, Pow(58, |s| - 1 - k), Value(s[k + 1..], 58), Value(was[k + 1..], 58), x);
  }

  lemma MulDone(s: seq<nat>, was: seq<nat>, k: nat, x: nat)
    requires Multiplied(s, was, k, 0, x) && forall i :: 0 <= i < k ==> s[i] == was[i] == 0
    ensures Value(s, 58) == 256 * Value(was, 58) + x
  {
    LeadingZerosIgnored(s, k, 58);
    LeadingZerosIgnored(was, k, 58);
  }

  /** A carry out of the first digit would be worth too much. */
  lemma NoOverflow(s: seq<nat>, was: seq<nat>, carry: nat, x: nat)
    requires Multiplied(s, was, 0, carry, x) && 256 * Value(was, 58) + x < Pow(58, |s|)
    ensures carry == 0
  {
    assert s[0..] == s && was[0..] == was;
    if carry > 0 { MulGrows(carry, Pow(58, |s|)); }
  }

  /** One step of the inner loop. */
  method MulDigit(buffer: array<nat>, ghost was: seq<nat>, j: nat, carry: nat, ghost x: nat) returns (carry': nat)
    requires j < buffer.Length == |was| && buffer[j] == was[j] < 58 && carry < 256 && InBase(buffer[..], 58)
    requires Multiplied(buffer[..], was, j + 1, carry, x)
    modifies buffer
    ensures carry' < 256 && InBase(buffer[..], 58) && Multiplied(buffer[..], was, j, carry', x)
    ensures forall i :: 0 <= i < buffer.Length && i != j ==> buffer[i] == old(buffer[i])
    ensures was[j] == 0 && carry' == 0 ==> buffer[j] == carry
  {
    ghost var s := buffer[..];
    var t := carry + 256 * buffer[j];
    buffer[j] := t % 58;
    carry' := t / 58;
    assert buffer[..] == s[j := buffer[j]];
    MulStep(s, buffer[..], was, j, carry, x);
  }

  /** The inner loop of the encoder: multiplies the numeral by 256 and adds a byte, from the
      last digit on, and stops early at some digit left of `stopAt` once nothing is carried.
      Returns where it stopped. The guard `j >= 0` of the loop never ends it: at j == 0 at the
      latest nothing is carried, so the index cannot wrap around. */
  method MulAdd(buffer: array<nat>, x: u8, stopAt: nat) returns (j: nat)
    requires 1 <= stopAt < buffer.Length && InBase(buffer[..], 58)
    requires forall i :: 0 <= i < stopAt ==> buffer[i] == 0
    requires 256 * Value(buffer[..], 58) + x < Pow(58, buffer.Length)
    modifies buffer
    ensures InBase(buffer[..], 58) && Value(buffer[..], 58) == 256 * old(Value(buffer[..], 58)) + x
    ensures j < stopAt && (forall i :: 0 <= i < j ==> buffer[i] == 0)
    ensures j == stopAt - 1 || buffer[j] != 0
  {
    ghost var was := buffer[..];
    j := buffer.Length - 1;
    var carry: nat := x;
    while true
      invariant j < buffer.Length && carry < 256 && InBase(buffer[..], 58)
      invariant forall i :: 0 <= i <= j ==> buffer[i] == was[i]
      invariant Multiplied(buffer[..], was, j + 1, carry, x)
      invariant j + 1 < stopAt ==> carry != 0
      decreases j
    {
      carry := MulDigit(buffer, was, j, carry, x);
      if j <= stopAt - 1 && carry == 0 {
        MulDone(buffer[..], was, j, x);
        return;
      }
      if j == 0 { NoOverflow(buffer[..], was, carry, x); }
      j := j - 1;
    }
  }

  function BufferSize(n: nat): nat
  {
    n * 138 / 100 + 1
  }

  /** A numeral of `t` digits with a nonzero first one is no wider than its bytes allow. */
  lemma WidthBound(s: seq<nat>, t: nat, k: nat)
    requires 0 < t <= |s| && InBase(s, 58) && (forall i :: 0 <= i < |s| - t ==> s[i] == 0) && s[|s| - t] != 0
    requires Value(s, 58) < Pow(256, k)
    ensures t <= BufferSize(k)
  {
    LeadingZerosIgnored(s, |s| - t, 58);
    LeadingDigit(s[|s| - t..], 58);
    DigitsSuffice(k);
    PowLess(58, t - 1, BufferSize(k));
  }

  lemma PrefixValue(bytes: seq<nat>, from: nat, i: nat, n: nat)
    requires from <= i < |bytes| && InBase(bytes, 256) && n == |bytes| - from
    ensures Value(bytes[from..i + 1], 256) == 256 * Value(bytes[from..i], 256) + bytes[i]
    ensures Value(bytes[from..i + 1], 256) < Pow(256, i + 1 - from) <= Pow(58, BufferSize(n))
  {
    assert bytes[from..i + 1] == bytes[from..i] + [bytes[i]];
    ValueSnoc(bytes[from..i], bytes[i], 256);
    ValueBound(bytes[from..i + 1], 256);
    PowMonotone(256, i + 1 - from, n);
    DigitsSuffice(n);
  }

  /** The outer loop of the encoder: the numeral in `buffer` takes in one byte after another. */
  method Convert(bytes: seq<u8>, zeroCount: nat) returns (buffer: array<nat>)
    requires zeroCount <= |bytes|
    ensures fresh(buffer) && InBase(buffer[..], 58) && Value(buffer[..], 58) == Value(bytes[zeroCount..], 256)
  {
    var outputSize := BufferSize(|bytes| - zeroCount);
    buffer := new nat[outputSize](_ => 0);
    var stopAt := outputSize - 1;
    LeadingZerosIgnored(buffer[..], outputSize, 58);
    assert bytes[zeroCount..zeroCount] == [];
    for i := zeroCount to |bytes|
      invariant fresh(buffer) && buffer.Length == outputSize
      invariant TakenIn(buffer[..], bytes[zeroCount..i], stopAt)
    {
      stopAt := TakeIn(buffer, bytes, zeroCount, i, stopAt);
    }
    assert bytes[zeroCount..|bytes|] == bytes[zeroCount..];
  }

  /** The numeral `s` stands for the bytes taken in so far and has no digit left of `stopAt`; it
      is no wider than those bytes allow. */
  ghost predicate TakenIn(s: seq<nat>, bytes: seq<u8>, stopAt: nat)
  {
    && InBase(s, 58) && Value(s, 58) == Value(bytes, 256)
    && stopAt < |s| <= stopAt + BufferSize(|bytes|)
    && forall k :: 0 <= k < stopAt ==> s[k] == 0
  }

  lemma BufferGrows(k: nat, n: nat)
    requires k < n
    ensures BufferSize(k) < BufferSize(n)
  {
  }

  /** One byte more. */
  method TakeIn(buffer: array<nat>, bytes: seq<u8>, from: nat, i: nat, stopAt: nat) returns (j: nat)
    requires from <= i < |bytes| && buffer.Length == BufferSize(|bytes| - from)
    requires TakenIn(buffer[..], bytes[from..i], stopAt)
    modifies buffer
    ensures TakenIn(buffer[..], bytes[from..i + 1], j)
  {
    BufferGrows(i - from, |bytes| - from);
    BufferGrows(i - from, i + 1 - from);
    PrefixValue(bytes, from, i, |bytes| - from);
    j := MulAdd(buffer, bytes[i], stopAt);
    if j < stopAt - 1 {
      WidthBound(buffer[..], buffer.Length - j, i + 1 - from);
    }
  }

  lemma LeadingZerosIs(s: seq<nat>, k: nat)
    requires k <= |s| && (forall i :: 0 <= i < k ==> s[i] == 0) && Minimal(s[k..])
    ensures k == LeadingZeros(s)
  {
    var z := LeadingZeros(s);
    assert (k < |s| ==> s[k..][0] == s[k]) && (z < |s| ==> s[z..][0] == s[z]);
  }

  method CountZeros(s: seq<nat>) returns (k: nat)
    ensures k == LeadingZeros(s)
  {
    k := 0;
    while k < |s| && s[k] == 0
      invariant k <= |s| && forall i :: 0 <= i < k ==> s[i] == 0
    {
      k := k + 1;
    }
    LeadingZerosIs(s, k);
  }

  /** The conversion part of the encoder: leading zero bytes, and the digits of the rest. */
  method EncodeDigits(bytes: seq<u8>) returns (zeroCount: nat, digits: seq<nat>)
    ensures zeroCount == LeadingZeros(bytes) && digits == Digits(Value(bytes, 256), 58) && InBase(digits, 58)
  {
    zeroCount := CountZeros(bytes);
    var buffer := Convert(bytes, zeroCount);
    LeadingZerosIgnored(bytes, zeroCount, 256);
    var j := CountZeros(buffer[..]);
    StripZeros(buffer[..], j, 58);
    digits := buffer[..][j..];
  }

  method Encode(bytes: seq<u8>, out: array<char>) returns (r: int)
    modifies out
    ensures r == -1 <==> |bytes| > MAX_ENC_INPUT_SIZE || out.Length < |Encoding(bytes)|
    ensures r == -1 ==> out[..] == old(out[..])
    ensures r != -1 ==> r == |Encoding(bytes)| && out[..r] == Encoding(bytes) && out[r..] == old(out[r..])
  {
    if |bytes| > MAX_ENC_INPUT_SIZE {
      return -1;
    }
    var zeroCount, digits := EncodeDigits(bytes);
    ghost var all := Zeros(zeroCount) + digits;
    assert all == Recode(bytes, 256, 58);
    if out.Length < zeroCount + |digits| {
      return -1;
    }
    forall i | 0 <= i < zeroCount {
      out[i] := CharOf(0);
    }
    var j := 0;
    while j < |digits|
      invariant j <= |digits|
      invariant forall k :: 0 <= k < zeroCount + j ==> out[k] == CharOf(all[k])
      invariant forall k :: zeroCount + j <= k < out.Length ==> out[k] == old(out[k])
    {
      out[zeroCount + j] := CharOf(digits[j]);
      j := j + 1;
    }
    return zeroCount + j;
  }

  // ---------------------------------------------------------------- base58_decode

  lemma DivStep(q: nat, rem: nat, was: nat, d: nat)
    requires q * 256 + rem == was
    ensures var t := rem * 58 + d;
            (q * 58 + t / 256) * 256 + t % 256 == was * 58 + d
  {
  }

  /** The digits from `from` up to `i` hold the quotient by 256 of the old ones. */
  ghost predicate Divided(s: seq<nat>, was: seq<nat>, from: nat, i: nat, rem: nat)
  {
    from <= i <= |s| == |was| && Value(s[from..i], 58) * 256 + rem == Value(was[from..i], 58)
  }

  lemma DividedStep(s: seq<nat>, s': seq<nat>, was: seq<nat>, from: nat, i: nat, rem: nat)
    requires i < |s| == |was| && Divided(s, was, from, i, rem)
    requires s' == s[i := (rem * 58 + was[i]) / 256]
    ensures Divided(s', was, from, i + 1, (rem * 58 + was[i]) % 256)
  {
    assert s'[from..i + 1] == s[from..i] + [s'[i]];
    assert was[from..i + 1] == was[from..i] + [was[i]];
    ValueSnoc(s[from..i], s'[i], 58);
    ValueSnoc(was[from..i], was[i], 58);
    DivStep(Value(s[from..i], 58), rem, Value(was[from..i], 58), was[i]);
  }

  /** One round of the decoder: long division of the numeral by 256, in place. It always clears
      the first digit. */
  method DivideBy256(tmp: array<nat>, startAt: nat) returns (remainder: u8)
    requires startAt < tmp.Length && InBase(tmp[..], 58)
    modifies tmp
    ensures InBase(tmp[..], 58) && tmp[startAt] == 0 && tmp[..startAt] == old(tmp[..startAt])
    ensures Value(tmp[startAt..], 58) * 256 + remainder == old(Value(tmp[startAt..], 58))
  {
    ghost var was := tmp[..];
    remainder := 0;
    for i := startAt to tmp.Length
      invariant InBase(tmp[..], 58) && (forall k :: 0 <= k < startAt || i <= k < tmp.Length ==> tmp[k] == was[k])
      invariant Divided(tmp[..], was, startAt, i, remainder)
      invariant i == startAt ==> remainder == 0
      invariant i > startAt ==> tmp[startAt] == 0
    {
      ghost var s := tmp[..];
      var t := remainder * 58 + tmp[i];
      ghost var q: nat := t / 256;
      DividedStep(s, s[i := q], was, startAt, i, remainder);
      tmp[i] := t / 256;
      remainder := t % 256;
      assert tmp[..] == s[i := q];
    }
    assert tmp[..][startAt..tmp.Length] == tmp[startAt..] && was[startAt..tmp.Length] == was[startAt..];
  }

  /** The quotient rounds conserve the integer: what is left in `s` and the bytes taken so far. */
  ghost predicate Taken(s: seq<nat>, from: nat, bytes: seq<nat>, j: nat, v: nat)
  {
    from <= |s| && j <= |bytes| && Value(s[from..], 58) * Pow(256, |bytes| - j) + Value(bytes[j..], 256) == v
  }

  lemma Regroup(q: nat, rem: nat, p: nat)
    ensures (q * 256 + rem) * p == q * (256 * p) + rem * p
  {
    assert (q * 256 + rem) * p == q * 256 * p + rem * p;
  }

  lemma TakeByte(s: seq<nat>, s': seq<nat>, from: nat, bytes: seq<nat>, bytes': seq<nat>, j: nat, rem: nat, v: nat)
    requires Taken(s, from, bytes, j, v) && 0 < j <= |bytes| && from < |s| == |s'|
    requires Value(s'[from..], 58) * 256 + rem == Value(s[from..], 58) && s'[from] == 0
    requires bytes' == bytes[j - 1 := rem]
    ensures Taken(s', from + 1, bytes', j - 1, v)
  {
    assert bytes'[j..] == bytes[j..];
    SuffixStep(bytes', j - 1, 256);
    SuffixStep(s', from, 58);
    Regroup(Value(s'[from + 1..], 58), rem, Pow(256, |bytes| - j));
  }

  /** One round, seen on the whole state. */
  method TakeRound(tmp: array<nat>, buffer: array<nat>, startAt: nat, j: nat, ghost v: nat)
    requires tmp != buffer && startAt < tmp.Length && 0 < j <= buffer.Length
    requires InBase(tmp[..], 58) && InBase(buffer[..], 256) && Taken(tmp[..], startAt, buffer[..], j, v)
    modifies tmp, buffer
    ensures InBase(tmp[..], 58) && InBase(buffer[..], 256) && tmp[startAt] == 0
    ensures Taken(tmp[..], startAt + 1, buffer[..], j - 1, v)
    ensures forall i :: 0 <= i < j - 1 ==> buffer[i] == old(buffer[i])
  {
    ghost var s, b := tmp[..], buffer[..];
    assert s[startAt..] == tmp[startAt..];
    var remainder := DivideBy256(tmp, startAt);
    assert tmp[..][startAt..] == tmp[startAt..];
    buffer[j - 1] := remainder;
    assert buffer[..] == b[j - 1 := remainder];
    TakeByte(s, tmp[..], startAt, b, buffer[..], j, remainder, v);
  }

  /** The rounds of the decoder: exactly one for each digit behind the leading zeros. */
  method DecodeDigits(tmp: array<nat>, zeroCount: nat) returns (buffer: array<nat>, ghost rounds: nat)
    requires zeroCount <= tmp.Length && InBase(tmp[..], 58)
    modifies tmp
    ensures fresh(buffer) && buffer.Length == tmp.Length && InBase(buffer[..], 256)
    ensures Value(buffer[zeroCount..], 256) == old(Value(tmp[zeroCount..], 58))
    ensures forall i :: 0 <= i < zeroCount ==> buffer[i] == 0
    ensures rounds == tmp.Length - zeroCount
  {
    rounds := 0;
    ghost var v := Value(tmp[..][zeroCount..], 58);
    var n := tmp.Length;
    buffer := new nat[n](_ => 0);
    var j, startAt := n, zeroCount;
    assert tmp[zeroCount..] == tmp[..][zeroCount..];
    NoneTaken(tmp[..], zeroCount, buffer[..]);
    while startAt < n
      invariant zeroCount <= startAt <= n && n - j == startAt - zeroCount == rounds
      invariant InBase(tmp[..], 58) && InBase(buffer[..], 256)
      invariant forall i :: 0 <= i < j ==> buffer[i] == 0
      invariant Taken(tmp[..], startAt, buffer[..], j, v)
    {
      TakeRound(tmp, buffer, startAt, j, v);
      if tmp[startAt] == 0 {
        startAt := startAt + 1;
      }
      j := j - 1;
      rounds := rounds + 1;
    }
    AllTaken(tmp[..], buffer[..], zeroCount, v);
    assert buffer[..][zeroCount..] == buffer[zeroCount..];
  }

  lemma NoneTaken(s: seq<nat>, from: nat, bytes: seq<nat>)
    requires from <= |s|
    ensures Taken(s, from, bytes, |bytes|, Value(s[from..], 58))
  {
    assert bytes[|bytes|..] == [];
  }

  lemma AllTaken(s: seq<nat>, bytes: seq<nat>, j: nat, v: nat)
    requires Taken(s, |s|, bytes, j, v)
    ensures Value(bytes[j..], 256) == v
  {
    assert s[|s|..] == [];
  }

  /** The table lookups of the decoder; `ok` is false when a character is not in the alphabet. */
  method Lookup(text: string) returns (tmp: array<nat>, ok: bool)
    ensures ok <==> forall i :: 0 <= i < |text| ==> DigitOf(text[i]) != NO_DIGIT
    ensures fresh(tmp) && (ok ==> tmp[..] == DigitsOfText(text) && InBase(tmp[..], 58))
  {
    tmp, ok := new nat[|text|](_ => 0), true;
    var i := 0;
    while i < |text|
      invariant i <= |text| == tmp.Length
      invariant forall k :: 0 <= k < i ==> tmp[k] == DigitOf(text[k]) < 58
    {
      Alphabet(0, text[i]);
      if text[i] as int >= 128 {
        return tmp, false;
      }
      tmp[i] := DigitOf(text[i]);
      if tmp[i] == NO_DIGIT {
        return tmp, false;
      }
      i := i + 1;
    }
  }

  lemma ZerosInFront(s: seq<nat>, z: nat, j: nat)
    requires z <= j <= |s| && forall i :: 0 <= i < j ==> s[i] == 0
    ensures s[j - z..] == Zeros(z) + s[j..] && s[z..] == Zeros(j - z) + s[j..]
  {
  }

  /** The bytes the decoder copies out: `zeroCount` zeros in front of the first nonzero byte. */
  lemma DecodedSlice(buffer: seq<nat>, zeroCount: nat, j: nat)
    requires zeroCount <= j <= |buffer| && InBase(buffer, 256)
    requires (forall i :: 0 <= i < j ==> buffer[i] == 0) && Minimal(buffer[j..])
    ensures buffer[j - zeroCount..] == Zeros(zeroCount) + Digits(Value(buffer[zeroCount..], 256), 256)
  {
    ZerosInFront(buffer, zeroCount, j);
    ZerosValue(j - zeroCount, buffer[j..], 256);
    DigitsUnique(buffer[j..], 256);
  }

  method SkipZeros(buffer: array<nat>, from: nat) returns (j: nat)
    requires from <= buffer.Length && forall i :: 0 <= i < from ==> buffer[i] == 0
    ensures from <= j <= buffer.Length && (forall i :: 0 <= i < j ==> buffer[i] == 0) && Minimal(buffer[..][j..])
  {
    j := from;
    while j < buffer.Length && buffer[j] == 0
      invariant from <= j <= buffer.Length && forall i :: 0 <= i < j ==> buffer[i] == 0
    {
      j := j + 1;
    }
  }

  /** The conversion part of the decoder. */
  method DecodeBytes(tmp: array<nat>) returns (bytes: seq<nat>)
    requires InBase(tmp[..], 58)
    modifies tmp
    ensures bytes == Recode(old(tmp[..]), 58, 256)
  {
    var zeroCount := CountZeros(tmp[..]);
    LeadingZerosIgnored(tmp[..], zeroCount, 58);
    assert tmp[..][zeroCount..] == tmp[zeroCount..];
    var buffer, _ := DecodeDigits(tmp, zeroCount);
    assert buffer[..][zeroCount..] == buffer[zeroCount..];
    var j := SkipZeros(buffer, zeroCount);
    DecodedSlice(buffer[..], zeroCount, j);
    bytes := buffer[..][j - zeroCount..];
  }

  method Decode(text: string, out: array<nat>) returns (r: int)
    modifies out
    ensures r == -1 <==> !Decodable(text) || out.Length < |Decoding(text)|
    ensures r == -1 ==> out[..] == old(out[..])
    ensures r != -1 ==> r == |Decoding(text)| && out[..r] == Decoding(text) && out[r..] == old(out[r..])
  {
    if |text| > MAX_DEC_INPUT_SIZE || |text| < 2 {
      return -1;
    }
    var tmp, ok := Lookup(text);
    if !ok {
      return -1;
    }
    var bytes := DecodeBytes(tmp);
    if out.Length < |bytes| {
      return -1;
    }
    forall i | 0 <= i < |bytes| {
      out[i] := bytes[i];
    }
    return |bytes|;
  }

  // ---------------------------------------------------------------- round trips

  lemma {:induction false} ZerosThenMinimal(z: nat, d: seq<nat>, b: nat)
    requires Minimal(d)
    ensures LeadingZeros(Zeros(z) + d) == z && Value(Zeros(z) + d, b) == Value(d, b)
  {
    ZerosValue(z, d, b);
    assert (Zeros(z) + d)[z..] == d;
    LeadingZerosIs(Zeros(z) + d, z);
  }

  lemma TextDigits(d: seq<nat>)
    requires InBase(d, 58)
    ensures DigitsOfText(Text(d)) == d && forall i :: 0 <= i < |d| ==> DigitOf(Text(d)[i]) != NO_DIGIT
  {
    forall i | 0 <= i < |d| ensures DigitOf(Text(d)[i]) == d[i] { Alphabet(d[i], 'x'); }
  }

  lemma TextOfDigits(text: string)
    requires forall i :: 0 <= i < |text| ==> DigitOf(text[i]) != NO_DIGIT
    ensures InBase(DigitsOfText(text), 58) && Text(DigitsOfText(text)) == text
  {
    forall i | 0 <= i < |text| ensures DigitsOfText(text)[i] < 58 && CharOf(DigitsOfText(text)[i]) == text[i] {
      Alphabet(0, text[i]);
    }
  }

  lemma ThirtyBytes()
    ensures Pow(256, 30) <= Pow(58, 41)
  {
    EightBytes();
    assert Pow(256, 8) == 0x1_0000_0000_0000_0000 && Pow(58, 10) == 430804206899405824;
    PowAdd(256, 8, 8);
    PowAdd(256, 16, 8);
    PowAdd(256, 24, 6);
    PowAdd(58, 10, 10);
    PowAdd(58, 20, 20);
    PowAdd(58, 40, 1);
  }

  lemma MaxEncodable()
    ensures Pow(256, MAX_ENC_INPUT_SIZE) <= Pow(58, MAX_DEC_INPUT_SIZE)
  {
    ThirtyBytes();
    PowAdd(256, 30, 30);
    PowAdd(58, 41, 41);
    MulMono(Pow(256, 30), Pow(58, 41), Pow(256, 30), Pow(58, 41));
    PowAdd(256, 60, 60);
    PowAdd(58, 82, 82);
    MulMono(Pow(256, 60), Pow(58, 82), Pow(256, 60), Pow(58, 82));
  }

  lemma {:induction false} PowBaseMono(a: nat, b: nat, n: nat)
    requires a <= b
    ensures Pow(a, n) <= Pow(b, n)
  {
    if n > 0 {
      PowBaseMono(a, b, n - 1);
      MulMono(a, b, Pow(a, n - 1), Pow(b, n - 1));
    }
  }

  /** e + z digits are too few for the bytes only if the bytes are too many. */
  lemma WidthOf(e: nat, v: nat, n: nat, z: nat)
    requires Pow(58, e) <= v < Pow(256, n) && n + z <= MAX_ENC_INPUT_SIZE
    ensures e + z < MAX_DEC_INPUT_SIZE
  {
    PowAdd(58, e, z);
    PowAdd(256, n, z);
    PowBaseMono(58, 256, z);
    PowPositive(256, z);
    MulMono(Pow(58, e), v, Pow(58, z), Pow(256, z));
    MulLess(v, Pow(256, n), Pow(256, z));
    PowMonotone(256, n + z, MAX_ENC_INPUT_SIZE);
    MaxEncodable();
    PowLess(58, e + z, MAX_DEC_INPUT_SIZE);
  }

  lemma MulLess(a: nat, b: nat, c: nat)
    requires a < b && c > 0
    ensures a * c < b * c
  {
  }

  /** 164 characters always hold the encoding of 120 bytes, so it can be decoded again. */
  lemma EncodingFits(bytes: seq<nat>)
    requires InBase(bytes, 256) && |bytes| <= MAX_ENC_INPUT_SIZE
    ensures |Encoding(bytes)| <= MAX_DEC_INPUT_SIZE
  {
    var z, v := LeadingZeros(bytes), Value(bytes, 256);
    DigitsOf(v, 58);
    var d := Digits(v, 58);
    if d != [] {
      LeadingDigit(d, 58);
      LeadingZerosIgnored(bytes, z, 256);
      ValueBound(bytes[z..], 256);
      WidthOf(|d| - 1, v, |bytes| - z, z);
    }
  }

  lemma RecodeParts(s: seq<nat>, b: nat, c: nat)
    requires c >= 2
    ensures InBase(Recode(s, b, c), c) && LeadingZeros(Recode(s, b, c)) == LeadingZeros(s)
    ensures Value(Recode(s, b, c), c) == Value(s, b)
  {
    DigitsOf(Value(s, b), c);
    ZerosThenMinimal(LeadingZeros(s), Digits(Value(s, b), c), c);
  }

  lemma Reassemble(s: seq<nat>, z: nat)
    requires z <= |s| && forall i :: 0 <= i < z ==> s[i] == 0
    ensures s == Zeros(z) + s[z..]
  {
  }

  /** Changing the base and back gives the same digits, leading zeros included. */
  lemma RecodeTwice(s: seq<nat>, b: nat, c: nat)
    requires b >= 2 && c >= 2 && InBase(s, b)
    ensures InBase(Recode(s, b, c), c) && Recode(Recode(s, b, c), c, b) == s
  {
    RecodeParts(s, b, c);
    StripZeros(s, LeadingZeros(s), b);
    Reassemble(s, LeadingZeros(s));
  }

  lemma DigitCount(v: nat)
    ensures |Digits(v, 58)| >= 2 <==> v >= 58
    ensures |Digits(v, 58)| >= 1 <==> v >= 1
  {
    if v >= 58 { assert v / 58 >= 1; }
  }

  /** Which inputs encode to the two characters the decoder asks for. */
  lemma AtLeastTwoCharacters(bytes: seq<nat>)
    requires InBase(bytes, 256)
    ensures |Encoding(bytes)| >= 2 <==> |bytes| >= 2 || (|bytes| == 1 && bytes[0] >= 58)
  {
    var z, v := LeadingZeros(bytes), Value(bytes, 256);
    DigitCount(v);
    if |bytes| == 1 {
      assert bytes == [] + [bytes[0]];
      ValueSnoc([], bytes[0], 256);
    } else if z < 2 <= |bytes| {
      LeadingZerosIgnored(bytes, z, 256);
      LeadingDigit(bytes[z..], 256);
      PowMonotone(256, 1 - z, |bytes| - z - 1);
      assert Pow(256, 1) == 256 && Pow(256, 0) == 1;
    }
  }

  /** decode(encode(x)) == x, for every x of at most 120 bytes except the empty one and the
      single bytes below 58: those encode to fewer characters than the decoder accepts. */
  lemma DecodeEncode(bytes: seq<nat>)
    requires InBase(bytes, 256) && |bytes| <= MAX_ENC_INPUT_SIZE
    ensures Decodable(Encoding(bytes)) <==> |bytes| >= 2 || (|bytes| == 1 && bytes[0] >= 58)
    ensures Decoding(Encoding(bytes)) == bytes
  {
    DecodableEncoding(bytes);
    DecodingOfEncoding(bytes);
  }

  lemma DecodableEncoding(bytes: seq<nat>)
    requires InBase(bytes, 256) && |bytes| <= MAX_ENC_INPUT_SIZE
    ensures Decodable(Encoding(bytes)) <==> |bytes| >= 2 || (|bytes| == 1 && bytes[0] >= 58)
  {
    EncodingFits(bytes);
    AtLeastTwoCharacters(bytes);
    RecodeParts(bytes, 256, 58);
    TextDigits(Recode(bytes, 256, 58));
  }

  lemma DecodingOfEncoding(bytes: seq<nat>)
    requires InBase(bytes, 256)
    ensures Decoding(Encoding(bytes)) == bytes
  {
    RecodeTwice(bytes, 256, 58);
    TextDigits(Recode(bytes, 256, 58));
  }

  /** The encoder, given room, turns `bytes` into `text`. */
  ghost predicate Encodes(bytes: seq<nat>, text: string)
  {
    |bytes| <= MAX_ENC_INPUT_SIZE && Encoding(bytes) == text
  }

  /** A text of z leading '1's and a value below 256^(120-z). */
  ghost predicate WithinEncoder(text: string)
  {
    FitsBytes(DigitsOfText(text), MAX_ENC_INPUT_SIZE)
  }

  /** The digits stand for at most `n` bytes, leading zeros included. */
  ghost predicate FitsBytes(digits: seq<nat>, n: nat)
  {
    LeadingZeros(digits) <= n && Value(digits, 58) < Pow(256, n - LeadingZeros(digits))
  }

  /** encode(decode(s)) == s for an accepted s exactly when the encoder takes what it decodes to:
      a text of z leading '1's must have a value below 256^(120-z). */
  lemma EncodeDecode(text: string)
    requires Decodable(text)
    ensures InBase(Decoding(text), 256) && Encoding(Decoding(text)) == text
    ensures Encodes(Decoding(text), text) <==> WithinEncoder(text)
  {
    TextOfDigits(text);
    RecodeTwice(DigitsOfText(text), 58, 256);
    DecodedWidth(text);
  }

  lemma DecodedWidth(text: string)
    ensures |Decoding(text)| <= MAX_ENC_INPUT_SIZE <==> WithinEncoder(text)
  {
    RecodedWidth(DigitsOfText(text), MAX_ENC_INPUT_SIZE);
  }

  lemma RecodedWidth(digits: seq<nat>, n: nat)
    ensures |Recode(digits, 58, 256)| <= n <==> FitsBytes(digits, n)
  {
    if LeadingZeros(digits) <= n {
      DigitsWidth(Value(digits, 58), 256, n - LeadingZeros(digits));
    }
  }

  /** A number has at most k digits exactly when it is below b^k. */
  lemma DigitsWidth(v: nat, b: nat, k: nat)
    requires b >= 2
    ensures |Digits(v, b)| <= k <==> v < Pow(b, k)
  {
    var d := Digits(v, b);
    DigitsOf(v, b);
    PowPositive(b, k);
    ValueBound(d, b);
    if |d| <= k {
      PowMonotone(b, |d|, k);
    } else {
      LeadingDigit(d, b);
      PowMonotone(b, k, |d| - 1);
    }
  }

  /** Every accepted text of at most 120 characters comes back. */
  lemma ShortTextsComeBack(text: string)
    requires Decodable(text) && |text| <= MAX_ENC_INPUT_SIZE
    ensures Encodes(Decoding(text), text)
  {
    TextOfDigits(text);
    FewDigits(DigitsOfText(text), MAX_ENC_INPUT_SIZE);
    EncodeDecode(text);
  }

  lemma FewDigits(digits: seq<nat>, n: nat)
    requires InBase(digits, 58) && |digits| <= n
    ensures FitsBytes(digits, n)
  {
    var z := LeadingZeros(digits);
    LeadingZerosIgnored(digits, z, 58);
    ValueBound(digits[z..], 58);
    NarrowerBase(|digits| - z, n - z);
  }

  lemma NarrowerBase(k: nat, n: nat)
    requires k <= n
    ensures Pow(58, k) <= Pow(256, n)
  {
    PowBaseMono(58, 256, k);
    PowMonotone(256, k, n);
  }

  function Ones(n: nat): (s: string)
    ensures |s| == n
  {
    seq(n, _ => '1')
  }

  /** The shortest text that does not: 121 characters '1' are decoded to 121 zero bytes, which the
      encoder refuses. */
  lemma LongTextRefused()
    ensures Decodable(Ones(121)) && Decoding(Ones(121)) == Zeros(121)
    ensures !Encodes(Decoding(Ones(121)), Ones(121))
  {
    var digits := DigitsOfText(Ones(121));
    assert digits == Zeros(121) + [];
    ZerosThenMinimal(121, [], 58);
    assert Value([], 58) == 0;
  }

  /** The smallest refusal: one byte below 58 encodes to one character. */
  lemma SingleCharacterRefused()
    ensures |Encoding([57])| == 1 && !Decodable(Encoding([57]))
  {
    assert Value([57], 256) == Value([], 256) * 256 + 57;
    assert Digits(57, 58) == Digits(0, 58) + [57];
  }
}
