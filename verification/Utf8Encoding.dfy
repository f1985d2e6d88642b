/** UTF-8 as section 3 of RFC 3629 defines it, from code points: what truncation does to text. */
module Utf8Encoding {

  import opened Basics
  import opened Utf8

  /** A Unicode scalar value: any code point that is not half of a surrogate pair. */
  type Scalar = cp: nat | cp < 0xD800 || 0xE000 <= cp < 0x11_0000

  /** The four layouts 0xxxxxxx, 110xxxxx 10xxxxxx, 1110xxxx 10xxxxxx 10xxxxxx and
      11110xxx 10xxxxxx 10xxxxxx 10xxxxxx. */
  function EncodeChar(cp: Scalar): Bytes
  {
    if cp < 0x80 then [cp]
    else if cp < 0x800 then [0xC0 + cp / 0x40, Continuation(cp)]
    else if cp < 0x1_0000 then [0xE0 + cp / 0x1000, Continuation(cp / 0x40), Continuation(cp)]
    else [0xF0 + cp / 0x4_0000, Continuation(cp / 0x1000), Continuation(cp / 0x40), Continuation(cp)]
  }

  /** The six low bits, marked as a continuation. */
  function Continuation(x: nat): u8
  {
    0x80 + x % 0x40
  }

  function EncodeAll(cps: seq<Scalar>): Bytes
  {
    if cps == [] then [] else EncodeChar(cps[0]) + EncodeAll(cps[1..])
  }

  /** The first byte of a character tells its length, and the others are continuations. */
  lemma CharIsWhole(cp: Scalar)
    ensures var c := EncodeChar(cp);
            c != [] && CharLength(c[0]) == |c| && StartsWithChar(c) && WellFormed(c)
  {
    var c := EncodeChar(cp);
    assert c[|c|..] == [];
  }

  /** Encoded text is made of whole characters. */
  lemma {:induction false} TextIsWhole(cps: seq<Scalar>)
    ensures WellFormed(EncodeAll(cps))
  {
    if cps != [] {
      CharIsWhole(cps[0]);
      TextIsWhole(cps[1..]);
      ConcatWellFormed(EncodeChar(cps[0]), EncodeAll(cps[1..]));
    }
  }

  /** `m` is how many of the characters fit in `n` bytes. */
  ghost predicate Fits(cps: seq<Scalar>, n: nat, m: nat)
  {
    && m <= |cps| && |EncodeAll(cps[..m])| <= n
    && (m < |cps| ==> |EncodeAll(cps[..m + 1])| > n)
  }

  /** Truncation keeps the characters that fit, as many of them as possible. */
  lemma {:induction false} TruncatedChars(cps: seq<Scalar>, n: nat) returns (m: nat)
    ensures Fits(cps, n, m) && WellFormed(EncodeAll(cps)) && Truncated(EncodeAll(cps), n) == EncodeAll(cps[..m])
    decreases |cps|
  {
    TextIsWhole(cps);
    if cps == [] {
      m := 0;
    } else {
      var c, rest := EncodeChar(cps[0]), EncodeAll(cps[1..]);
      CharIsWhole(cps[0]);
      TextIsWhole(cps[1..]);
      if n < |c| {
        m := 0;
        FirstChars(cps, 1);
        ConcatHead(c, rest);
      } else {
        var m' := TruncatedChars(cps[1..], n - |c|);
        m := m' + 1;
        FirstChars(cps, m);
        if m < |cps| { FirstChars(cps, m + 1); }
        TruncatedMore(c, rest, n);
      }
    }
  }

  lemma FirstChars(cps: seq<Scalar>, k: nat)
    requires 0 < k <= |cps|
    ensures EncodeAll(cps[..k]) == EncodeChar(cps[0]) + EncodeAll(cps[1..][..k - 1])
  {
    assert cps[..k][1..] == cps[1..][..k - 1];
  }

  /** Of a text cut at byte `k`, the bytes behind the last whole character are dropped. */
  lemma TrailingChars(cps: seq<Scalar>, k: nat) returns (m: nat)
    requires k <= |EncodeAll(cps)|
    ensures Fits(cps, k, m) && Trailing(EncodeAll(cps)[..k]) == k - |EncodeAll(cps[..m])|
  {
    m := TruncatedChars(cps, k);
    TrailingBound(EncodeAll(cps), k);
  }
}
