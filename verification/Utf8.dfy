/** UTF-8 aware truncation (section 3 of RFC 3629), as src/os_printf.c does it. */
module Utf8 {

  import opened Basics

  /** How many bytes the character that starts with `lead` has; 0 for a continuation byte. */
  function CharLength(lead: u8): nat
  {
    if lead < 0x80 then 1 else if lead < 0xC0 then 0 else if lead < 0xE0 then 2 else if lead < 0xF0 then 3 else 4
  }

  predicate IsContinuation(b: u8)
  {
    0x80 <= b < 0xC0
  }

  /** A whole character at the front of `s`. */
  predicate StartsWithChar(s: Bytes)
  {
    && s != [] && 0 < CharLength(s[0]) <= |s|
    && forall i :: 1 <= i < CharLength(s[0]) ==> IsContinuation(s[i])
  }

  /** A sequence of whole characters; Utf8Encoding.TextIsWhole shows that encoded text is one. */
  predicate WellFormed(s: Bytes)
  {
    s == [] || (StartsWithChar(s) && WellFormed(s[CharLength(s[0])..]))
  }

  /** The last character boundary of `s` that is not behind `k`. */
  function Bound(s: Bytes, k: nat): (b: nat)
    requires WellFormed(s) && k <= |s|
    ensures b <= k
  {
    if s == [] || k < CharLength(s[0]) then 0 else
      CharLength(s[0]) + Bound(s[CharLength(s[0])..], k - CharLength(s[0]))
  }

  /** The longest prefix of whole characters that fits in `n` bytes. */
  function Truncated(s: Bytes, n: nat): Bytes
    requires WellFormed(s)
  {
    s[..Bound(s, if n < |s| then n else |s|)]
  }

  lemma Slices(s: Bytes, n: nat, b: nat)
    requires n + b <= |s|
    ensures s[..n + b] == s[..n] + s[n..][..b] && s[n + b..] == s[n..][b..]
  {
  }

  lemma {:induction false} BoundSplits(s: Bytes, k: nat) returns (b: nat)
    requires WellFormed(s) && k <= |s|
    ensures b == Bound(s, k) && WellFormed(s[..b]) && WellFormed(s[b..])
    decreases |s|
  {
    if s != [] && k >= CharLength(s[0]) {
      BoundNext(s, k);
      var b' := BoundSplits(s[CharLength(s[0])..], k - CharLength(s[0]));
      b := CharLength(s[0]) + b';
      CharInFront(s, b');
    } else {
      b := 0;
      assert s[0..] == s;
    }
  }

  lemma CharInFront(s: Bytes, b: nat)
    requires StartsWithChar(s) && b <= |s| - CharLength(s[0])
    requires WellFormed(s[CharLength(s[0])..][..b]) && WellFormed(s[CharLength(s[0])..][b..])
    ensures WellFormed(s[..CharLength(s[0]) + b]) && WellFormed(s[CharLength(s[0]) + b..])
  {
    var n := CharLength(s[0]);
    Slices(s, n, b);
    OneChar(s);
    ConcatWellFormed(s[..n], s[n..][..b]);
  }

  /** Both sides of the bound consist of whole characters. */
  lemma BoundIsWellFormed(s: Bytes, k: nat)
    requires WellFormed(s) && k <= |s|
    ensures WellFormed(s[..Bound(s, k)]) && WellFormed(s[Bound(s, k)..])
  {
    var b := BoundSplits(s, k);
  }

  lemma OneChar(s: Bytes)
    requires StartsWithChar(s)
    ensures WellFormed(s[..CharLength(s[0])])
  {
    var c := s[..CharLength(s[0])];
    assert c[0] == s[0] && StartsWithChar(c) && c[CharLength(c[0])..] == [];
  }

  /** No longer prefix within `k` bytes consists of whole characters. */
  lemma {:induction false} BoundIsLongest(s: Bytes, k: nat, j: nat)
    requires WellFormed(s) && j <= k <= |s| && WellFormed(s[..j])
    ensures j <= Bound(s, k)
    decreases |s|
  {
    if j > 0 {
      var n := CharLength(s[0]);
      assert s[..j][0] == s[0] && StartsWithChar(s[..j]);
      assert s[..j][n..] == s[n..][..j - n];
      BoundIsLongest(s[n..], k - n, j - n);
    }
  }

  lemma {:induction false} BoundAtEnd(s: Bytes)
    requires WellFormed(s)
    ensures Bound(s, |s|) == |s|
    decreases |s|
  {
    if s != [] { BoundAtEnd(s[CharLength(s[0])..]); }
  }

  /** Position k-1 lies in the character that starts at j, everything between is continuation
      bytes, and k is a boundary exactly when that character ends there; b is the last boundary
      not behind k. */
  predicate Around(s: Bytes, j: nat, k: nat, b: nat)
  {
    && j < k <= |s| && CharLength(s[j]) > 0
    && (forall i :: j < i < k ==> IsContinuation(s[i]))
    && (if CharLength(s[j]) > k - j then b == j else CharLength(s[j]) == k - j && b == k)
  }

  lemma AroundShift(s: Bytes, n: nat, j: nat, k: nat, b: nat)
    requires n <= |s| && Around(s[n..], j, k, b)
    ensures Around(s, n + j, n + k, n + b)
  {
    forall i | n + j < i < n + k ensures IsContinuation(s[i]) {
      assert s[i] == s[n..][i - n];
    }
  }

  lemma BoundNext(s: Bytes, k: nat)
    requires WellFormed(s) && s != [] && CharLength(s[0]) <= k <= |s|
    ensures var n := CharLength(s[0]); n > 0 && WellFormed(s[n..]) && Bound(s, k) == n + Bound(s[n..], k - n)
  {
  }

  lemma {:induction false} CharAround(s: Bytes, k: nat) returns (j: nat, b: nat)
    requires WellFormed(s) && 0 < k <= |s|
    ensures j == Bound(s, k - 1) && b == Bound(s, k) && Around(s, j, k, b)
    decreases |s|
  {
    var n := CharLength(s[0]);
    if k > n {
      BoundNext(s, k - 1);
      BoundNext(s, k);
      var j', b' := CharAround(s[n..], k - n);
      j, b := n + j', n + b';
      AroundShift(s, n, j', k - n, b');
    } else {
      j, b := FirstAround(s, k);
    }
  }

  lemma FirstAround(s: Bytes, k: nat) returns (j: nat, b: nat)
    requires WellFormed(s) && s != [] && 0 < k <= CharLength(s[0])
    ensures k <= |s| && j == Bound(s, k - 1) && b == Bound(s, k) && Around(s, j, k, b)
  {
    j, b := 0, if k < CharLength(s[0]) then 0 else k;
    AroundFirst(s, k);
    BoundFirst(s, k - 1);
    if k < CharLength(s[0]) { BoundFirst(s, k); } else { BoundNext(s, k); }
  }

  lemma AroundFirst(s: Bytes, k: nat)
    requires StartsWithChar(s) && 0 < k <= CharLength(s[0])
    ensures Around(s, 0, k, if k < CharLength(s[0]) then 0 else k)
  {
  }

  lemma BoundFirst(s: Bytes, k: nat)
    requires WellFormed(s) && s != [] && k < CharLength(s[0]) && k <= |s|
    ensures Bound(s, k) == 0
  {
  }

  /** The first character of a concatenation is that of its first part. */
  lemma ConcatHead(a: Bytes, b: Bytes)
    requires a != [] && StartsWithChar(a)
    ensures (a + b)[0] == a[0] && StartsWithChar(a + b)
    ensures (a + b)[CharLength(a[0])..] == a[CharLength(a[0])..] + b
  {
  }

  lemma {:induction false} ConcatWellFormed(a: Bytes, b: Bytes)
    requires WellFormed(a) && WellFormed(b)
    ensures WellFormed(a + b)
    decreases |a|
  {
    if a == [] {
      assert a + b == b;
    } else {
      ConcatHead(a, b);
      ConcatWellFormed(a[CharLength(a[0])..], b);
    }
  }

  lemma {:induction false} BoundConcat(a: Bytes, b: Bytes, k: nat)
    requires WellFormed(a) && WellFormed(b) && WellFormed(a + b) && k <= |a| + |b|
    ensures Bound(a + b, k) == if k < |a| then Bound(a, k) else |a| + Bound(b, k - |a|)
    decreases |a|
  {
    if a == [] {
      assert a + b == b;
    } else {
      ConcatHead(a, b);
      var n := CharLength(a[0]);
      if k >= n { BoundConcat(a[n..], b, k - n); }
    }
  }

  /** More output behind a full destination changes nothing. */
  lemma TruncatedFull(a: Bytes, b: Bytes, n: nat)
    requires WellFormed(a) && WellFormed(b) && n <= |a|
    ensures WellFormed(a + b) && Truncated(a + b, n) == Truncated(a, n)
  {
    ConcatWellFormed(a, b);
    BoundConcat(a, b, n);
    if n == |a| {
      BoundAtEnd(a);
      assert Bound(b, 0) == 0;
    }
    assert (a + b)[..Bound(a, n)] == a[..Bound(a, n)];
  }

  /** With room left, the new output is truncated to it. */
  lemma TruncatedMore(a: Bytes, b: Bytes, n: nat)
    requires WellFormed(a) && WellFormed(b) && n >= |a|
    ensures WellFormed(a + b) && Truncated(a + b, n) == a + Truncated(b, n - |a|)
  {
    ConcatWellFormed(a, b);
    var m := if n < |a| + |b| then n else |a| + |b|;
    BoundConcat(a, b, m);
    ConcatPrefix(a, b, Bound(b, m - |a|));
    assert Truncated(b, n - |a|) == b[..Bound(b, m - |a|)];
  }

  lemma ConcatPrefix(a: Bytes, b: Bytes, k: nat)
    requires k <= |b|
    ensures (a + b)[..|a| + k] == a + b[..k]
  {
  }

  lemma TruncatedAll(s: Bytes, n: nat)
    requires WellFormed(s) && |s| <= n
    ensures Truncated(s, n) == s
  {
    BoundAtEnd(s);
  }

  lemma {:induction false} AsciiWellFormed(s: Bytes)
    requires forall i :: 0 <= i < |s| ==> s[i] < 0x80
    ensures WellFormed(s)
  {
    if s != [] { AsciiWellFormed(s[1..]); }
  }

  /** On 7-bit text truncation is plain: the first `n` bytes. */
  lemma {:induction false} AsciiTruncated(s: Bytes, n: nat)
    requires WellFormed(s) && forall i :: 0 <= i < |s| ==> s[i] < 0x80
    ensures Truncated(s, n) == s[..if n < |s| then n else |s|]
  {
    var k := if n < |s| then n else |s|;
    AsciiWellFormed(s[..k]);
    BoundIsLongest(s, k, k);
  }

  // ---------------------------------------------------------------- the end of any byte string

  /** `s` ends with the first `t` bytes of a character that has more. */
  predicate EndsInside(s: Bytes, t: nat)
  {
    && 0 < t <= |s| && CharLength(s[|s| - t]) > t
    && forall i :: |s| - t < i < |s| ==> IsContinuation(s[i])
  }

  /** The number of bytes at the end of `s` that belong to a character cut off there. */
  function Trailing(s: Bytes): (t: nat)
    ensures t <= |s|
  {
    TrailingFrom(s, |s|)
  }

  /** The same, when the bytes from `i` on are known to be continuation bytes. */
  function TrailingFrom(s: Bytes, i: nat): (t: nat)
    requires i <= |s|
    ensures t <= |s|
  {
    if i == 0 || s[i - 1] < 0x80 then 0
    else if IsContinuation(s[i - 1]) then TrailingFrom(s, i - 1)
    else if CharLength(s[i - 1]) > |s| - (i - 1) then |s| - (i - 1)
    else 0
  }

  lemma {:induction false} TrailingFromMeans(s: Bytes, i: nat, t: nat)
    requires i <= |s| && t > 0 && forall j :: i <= j < |s| ==> IsContinuation(s[j])
    ensures TrailingFrom(s, i) == t <==> EndsInside(s, t) && |s| - t < i
    decreases i
  {
    if i > 0 && IsContinuation(s[i - 1]) {
      TrailingFromMeans(s, i - 1, t);
    }
  }

  /** Trailing says exactly how a byte string, well formed or not, is cut off. */
  lemma TrailingMeans(s: Bytes, t: nat)
    requires t > 0
    ensures Trailing(s) == t <==> EndsInside(s, t)
  {
    TrailingFromMeans(s, |s|, t);
  }

  /** In a well-formed text, what is cut off at `k` goes back to the last boundary. */
  lemma TrailingBound(s: Bytes, k: nat)
    requires WellFormed(s) && k <= |s|
    ensures Trailing(s[..k]) == k - Bound(s, k)
  {
    if k > 0 {
      var j, b := CharAround(s, k);
      assert b != k ==> EndsInside(s[..k], k - j);
      if b == k {
        forall t | 0 < t <= k ensures !EndsInside(s[..k], t) { NotInside(s, j, k, b, t); }
        if Trailing(s[..k]) > 0 { TrailingMeans(s[..k], Trailing(s[..k])); }
      } else {
        TrailingMeans(s[..k], k - j);
      }
    }
  }

  lemma NotInside(s: Bytes, j: nat, k: nat, b: nat, t: nat)
    requires Around(s, j, k, b) && b == k && 0 < t <= k
    ensures !EndsInside(s[..k], t)
  {
    if k - t < j {
      assert s[..k][j] == s[j];
    } else {
      assert s[..k][k - t] == s[k - t];
    }
  }

  /** For any bytes at all, the scan finds exactly the bytes of the character that is cut off. */
  method FindInvalidTrailingBytes(data: Bytes, len: nat) returns (r: nat)
    requires len <= |data|
    ensures r == Trailing(data[..len])
  {
    if len < 1 {
      return 0;
    }
    var index := len - 1;
    var c := data[index];
    ghost var s := data[..len];
    if c < 0x80 {
      return 0;
    }
    while index >= 1 && c < 0xC0
      invariant index < len && c == data[index]
      invariant Trailing(s) == TrailingFrom(s, index + 1)
    {
      if c < 0x80 {
        return 0;
      }
      index := index - 1;
      c := data[index];
    }
    var expected := 0;
    if c >= 0xF0 {
      expected := 4;
    } else if c >= 0xE0 {
      expected := 3;
    } else if c >= 0xC0 {
      expected := 2;
    } else {
      return 0;
    }
    var nbMultibytes := len - index;
    if expected > nbMultibytes {
      return nbMultibytes;
    }
    return 0;
  }

  /** Whatever `src` is, `dst` becomes the NUL-terminated prefix that fits, less a character cut
      off at its end; if `src` is made of whole characters, the longest prefix of whole
      characters that fits. */
  method StrlcpyUtf8(dst: array<u8>, src: Bytes) returns (srclen: nat)
    modifies dst
    ensures srclen == |src|
    ensures dst.Length > 0 ==>
              var len := if dst.Length - 1 < |src| then dst.Length - 1 else |src|;
              var n := len - Trailing(src[..len]);
              dst[..n] == src[..n] && dst[n] == 0
    ensures WellFormed(src) && dst.Length > 0 ==>
              var t := Truncated(src, dst.Length - 1);
              |t| < dst.Length && dst[..|t|] == t && dst[|t|] == 0
  {
    if dst.Length == 0 {
      return |src|;
    }
    var len := if dst.Length - 1 < |src| then dst.Length - 1 else |src|;
    forall i | 0 <= i < len {
      dst[i] := src[i];
    }
    dst[len] := 0;
    srclen := |src|;
    assert dst[..][..len] == src[..len];
    if WellFormed(src) { TrailingBound(src, len); }
    var nbTruncated := FindInvalidTrailingBytes(dst[..], len);
    if nbTruncated != 0 {
      len := len - nbTruncated;
      dst[len] := 0;
    }
    assert dst[..len] == src[..len] && dst[len] == 0;
  }
}
