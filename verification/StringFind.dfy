/** Substring search: a byte search first, then whole-word comparison, a shift register or a rolling sum, by the
    length of the needle. */
module StringFind {
  import opened Basics

  /** The needle stands at position k. */
  predicate MatchesAt(h: seq<byte>, n: seq<byte>, k: nat) {
    k + |n| <= |h| && h[k..k + |n|] == n
  }

  /** The least position of the needle, or -1 if there is none. */
  ghost predicate IsFirst(h: seq<byte>, n: seq<byte>, r: int) {
    if r < 0 then r == -1 && forall k: nat :: !MatchesAt(h, n, k)
    else MatchesAt(h, n, r) && forall k: nat :: k < r ==> !MatchesAt(h, n, k)
  }

  // ----- needles of 2, 4 or 8 bytes

  /** Reads as many bytes as the needle has at every position and compares them at once. */
  method AlignedFind(h: seq<byte>, n: seq<byte>) returns (r: int)
    requires |h| < UINT32_LIMIT
    ensures IsFirst(h, n, r)
  {
    if |n| > |h| { return -1; }
    for offset := 0 to |h| - |n| + 1
      invariant forall k: nat :: k < offset ==> !MatchesAt(h, n, k)
    {
      if h[offset..offset + |n|] == n { return offset; }
    }
    r := -1;
  }

  // ----- needles of 3, 5, 6 or 7 bytes in a register of 4 or 8

  /** An unsigned integer of so many bytes, the highest first. */
  type Register = seq<byte>

  function Pow2(n: nat): nat {
    if n == 0 then 1 else 2 * Pow2(n - 1)
  }

  /** Bitwise or of two numbers of n bits. */
  function BitOr(n: nat, a: nat, b: nat): (r: nat)
    requires a < Pow2(n) && b < Pow2(n)
    ensures r < Pow2(n)
  {
    if n == 0 then 0 else 2 * BitOr(n - 1, a / 2, b / 2) + if a % 2 == 1 || b % 2 == 1 then 1 else 0
  }

  lemma {:induction false} OrZero(n: nat, a: nat)
    requires a < Pow2(n)
    ensures BitOr(n, a, 0) == a && BitOr(n, 0, a) == a
  {
    if n > 0 { OrZero(n - 1, a / 2); }
  }

  function OrByte(a: byte, b: byte): (r: byte)
    ensures a == 0 ==> r == b
    ensures b == 0 ==> r == a
  {
    assert Pow2(4) == 16;
    assert Pow2(8) == 256;
    OrZero(8, a);
    OrZero(8, b);
    BitOr(8, a, b)
  }

  function Or(a: Register, b: Register): (r: Register)
    requires |a| == |b|
    ensures |r| == |a| && forall i :: 0 <= i < |a| ==> r[i] == OrByte(a[i], b[i])
  {
    seq(|a|, i requires 0 <= i < |a| => OrByte(a[i], b[i]))
  }

  /** Eight bits to the left; the highest byte drops out. */
  function ShiftByte(a: Register): (r: Register)
    requires |a| > 0
    ensures |r| == |a|
  {
    a[1..] + [0]
  }

  /** One byte, shifted left to the given place from the top. */
  function ByteAt(width: nat, b: byte, i: nat): (r: Register)
    requires i < width
    ensures |r| == width && forall k :: 0 <= k < width ==> r[k] == if k == i then b else 0
  {
    seq(width, k => if k == i then b else 0)
  }

  /** The register with the window in its highest bytes and zeros below. */
  function Loaded(w: seq<byte>, width: nat): (r: Register)
    requires |w| <= width
    ensures |r| == width
  {
    w + seq(width - |w|, _ => 0)
  }

  lemma LoadNext(w: seq<byte>, width: nat, b: byte)
    requires |w| < width
    ensures Or(Loaded(w, width), ByteAt(width, b, |w|)) == Loaded(w + [b], width)
  {
    forall i | 0 <= i < width
      ensures Or(Loaded(w, width), ByteAt(width, b, |w|))[i] == Loaded(w + [b], width)[i]
    {
      assert i >= |w| ==> Loaded(w, width)[i] == 0;
    }
  }

  /** Shifting the register by one byte and adding the next one slides the window. */
  lemma Slide(w: seq<byte>, width: nat, b: byte)
    requires 0 < |w| < width
    ensures Or(ShiftByte(Loaded(w, width)), ByteAt(width, b, |w| - 1)) == Loaded(w[1..] + [b], width)
  {
    assert ShiftByte(Loaded(w, width)) == Loaded(w[1..], width);
    LoadNext(w[1..], width, b);
  }

  method SlideWindow(h: seq<byte>, offset: nat, n: nat, width: nat, entry: Register) returns (next: Register)
    requires 0 < n < width && n <= offset < |h| && entry == Loaded(h[offset - n..offset], width)
    ensures next == Loaded(h[offset + 1 - n..offset + 1], width)
  {
    Slide(h[offset - n..offset], width, h[offset]);
    assert h[offset - n..offset][1..] + [h[offset]] == h[offset + 1 - n..offset + 1];
    next := Or(ShiftByte(entry), ByteAt(width, h[offset], n - 1));
  }

  /** The needle and the first window of the haystack, loaded byte by byte. */
  method Load(h: seq<byte>, n: seq<byte>, width: nat) returns (needleEntry: Register, haystackEntry: Register)
    requires |n| < width && |n| <= |h|
    ensures needleEntry == Loaded(n, width) && haystackEntry == Loaded(h[..|n|], width)
  {
    needleEntry, haystackEntry := Loaded([], width), Loaded([], width);
    for i := 0 to |n|
      invariant needleEntry == Loaded(n[..i], width) && haystackEntry == Loaded(h[..i], width)
    {
      LoadNext(n[..i], width, n[i]);
      LoadNext(h[..i], width, h[i]);
      assert n[..i + 1] == n[..i] + [n[i]] && h[..i + 1] == h[..i] + [h[i]];
      needleEntry := Or(needleEntry, ByteAt(width, n[i], i));
      haystackEntry := Or(haystackEntry, ByteAt(width, h[i], i));
    }
    assert n[..|n|] == n;
  }

  method UnalignedFind(h: seq<byte>, n: seq<byte>, width: nat) returns (r: int)
    requires 0 < |n| < width && |h| < UINT32_LIMIT
    ensures IsFirst(h, n, r)
  {
    if |n| > |h| { return -1; }
    var needleEntry, haystackEntry := Load(h, n, width);
    for offset := |n| to |h|
      invariant haystackEntry == Loaded(h[offset - |n|..offset], width)
      invariant forall k: nat :: k < offset - |n| ==> !MatchesAt(h, n, k)
    {
      WindowMatches(h, n, offset - |n|, width);
      if haystackEntry == needleEntry { return offset - |n|; }
      haystackEntry := SlideWindow(h, offset, |n|, width, haystackEntry);
    }
    WindowMatches(h, n, |h| - |n|, width);
    if haystackEntry == needleEntry { return |h| - |n|; }
    r := -1;
  }

  lemma WindowMatches(h: seq<byte>, n: seq<byte>, k: nat, width: nat)
    requires |n| <= width && k + |n| <= |h|
    ensures Loaded(h[k..k + |n|], width) == Loaded(n, width) <==> MatchesAt(h, n, k)
  {
    var v := h[k..k + |n|];
    assert Loaded(v, width)[..|v|] == v && Loaded(n, width)[..|n|] == n;
  }

  // ----- any longer needle

  function Sum(s: seq<byte>): int {
    if s == [] then 0 else Sum(s[..|s| - 1]) + s[|s| - 1]
  }

  lemma {:induction false} SumFront(s: seq<byte>)
    requires s != []
    ensures Sum(s) == s[0] + Sum(s[1..])
  {
    if |s| > 1 {
      SumFront(s[..|s| - 1]);
      assert s[..|s| - 1][1..] == s[1..][..|s| - 2];
    }
  }

  /** An unsigned 32-bit number. */
  function Wrap(x: int): (r: nat)
    ensures r < UINT32_LIMIT
  {
    x % UINT32_LIMIT
  }

  lemma WrapAdd(x: int, y: int)
    ensures Wrap(Wrap(x) + y) == Wrap(x + y)
  {
  }

  /** Adding one byte and taking another away, in either order. */
  lemma WrapTwice(x: int, add: int, take: int)
    ensures Wrap(Wrap(Wrap(x) + add) - take) == Wrap(x + add - take)
    ensures Wrap(Wrap(Wrap(x) - take) + add) == Wrap(x + add - take)
  {
    WrapAdd(x, add);
    WrapAdd(x + add, -take);
    WrapAdd(x, -take);
    WrapAdd(x - take, add);
  }

  lemma SumSlides(h: seq<byte>, k: nat, n: nat)
    requires k + n < |h|
    ensures Sum(h[k + 1..k + n + 1]) == Sum(h[k..k + n]) - h[k] + h[k + n]
  {
    var w := h[k..k + n + 1];
    SumFront(w);
    assert w[..n] == h[k..k + n] && w[1..] == h[k + 1..k + n + 1];
  }

  method SumsDiff(h: seq<byte>, n: seq<byte>) returns (diff: nat)
    requires |n| <= |h|
    ensures diff == Wrap(Sum(h[..|n|]) - Sum(n))
  {
    diff := 0;
    for i := 0 to |n|
      invariant diff == Wrap(Sum(h[..i]) - Sum(n[..i]))
    {
      assert h[..i + 1][..i] == h[..i] && n[..i + 1][..i] == n[..i];
      WrapTwice(Sum(h[..i]) - Sum(n[..i]), h[i], n[i]);
      diff := Wrap(diff + h[i]);
      diff := Wrap(diff - n[i]);
    }
    assert n[..|n|] == n;
  }

  /** The window's sum less the needle's, once the window has moved on by one byte. */
  method Roll(h: seq<byte>, n: seq<byte>, offset: nat, diff: nat) returns (r: nat)
    requires offset + |n| < |h| && diff == Wrap(Sum(h[offset..offset + |n|]) - Sum(n))
    ensures r == Wrap(Sum(h[offset + 1..offset + 1 + |n|]) - Sum(n))
  {
    SumSlides(h, offset, |n|);
    WrapTwice(Sum(h[offset..offset + |n|]) - Sum(n), h[offset + |n|], h[offset]);
    r := Wrap(diff - h[offset]);
    r := Wrap(r + h[offset + |n|]);
  }

  /** Equal bytes have equal sums, so a window that matches is never skipped. */
  lemma MatchSums(h: seq<byte>, n: seq<byte>, k: nat)
    requires 0 < |n| && MatchesAt(h, n, k)
    ensures Wrap(Sum(h[k..k + |n|]) - Sum(n)) == 0 && h[k] == n[0]
  {
    assert h[k..k + |n|][0] == h[k];
  }

  /** `head` is the byte where the needle begins, which the source reads even from an empty needle. */
  method GenericFind(h: seq<byte>, n: seq<byte>, head: byte) returns (r: int)
    requires |h| < UINT32_LIMIT && (n != [] ==> head == n[0]) && (n == [] ==> h != [] && h[0] == head)
    ensures n != [] ==> IsFirst(h, n, r)
    ensures n == [] ==> r == 0
  {
    if |n| > |h| { return -1; }
    var sumsDiff := SumsDiff(h, n);
    var offset := 0;
    while true
      invariant offset + |n| <= |h| && sumsDiff == Wrap(Sum(h[offset..offset + |n|]) - Sum(n))
      invariant forall k: nat :: k < offset ==> !MatchesAt(h, n, k)
      invariant n == [] ==> offset == 0
      decreases |h| - offset
    {
      if n != [] && MatchesAt(h, n, offset) { MatchSums(h, n, offset); }
      if sumsDiff == 0 && h[offset] == head {
        if h[offset..offset + |n|] == n { return offset; }
      }
      if offset >= |h| - |n| { return -1; }
      sumsDiff := Roll(h, n, offset, sumsDiff);
      offset := offset + 1;
    }
  }

  // ----- the whole search

  method FirstByte(h: seq<byte>, b: byte) returns (r: int)
    ensures -1 <= r < |h| && (r >= 0 ==> h[r] == b)
    ensures forall k :: 0 <= k < (if r < 0 then |h| else r) ==> h[k] != b
  {
    for k := 0 to |h|
      invariant forall j :: 0 <= j < k ==> h[j] != b
    {
      if h[k] == b { return k; }
    }
    r := -1;
  }

  /** Nothing before the first occurrence of the needle's first byte can match. */
  lemma SkipTo(h: seq<byte>, n: seq<byte>, first: nat, r: int)
    requires 0 < |n| && first < |h| && (forall k :: 0 <= k < first ==> h[k] != n[0]) && IsFirst(h[first..], n, r)
    ensures IsFirst(h, n, if r < 0 then -1 else first + r)
  {
    forall k: nat | MatchesAt(h, n, k) ensures first <= k && MatchesAt(h[first..], n, k - first) {
      assert h[k..k + |n|][0] == h[k];
      assert h[first..][k - first..k - first + |n|] == h[k..k + |n|];
    }
    if r >= 0 {
      assert MatchesAt(h[first..], n, r);
      assert h[first + r..first + r + |n|] == h[first..][r..r + |n|];
    }
  }

  method Find(h: seq<byte>, n: seq<byte>, head: byte) returns (r: int)
    requires |h| < UINT32_LIMIT && (n != [] ==> head == n[0])
    ensures n != [] ==> IsFirst(h, n, r)
    ensures n == [] ==> IsFirst(h, [head], r)
  {
    var first := FirstByte(h, head);
    if first < 0 {
      NoByte(h, if n == [] then [head] else n);
      return -1;
    }
    var rest := h[first..];
    assert MatchesAt(rest, [head], 0) by { assert rest[0..1] == [head]; }
    match |n| {
      case 1 => assert n == [head]; r := 0;
      case 2 => r := AlignedFind(rest, n);
      case 3 => r := UnalignedFind(rest, n, 4);
      case 4 => r := AlignedFind(rest, n);
      case 5 => r := UnalignedFind(rest, n, 8);
      case 6 => r := UnalignedFind(rest, n, 8);
      case 7 => r := UnalignedFind(rest, n, 8);
      case 8 => r := AlignedFind(rest, n);
      case _ => r := GenericFind(rest, n, head);
    }
    SkipTo(h, if n == [] then [head] else n, first, r);
    r := if r < 0 then -1 else first + r;
  }

  lemma NoByte(h: seq<byte>, n: seq<byte>)
    requires 0 < |n| && forall k :: 0 <= k < |h| ==> h[k] != n[0]
    ensures IsFirst(h, n, -1)
  {
    forall k: nat | k < |h| ensures !MatchesAt(h, n, k) {
      if k + |n| <= |h| { assert h[k..k + |n|][0] == h[k]; }
    }
  }

  // ----- the function: positions count from 1, and 0 means that there is none

  /** The two special cases are decided and then overwritten. */
  method Operation(h: seq<byte>, n: seq<byte>, head: byte) returns (result: int)
    requires |h| < UINT32_LIMIT && (n != [] ==> head == n[0])
    ensures n != [] ==> IsFirst(h, n, result - 1)
    ensures n == [] ==> (result == 1 <==> h != [] && h[0] == head)
    ensures n == [] ==> (result == 0 <==> head !in h)
  {
    if |n| == 0 {
      result := 1;
    } else if |n| > |h| {
      result := 0;
    }
    var r := Find(h, n, head);
    result := r + 1;
    if n == [] { OneByte(h, head, r); }
  }

  lemma OneByte(h: seq<byte>, head: byte, r: int)
    requires IsFirst(h, [head], r)
    ensures r == -1 <==> head !in h
    ensures r == 0 <==> h != [] && h[0] == head
  {
    forall k | 0 <= k < |h| ensures MatchesAt(h, [head], k) <==> h[k] == head { assert h[k..k + 1] == [h[k]]; }
    if head in h {
      var k :| 0 <= k < |h| && h[k] == head;
      assert MatchesAt(h, [head], k);
    }
  }
}
