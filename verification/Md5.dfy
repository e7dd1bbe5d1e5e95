/** The streaming MD5 hasher: a 64-byte buffer, a chaining state and a two-word bit counter, updated in
    place by every chunk.  The block function is a parameter, so the results hold whatever it computes. */
module Md5 {
  import opened Basics

  const BLOCK: nat := 64

  // ----- the specification: sections 3.1 to 3.4 of RFC 1321

  function Zeros(n: nat): (r: seq<byte>)
    ensures |r| == n && forall i :: 0 <= i < n ==> r[i] == 0
  {
    seq(n, _ => 0)
  }

  /** A 32-bit number, low byte first. */
  function Bytes4(x: nat): (r: seq<byte>)
    ensures |r| == 4
  {
    [x % 256, x / 256 % 256, x / 65536 % 256, x / 16777216 % 256]
  }

  /** The bit length modulo 2^64, low word first. */
  function LengthBytes(n: nat): (r: seq<byte>)
    ensures |r| == 8
  {
    Bytes4(8 * n % UINT32_LIMIT) + Bytes4(8 * n / UINT32_LIMIT % UINT32_LIMIT)
  }

  /** Zeros after the 0x80 byte, so that eight bytes are left in the last block. */
  function PadZeros(n: nat): (r: nat)
    ensures r < BLOCK && (n + 1 + r + 8) % BLOCK == 0
  {
    (BLOCK + 55 - n % BLOCK) % BLOCK
  }

  function Pad(m: seq<byte>): (r: seq<byte>)
    ensures |r| % BLOCK == 0 && m <= r
  {
    m + [0x80] + Zeros(PadZeros(|m|)) + LengthBytes(|m|)
  }

  /** The state after the first k blocks of a byte string. */
  function Blocks<S>(init: S, block: (S, seq<byte>) -> S, s: seq<byte>, k: nat): S
    requires BLOCK * k <= |s|
  {
    if k == 0 then init else block(Blocks(init, block, s, k - 1), s[BLOCK * (k - 1)..BLOCK * k])
  }

  function Digest<S>(init: S, block: (S, seq<byte>) -> S, m: seq<byte>): S {
    Blocks(init, block, Pad(m), |Pad(m)| / BLOCK)
  }

  lemma {:induction false} BlocksPrefix<S>(init: S, block: (S, seq<byte>) -> S, s: seq<byte>, t: seq<byte>, k: nat)
    requires BLOCK * k <= |s| && s <= t
    ensures Blocks(init, block, s, k) == Blocks(init, block, t, k)
  {
    if k > 0 {
      BlocksPrefix(init, block, s, t, k - 1);
      assert s[BLOCK * (k - 1)..BLOCK * k] == t[BLOCK * (k - 1)..BLOCK * k];
    }
  }

  // ----- the counter

  /** The two words hold the number of message bits modulo 2^64. */
  predicate Counts(lo: nat, hi: nat, n: nat) {
    lo == 8 * n % UINT32_LIMIT && hi == 8 * n / UINT32_LIMIT % UINT32_LIMIT
  }

  /** Adding a length the way the source does: shift, carry on wrap-around, and the bits shifted out. */
  function AddLow(lo: nat, len: nat): nat {
    (lo + len * 8 % UINT32_LIMIT) % UINT32_LIMIT
  }

  function AddHigh(lo: nat, hi: nat, len: nat): nat {
    var carried := if AddLow(lo, len) < lo then (hi + 1) % UINT32_LIMIT else hi;
    (carried + len / 0x2000_0000) % UINT32_LIMIT
  }

  lemma CounterAdds(lo: nat, hi: nat, n: nat, len: nat)
    requires Counts(lo, hi, n) && len < UINT32_LIMIT
    ensures Counts(AddLow(lo, len), AddHigh(lo, hi, len), n + len)
  {
    var L := UINT32_LIMIT;
    var q, x, y := 8 * n / L, len * 8 % L, len / 0x2000_0000;
    assert 8 * n == L * q + lo;
    assert len * 8 == L * y + x;
    assert 8 * (n + len) == L * (q + y) + (lo + x);
    if lo + x < L {
      assert AddLow(lo, len) == lo + x;
      DivModUnique(8 * (n + len), q + y, lo + x);
      ModAdd(q, y, 0);
    } else {
      assert AddLow(lo, len) == lo + x - L;
      assert 8 * (n + len) == L * (q + y + 1) + (lo + x - L);
      DivModUnique(8 * (n + len), q + y + 1, lo + x - L);
      ModAdd(q, y, 1);
    }
  }

  lemma DivModUnique(a: nat, q: nat, r: nat)
    requires a == UINT32_LIMIT * q + r && r < UINT32_LIMIT
    ensures a / UINT32_LIMIT == q && a % UINT32_LIMIT == r
  {
  }

  lemma ModAdd(q: nat, y: nat, c: nat)
    requires c <= 1
    ensures ((q % UINT32_LIMIT + c) % UINT32_LIMIT + y) % UINT32_LIMIT == (q + y + c) % UINT32_LIMIT
    ensures (q % UINT32_LIMIT + y) % UINT32_LIMIT == (q + y) % UINT32_LIMIT
  {
  }

  lemma BufferedBytes(lo: nat, n: nat)
    requires lo == 8 * n % UINT32_LIMIT
    ensures lo / 8 % BLOCK == n % BLOCK
  {
    var q := 8 * n / UINT32_LIMIT;
    assert lo == 8 * (n - 0x2000_0000 * q);
    assert lo / 8 == n - 0x2000_0000 * q;
    assert 0x2000_0000 * q == BLOCK * (0x80_0000 * q);
    SubMultiple(n, 0x80_0000 * q);
  }

  lemma SubMultiple(n: nat, k: nat)
    requires BLOCK * k <= n
    ensures (n - BLOCK * k) % BLOCK == n % BLOCK
  {
  }

  lemma FillIs(n: nat, full: nat)
    requires BLOCK * full <= n < BLOCK * full + BLOCK
    ensures n % BLOCK == n - BLOCK * full
  {
  }

  // ----- blocks and padding

  lemma NextBlock<S>(init: S, block: (S, seq<byte>) -> S, s: seq<byte>, k: nat)
    requires BLOCK * k + BLOCK <= |s|
    ensures Blocks(init, block, s, k + 1) == block(Blocks(init, block, s, k), s[BLOCK * k..BLOCK * k + BLOCK])
  {
  }

  /** The padding of a message whose last, unfinished block leaves at least nine free bytes. */
  lemma PadShort(m: seq<byte>, full: nat, fill: nat)
    requires BLOCK * full + fill == |m| && fill <= 55
    ensures |Pad(m)| == BLOCK * (full + 1)
    ensures Pad(m)[BLOCK * full..] == m[BLOCK * full..] + [0x80] + Zeros(55 - fill) + LengthBytes(|m|)
  {
    FillIs(|m|, full);
    assert PadZeros(|m|) == 55 - fill;
    DropPad(m, full);
  }

  /** Otherwise the length goes into a block of its own. */
  lemma PadLong(m: seq<byte>, full: nat, fill: nat)
    requires BLOCK * full + fill == |m| && 56 <= fill < BLOCK
    ensures |Pad(m)| == BLOCK * (full + 2)
    ensures Pad(m)[BLOCK * full..BLOCK * full + BLOCK] == m[BLOCK * full..] + [0x80] + Zeros(63 - fill)
    ensures Pad(m)[BLOCK * (full + 1)..] == Zeros(56) + LengthBytes(|m|)
  {
    FillIs(|m|, full);
    assert PadZeros(|m|) == 119 - fill;
    DropPad(m, full);
    var tail := m[BLOCK * full..] + [0x80] + Zeros(119 - fill) + LengthBytes(|m|);
    assert Pad(m)[BLOCK * full..BLOCK * full + BLOCK] == tail[..BLOCK];
    assert tail[..BLOCK] == m[BLOCK * full..] + [0x80] + Zeros(63 - fill);
    assert Pad(m)[BLOCK * (full + 1)..] == tail[BLOCK..];
    assert tail[BLOCK..] == Zeros(56) + LengthBytes(|m|);
  }

  lemma DropPad(m: seq<byte>, full: nat)
    requires BLOCK * full <= |m|
    ensures Pad(m)[BLOCK * full..] == m[BLOCK * full..] + [0x80] + Zeros(PadZeros(|m|)) + LengthBytes(|m|)
  {
  }

  lemma BlockCount(n: nat, k: nat)
    requires n == BLOCK * k
    ensures n / BLOCK == k
  {
  }

  lemma DigestShort<S>(init: S, block: (S, seq<byte>) -> S, m: seq<byte>, full: nat, fill: nat)
    requires BLOCK * full + fill == |m| && fill <= 55
    ensures Digest(init, block, m) ==
            block(Blocks(init, block, m, full), m[BLOCK * full..] + [0x80] + Zeros(55 - fill) + LengthBytes(|m|))
  {
    PadShort(m, full, fill);
    BlockCount(|Pad(m)|, full + 1);
    NextBlock(init, block, Pad(m), full);
    BlocksPrefix(init, block, m, Pad(m), full);
    assert Pad(m)[BLOCK * full..BLOCK * full + BLOCK] == Pad(m)[BLOCK * full..];
  }

  lemma DigestLong<S>(init: S, block: (S, seq<byte>) -> S, m: seq<byte>, full: nat, fill: nat)
    requires BLOCK * full + fill == |m| && 56 <= fill < BLOCK
    ensures Digest(init, block, m) ==
            block(block(Blocks(init, block, m, full), m[BLOCK * full..] + [0x80] + Zeros(63 - fill)),
                  Zeros(56) + LengthBytes(|m|))
  {
    PadLong(m, full, fill);
    BlockCount(|Pad(m)|, full + 2);
    BlocksPrefix(init, block, m, Pad(m), full);
    TwoBlocks(init, block, Pad(m), full);
  }

  lemma TwoBlocks<S>(init: S, block: (S, seq<byte>) -> S, s: seq<byte>, k: nat)
    requires |s| == BLOCK * (k + 2)
    ensures Blocks(init, block, s, k + 2) ==
            block(block(Blocks(init, block, s, k), s[BLOCK * k..BLOCK * k + BLOCK]), s[BLOCK * (k + 1)..])
  {
    assert s[BLOCK * (k + 1)..BLOCK * (k + 1) + BLOCK] == s[BLOCK * (k + 1)..];
    NextBlock(init, block, s, k + 1);
    NextBlock(init, block, s, k);
  }

  // ----- the buffer after a copy

  lemma FilledPart(was: seq<byte>, m: seq<byte>, data: seq<byte>, full: nat, fill: nat)
    requires |was| == BLOCK && BLOCK * full + fill == |m| && fill + |data| < BLOCK && was[..fill] == m[BLOCK * full..]
    ensures (was[..fill] + data + was[fill + |data|..])[..fill + |data|] == (m + data)[BLOCK * full..]
  {
  }

  lemma FilledBlock(was: seq<byte>, m: seq<byte>, data: seq<byte>, full: nat, fill: nat)
    requires |was| == BLOCK && BLOCK * full + fill == |m| && fill < BLOCK <= fill + |data|
    requires was[..fill] == m[BLOCK * full..]
    ensures was[..fill] + data[..BLOCK - fill] + was[BLOCK..] == (m + data)[BLOCK * full..BLOCK * full + BLOCK]
  {
  }

  /** The last blocks, as the source writes them into the buffer. */
  lemma PaddedBuffer(was: seq<byte>, fill: nat, zeros: nat, end: nat)
    requires |was| == BLOCK && fill + 1 + zeros == end <= BLOCK
    ensures var marked := was[..fill] + [0x80] + was[fill + 1..];
            (marked[..fill + 1] + Zeros(zeros) + marked[end..])[..end] == was[..fill] + [0x80] + Zeros(zeros)
  {
  }

  lemma LengthEnd(was: seq<byte>, lo: nat, hi: nat, n: nat)
    requires |was| == BLOCK && Counts(lo, hi, n)
    ensures was[..56] + (Bytes4(lo) + Bytes4(hi)) + was[BLOCK..] == was[..56] + LengthBytes(n)
  {
  }

  // ----- the hasher

  class MD5<S> {
    const init: S
    const block: (S, seq<byte>) -> S
    const hex: S -> string
    var isInit: bool
    var state: S
    var lo: nat
    var hi: nat
    const buffer: array<byte>
    var result: string
    /** The bytes added since the last finish, and how many whole blocks of them went into the state. */
    ghost var message: seq<byte>
    ghost var full: nat

    ghost predicate Valid()
      reads this, buffer
    {
      && buffer.Length == BLOCK
      && (if isInit then Holds() else message == [])
    }

    ghost predicate Holds()
      requires buffer.Length == BLOCK
      reads this, buffer
    {
      && Counts(lo, hi, |message|)
      && BLOCK * full <= |message| < BLOCK * full + BLOCK
      && state == Blocks(init, block, message, full)
      && buffer[..|message| - BLOCK * full] == message[BLOCK * full..]
    }

    constructor (init: S, block: (S, seq<byte>) -> S, hex: S -> string)
      ensures Valid() && !isInit && message == [] && result == "" && fresh(buffer)
      ensures this.init == init && this.block == block && this.hex == hex
    {
      this.init, this.block, this.hex := init, block, hex;
      isInit, state, lo, hi, result := false, init, 0, 0, "";
      buffer := new byte[BLOCK](_ => 0);
      message, full := [], 0;
    }

    method Init()
      requires buffer.Length == BLOCK
      modifies this
      ensures Valid() && isInit && message == [] && result == old(result)
    {
      isInit, state, lo, hi := true, init, 0, 0;
      message, full := [], 0;
    }

    method Fill(at: nat, src: seq<byte>)
      requires buffer.Length == BLOCK && at + |src| <= BLOCK
      modifies buffer
      ensures buffer[..] == old(buffer[..at]) + src + old(buffer[at + |src|..])
    {
      for k := 0 to |src|
        invariant buffer[..] == old(buffer[..at]) + src[..k] + old(buffer[at + k..])
      {
        buffer[at + k] := src[k];
      }
    }

    /** Bytes of the unfinished block, from the low counter word. */
    method Buffered() returns (fill: nat)
      requires Valid() && isInit
      ensures BLOCK * full + fill == |message| && fill < BLOCK
    {
      BufferedBytes(lo, |message|);
      FillIs(|message|, full);
      fill := lo / 8 % BLOCK;
    }

    method AddLength(len: nat, ghost before: nat)
      requires Counts(lo, hi, before) && len < UINT32_LIMIT && before + len == |message|
      modifies this`lo, this`hi
      ensures Counts(lo, hi, |message|)
    {
      CounterAdds(lo, hi, before, len);
      lo, hi := AddLow(lo, len), AddHigh(lo, hi, len);
    }

    method Update(data: seq<byte>)
      requires Valid() && isInit && |data| < UINT32_LIMIT
      modifies this, buffer
      ensures Valid() && isInit && message == old(message) + data && result == old(result)
    {
      var fill := Buffered();
      ghost var before := message;
      BlocksPrefix(init, block, before, before + data, full);
      message := before + data;
      AddLength(|data|, |before|);
      var p := 0;
      if fill != 0 {
        var room := BLOCK - fill;
        if |data| < room {
          FilledPart(buffer[..], before, data, full, fill);
          Fill(fill, data);
          return;
        }
        FirstBlock(data, fill, before);
        p := room;
      }
      UpdateRest(data, p, |before|);
    }

    /** Completes the unfinished block with the first bytes of the data. */
    method FirstBlock(data: seq<byte>, fill: nat, ghost before: seq<byte>)
      requires buffer.Length == BLOCK && message == before + data
      requires BLOCK * full + fill == |before| && fill < BLOCK <= fill + |data|
      requires buffer[..fill] == before[BLOCK * full..]
      requires state == Blocks(init, block, message, full)
      modifies this`state, this`full, buffer
      ensures full == old(full) + 1 && state == Blocks(init, block, message, full)
    {
      FilledBlock(buffer[..], before, data, full, fill);
      Fill(fill, data[..BLOCK - fill]);
      NextBlock(init, block, message, full);
      state := block(state, buffer[..]);
      full := full + 1;
    }

    /** The whole blocks of the data from position p on, then the bytes that are left over. */
    method UpdateRest(data: seq<byte>, p: nat, ghost before: nat)
      requires buffer.Length == BLOCK && p <= |data| && before + |data| == |message| && message[before..] == data
      requires BLOCK * full == before + p && state == Blocks(init, block, message, full)
      requires Counts(lo, hi, |message|)
      modifies this, buffer
      ensures Holds() && (isInit, result, message) == old((isInit, result, message))
    {
      var q := UpdateBlocks(data, p, before);
      Fill(0, data[q..]);
      assert buffer[..|data| - q] == message[BLOCK * full..];
    }

    /** The 64-byte chunks of the data from position p on. */
    method UpdateBlocks(data: seq<byte>, p: nat, ghost before: nat) returns (q: nat)
      requires buffer.Length == BLOCK && p <= |data| && before + |data| == |message| && message[before..] == data
      requires BLOCK * full == before + p && state == Blocks(init, block, message, full)
      modifies this, buffer
      ensures p <= q <= |data| < q + BLOCK
      ensures (isInit, lo, hi, result, message) == old((isInit, lo, hi, result, message))
      ensures BLOCK * full == before + q && state == Blocks(init, block, message, full)
    {
      q := p;
      while |data| - q >= BLOCK
        invariant (isInit, lo, hi, result, message) == old((isInit, lo, hi, result, message))
        invariant p <= q <= |data| && BLOCK * full == before + q && state == Blocks(init, block, message, full)
      {
        Fill(0, data[q..q + BLOCK]);
        assert buffer[..] == message[BLOCK * full..BLOCK * full + BLOCK];
        NextBlock(init, block, message, full);
        state := block(state, buffer[..]);
        q, full := q + BLOCK, full + 1;
      }
    }

    method Final() returns (digest: S)
      requires Valid() && isInit
      modifies this, buffer
      ensures digest == Digest(init, block, old(message))
      ensures Valid() && !isInit && message == [] && result == old(result)
    {
      var fill := Buffered();
      PadOut(fill);
      LengthEnd(buffer[..], lo, hi, |message|);
      Fill(56, Bytes4(lo) + Bytes4(hi));
      state := block(state, buffer[..]);
      digest := state;
      isInit, message, lo, hi := false, [], 0, 0;
    }

    /** Marks the end of the message and pads up to the length; may use up a block. */
    method PadOut(fill: nat)
      requires Valid() && isInit && BLOCK * full + fill == |message| && fill < BLOCK
      modifies this`state, buffer
      ensures block(state, buffer[..56] + LengthBytes(|message|)) == Digest(init, block, message)
    {
      ghost var was := buffer[..];
      buffer[fill] := 0x80;
      assert buffer[..] == was[..fill] + [0x80] + was[fill + 1..];
      var count := BLOCK - 1 - fill;
      if count < 8 {
        DigestLong(init, block, message, full, fill);
        PaddedBuffer(was, fill, count, BLOCK);
        Fill(fill + 1, Zeros(count));
        assert buffer[..] == buffer[..BLOCK];
        state := block(state, buffer[..]);
        Fill(0, Zeros(56));
        assert buffer[..56] == Zeros(56);
      } else {
        DigestShort(init, block, message, full, fill);
        PaddedBuffer(was, fill, count - 8, 56);
        Fill(fill + 1, Zeros(count - 8));
      }
    }

    method AddToMD5(data: seq<byte>)
      requires Valid() && |data| < UINT32_LIMIT
      modifies this, buffer
      ensures Valid() && isInit && message == old(message) + data && result == old(result)
    {
      if !isInit { Init(); }
      Update(data);
    }

    /** The digest of everything added since the last finish; with nothing added, the previous text again. */
    method FinishMD5() returns (text: string)
      requires Valid()
      modifies this, buffer
      ensures Valid() && !isInit && message == [] && text == result
      ensures text == if old(isInit) then hex(Digest(init, block, old(message))) else old(result)
    {
      if isInit {
        var digest := Final();
        result := hex(digest);
      }
      text := result;
    }
  }

  // ----- the digest of a message does not depend on how it was cut up

  function Concat(chunks: seq<seq<byte>>): seq<byte> {
    if chunks == [] then [] else Concat(chunks[..|chunks| - 1]) + chunks[|chunks| - 1]
  }

  method HashChunks<S>(init: S, block: (S, seq<byte>) -> S, hex: S -> string, chunks: seq<seq<byte>>)
    returns (text: string)
    requires forall k :: 0 <= k < |chunks| ==> |chunks[k]| < UINT32_LIMIT
    ensures text == if chunks == [] then "" else hex(Digest(init, block, Concat(chunks)))
  {
    var hasher := new MD5(init, block, hex);
    for k := 0 to |chunks|
      invariant hasher.Valid() && fresh(hasher) && fresh(hasher.buffer) && hasher.isInit == (k > 0)
      invariant hasher.message == Concat(chunks[..k]) && hasher.result == ""
      invariant hasher.init == init && hasher.block == block && hasher.hex == hex
    {
      hasher.AddToMD5(chunks[k]);
      assert chunks[..k + 1][..k] == chunks[..k];
    }
    assert chunks[..|chunks|] == chunks;
    text := hasher.FinishMD5();
  }
}
