/** The null bit mask: words of 64 null flags, copied, filled and summarised a word at a time.

    A word is the sequence of its bits, lowest first, and the bitwise operators act bit by bit.  The mask
    tables of the source are `Lower` and `High`. */
module NullMasks {
  import opened Basics

  const WORD: nat := 64

  type Word = w: seq<bool> | |w| == WORD witness seq(WORD, _ => false)

  // ----- words

  function Zero(): (r: Word)
    ensures forall k :: 0 <= k < WORD ==> !r[k]
  {
    seq(WORD, _ => false)
  }

  function Not(a: Word): (r: Word)
    ensures forall k :: 0 <= k < WORD ==> r[k] == !a[k]
  {
    seq(WORD, k requires 0 <= k < WORD => !a[k])
  }

  function And(a: Word, b: Word): (r: Word)
    ensures forall k :: 0 <= k < WORD ==> r[k] == (a[k] && b[k])
  {
    seq(WORD, k requires 0 <= k < WORD => a[k] && b[k])
  }

  function Or(a: Word, b: Word): (r: Word)
    ensures forall k :: 0 <= k < WORD ==> r[k] == (a[k] || b[k])
  {
    seq(WORD, k requires 0 <= k < WORD => a[k] || b[k])
  }

  function Shl(a: Word, n: nat): (r: Word)
    ensures forall k :: 0 <= k < WORD ==> r[k] == (n <= k && a[k - n])
  {
    seq(WORD, k requires 0 <= k < WORD => n <= k && a[k - n])
  }

  function Shr(a: Word, n: nat): (r: Word)
    ensures forall k :: 0 <= k < WORD ==> r[k] == (k + n < WORD && a[k + n])
  {
    seq(WORD, k requires 0 <= k < WORD => k + n < WORD && a[k + n])
  }

  /** The lowest n bits. */
  function Lower(n: nat): (r: Word)
    ensures forall k :: 0 <= k < WORD ==> r[k] == (k < n)
  {
    seq(WORD, k => k < n)
  }

  /** The highest n bits. */
  function High(n: nat): (r: Word)
    ensures forall k :: 0 <= k < WORD ==> r[k] == (WORD <= k + n)
  {
    seq(WORD, k => WORD <= k + n)
  }

  // ----- bits of a mask

  /** The mask as one sequence of bits. */
  function Bits(m: seq<Word>): (r: seq<bool>)
    ensures |r| == WORD * |m|
  {
    if m == [] then [] else Bits(m[..|m| - 1]) + m[|m| - 1]
  }

  predicate Bit(m: seq<Word>, p: nat)
    requires p < WORD * |m|
  {
    Bits(m)[p]
  }

  lemma {:induction false} BitAt(m: seq<Word>, e: nat, k: nat)
    requires e < |m| && k < WORD
    ensures WORD * e + k < WORD * |m| && Bit(m, WORD * e + k) == m[e][k]
    decreases |m|
  {
    if e < |m| - 1 { BitAt(m[..|m| - 1], e, k); }
  }

  /** Replacing a word changes its own bits and no other. */
  lemma {:induction false} BitUpdate(m: seq<Word>, e: nat, w: Word, p: nat)
    requires e < |m| && p < WORD * |m|
    ensures Bit(m[e := w], p) == if WORD * e <= p < WORD * e + WORD then w[p - WORD * e] else Bit(m, p)
    decreases |m|
  {
    var last := |m| - 1;
    assert e < last ==> m[e := w][..last] == m[..last][e := w];
    assert e == last ==> m[e := w][..last] == m[..last];
    if e < last && p < WORD * last { BitUpdate(m[..last], e, w, p); }
  }

  predicate Fits(m: seq<Word>, offset: nat, n: nat) {
    offset + n <= WORD * |m|
  }

  /** The bit-by-bit copy: bits in range come from the source, inverted if asked, and no other changes. */
  ghost predicate Copied(src: seq<Word>, srcOffset: nat, was: seq<Word>, now: seq<Word>, dstOffset: nat, n: nat,
                         invert: bool)
    requires Fits(src, srcOffset, n) && Fits(was, dstOffset, n)
  {
    && |now| == |was|
    && forall p :: 0 <= p < WORD * |was| ==>
         Bit(now, p) == if dstOffset <= p < dstOffset + n then Bit(src, srcOffset + (p - dstOffset)) != invert
                        else Bit(was, p)
  }

  /** Some bit of the range, inverted if asked, is set. */
  ghost predicate SomeSet(m: seq<Word>, offset: nat, n: nat, invert: bool)
    requires Fits(m, offset, n)
  {
    exists p :: offset <= p < offset + n && Bit(m, p) != invert
  }

  // ----- one step of an unaligned copy

  /** The source bits of one step, moved to their place in the target word and masked to the range. */
  function Align(w: Word, srcBit: nat, dstBit: nat, n: nat): (r: Word)
    requires srcBit + n <= WORD && dstBit + n <= WORD
    ensures forall k :: 0 <= k < WORD ==> r[k] == (dstBit <= k < dstBit + n && w[srcBit + (k - dstBit)])
  {
    if dstBit < srcBit then
      And(Shr(And(w, Not(High(WORD - (srcBit + n)))), srcBit - dstBit), Not(Lower(dstBit)))
    else if dstBit > srcBit then
      And(Shl(And(w, Not(Lower(srcBit))), dstBit - srcBit), Not(High(WORD - (dstBit + n))))
    else
      And(And(w, Not(Lower(srcBit))), Not(High(WORD - (dstBit + n))))
  }

  /** The target word after one step. */
  function Merge(was: Word, bits: Word, dstBit: nat, n: nat): (r: Word)
    requires dstBit + n <= WORD
    requires forall k :: 0 <= k < WORD ==> bits[k] ==> dstBit <= k < dstBit + n
    ensures forall k :: 0 <= k < WORD ==> r[k] == if dstBit <= k < dstBit + n then bits[k] else was[k]
  {
    Or(And(was, Not(Shl(Lower(n), dstBit))), bits)
  }

  lemma MergeZero(was: Word, dstBit: nat, n: nat)
    requires dstBit + n <= WORD
    ensures Or(And(was, Not(Shl(Lower(n), dstBit))), Zero()) == And(was, Not(Shl(Lower(n), dstBit)))
  {
  }

  function MaybeNot(w: Word, invert: bool): Word {
    if invert then Not(w) else w
  }

  /** One step extends the copied range by its bits. */
  lemma CopyStep(src: seq<Word>, srcOffset: nat, was: seq<Word>, now: seq<Word>, dstOffset: nat, done: nat, n: nat,
                 invert: bool, se: nat, sb: nat, de: nat, db: nat)
    requires Fits(src, srcOffset, done + n) && Fits(was, dstOffset, done + n)
    requires Copied(src, srcOffset, was, now, dstOffset, done, invert)
    requires WORD * se + sb == srcOffset + done && WORD * de + db == dstOffset + done
    requires sb + n <= WORD && db + n <= WORD && se < |src| && de < |now|
    ensures Copied(src, srcOffset, was,
                   now[de := Merge(now[de], Align(MaybeNot(src[se], invert), sb, db, n), db, n)],
                   dstOffset, done + n, invert)
  {
    var bits := Align(MaybeNot(src[se], invert), sb, db, n);
    var after := now[de := Merge(now[de], bits, db, n)];
    forall p | 0 <= p < WORD * |was|
      ensures Bit(after, p) ==
                if dstOffset <= p < dstOffset + (done + n) then Bit(src, srcOffset + (p - dstOffset)) != invert
                else Bit(was, p)
    {
      BitUpdate(now, de, Merge(now[de], bits, db, n), p);
      if WORD * de <= p < WORD * de + WORD {
        var k := p - WORD * de;
        BitAt(now, de, k);
        if db <= k < db + n {
          BitAt(src, se, sb + (k - db));
          assert WORD * se + (sb + (k - db)) == srcOffset + (p - dstOffset);
        }
      }
    }
  }

  lemma SomeSetStep(src: seq<Word>, offset: nat, done: nat, n: nat, invert: bool, e: nat, sb: nat, db: nat)
    requires Fits(src, offset, done + n) && WORD * e + sb == offset + done
    requires sb + n <= WORD && db + n <= WORD && e < |src|
    ensures SomeSet(src, offset, done + n, invert) <==>
            SomeSet(src, offset, done, invert) || Align(MaybeNot(src[e], invert), sb, db, n) != Zero()
  {
    if SomeSet(src, offset, done + n, invert) && !SomeSet(src, offset, done, invert) {
      var p :| offset <= p < offset + (done + n) && Bit(src, p) != invert;
      SetBitAligned(src, e, sb, db, n, invert, p - offset - done);
    }
    if Align(MaybeNot(src[e], invert), sb, db, n) != Zero() {
      var k := AlignedSetBit(src, e, sb, db, n, invert);
      assert Bit(src, offset + done + k) != invert;
    }
  }

  lemma SetBitAligned(src: seq<Word>, e: nat, sb: nat, db: nat, n: nat, invert: bool, k: nat)
    requires sb + n <= WORD && db + n <= WORD && e < |src| && k < n
    requires WORD * e + sb + k < WORD * |src| && Bit(src, WORD * e + sb + k) != invert
    ensures Align(MaybeNot(src[e], invert), sb, db, n) != Zero()
  {
    BitAt(src, e, sb + k);
    assert Align(MaybeNot(src[e], invert), sb, db, n)[db + k];
  }

  lemma AlignedSetBit(src: seq<Word>, e: nat, sb: nat, db: nat, n: nat, invert: bool) returns (k: nat)
    requires sb + n <= WORD && db + n <= WORD && e < |src|
    requires Align(MaybeNot(src[e], invert), sb, db, n) != Zero()
    ensures k < n && WORD * e + sb + k < WORD * |src| && Bit(src, WORD * e + sb + k) != invert
  {
    var bits := Align(MaybeNot(src[e], invert), sb, db, n);
    var j := SetPosition(bits);
    k := j - db;
    BitAt(src, e, sb + k);
  }

  lemma SetPosition(w: Word) returns (j: nat)
    requires w != Zero()
    ensures j < WORD && w[j]
  {
    j :| 0 <= j < WORD && w[j] != Zero()[j];
  }

  /** Clears the range in the target word, then sets the bits of the step; reports whether there are any. */
  method WriteBits(dst: array<Word>, e: nat, bits: Word, dstBit: nat, n: nat) returns (any: bool)
    requires e < dst.Length && dstBit + n <= WORD
    requires forall k :: 0 <= k < WORD ==> bits[k] ==> dstBit <= k < dstBit + n
    modifies dst
    ensures dst[..] == old(dst[..])[e := Merge(old(dst[e]), bits, dstBit, n)]
    ensures any <==> bits != Zero()
  {
    any := false;
    ghost var was := dst[e];
    dst[e] := And(dst[e], Not(Shl(Lower(n), dstBit)));
    if bits != Zero() {
      dst[e] := Or(dst[e], bits);
      any := true;
    } else {
      MergeZero(was, dstBit, n);
    }
  }

  // ----- source and target in one buffer

  /** The two ranges have no bit in common. */
  predicate Apart(srcOffset: nat, dstOffset: nat, n: nat) {
    srcOffset + n <= dstOffset || dstOffset + n <= srcOffset
  }

  /** The bits to read are still what they were. */
  ghost predicate Kept(s: seq<Word>, cur: seq<Word>, offset: nat, n: nat)
    requires Fits(s, offset, n)
  {
    |cur| == |s| && forall p :: offset <= p < offset + n ==> Bit(cur, p) == Bit(s, p)
  }

  /** A copy keeps its source: it is another buffer, or a range apart. */
  lemma SourceKept(s: seq<Word>, cur: seq<Word>, srcOffset: nat, was: seq<Word>, now: seq<Word>, dstOffset: nat, n: nat,
                   done: nat, invert: bool)
    requires Fits(s, srcOffset, n) && Fits(was, dstOffset, n) && done <= n
    requires Copied(s, srcOffset, was, now, dstOffset, done, invert)
    requires cur == s || (cur == now && s == was && Apart(srcOffset, dstOffset, n))
    ensures Kept(s, cur, srcOffset, n)
  {
  }

  lemma AlignKept(s: seq<Word>, cur: seq<Word>, offset: nat, n: nat, e: nat, sb: nat, db: nat, count: nat, invert: bool)
    requires Fits(s, offset, n) && Kept(s, cur, offset, n) && e < |s| && sb + count <= WORD && db + count <= WORD
    requires offset <= WORD * e + sb && WORD * e + sb + count <= offset + n
    ensures Align(MaybeNot(cur[e], invert), sb, db, count) == Align(MaybeNot(s[e], invert), sb, db, count)
  {
    forall k | sb <= k < sb + count ensures cur[e][k] == s[e][k] {
      BitAt(cur, e, k);
      BitAt(s, e, k);
      assert Bit(cur, WORD * e + k) == Bit(s, WORD * e + k);
    }
    var a, b := MaybeNot(cur[e], invert), MaybeNot(s[e], invert);
    forall k | 0 <= k < WORD ensures Align(a, sb, db, count)[k] == Align(b, sb, db, count)[k] {
      if db <= k < db + count { assert cur[e][sb + (k - db)] == s[e][sb + (k - db)]; }
    }
  }

  /** One step from the source as it is now. */
  lemma StepFrom(s: seq<Word>, cur: seq<Word>, srcOffset: nat, was: seq<Word>, now: seq<Word>, dstOffset: nat, n: nat,
                 done: nat, count: nat, invert: bool, se: nat, sb: nat, de: nat, db: nat)
    requires Fits(s, srcOffset, n) && Fits(was, dstOffset, n) && done + count <= n
    requires Copied(s, srcOffset, was, now, dstOffset, done, invert)
    requires cur == s || (cur == now && s == was && Apart(srcOffset, dstOffset, n))
    requires WORD * se + sb == srcOffset + done && WORD * de + db == dstOffset + done
    requires sb + count <= WORD && db + count <= WORD && se < |cur| && de < |now|
    ensures Copied(s, srcOffset, was,
                   now[de := Merge(now[de], Align(MaybeNot(cur[se], invert), sb, db, count), db, count)],
                   dstOffset, done + count, invert)
    ensures SomeSet(s, srcOffset, done + count, invert) <==>
            SomeSet(s, srcOffset, done, invert) || Align(MaybeNot(cur[se], invert), sb, db, count) != Zero()
  {
    SourceKept(s, cur, srcOffset, was, now, dstOffset, n, done, invert);
    AlignKept(s, cur, srcOffset, n, se, sb, db, count, invert);
    CopyStep(s, srcOffset, was, now, dstOffset, done, count, invert, se, sb, de, db);
    SomeSetStep(s, srcOffset, done, count, invert, se, sb, db);
  }

  /** The bits of one step, aligned and written. */
  method CopyPart(src: array<Word>, dst: array<Word>, se: nat, sb: nat, de: nat, db: nat, count: nat, invert: bool,
                  ghost s: seq<Word>, ghost srcOffset: nat, ghost was: seq<Word>, ghost dstOffset: nat, ghost n: nat,
                  ghost done: nat)
    returns (any: bool)
    requires Fits(s, srcOffset, n) && Fits(was, dstOffset, n) && done + count <= n
    requires Copied(s, srcOffset, was, dst[..], dstOffset, done, invert)
    requires if src == dst then s == was && Apart(srcOffset, dstOffset, n) else src[..] == s
    requires WORD * se + sb == srcOffset + done && WORD * de + db == dstOffset + done
    requires sb + count <= WORD && db + count <= WORD && se < src.Length && de < dst.Length
    modifies dst
    ensures Copied(s, srcOffset, was, dst[..], dstOffset, done + count, invert)
    ensures SomeSet(s, srcOffset, done + count, invert) <==> SomeSet(s, srcOffset, done, invert) || any
  {
    var bits := Align(MaybeNot(src[se], invert), sb, db, count);
    StepFrom(s, src[..], srcOffset, was, dst[..], dstOffset, n, done, count, invert, se, sb, de, db);
    any := WriteBits(dst, de, bits, db, count);
  }

  /** Copies word by word; the three cases are source ahead of target within the word, behind it, or level. */
  method CopyUnaligned(src: array<Word>, srcOffset: nat, dst: array<Word>, dstOffset: nat, n: nat, invert: bool)
    returns (hasNull: bool)
    requires Fits(src[..], srcOffset, n) && Fits(dst[..], dstOffset, n)
    requires src != dst || Apart(srcOffset, dstOffset, n)
    modifies dst
    ensures Copied(old(src[..]), srcOffset, old(dst[..]), dst[..], dstOffset, n, invert)
    ensures hasNull <==> SomeSet(old(src[..]), srcOffset, n, invert)
  {
    hasNull := false;
    var done: nat := 0;
    var se: nat, sb: nat := srcOffset / WORD, srcOffset % WORD;
    var de: nat, db: nat := dstOffset / WORD, dstOffset % WORD;
    ghost var s, was := src[..], dst[..];
    while done < n
      invariant 0 <= done <= n && (src != dst ==> src[..] == s)
      invariant sb < WORD && db < WORD
      invariant done < n ==> WORD * se + sb == srcOffset + done && WORD * de + db == dstOffset + done
      invariant Copied(s, srcOffset, was, dst[..], dstOffset, done, invert)
      invariant hasNull <==> SomeSet(s, srcOffset, done, invert)
    {
      var count := Min(WORD - (if db < sb then sb else db), n - done);
      var any := CopyPart(src, dst, se, sb, de, db, count, invert, s, srcOffset, was, dstOffset, n, done);
      hasNull := hasNull || any;
      done := done + count;
      if db < sb {
        se, sb, db := se + 1, 0, db + count;
      } else if db > sb {
        de, db, sb := de + 1, 0, sb + count;
      } else {
        se, de, sb, db := se + 1, de + 1, 0, 0;
      }
    }
  }

  // ----- the aligned path

  lemma CopiedThen(src: seq<Word>, srcOffset: nat, was: seq<Word>, mid: seq<Word>, now: seq<Word>, dstOffset: nat,
                   a: nat, b: nat)
    requires Fits(src, srcOffset, a + b) && Fits(was, dstOffset, a + b)
    requires Copied(src, srcOffset, was, mid, dstOffset, a, false)
    requires Copied(src, srcOffset + a, mid, now, dstOffset + a, b, false)
    ensures Copied(src, srcOffset, was, now, dstOffset, a + b, false)
    ensures SomeSet(src, srcOffset, a + b, false) <==>
            SomeSet(src, srcOffset, a, false) || SomeSet(src, srcOffset + a, b, false)
  {
    forall p | 0 <= p < WORD * |was|
      ensures Bit(now, p) == if dstOffset <= p < dstOffset + (a + b) then Bit(src, srcOffset + (p - dstOffset)) != false
                             else Bit(was, p)
    {
      if dstOffset + a <= p < dstOffset + a + b {
        assert (srcOffset + a) + (p - (dstOffset + a)) == srcOffset + (p - dstOffset);
      } else {
        assert Bit(now, p) == Bit(mid, p);
      }
    }
    if SomeSet(src, srcOffset, a + b, false) {
      var p :| srcOffset <= p < srcOffset + (a + b) && Bit(src, p) != false;
      assert p < srcOffset + a || srcOffset + a <= p;
    }
  }

  /** What was copied from the kept bits was copied from the source. */
  lemma CopiedFrom(s: seq<Word>, cur: seq<Word>, srcOffset: nat, was: seq<Word>, now: seq<Word>, dstOffset: nat, n: nat)
    requires Fits(s, srcOffset, n) && Fits(was, dstOffset, n) && Kept(s, cur, srcOffset, n)
    requires Copied(cur, srcOffset, was, now, dstOffset, n, false)
    ensures Copied(s, srcOffset, was, now, dstOffset, n, false)
    ensures SomeSet(s, srcOffset, n, false) <==> SomeSet(cur, srcOffset, n, false)
  {
    if SomeSet(s, srcOffset, n, false) {
      var p :| srcOffset <= p < srcOffset + n && Bit(s, p) != false;
      assert Bit(cur, p) != false;
    }
    if SomeSet(cur, srcOffset, n, false) {
      var p :| srcOffset <= p < srcOffset + n && Bit(cur, p) != false;
      assert Bit(s, p) != false;
    }
  }

  /** Two copies, one after the other, from the source as it is at each. */
  lemma CopiedOn(s: seq<Word>, cur: seq<Word>, srcOffset: nat, was: seq<Word>, mid: seq<Word>, now: seq<Word>,
                 dstOffset: nat, a: nat, b: nat)
    requires Fits(s, srcOffset, a + b) && Fits(was, dstOffset, a + b)
    requires Copied(s, srcOffset, was, mid, dstOffset, a, false)
    requires cur == s || (cur == mid && s == was && Apart(srcOffset, dstOffset, a + b))
    requires Fits(cur, srcOffset + a, b) && Copied(cur, srcOffset + a, mid, now, dstOffset + a, b, false)
    ensures Copied(s, srcOffset, was, now, dstOffset, a + b, false)
    ensures SomeSet(s, srcOffset, a + b, false) <==>
            SomeSet(s, srcOffset, a, false) || SomeSet(cur, srcOffset + a, b, false)
  {
    SourceKept(s, cur, srcOffset, was, mid, dstOffset, a + b, a, false);
    CopiedFrom(s, cur, srcOffset + a, mid, now, dstOffset + a, b);
    CopiedThen(s, srcOffset, was, mid, now, dstOffset, a, b);
  }

  /** Whole bytes: byte j of the mask holds its bits 8j to 8j + 7. */
  method CopyBytes(src: array<Word>, srcByte: nat, dst: array<Word>, dstByte: nat, count: nat) returns (any: bool)
    requires Fits(src[..], 8 * srcByte, 8 * count) && Fits(dst[..], 8 * dstByte, 8 * count)
    requires src != dst || Apart(8 * srcByte, 8 * dstByte, 8 * count)
    modifies dst
    ensures Copied(old(src[..]), 8 * srcByte, old(dst[..]), dst[..], 8 * dstByte, 8 * count, false)
    ensures any <==> SomeSet(old(src[..]), 8 * srcByte, 8 * count, false)
  {
    any := false;
    ghost var s, was := src[..], dst[..];
    for j := 0 to count
      invariant src != dst ==> src[..] == s
      invariant Copied(s, 8 * srcByte, was, dst[..], 8 * dstByte, 8 * j, false)
      invariant any <==> SomeSet(s, 8 * srcByte, 8 * j, false)
    {
      var se, sb := (srcByte + j) / 8, (srcByte + j) % 8 * 8;
      var de, db := (dstByte + j) / 8, (dstByte + j) % 8 * 8;
      BytePos(srcByte + j);
      BytePos(dstByte + j);
      assert WORD * se + sb == 8 * srcByte + 8 * j && WORD * de + db == 8 * dstByte + 8 * j;
      StepFrom(s, src[..], 8 * srcByte, was, dst[..], 8 * dstByte, 8 * count, 8 * j, 8, false, se, sb, de, db);
      ByteIsAligned(dst[de], src[se], sb, db);
      any := any || src[se][sb..sb + 8] != seq(8, _ => false);
      dst[de] := dst[de][..db] + src[se][sb..sb + 8] + dst[de][db + 8..];
    }
  }

  lemma ByteIsAligned(was: Word, w: Word, sb: nat, db: nat)
    requires sb + 8 <= WORD && db + 8 <= WORD
    ensures was[..db] + w[sb..sb + 8] + was[db + 8..] == Merge(was, Align(w, sb, db, 8), db, 8)
    ensures w[sb..sb + 8] != seq(8, _ => false) <==> Align(w, sb, db, 8) != Zero()
  {
    SplicedWord(was, w, sb, db);
    if w[sb..sb + 8] != seq(8, _ => false) {
      var k :| 0 <= k < 8 && w[sb..sb + 8][k];
      assert Align(w, sb, db, 8)[db + k];
    }
    if Align(w, sb, db, 8) != Zero() {
      AlignedByteSet(w, sb, db);
    }
  }

  lemma SplicedWord(was: Word, w: Word, sb: nat, db: nat)
    requires sb + 8 <= WORD && db + 8 <= WORD
    ensures was[..db] + w[sb..sb + 8] + was[db + 8..] == Merge(was, Align(w, sb, db, 8), db, 8)
  {
    var spliced := was[..db] + w[sb..sb + 8] + was[db + 8..];
    forall k | 0 <= k < WORD ensures spliced[k] == if db <= k < db + 8 then w[sb + (k - db)] else was[k] {
    }
  }

  lemma AlignedByteSet(w: Word, sb: nat, db: nat)
    requires sb + 8 <= WORD && db + 8 <= WORD && Align(w, sb, db, 8) != Zero()
    ensures w[sb..sb + 8] != seq(8, _ => false)
  {
    var bits := Align(w, sb, db, 8);
    var k :| 0 <= k < WORD && bits[k] != Zero()[k];
    assert w[sb..sb + 8][k - db];
  }

  /** Byte j lies in word j / 8. */
  lemma BytePos(j: nat)
    ensures WORD * (j / 8) + j % 8 * 8 == 8 * j && j % 8 * 8 + 8 <= WORD
  {
  }

  // ----- the small path

  function SetBit(m: seq<Word>, p: nat, b: bool): (r: seq<Word>)
    requires p < WORD * |m|
    ensures |r| == |m|
    ensures forall q :: 0 <= q < WORD * |m| ==> Bit(r, q) == if q == p then b else Bit(m, q)
  {
    var e, k := p / WORD, p % WORD;
    var r := m[e := m[e][k := b]];
    assert forall q :: 0 <= q < WORD * |m| ==> Bit(r, q) == if q == p then b else Bit(m, q) by {
      forall q | 0 <= q < WORD * |m| ensures Bit(r, q) == if q == p then b else Bit(m, q) {
        BitUpdate(m, e, m[e][k := b], q);
        if WORD * e <= q < WORD * e + WORD { BitAt(m, e, q - WORD * e); }
      }
    }
    r
  }

  /** A position as the 32-bit parameter of a single-bit helper receives it. */
  function Cut(p: nat): (r: nat)
    ensures r <= p && r < UINT32_LIMIT
    ensures p < UINT32_LIMIT ==> r == p
  {
    p % UINT32_LIMIT
  }

  /** Bit by bit, with every position cut to 32 bits as the parameters of the single-bit helpers are. */
  function SmallCopy(src: seq<Word>, srcOffset: nat, m: seq<Word>, dstOffset: nat, n: nat, invert: bool): (r: seq<Word>)
    requires Fits(src, srcOffset, n) && Fits(m, dstOffset, n)
    ensures |r| == |m|
  {
    if n == 0 then m
    else
      SetBit(SmallCopy(src, srcOffset, m, dstOffset, n - 1, invert),
             Cut(dstOffset + (n - 1)), Bit(src, Cut(srcOffset + (n - 1))) != invert)
  }

  lemma {:induction false} SmallCopyExact(src: seq<Word>, srcOffset: nat, m: seq<Word>, dstOffset: nat, n: nat,
                                          invert: bool)
    requires Fits(src, srcOffset, n) && Fits(m, dstOffset, n)
    requires srcOffset + n <= UINT32_LIMIT && dstOffset + n <= UINT32_LIMIT
    ensures Copied(src, srcOffset, m, SmallCopy(src, srcOffset, m, dstOffset, n, invert), dstOffset, n, invert)
  {
    if n > 0 {
      SmallCopyExact(src, srcOffset, m, dstOffset, n - 1, invert);
      var before := SmallCopy(src, srcOffset, m, dstOffset, n - 1, invert);
      var last := dstOffset + (n - 1);
      var after := SetBit(before, last, Bit(src, srcOffset + (n - 1)) != invert);
      forall p | 0 <= p < WORD * |m|
        ensures Bit(after, p) == if dstOffset <= p < dstOffset + n then Bit(src, srcOffset + (p - dstOffset)) != invert
                                 else Bit(m, p)
      {
        if p != last { assert Bit(after, p) == Bit(before, p); }
      }
    }
  }

  method SetNull(m: array<Word>, pos: nat, isNull: bool)
    requires pos < UINT32_LIMIT && pos < WORD * m.Length
    modifies m
    ensures m[..] == SetBit(old(m[..]), pos, isNull)
  {
    var e, b := pos / WORD, pos % WORD;
    ghost var was := m[e];
    if isNull {
      m[e] := Or(m[e], Shl(Lower(1), b));
    } else {
      m[e] := And(m[e], Not(Shl(Lower(1), b)));
    }
    assert m[e] == was[b := isNull];
  }

  /** No bit that is read has been written, with positions as they are cut. */
  predicate CutApart(srcOffset: nat, dstOffset: nat, n: nat) {
    forall p, q :: srcOffset <= p < srcOffset + n && dstOffset <= q < dstOffset + n ==> Cut(p) != Cut(q)
  }

  lemma {:induction false} SmallCopyKeeps(src: seq<Word>, srcOffset: nat, m: seq<Word>, dstOffset: nat, n: nat,
                                          invert: bool, p: nat)
    requires Fits(src, srcOffset, n) && Fits(m, dstOffset, n) && p < WORD * |m|
    requires forall q :: dstOffset <= q < dstOffset + n ==> Cut(q) != p
    ensures Bit(SmallCopy(src, srcOffset, m, dstOffset, n, invert), p) == Bit(m, p)
  {
    if n > 0 { SmallCopyKeeps(src, srcOffset, m, dstOffset, n - 1, invert, p); }
  }

  lemma SomeCutStep(src: seq<Word>, offset: nat, i: nat)
    requires Fits(src, offset, i + 1)
    ensures SomeCutSet(src, offset, i + 1) <==> SomeCutSet(src, offset, i) || Bit(src, Cut(offset + i))
  {
    if p :| offset <= p < offset + (i + 1) && Bit(src, Cut(p)) { assert p < offset + i || p == offset + i; }
  }

  lemma SmallSource(s: seq<Word>, cur: seq<Word>, srcOffset: nat, was: seq<Word>, dstOffset: nat, n: nat, i: nat,
                    invert: bool)
    requires Fits(s, srcOffset, n) && Fits(was, dstOffset, n) && i < n
    requires cur == s || (s == was && cur == SmallCopy(s, srcOffset, was, dstOffset, i, invert) &&
                          CutApart(srcOffset, dstOffset, n))
    ensures |cur| == |s| && Bit(cur, Cut(srcOffset + i)) == Bit(s, Cut(srcOffset + i))
  {
    if cur != s { SmallCopyKeeps(s, srcOffset, was, dstOffset, i, invert, Cut(srcOffset + i)); }
  }

  method CopyBit(src: array<Word>, srcPos: nat, dst: array<Word>, dstPos: nat, invert: bool) returns (isNull: bool)
    requires srcPos < WORD * src.Length && dstPos < UINT32_LIMIT && dstPos < WORD * dst.Length
    modifies dst
    ensures isNull == Bit(old(src[..]), srcPos) && dst[..] == SetBit(old(dst[..]), dstPos, isNull != invert)
  {
    isNull := src[srcPos / WORD][srcPos % WORD];
    BitAt(src[..], srcPos / WORD, srcPos % WORD);
    SetNull(dst, dstPos, isNull != invert);
  }

  method CopySmall(src: array<Word>, srcOffset: nat, dst: array<Word>, dstOffset: nat, n: nat, invert: bool)
    returns (anyNull: bool)
    requires Fits(src[..], srcOffset, n) && Fits(dst[..], dstOffset, n)
    requires src != dst || CutApart(srcOffset, dstOffset, n)
    modifies dst
    ensures dst[..] == SmallCopy(old(src[..]), srcOffset, old(dst[..]), dstOffset, n, invert)
    ensures anyNull <==> SomeCutSet(old(src[..]), srcOffset, n)
  {
    anyNull := false;
    ghost var s, was := src[..], dst[..];
    for i := 0 to n
      invariant src != dst ==> src[..] == s
      invariant dst[..] == SmallCopy(s, srcOffset, was, dstOffset, i, invert)
      invariant anyNull <==> SomeCutSet(s, srcOffset, i)
    {
      SmallSource(s, src[..], srcOffset, was, dstOffset, n, i, invert);
      SomeCutStep(s, srcOffset, i);
      var isNull := CopyBit(src, Cut(srcOffset + i), dst, Cut(dstOffset + i), invert);
      anyNull := anyNull || isNull;
    }
  }

  // ----- copyNullMask

  /** Two ranges of one buffer: what is read is not written. */
  predicate RangesApart(srcOffset: nat, dstOffset: nat, n: nat) {
    if n <= 3 then CutApart(srcOffset, dstOffset, n) else Apart(srcOffset, dstOffset, n)
  }

  /** For more than three bits the copy is exact.  For up to three it is the bit-by-bit copy with positions
      cut to 32 bits, and the answer is about the source before inversion. */
  method CopyNullMask(src: array<Word>, srcOffset: nat, dst: array<Word>, dstOffset: nat, n: nat, invert: bool)
    returns (hasNull: bool)
    requires Fits(src[..], srcOffset, n) && Fits(dst[..], dstOffset, n)
    requires src != dst || RangesApart(srcOffset, dstOffset, n)
    modifies dst
    ensures n > 3 ==> Copied(old(src[..]), srcOffset, old(dst[..]), dst[..], dstOffset, n, invert)
    ensures n > 3 ==> (hasNull <==> SomeSet(old(src[..]), srcOffset, n, invert))
    ensures n <= 3 ==> dst[..] == SmallCopy(old(src[..]), srcOffset, old(dst[..]), dstOffset, n, invert)
    ensures n <= 3 ==> (hasNull <==> SomeCutSet(old(src[..]), srcOffset, n))
  {
    if n <= 3 {
      hasNull := CopySmall(src, srcOffset, dst, dstOffset, n, invert);
    } else if !invert && srcOffset % 8 == dstOffset % 8 && n >= 8 && n - srcOffset % 8 >= 8 {
      hasNull := CopyAligned(src, srcOffset, dst, dstOffset, n);
    } else {
      hasNull := CopyUnaligned(src, srcOffset, dst, dstOffset, n, invert);
    }
  }

  /** Whole bytes from a bit offset that is a byte boundary. */
  method CopyFromBoundary(src: array<Word>, srcOffset: nat, dst: array<Word>, dstOffset: nat, bytes: nat)
    returns (any: bool)
    requires Fits(src[..], srcOffset, 8 * bytes) && Fits(dst[..], dstOffset, 8 * bytes)
    requires src != dst || Apart(srcOffset, dstOffset, 8 * bytes)
    requires srcOffset % 8 == 0 && dstOffset % 8 == 0
    modifies dst
    ensures Copied(old(src[..]), srcOffset, old(dst[..]), dst[..], dstOffset, 8 * bytes, false)
    ensures any <==> SomeSet(old(src[..]), srcOffset, 8 * bytes, false)
  {
    assert 8 * (srcOffset / 8) == srcOffset && 8 * (dstOffset / 8) == dstOffset;
    any := CopyBytes(src, srcOffset / 8, dst, dstOffset / 8, bytes);
  }

  /** Up to the first byte boundary, then whole bytes. */
  method CopyToLastByte(src: array<Word>, srcOffset: nat, dst: array<Word>, dstOffset: nat, first: nat, bytes: nat)
    returns (hasNull: bool)
    requires Fits(src[..], srcOffset, first + 8 * bytes) && Fits(dst[..], dstOffset, first + 8 * bytes)
    requires src != dst || Apart(srcOffset, dstOffset, first + 8 * bytes)
    requires (srcOffset + first) % 8 == 0 && (dstOffset + first) % 8 == 0
    modifies dst
    ensures Copied(old(src[..]), srcOffset, old(dst[..]), dst[..], dstOffset, first + 8 * bytes, false)
    ensures hasNull <==> SomeSet(old(src[..]), srcOffset, first + 8 * bytes, false)
  {
    ghost var s, d0 := src[..], dst[..];
    hasNull := CopyUnaligned(src, srcOffset, dst, dstOffset, first, false);
    ghost var cur, d1 := src[..], dst[..];
    var any := CopyFromBoundary(src, srcOffset + first, dst, dstOffset + first, bytes);
    CopiedOn(s, cur, srcOffset, d0, d1, dst[..], dstOffset, first, 8 * bytes);
    hasNull := hasNull || any;
  }

  /** Up to the first byte boundary, then whole bytes, then the rest. */
  method CopyAligned(src: array<Word>, srcOffset: nat, dst: array<Word>, dstOffset: nat, n: nat) returns (hasNull: bool)
    requires Fits(src[..], srcOffset, n) && Fits(dst[..], dstOffset, n)
    requires src != dst || Apart(srcOffset, dstOffset, n)
    requires srcOffset % 8 == dstOffset % 8 && n >= 8
    modifies dst
    ensures Copied(old(src[..]), srcOffset, old(dst[..]), dst[..], dstOffset, n, false)
    ensures hasNull <==> SomeSet(old(src[..]), srcOffset, n, false)
  {
    ghost var s, d0 := src[..], dst[..];
    var first := FirstByteBits(srcOffset, dstOffset);
    var bytes := (n - first) / 8;
    hasNull := CopyToLastByte(src, srcOffset, dst, dstOffset, first, bytes);
    var done := first + 8 * bytes;
    if done < n {
      ghost var cur, d1 := src[..], dst[..];
      var last := CopyUnaligned(src, srcOffset + done, dst, dstOffset + done, n - done, false);
      CopiedOn(s, cur, srcOffset, d0, d1, dst[..], dstOffset, done, n - done);
      hasNull := last || hasNull;
    }
  }

  /** Bits before the first byte boundary; a boundary other than the very start counts a whole byte. */
  function FirstByteBits(srcOffset: nat, dstOffset: nat): (r: nat)
    requires srcOffset % 8 == dstOffset % 8
    ensures r <= 8 && (srcOffset + r) % 8 == 0 && (dstOffset + r) % 8 == 0
  {
    if srcOffset != 0 then
      assert srcOffset + (8 - srcOffset % 8) == 8 * (srcOffset / 8 + 1);
      assert dstOffset + (8 - srcOffset % 8) == 8 * (dstOffset / 8 + 1);
      8 - srcOffset % 8
    else 0
  }

  // ----- when the small path is exact

  function Filled(words: nat, b: bool): (m: seq<Word>)
    ensures |m| == words && forall p :: 0 <= p < WORD * words ==> Bit(m, p) == b
  {
    var m: seq<Word> := seq(words, _ => seq(WORD, _ => b));
    assert forall p :: 0 <= p < WORD * words ==> Bit(m, p) == b by {
      forall p | 0 <= p < WORD * words ensures Bit(m, p) == b { BitAt(m, p / WORD, p % WORD); }
    }
    m
  }

  lemma {:induction false} SmallCopyFar(src: seq<Word>, srcOffset: nat, m: seq<Word>, dstOffset: nat, n: nat,
                                        invert: bool,
                                        p: nat)
    requires Fits(src, srcOffset, n) && Fits(m, dstOffset, n) && UINT32_LIMIT <= p < WORD * |m|
    ensures Bit(SmallCopy(src, srcOffset, m, dstOffset, n, invert), p) == Bit(m, p)
    decreases n
  {
    if n > 0 { SmallCopyFar(src, srcOffset, m, dstOffset, n - 1, invert, p); }
  }

  ghost predicate SmallAlwaysExact(srcOffset: nat, dstOffset: nat, n: nat, invert: bool) {
    forall src: seq<Word>, m: seq<Word> {:trigger SmallCopy(src, srcOffset, m, dstOffset, n, invert)} ::
      Fits(src, srcOffset, n) && Fits(m, dstOffset, n) ==>
        Copied(src, srcOffset, m, SmallCopy(src, srcOffset, m, dstOffset, n, invert), dstOffset, n, invert)
  }

  /** The small path is the exact copy, whatever the masks hold, just when both ranges lie below 2^32. */
  lemma SmallExactIff(srcOffset: nat, dstOffset: nat, n: nat, invert: bool)
    requires n > 0
    ensures SmallAlwaysExact(srcOffset, dstOffset, n, invert) <==>
            srcOffset + n <= UINT32_LIMIT && dstOffset + n <= UINT32_LIMIT
  {
    if srcOffset + n <= UINT32_LIMIT && dstOffset + n <= UINT32_LIMIT {
      forall src: seq<Word>, m: seq<Word> | Fits(src, srcOffset, n) && Fits(m, dstOffset, n)
        ensures Copied(src, srcOffset, m, SmallCopy(src, srcOffset, m, dstOffset, n, invert), dstOffset, n, invert)
      {
        SmallCopyExact(src, srcOffset, m, dstOffset, n, invert);
      }
    } else if dstOffset + n > UINT32_LIMIT {
      FarTargetFails(srcOffset, dstOffset, n, invert);
    } else {
      FarSourceFails(srcOffset, dstOffset, n, invert);
    }
  }

  lemma FarTargetFails(srcOffset: nat, dstOffset: nat, n: nat, invert: bool)
    requires n > 0 && dstOffset + n > UINT32_LIMIT
    ensures !SmallAlwaysExact(srcOffset, dstOffset, n, invert)
  {
    var src, m := Filled(srcOffset + n, false), Filled(dstOffset + n, !invert);
    var p := dstOffset + n - 1;
    SmallCopyFar(src, srcOffset, m, dstOffset, n, invert, p);
    assert Bit(SmallCopy(src, srcOffset, m, dstOffset, n, invert), p) !=
           (Bit(src, srcOffset + (p - dstOffset)) != invert);
  }

  lemma FarSourceFails(srcOffset: nat, dstOffset: nat, n: nat, invert: bool)
    requires n > 0 && srcOffset + n > UINT32_LIMIT && dstOffset + n <= UINT32_LIMIT
    ensures !SmallAlwaysExact(srcOffset, dstOffset, n, invert)
  {
    var q, p := srcOffset + n - 1, dstOffset + n - 1;
    var src, m := SetBit(Filled(srcOffset + n, false), q, true), Filled(dstOffset + n, false);
    assert Bit(SmallCopy(src, srcOffset, m, dstOffset, n, invert), p) == (Bit(src, Cut(q)) != invert);
    assert Bit(src, srcOffset + (p - dstOffset)) && !Bit(src, Cut(q));
  }

  // ----- setNullRange

  ghost predicate RangeSet(was: seq<Word>, now: seq<Word>, offset: nat, n: nat, b: bool) {
    && |now| == |was|
    && forall p :: 0 <= p < WORD * |was| ==> Bit(now, p) == if offset <= p < offset + n then b else Bit(was, p)
  }

  /** The word after setting its bits from lo up to hi. */
  function SetWord(w: Word, lo: nat, hi: nat, b: bool): (r: Word)
    requires lo <= hi <= WORD
    ensures forall k :: 0 <= k < WORD ==> r[k] == if lo <= k < hi then b else w[k]
  {
    if b then Or(w, And(Not(Lower(lo)), Not(High(WORD - hi)))) else And(w, Or(Lower(lo), High(WORD - hi)))
  }

  /** A whole word-by-word description of a range: first word, middle words, last word. */
  ghost predicate WordsSet(was: seq<Word>, now: seq<Word>, fe: nat, fb: nat, le: nat, lb: nat, b: bool)
    requires fb < WORD && lb < WORD
  {
    && |now| == |was|
    && forall e :: 0 <= e < |was| ==>
         now[e] == if fe == le == e && fb <= lb then SetWord(was[e], fb, lb, b)
                   else if e == fe && fe < le then SetWord(was[e], fb, WORD, b)
                   else if fe < e < le then SetWord(was[e], 0, WORD, b)
                   else if e == le && fe < le then SetWord(was[e], 0, lb, b)
                   else was[e]
  }

  lemma WordsSetIsRange(was: seq<Word>, now: seq<Word>, offset: nat, n: nat, fe: nat, fb: nat, le: nat, lb: nat,
                        b: bool)
    requires fb < WORD && lb < WORD && WORD * fe + fb == offset && WORD * le + lb == offset + n
    requires WordsSet(was, now, fe, fb, le, lb, b)
    ensures RangeSet(was, now, offset, n, b)
  {
    forall p | 0 <= p < WORD * |was|
      ensures Bit(now, p) == if offset <= p < offset + n then b else Bit(was, p)
    {
      var e, k := p / WORD, p % WORD;
      BitAt(was, e, k);
      BitAt(now, e, k);
    }
  }

  /** The words between the first and the last. */
  method FillMiddle(m: array<Word>, fe: nat, le: nat, isNull: bool)
    requires le <= m.Length
    modifies m
    ensures forall e :: 0 <= e < m.Length ==>
              m[e] == if fe < e < le then SetWord(old(m[e]), 0, WORD, isNull) else old(m[e])
  {
    if le > fe + 1 {
      for e := fe + 1 to le
        invariant forall k :: 0 <= k < m.Length ==>
                    m[k] == if fe < k < e then SetWord(old(m[k]), 0, WORD, isNull) else old(m[k])
      {
        m[e] := if isNull then Not(Zero()) else Zero();
      }
    }
  }

  method SetNullRange(m: array<Word>, offset: nat, n: nat, isNull: bool)
    requires Fits(m[..], offset, n)
    modifies m
    ensures RangeSet(old(m[..]), m[..], offset, n, isNull)
  {
    if n == 0 { return; }
    var fe, fb := offset / WORD, offset % WORD;
    var le, lb := (offset + n) / WORD, (offset + n) % WORD;
    assert WORD * fe + fb == offset && WORD * le + lb == offset + n;
    ghost var was := m[..];
    FillMiddle(m, fe, le, isNull);
    SetEnds(m, fe, fb, le, lb, isNull, was);
    WordsSetIsRange(was, m[..], offset, n, fe, fb, le, lb, isNull);
  }

  /** The first and the last word, which may be the same. */
  method SetEnds(m: array<Word>, fe: nat, fb: nat, le: nat, lb: nat, isNull: bool, ghost was: seq<Word>)
    requires fe <= le && fe < m.Length && fb < WORD && lb < WORD && (lb > 0 ==> le < m.Length) && |was| == m.Length
    requires fe == le ==> fb <= lb
    requires forall e :: 0 <= e < m.Length ==> m[e] == if fe < e < le then SetWord(was[e], 0, WORD, isNull) else was[e]
    modifies m
    ensures WordsSet(was, m[..], fe, fb, le, lb, isNull)
  {
    if fe == le {
      m[fe] := SetWord(m[fe], fb, lb, isNull);
    } else {
      m[fe] := if isNull then Or(m[fe], Not(Lower(fb))) else And(m[fe], Lower(fb));
      assert m[fe] == SetWord(was[fe], fb, WORD, isNull);
      if lb > 0 {
        m[le] := if isNull then Or(m[le], Lower(lb)) else And(m[le], Not(Lower(lb)));
        assert m[le] == SetWord(was[le], 0, lb, isNull);
      }
    }
    assert forall w: Word :: SetWord(w, 0, 0, isNull) == w;
  }

  // ----- getMinMax

  ghost predicate Uniform(m: seq<Word>, from: nat, to: nat, b: bool)
    requires to <= WORD * |m|
  {
    forall p :: from <= p < to ==> Bit(m, p) == b
  }

  /** All bits of the range set, some bit of the range set. */
  ghost predicate MinMax(m: seq<Word>, offset: nat, n: nat, min: bool, max: bool)
    requires Fits(m, offset, n)
  {
    && (min <==> Uniform(m, offset, offset + n, true))
    && (max <==> SomeSet(m, offset, n, false))
  }

  lemma MixedIs(m: seq<Word>, offset: nat, n: nat, p: nat, q: nat)
    requires Fits(m, offset, n) && offset <= p < offset + n && offset <= q < offset + n
    requires Bit(m, p) != Bit(m, q)
    ensures MinMax(m, offset, n, false, true)
  {
  }

  lemma UniformIs(m: seq<Word>, offset: nat, n: nat, b: bool)
    requires Fits(m, offset, n) && n > 0 && Uniform(m, offset, offset + n, b)
    ensures MinMax(m, offset, n, b, b)
  {
    assert Bit(m, offset) == b;
  }

  /** Comparing a masked word with zero and with the mask tells whether the masked bits agree. */
  lemma MaskedWord(m: seq<Word>, e: nat, lo: nat, hi: nat, mask: Word) returns (p: nat, q: nat)
    requires e < |m| && lo < hi <= WORD && (forall k :: 0 <= k < WORD ==> mask[k] == (lo <= k < hi))
    ensures WORD * e + hi <= WORD * |m|
    ensures And(m[e], mask) == Zero() ==> Uniform(m, WORD * e + lo, WORD * e + hi, false)
    ensures And(m[e], mask) == mask ==> Uniform(m, WORD * e + lo, WORD * e + hi, true)
    ensures And(m[e], mask) != Zero() ==> WORD * e + lo <= p < WORD * e + hi && Bit(m, p)
    ensures And(m[e], mask) != mask ==> WORD * e + lo <= q < WORD * e + hi && !Bit(m, q)
  {
    var masked := And(m[e], mask);
    forall r | WORD * e + lo <= r < WORD * e + hi ensures Bit(m, r) == masked[r - WORD * e] && mask[r - WORD * e] {
      BitAt(m, e, r - WORD * e);
    }
    p, q := WORD * e + lo, WORD * e + lo;
    if masked != Zero() {
      var k :| 0 <= k < WORD && masked[k] != Zero()[k];
      p := WORD * e + k;
    }
    if masked != mask {
      var k :| 0 <= k < WORD && masked[k] != mask[k];
      q := WORD * e + k;
    }
  }

  /** What one masked word says: unset, set, or both. */
  method CheckWord(m: array<Word>, e: nat, mask: Word, ghost lo: nat, ghost hi: nat)
    returns (min: bool, max: bool, ghost p: nat, ghost q: nat)
    requires e < m.Length && lo < hi <= WORD && (forall k :: 0 <= k < WORD ==> mask[k] == (lo <= k < hi))
    ensures WORD * e + hi <= WORD * m.Length
    ensures min == max ==> Uniform(m[..], WORD * e + lo, WORD * e + hi, max)
    ensures min != max ==> !min && WORD * e + lo <= p < WORD * e + hi && Bit(m[..], p)
    ensures min != max ==> WORD * e + lo <= q < WORD * e + hi && !Bit(m[..], q)
  {
    var masked := And(m[e], mask);
    p, q := MaskedWord(m[..], e, lo, hi, mask);
    min := masked == mask;
    max := masked != Zero();
    assert mask[lo];
    assert min ==> masked[lo] && max;
  }

  method GetMinMax(m: array<Word>, offset: nat, n: nat) returns (min: bool, max: bool)
    requires n > 0 && Fits(m[..], offset, n)
    ensures MinMax(m[..], offset, n, min, max)
  {
    var e, lo := offset / WORD, offset % WORD;
    ghost var s, p, q := m[..], 0, 0;
    if lo + n <= WORD {
      min, max, p, q := CheckWord(m, e, And(High(WORD - lo), Lower(lo + n)), lo, lo + n);
      if min == max { UniformIs(s, offset, n, max); } else { MixedIs(s, offset, n, p, q); }
      return;
    }
    var rest := n;
    if lo > 0 {
      min, max, p, q := CheckWord(m, e, High(WORD - lo), lo, WORD);
      if min != max {
        MixedIs(s, offset, n, p, q);
        return false, true;
      }
      rest := n - (WORD - lo);
      e := e + 1;
      assert Bit(s, offset) == max;
    } else {
      min := m[e][0];
      max := min;
      BitAt(s, e, 0);
    }
    min, max := CheckRest(m, offset, n, e, rest, min);
  }

  /** The full words and the last part, compared with the value of the bits before them. */
  method CheckRest(m: array<Word>, ghost offset: nat, ghost n: nat, first: nat, rest: nat, b: bool)
    returns (min: bool, max: bool)
    requires Fits(m[..], offset, n) && n > 0 && Bit(m[..], offset) == b
    requires offset <= WORD * first <= offset + n && WORD * first + rest == offset + n && rest > 0
    requires Uniform(m[..], offset, WORD * first, b)
    ensures MinMax(m[..], offset, n, min, max)
  {
    ghost var s := m[..];
    var baseline := if b then Not(Zero()) else Zero();
    var words := rest / WORD;
    for i := 0 to words
      invariant Uniform(s, offset, WORD * (first + i), b)
    {
      if m[first + i] != baseline {
        ghost var k :| 0 <= k < WORD && m[first + i][k] != baseline[k];
        BitAt(s, first + i, k);
        MixedIs(s, offset, n, WORD * (first + i) + k, offset);
        return false, true;
      }
      forall p | WORD * (first + i) <= p < WORD * (first + i + 1) ensures Bit(s, p) == b {
        BitAt(s, first + i, p - WORD * (first + i));
      }
    }
    var left := rest % WORD;
    if left > 0 {
      ghost var p, q;
      min, max, p, q := CheckWord(m, first + words, Lower(left), 0, left);
      if min == max {
        if max == b { UniformIs(s, offset, n, b); } else { MixedIs(s, offset, n, offset, WORD * (first + words)); }
        min, max := min && b, max || b;
      } else {
        MixedIs(s, offset, n, p, q);
      }
    } else {
      UniformIs(s, offset, n, b);
      min, max := b, b;
    }
  }

  // ----- the mask object and its no-nulls guarantee

  ghost predicate NoneSet(m: seq<Word>) {
    forall p :: 0 <= p < WORD * |m| ==> !Bit(m, p)
  }

  ghost predicate SomeCutSet(src: seq<Word>, offset: nat, n: nat)
    requires Fits(src, offset, n)
  {
    exists p :: offset <= p < offset + n && Bit(src, Cut(p))
  }

  /** From a source without nulls the small path writes `invert` everywhere it writes. */
  lemma {:induction false} SmallCopyOfNone(src: seq<Word>, srcOffset: nat, m: seq<Word>, dstOffset: nat, n: nat,
                                           invert: bool)
    requires Fits(src, srcOffset, n) && Fits(m, dstOffset, n) && NoneSet(m) && !SomeCutSet(src, srcOffset, n)
    ensures var r := SmallCopy(src, srcOffset, m, dstOffset, n, invert);
            && (!invert ==> NoneSet(r))
            && (invert && n > 0 ==> Cut(dstOffset) < WORD * |r| && Bit(r, Cut(dstOffset)))
  {
    if n > 0 {
      assert !SomeCutSet(src, srcOffset, n - 1);
      SmallCopyOfNone(src, srcOffset, m, dstOffset, n - 1, invert);
      assert !Bit(src, Cut(srcOffset + (n - 1)));
    }
  }

  lemma CopiedSome(src: seq<Word>, srcOffset: nat, was: seq<Word>, now: seq<Word>, dstOffset: nat, n: nat, invert: bool)
    requires Fits(src, srcOffset, n) && Fits(was, dstOffset, n)
    requires Copied(src, srcOffset, was, now, dstOffset, n, invert)
    requires NoneSet(was) && !SomeSet(src, srcOffset, n, invert)
    ensures NoneSet(now)
  {
  }

  class NullMask {
    const data: array<Word>
    var mayContainNulls: bool

    /** `hasNoNullsGuarantee` tells the truth. */
    ghost predicate Sound() reads this, data {
      mayContainNulls || NoneSet(data[..])
    }

    constructor (capacity: nat)
      ensures fresh(data) && Sound() && !mayContainNulls
      ensures WORD * data.Length >= capacity && NoneSet(data[..])
    {
      data := new Word[(capacity + WORD - 1) / WORD](_ => Zero());
      mayContainNulls := false;
      new;
      forall p | 0 <= p < WORD * data.Length ensures !Bit(data[..], p) { BitAt(data[..], p / WORD, p % WORD); }
    }

    method SetNullFromRange(offset: nat, n: nat, isNull: bool)
      requires Fits(data[..], offset, n) && Sound()
      modifies this, data
      ensures Sound() && RangeSet(old(data[..]), data[..], offset, n, isNull)
      ensures mayContainNulls == (old(mayContainNulls) || isNull)
    {
      if isNull { mayContainNulls := true; }
      SetNullRange(data, offset, n, isNull);
    }

    /** Keeps the guarantee except in one case: up to three bits, inverted, from a source without nulls, into
        a mask that promised to hold none.  The answer of the small path is then about the source. */
    method CopyFromNullBits(src: array<Word>, srcOffset: nat, dstOffset: nat, n: nat, invert: bool) returns (r: bool)
      requires Fits(src[..], srcOffset, n) && Fits(data[..], dstOffset, n) && Sound()
      requires src != data || RangesApart(srcOffset, dstOffset, n)
      modifies this, data
      ensures n > 3 ==> Copied(old(src[..]), srcOffset, old(data[..]), data[..], dstOffset, n, invert)
      ensures n <= 3 ==> data[..] == SmallCopy(old(src[..]), srcOffset, old(data[..]), dstOffset, n, invert)
      ensures mayContainNulls == (old(mayContainNulls) || r)
      ensures Sound() <==>
              old(mayContainNulls) || !invert || n == 0 || n > 3 || SomeCutSet(old(src[..]), srcOffset, n)
    {
      ghost var s, was := src[..], data[..];
      r := CopyNullMask(src, srcOffset, data, dstOffset, n, invert);
      if r { mayContainNulls := true; }
      if !mayContainNulls {
        if n > 3 {
          CopiedSome(s, srcOffset, was, data[..], dstOffset, n, invert);
        } else {
          SmallCopyOfNone(s, srcOffset, was, dstOffset, n, invert);
        }
      }
    }

    /** A source that guarantees no nulls is not read at all. */
    method CopyFrom(other: NullMask, srcOffset: nat, dstOffset: nat, n: nat, invert: bool) returns (r: bool)
      requires other.Sound() && Sound() && Fits(other.data[..], srcOffset, n) && Fits(data[..], dstOffset, n)
      requires other.data != data || RangesApart(srcOffset, dstOffset, n)
      modifies this, data
      ensures n > 3 || !old(other.mayContainNulls) || (srcOffset + n <= UINT32_LIMIT && dstOffset + n <= UINT32_LIMIT)
              ==> Copied(old(other.data[..]), srcOffset, old(data[..]), data[..], dstOffset, n, invert)
      ensures Sound() <==>
              old(mayContainNulls) || !invert || n == 0 || n > 3 || !old(other.mayContainNulls)
              || SomeCutSet(old(other.data[..]), srcOffset, n)
    {
      ghost var s, was := other.data[..], data[..];
      if !other.mayContainNulls {
        SetNullFromRange(dstOffset, n, invert);
        r := invert;
      } else {
        r := CopyFromNullBits(other.data, srcOffset, dstOffset, n, invert);
        if n <= 3 && srcOffset + n <= UINT32_LIMIT && dstOffset + n <= UINT32_LIMIT {
          SmallCopyExact(s, srcOffset, was, dstOffset, n, invert);
        }
      }
    }

    /** The union keeps the guarantee only if this mask may hold nulls already or the other holds none. */
    method OrWith(other: NullMask)
      requires other.data.Length == data.Length && Sound()
      modifies data
      ensures forall p :: 0 <= p < WORD * data.Length ==>
                Bit(data[..], p) == (Bit(old(data[..]), p) || Bit(old(other.data[..]), p))
      ensures Sound() <==> mayContainNulls || NoneSet(old(other.data[..]))
    {
      ghost var was, o := data[..], other.data[..];
      for i := 0 to data.Length
        invariant forall k :: 0 <= k < data.Length ==>
                    data[k] == if k < i then Or(was[k], o[k]) else was[k]
        invariant other.data != data ==> other.data[..] == o
      {
        data[i] := Or(data[i], other.data[i]);
      }
      ghost var now := data[..];
      forall p | 0 <= p < WORD * data.Length ensures Bit(now, p) == (Bit(was, p) || Bit(o, p)) {
        var e, k := p / WORD, p % WORD;
        BitAt(was, e, k);
        BitAt(now, e, k);
        BitAt(o, e, k);
      }
      if !mayContainNulls {
        assert NoneSet(was);
        assert NoneSet(now) <==> NoneSet(o);
      }
    }
  }
}
