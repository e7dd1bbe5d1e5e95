/** The CASE expression over a vector of rows, filled branch by branch, against the rule for one row. */
module CaseExpression {
  import opened Basics

  /** A vector of values: a single one that stands for every row, or one for each position. */
  datatype Column<V> = Flat(value: V) | Unflat(vals: seq<V>)

  datatype Branch<V> = Branch(when: Column<bool>, then_: Column<V>)

  function At<V>(c: Column<V>, pos: nat): V
    requires Covers(c, pos)
  {
    if c.Flat? then c.value else c.vals[pos]
  }

  predicate Covers<V>(c: Column<V>, pos: nat) {
    c.Unflat? ==> pos < |c.vals|
  }

  predicate BranchCovers<V>(b: Branch<V>, pos: nat) {
    Covers(b.when, pos) && Covers(b.then_, pos)
  }

  predicate AllCover<V>(branches: seq<Branch<V>>, otherwise: Column<V>, pos: nat) {
    Covers(otherwise, pos) && forall k :: 0 <= k < |branches| ==> BranchCovers(branches[k], pos)
  }

  /** The WHEN of a branch is true of a row. */
  predicate Holds<V>(b: Branch<V>, pos: nat)
    requires BranchCovers(b, pos)
  {
    At(b.when, pos)
  }

  // ----- the rule for one row

  /** The THEN of the first branch whose WHEN is true, else the ELSE. */
  function CaseValue<V>(branches: seq<Branch<V>>, otherwise: Column<V>, pos: nat): V
    requires AllCover(branches, otherwise, pos)
  {
    if branches == [] then At(otherwise, pos)
    else
      assert BranchCovers(branches[0], pos);
      if Holds(branches[0], pos) then At(branches[0].then_, pos) else CaseValue(branches[1..], otherwise, pos)
  }

  /** Branches whose WHEN is not true may be dropped from the front. */
  lemma {:induction false} SkipFalse<V>(branches: seq<Branch<V>>, otherwise: Column<V>, pos: nat, k: nat)
    requires AllCover(branches, otherwise, pos) && k <= |branches|
    requires forall i :: 0 <= i < k ==> BranchCovers(branches[i], pos) && !Holds(branches[i], pos)
    ensures CaseValue(branches, otherwise, pos) == CaseValue(branches[k..], otherwise, pos)
  {
    if k > 0 {
      SkipFalse(branches, otherwise, pos, k - 1);
      assert branches[k - 1..][0] == branches[k - 1] && !Holds(branches[k - 1], pos);
      assert branches[k - 1..][1..] == branches[k..];
    } else {
      assert branches[0..] == branches;
    }
  }

  // ----- filling the result

  /** As many filled rows as selected ones: all of them. */
  lemma AllFilled(filled: set<nat>, sel: seq<nat>)
    requires Distinct(sel) && (forall p :: p in filled ==> p in sel) && |filled| == |sel|
    ensures forall p :: p in sel ==> p in filled
    decreases |sel|
  {
    if sel != [] {
      var n := |sel| - 1;
      assert sel == sel[..n] + [sel[n]];
      if sel[n] in filled {
        AllFilled(filled - {sel[n]}, sel[..n]);
      } else {
        TooFew(filled, sel[..n]);
      }
    }
  }

  lemma {:induction false} TooFew(filled: set<nat>, sel: seq<nat>)
    requires forall p :: p in filled ==> p in sel
    ensures |filled| <= |sel|
  {
    if sel != [] {
      var n := |sel| - 1;
      TooFew(filled - {sel[n]}, sel[..n]);
    } else {
      assert filled == {};
    }
  }

  class CaseEvaluator<V> {
    const sel: seq<nat>
    const result: array<V>
    var filledMask: set<nat>

    constructor (sel: seq<nat>, result: array<V>)
      requires forall i :: 0 <= i < |sel| ==> sel[i] < result.Length
      ensures Valid() && this.sel == sel && this.result == result
    {
      this.sel, this.result, filledMask := sel, result, {};
    }

    ghost predicate Valid()
      reads this
    {
      && (forall i :: 0 <= i < |sel| ==> sel[i] < result.Length)
      && (forall p :: p in filledMask ==> p in sel)
    }

    /** The given positions hold the source's values, unless they were filled before; nothing else changed. */
    twostate predicate Filled(positions: set<nat>, src: Column<V>)
      requires forall p :: p in positions ==> p < result.Length && Covers(src, p)
      reads this, result
    {
      && filledMask == old(filledMask) + positions
      && forall p :: 0 <= p < result.Length ==>
           result[p] == if p in positions && p !in old(filledMask) then At(src, p) else old(result[p])
    }

    /** The selected rows a branch holds for; a flat condition is about all of them at once. */
    method Select(b: Branch<V>) returns (positions: seq<nat>)
      requires Valid() && forall i :: 0 <= i < |sel| ==> BranchCovers(b, sel[i])
      ensures forall p :: p in positions <==> p in sel && BranchCovers(b, p) && Holds(b, p)
    {
      if b.when.Flat? { return if b.when.value then sel else []; }
      positions := [];
      for i := 0 to |sel|
        invariant forall p :: p in positions <==> p in sel[..i] && BranchCovers(b, p) && Holds(b, p)
      {
        assert sel[..i + 1] == sel[..i] + [sel[i]];
        if b.when.vals[sel[i]] { positions := positions + [sel[i]]; }
      }
      assert sel[..|sel|] == sel;
    }

    method FillEntry(pos: nat, src: Column<V>)
      requires Valid() && pos in sel && Covers(src, pos)
      modifies this, result
      ensures Valid() && Filled({pos}, src)
    {
      if pos in filledMask { return; }
      filledMask := filledMask + {pos};
      result[pos] := At(src, pos);
    }

    method Fill(positions: seq<nat>, src: Column<V>)
      requires Valid() && forall i :: 0 <= i < |positions| ==> positions[i] in sel && Covers(src, positions[i])
      modifies this, result
      ensures Valid() && Filled((set i | 0 <= i < |positions| :: positions[i]), src)
    {
      ghost var done: set<nat> := {};
      for i := 0 to |positions|
        invariant Valid() && done == (set j | 0 <= j < i :: positions[j])
        invariant filledMask == old(filledMask) + done
        invariant forall p :: 0 <= p < result.Length ==>
                    result[p] == if p in done && p !in old(filledMask) then At(src, p) else old(result[p])
      {
        FillEntry(positions[i], src);
        done := done + {positions[i]};
      }
    }

    /** Row p has the value of the rule if one of the first k branches holds for it, and is untouched otherwise. */
    ghost predicate Done(was: seq<V>, branches: seq<Branch<V>>, otherwise: Column<V>, k: nat, p: nat)
      requires p < result.Length == |was| && AllCover(branches, otherwise, p) && k <= |branches|
      reads this, result
    {
      && (p in filledMask <==> HoldsBefore(branches, k, p))
      && result[p] == if p in filledMask then CaseValue(branches, otherwise, p) else was[p]
    }

    /** One alternative: it fills the rows it holds for and that no alternative before it filled. */
    method RunBranch(branches: seq<Branch<V>>, otherwise: Column<V>, k: nat, ghost was: seq<V>)
      requires Valid() && k < |branches| && |was| == result.Length
      requires forall i :: 0 <= i < |sel| ==> AllCover(branches, otherwise, sel[i])
      requires forall i :: 0 <= i < |sel| ==> Done(was, branches, otherwise, k, sel[i])
      modifies this, result
      ensures Valid() && forall i :: 0 <= i < |sel| ==> Done(was, branches, otherwise, k + 1, sel[i])
      ensures forall p :: 0 <= p < result.Length && p !in sel ==> result[p] == old(result[p])
    {
      var b := branches[k];
      forall i | 0 <= i < |sel| ensures BranchCovers(b, sel[i]) { assert AllCover(branches, otherwise, sel[i]); }
      var positions := Select(b);
      if positions != [] {
        forall i | 0 <= i < |positions| ensures positions[i] in sel && Covers(b.then_, positions[i]) {
          assert positions[i] in positions;
        }
        Fill(positions, b.then_);
      }
      forall i | 0 <= i < |sel| ensures Done(was, branches, otherwise, k + 1, sel[i]) {
        FirstToHold(branches, otherwise, sel[i], k);
      }
    }

    /** Every selected row gets the value of the rule, whether its columns are flat or not; no other row changes. */
    method Evaluate(branches: seq<Branch<V>>, otherwise: Column<V>)
      requires Valid() && Distinct(sel) && forall i :: 0 <= i < |sel| ==> AllCover(branches, otherwise, sel[i])
      modifies this, result
      ensures forall i :: 0 <= i < |sel| ==> result[sel[i]] == CaseValue(branches, otherwise, sel[i])
      ensures forall p :: 0 <= p < result.Length && p !in sel ==> result[p] == old(result[p])
    {
      filledMask := {};
      ghost var was := result[..];
      for k := 0 to |branches|
        invariant Valid() && forall i :: 0 <= i < |sel| ==> Done(was, branches, otherwise, k, sel[i])
        invariant forall p :: 0 <= p < result.Length && p !in sel ==> result[p] == was[p]
      {
        RunBranch(branches, otherwise, k, was);
        if |filledMask| == |sel| {
          AllFilled(filledMask, sel);
          return;
        }
      }
      Fill(sel, otherwise);
      forall i | 0 <= i < |sel| ensures result[sel[i]] == CaseValue(branches, otherwise, sel[i]) {
        NoneHolds(branches, otherwise, sel[i]);
      }
    }
  }

  ghost predicate HoldsBefore<V>(branches: seq<Branch<V>>, k: nat, p: nat)
    requires k <= |branches|
  {
    exists i :: 0 <= i < k && BranchCovers(branches[i], p) && Holds(branches[i], p)
  }

  lemma FirstToHold<V>(branches: seq<Branch<V>>, otherwise: Column<V>, p: nat, k: nat)
    requires AllCover(branches, otherwise, p) && k < |branches|
    ensures HoldsBefore(branches, k + 1, p) <==> HoldsBefore(branches, k, p) || Holds(branches[k], p)
    ensures !HoldsBefore(branches, k, p) && Holds(branches[k], p) ==>
              CaseValue(branches, otherwise, p) == At(branches[k].then_, p)
  {
    if !HoldsBefore(branches, k, p) && Holds(branches[k], p) { SkipFalse(branches, otherwise, p, k); }
  }

  lemma NoneHolds<V>(branches: seq<Branch<V>>, otherwise: Column<V>, p: nat)
    requires AllCover(branches, otherwise, p)
    ensures !HoldsBefore(branches, |branches|, p) ==> CaseValue(branches, otherwise, p) == At(otherwise, p)
  {
    if !HoldsBefore(branches, |branches|, p) { SkipFalse(branches, otherwise, p, |branches|); }
  }
}
