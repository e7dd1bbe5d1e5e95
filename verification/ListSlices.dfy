/** Cutting the elements of many lists into slices of the vector capacity, for the evaluation of a lambda. */
module ListSlices {
  import opened Basics

  datatype ListVector = ListVector(entries: seq<ListEntry>, nulls: seq<bool>)

  /** An element: the row of its list, and its place in the data vector. */
  datatype Element = Element(row: nat, dataOffset: nat)

  predicate Valid(v: ListVector, rows: seq<nat>) {
    |v.entries| == |v.nulls| && forall i :: 0 <= i < |rows| ==> rows[i] < |v.entries|
  }

  // ----- what is to be visited

  /** The elements of one row's list from position `from` on; a null list has none. */
  function ElementsOf(v: ListVector, row: nat, from: nat): (r: seq<Element>)
    requires row < |v.entries| == |v.nulls|
    ensures |r| == if v.nulls[row] || v.entries[row].size <= from then 0 else v.entries[row].size - from
    ensures forall i :: 0 <= i < |r| ==> r[i] == Element(row, v.entries[row].offset + from + i)
  {
    if v.nulls[row] || v.entries[row].size <= from then []
    else seq(v.entries[row].size - from, (i: nat) => Element(row, v.entries[row].offset + from + i))
  }

  function Elements(v: ListVector, rows: seq<nat>): seq<Element>
    requires Valid(v, rows)
  {
    if rows == [] then [] else ElementsOf(v, rows[0], 0) + Elements(v, rows[1..])
  }

  /** Rows put in the order of their offsets; which of two equal offsets comes first is left open. */
  ghost predicate SortedBy(v: ListVector, rows: seq<nat>, sorted: seq<nat>)
    requires Valid(v, rows)
  {
    && multiset(sorted) == multiset(rows) && Valid(v, sorted)
    && forall i, j :: 0 <= i < j < |sorted| ==> v.entries[sorted[i]].offset <= v.entries[sorted[j]].offset
  }

  lemma DropFirst(v: ListVector, row: nat, from: nat)
    requires row < |v.entries| == |v.nulls| && !v.nulls[row] && from < v.entries[row].size
    ensures ElementsOf(v, row, from) == [Element(row, v.entries[row].offset + from)] + ElementsOf(v, row, from + 1)
  {
  }

  lemma Regroup(a: seq<Element>, b: seq<Element>, c: seq<Element>)
    ensures (a + b) + c == a + (b + c)
  {
  }

  // ----- the tracker

  class ListEntryTracker {
    const v: ListVector
    const rows: seq<nat>
    var listEntryIdx: nat
    var offsetInList: nat

    /** The tracker stands on an element, or behind the last one. */
    ghost predicate Ready()
      reads this
    {
      && Valid(v, rows) && listEntryIdx <= |rows|
      && (listEntryIdx < |rows| ==> HasElements() && offsetInList < v.entries[rows[listEntryIdx]].size)
    }

    predicate HasElements()
      requires Valid(v, rows) && listEntryIdx < |rows|
      reads this
    {
      !v.nulls[rows[listEntryIdx]] && v.entries[rows[listEntryIdx]].size > 0
    }

    /** What is still to be visited. */
    ghost function Remaining(): seq<Element>
      requires Ready()
      reads this
    {
      if listEntryIdx == |rows| then []
      else ElementsOf(v, rows[listEntryIdx], offsetInList) + Elements(v, rows[listEntryIdx + 1..])
    }

    constructor (v: ListVector, ghost selected: seq<nat>, sorted: seq<nat>)
      requires Valid(v, selected) && SortedBy(v, selected, sorted)
      ensures this.v == v && this.rows == sorted && Ready() && Remaining() == Elements(v, sorted)
    {
      this.v, this.rows, listEntryIdx, offsetInList := v, sorted, 0, 0;
      new;
      assert rows[0..] == rows;
      UpdateListEntry();
    }

    predicate Done()
      reads this
    {
      listEntryIdx >= |rows|
    }

    /** Skips the lists that have nothing to visit. */
    method UpdateListEntry()
      requires Valid(v, rows) && listEntryIdx <= |rows|
      modifies this`listEntryIdx
      ensures listEntryIdx <= |rows| && (listEntryIdx < |rows| ==> HasElements())
      ensures Elements(v, rows[old(listEntryIdx)..]) == Elements(v, rows[listEntryIdx..])
    {
      while true
        invariant listEntryIdx <= |rows|
        invariant Elements(v, rows[old(listEntryIdx)..]) == Elements(v, rows[listEntryIdx..])
        decreases |rows| - listEntryIdx
      {
        if listEntryIdx >= |rows| { break; }
        if HasElements() { break; }
        assert rows[listEntryIdx..][1..] == rows[listEntryIdx + 1..];
        listEntryIdx := listEntryIdx + 1;
      }
    }

    /** The element the tracker stands on comes first. */
    lemma Front()
      requires Ready() && !Done()
      ensures var row := rows[listEntryIdx];
              Remaining() == [Element(row, v.entries[row].offset + offsetInList)] +
                             (ElementsOf(v, row, offsetInList + 1) + Elements(v, rows[listEntryIdx + 1..]))
    {
      DropFirst(v, rows[listEntryIdx], offsetInList);
      Regroup([Element(rows[listEntryIdx], v.entries[rows[listEntryIdx]].offset + offsetInList)],
              ElementsOf(v, rows[listEntryIdx], offsetInList + 1), Elements(v, rows[listEntryIdx + 1..]));
    }

    method GetNextDataOffset()
      requires Ready() && !Done()
      modifies this
      ensures Ready()
      ensures var row := old(rows[listEntryIdx]);
              Remaining() == ElementsOf(v, row, old(offsetInList) + 1) + Elements(v, rows[old(listEntryIdx) + 1..])
    {
      offsetInList := offsetInList + 1;
      if offsetInList >= v.entries[rows[listEntryIdx]].size {
        listEntryIdx := listEntryIdx + 1;
        UpdateListEntry();
        offsetInList := 0;
        if listEntryIdx < |rows| { assert rows[listEntryIdx..][1..] == rows[listEntryIdx + 1..]; }
      }
    }

    /** The element the tracker stands on; then on to the next. */
    method Visit() returns (e: Element)
      requires Ready() && !Done()
      modifies this
      ensures Ready() && old(Remaining()) == [e] + Remaining()
    {
      Front();
      var row := rows[listEntryIdx];
      e := Element(row, v.entries[row].offset + offsetInList);
      GetNextDataOffset();
    }

    /** The next slice: as many elements as fit. */
    method NextSlice() returns (slice: seq<Element>)
      requires Ready()
      modifies this
      ensures Ready() && slice + Remaining() == old(Remaining())
      ensures |slice| <= DEFAULT_VECTOR_CAPACITY && (|slice| == DEFAULT_VECTOR_CAPACITY || Done())
      ensures !old(Done()) ==> slice != []
    {
      slice := [];
      while !Done() && |slice| < DEFAULT_VECTOR_CAPACITY
        invariant Ready() && slice + Remaining() == old(Remaining()) && |slice| <= DEFAULT_VECTOR_CAPACITY
        invariant !old(Done()) && slice == [] ==> !Done()
        decreases DEFAULT_VECTOR_CAPACITY - |slice|
      {
        ghost var before := slice;
        var e := Visit();
        slice := slice + [e];
        Regroup(before, [e], Remaining());
      }
    }
  }

  function Concat(slices: seq<seq<Element>>): seq<Element> {
    if slices == [] then [] else Concat(slices[..|slices| - 1]) + slices[|slices| - 1]
  }

  /** Every slice but the last is full, the last one too unless it is the end, and only a lone slice is empty. */
  ghost predicate Cut(slices: seq<seq<Element>>, done: bool) {
    && slices != []
    && (forall i :: 0 <= i < |slices| - 1 ==> |slices[i]| == DEFAULT_VECTOR_CAPACITY)
    && |slices[|slices| - 1]| <= DEFAULT_VECTOR_CAPACITY
    && (|slices[|slices| - 1]| == DEFAULT_VECTOR_CAPACITY || done)
    && (slices[|slices| - 1] == [] ==> |slices| == 1)
  }

  lemma CutOne(slice: seq<Element>, done: bool)
    requires |slice| <= DEFAULT_VECTOR_CAPACITY && (|slice| == DEFAULT_VECTOR_CAPACITY || done)
    ensures Cut([slice], done) && Concat([slice]) == slice
  {
    assert Concat([slice][..0]) == [];
  }

  lemma CutMore(slices: seq<seq<Element>>, slice: seq<Element>, done: bool)
    requires Cut(slices, false) && 0 < |slice| <= DEFAULT_VECTOR_CAPACITY
    requires |slice| == DEFAULT_VECTOR_CAPACITY || done
    ensures Cut(slices + [slice], done) && Concat(slices + [slice]) == Concat(slices) + slice
  {
    assert (slices + [slice])[..|slices|] == slices;
  }

  /** The slices a lambda is run on: all full but the last, and together every element of every list. */
  method Slices(v: ListVector, ghost selected: seq<nat>, sorted: seq<nat>) returns (slices: seq<seq<Element>>)
    requires Valid(v, selected) && SortedBy(v, selected, sorted)
    ensures Cut(slices, true) && Concat(slices) == Elements(v, sorted)
  {
    var tracker := new ListEntryTracker(v, selected, sorted);
    ghost var all := Elements(v, sorted);
    var slice := tracker.NextSlice();
    slices := [slice];
    CutOne(slice, tracker.Done());
    while !tracker.Done()
      invariant fresh(tracker) && tracker.Ready()
      invariant Concat(slices) + tracker.Remaining() == all && Cut(slices, tracker.Done())
      decreases |tracker.Remaining()|
    {
      slices := AddSlice(tracker, slices, all);
    }
  }

  method AddSlice(tracker: ListEntryTracker, slices: seq<seq<Element>>, ghost all: seq<Element>)
    returns (more: seq<seq<Element>>)
    requires tracker.Ready() && !tracker.Done() && Cut(slices, false) && Concat(slices) + tracker.Remaining() == all
    modifies tracker
    ensures tracker.Ready() && |tracker.Remaining()| < old(|tracker.Remaining()|)
    ensures Concat(more) + tracker.Remaining() == all && Cut(more, tracker.Done())
  {
    var slice := tracker.NextSlice();
    CutMore(slices, slice, tracker.Done());
    Regroup(Concat(slices), slice, tracker.Remaining());
    more := slices + [slice];
  }

  // ----- every element exactly once

  lemma {:induction false} ElementsAppend(v: ListVector, a: seq<nat>, b: seq<nat>)
    requires Valid(v, a) && Valid(v, b) && Valid(v, a + b)
    ensures Elements(v, a + b) == Elements(v, a) + Elements(v, b)
  {
    if a == [] {
      assert a + b == b;
    } else {
      assert (a + b)[1..] == a[1..] + b;
      ElementsAppend(v, a[1..], b);
    }
  }

  /** The order of the rows does not change what is visited. */
  lemma {:induction false} OrderIrrelevant(v: ListVector, a: seq<nat>, b: seq<nat>)
    requires Valid(v, a) && Valid(v, b) && multiset(a) == multiset(b)
    ensures multiset(Elements(v, a)) == multiset(Elements(v, b))
  {
    if a == [] {
      assert |b| == |multiset(b)| == 0;
    } else {
      var k := Place(a, b);
      OrderIrrelevant(v, a[1..], b[..k] + b[k + 1..]);
      TakeOut(v, b, k);
    }
  }

  lemma TakeOut(v: ListVector, b: seq<nat>, k: nat)
    requires Valid(v, b) && k < |b|
    ensures Valid(v, b[..k] + b[k + 1..])
    ensures multiset(Elements(v, b)) == multiset(ElementsOf(v, b[k], 0)) + multiset(Elements(v, b[..k] + b[k + 1..]))
  {
    var front, back := b[..k], b[k + 1..];
    assert Elements(v, front + back) == Elements(v, front) + Elements(v, back) by { ElementsAppend(v, front, back); }
    assert Elements(v, b) == Elements(v, front) + (ElementsOf(v, b[k], 0) + Elements(v, back)) by {
      assert b == front + b[k..] && b[k..][1..] == back;
      ElementsAppend(v, front, b[k..]);
    }
    Shuffle(Elements(v, front), ElementsOf(v, b[k], 0), Elements(v, back));
  }

  lemma Shuffle(a: seq<Element>, b: seq<Element>, c: seq<Element>)
    ensures multiset(a + (b + c)) == multiset(b) + multiset(a + c)
  {
  }

  /** The first row of one order has its place in the other. */
  lemma Place(a: seq<nat>, b: seq<nat>) returns (k: nat)
    requires a != [] && multiset(a) == multiset(b)
    ensures k < |b| && b[k] == a[0] && multiset(a[1..]) == multiset(b[..k] + b[k + 1..])
  {
    assert a[0] in multiset(b);
    k :| 0 <= k < |b| && b[k] == a[0];
    assert b == b[..k] + [a[0]] + b[k + 1..];
    assert a == [a[0]] + a[1..];
    assert multiset(b[..k] + b[k + 1..]) == multiset(b) - multiset{a[0]};
    assert multiset(a[1..]) == multiset(a) - multiset{a[0]};
  }

  /** The element belongs to a selected list that is not null. */
  predicate IsElement(v: ListVector, rows: seq<nat>, e: Element)
    requires Valid(v, rows)
  {
    && e.row in rows && !v.nulls[e.row]
    && v.entries[e.row].offset <= e.dataOffset < v.entries[e.row].offset + v.entries[e.row].size
  }

  lemma OwnElements(v: ListVector, row: nat, e: Element)
    requires row < |v.entries| == |v.nulls|
    ensures multiset(ElementsOf(v, row, 0))[e] == if e.row == row && IsElement(v, [row], e) then 1 else 0
  {
    var s := ElementsOf(v, row, 0);
    if e.row == row && IsElement(v, [row], e) {
      var k := e.dataOffset - v.entries[row].offset;
      assert s == s[..k] + [s[k]] + s[k + 1..];
      assert e !in s[..k] && e !in s[k + 1..];
    } else {
      assert e !in s;
    }
  }

  lemma {:induction false} EachOnce(v: ListVector, rows: seq<nat>, e: Element)
    requires Valid(v, rows) && Distinct(rows)
    ensures multiset(Elements(v, rows))[e] == if IsElement(v, rows, e) then 1 else 0
  {
    if rows != [] {
      OwnElements(v, rows[0], e);
      EachOnce(v, rows[1..], e);
      assert rows == [rows[0]] + rows[1..];
    }
  }

  /** Every element of every selected list that is not null is visited once, and nothing else is. */
  lemma EveryElementOnce(v: ListVector, selected: seq<nat>, sorted: seq<nat>, e: Element)
    requires Valid(v, selected) && Distinct(selected) && SortedBy(v, selected, sorted)
    ensures multiset(Elements(v, sorted))[e] == if IsElement(v, selected, e) then 1 else 0
  {
    OrderIrrelevant(v, sorted, selected);
    EachOnce(v, selected, e);
  }

  /** No two lists share a part of the data vector. */
  predicate Apart(v: ListVector, rows: seq<nat>)
    requires Valid(v, rows)
  {
    forall i, j :: 0 <= i < j < |rows| && ElementsOf(v, rows[i], 0) != [] && ElementsOf(v, rows[j], 0) != [] ==>
      || v.entries[rows[i]].offset + v.entries[rows[i]].size <= v.entries[rows[j]].offset
      || v.entries[rows[j]].offset + v.entries[rows[j]].size <= v.entries[rows[i]].offset
  }

  lemma {:induction false} FromRow(v: ListVector, rows: seq<nat>, e: Element)
    requires Valid(v, rows) && e in Elements(v, rows)
    ensures IsElement(v, rows, e)
  {
    if e in ElementsOf(v, rows[0], 0) {
      assert rows[0] in rows;
    } else {
      FromRow(v, rows[1..], e);
    }
  }

  /** Lists that lie apart are visited in the order of the data vector. */
  lemma {:induction false} InOffsetOrder(v: ListVector, sorted: seq<nat>)
    requires Valid(v, sorted) && Apart(v, sorted)
    requires forall i, j :: 0 <= i < j < |sorted| ==> v.entries[sorted[i]].offset <= v.entries[sorted[j]].offset
    ensures var es := Elements(v, sorted);
            forall i, j :: 0 <= i < j < |es| ==> es[i].dataOffset < es[j].dataOffset
  {
    if sorted != [] {
      InOffsetOrder(v, sorted[1..]);
      var own, rest := ElementsOf(v, sorted[0], 0), Elements(v, sorted[1..]);
      forall i, j | 0 <= i < |own| && 0 <= j < |rest| ensures own[i].dataOffset < rest[j].dataOffset {
        OwnBeforeRest(v, sorted, own[i], rest[j]);
      }
      forall i, j | 0 <= i < j < |own + rest| ensures (own + rest)[i].dataOffset < (own + rest)[j].dataOffset {
        if j < |own| {
          assert own[i].dataOffset < own[j].dataOffset;
        } else if |own| <= i {
          assert rest[i - |own|].dataOffset < rest[j - |own|].dataOffset;
        } else {
          assert own[i].dataOffset < rest[j - |own|].dataOffset;
        }
      }
    }
  }

  lemma OwnBeforeRest(v: ListVector, sorted: seq<nat>, e: Element, f: Element)
    requires Valid(v, sorted) && Apart(v, sorted) && sorted != []
    requires forall i, j :: 0 <= i < j < |sorted| ==> v.entries[sorted[i]].offset <= v.entries[sorted[j]].offset
    requires e in ElementsOf(v, sorted[0], 0) && f in Elements(v, sorted[1..])
    ensures e.dataOffset < f.dataOffset
  {
    FromRow(v, sorted[1..], f);
    var k :| 0 <= k < |sorted[1..]| && sorted[1..][k] == f.row;
    assert sorted[k + 1] == f.row;
    assert ElementsOf(v, sorted[0], 0) != [] && ElementsOf(v, sorted[k + 1], 0) != [];
  }
}
