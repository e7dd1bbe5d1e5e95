/** The comparison of two slots of value vectors: equality and the order of lists and structs, at every depth. */
module NestedCompare {
  import opened Basics
  import opened BaseValues
  import opened ValueVectors

  // ----- equality and order of values

  /** Not-a-number nowhere inside. */
  predicate NoNaN(v: Value) {
    match v
    case Null => true
    case Base(x) => !IsNaN(x)
    case List(items) => forall i :: 0 <= i < |items| ==> NoNaN(items[i])
    case Struct(_, fields) => forall k :: 0 <= k < |fields| ==> NoNaN(fields[k])
  }

  /** Equal as the comparison has it: a value with a not-a-number inside is not equal to itself. */
  predicate Same(a: Value, b: Value) {
    a == b && NoNaN(a)
  }

  /** Null is above every other value; lists and structs compare element by element, a proper prefix below. */
  predicate Greater(a: Value, b: Value)
    decreases a, 1
  {
    if a.Null? || b.Null? then !b.Null?
    else
      match (a, b)
      case (Base(x), Base(y)) => BaseGreater(x, y)
      case (List(xs), List(ys)) => SeqGreater(xs, ys)
      case (Struct(_, xs), Struct(_, ys)) => SeqGreater(xs, ys)
      case _ => false
  }

  predicate SeqGreater(a: seq<Value>, b: seq<Value>)
    decreases a, 0
  {
    if a == [] || b == [] then |a| > |b|
    else Greater(a[0], b[0]) || (Same(a[0], b[0]) && SeqGreater(a[1..], b[1..]))
  }

  // ----- it is a strict partial order

  lemma {:induction false} Irreflexive(a: Value)
    ensures !Greater(a, a)
    decreases a, 1
  {
    match a {
      case Null =>
      case Base(x) => BaseIrreflexive(x);
      case List(items) => SeqIrreflexive(items);
      case Struct(_, fields) => SeqIrreflexive(fields);
    }
  }

  lemma {:induction false} SeqIrreflexive(a: seq<Value>)
    ensures !SeqGreater(a, a)
    decreases a, 0
  {
    if a != [] {
      Irreflexive(a[0]);
      SeqIrreflexive(a[1..]);
    }
  }

  lemma {:induction false} Transitive(a: Value, b: Value, c: Value)
    requires Greater(a, b) && Greater(b, c)
    ensures Greater(a, c)
    decreases a, 1
  {
    if a.Base? && b.Base? && c.Base? {
      BaseTransitive(a.x, b.x, c.x);
    } else if a.List? && b.List? && c.List? {
      SeqTransitive(a.items, b.items, c.items);
    } else if a.Struct? && b.Struct? && c.Struct? {
      SeqTransitive(a.fields, b.fields, c.fields);
    }
  }

  lemma {:induction false} SeqTransitive(a: seq<Value>, b: seq<Value>, c: seq<Value>)
    requires SeqGreater(a, b) && SeqGreater(b, c)
    ensures SeqGreater(a, c)
    decreases a, 0
  {
    if b != [] && c != [] {
      if Greater(a[0], b[0]) && Greater(b[0], c[0]) {
        Transitive(a[0], b[0], c[0]);
      } else if Same(a[0], b[0]) && Same(b[0], c[0]) && !Greater(a[0], c[0]) {
        SeqTransitive(a[1..], b[1..], c[1..]);
      }
    }
  }

  // ----- and a total one, on the values of a type whose leaves are totally ordered

  /** No leaf is a floating-point number or an interval. */
  predicate TotalType(t: Type) {
    match t
    case BaseType(_, tag) => TotalTag(tag)
    case ListType(elem) => TotalType(elem)
    case StructType(_, _, fields) => forall k :: 0 <= k < |fields| ==> TotalType(fields[k])
  }

  predicate AllConform(vs: seq<Value>, ts: seq<Type>) {
    |vs| <= |ts| && forall i :: 0 <= i < |vs| ==> Conforms(vs[i], ts[i]) && TotalType(ts[i])
  }

  function Repeat(t: Type, n: nat): (r: seq<Type>)
    ensures |r| == n && forall i :: 0 <= i < n ==> r[i] == t
  {
    seq(n, _ => t)
  }

  lemma {:induction false} TotalHasNoNaN(v: Value, t: Type)
    requires Conforms(v, t) && TotalType(t)
    ensures NoNaN(v)
  {
    match v {
      case Null =>
      case Base(_) =>
      case List(items) =>
        forall i | 0 <= i < |items| ensures NoNaN(items[i]) { TotalHasNoNaN(items[i], t.elem); }
      case Struct(_, fields) =>
        forall k | 0 <= k < |fields| ensures NoNaN(fields[k]) { TotalHasNoNaN(fields[k], t.fields[k]); }
    }
  }

  lemma {:induction false} Total(a: Value, b: Value, t: Type)
    requires Conforms(a, t) && Conforms(b, t) && TotalType(t)
    ensures a == b || Greater(a, b) || Greater(b, a)
    decreases a, 1
  {
    if a.Base? && b.Base? {
      BaseTotal(a.x, b.x);
    } else if a.List? && b.List? {
      SeqTotal(a.items, b.items, Repeat(t.elem, |a.items| + |b.items|));
    } else if a.Struct? && b.Struct? {
      SeqTotal(a.fields, b.fields, t.fields);
    }
  }

  lemma {:induction false} SeqTotal(a: seq<Value>, b: seq<Value>, ts: seq<Type>)
    requires AllConform(a, ts) && AllConform(b, ts)
    ensures a == b || SeqGreater(a, b) || SeqGreater(b, a)
    decreases a, 0
  {
    if a != [] && b != [] {
      Total(a[0], b[0], ts[0]);
      TotalHasNoNaN(a[0], ts[0]);
      SeqTotal(a[1..], b[1..], ts[1..]);
      assert a == [a[0]] + a[1..] && b == [b[0]] + b[1..];
    }
  }

  /** Exactly one of greater, equal and less. */
  predicate OneOf(a: Value, b: Value) {
    && (Greater(a, b) || Same(a, b) || Greater(b, a))
    && !(Greater(a, b) && Same(a, b)) && !(Greater(b, a) && Same(a, b)) && !(Greater(a, b) && Greater(b, a))
  }

  lemma Trichotomy(a: Value, b: Value, t: Type)
    requires Conforms(a, t) && Conforms(b, t) && TotalType(t)
    ensures OneOf(a, b)
  {
    Total(a, b, t);
    TotalHasNoNaN(a, t);
    Irreflexive(a);
    if Greater(a, b) && Greater(b, a) { Transitive(a, b, a); }
  }

  // ----- where it is not: field names that differ, or a leaf with unordered values

  /** The types differ in a field name, or hold a leaf whose base type is not totally ordered. */
  predicate Gap(s: Type, t: Type) {
    s != t || !TotalType(s)
  }

  /** Two values that are neither equal nor ordered: they differ in a field name alone, or in one unordered leaf. */
  function Unrelated(s: Type, t: Type): (Value, Value)
    requires WellFormed(s) && WellFormed(t) && TypesMatch(s, t) && Gap(s, t)
  {
    match s
    case BaseType(_, tag) => var (x, y) := Unordered(tag); (Base(x), Base(y))
    case ListType(elem) => var (x, y) := Unrelated(elem, t.elem); (List([x]), List([y]))
    case StructType(_, names, fields) =>
      if names != t.names then (Struct(names, Nulls(|fields|)), Struct(t.names, Nulls(|fields|)))
      else
        var k := FirstGap(fields, t.fields);
        var (x, y) := Unrelated(fields[k], t.fields[k]);
        (Struct(names, Nulls(|fields|)[k := x]), Struct(t.names, Nulls(|fields|)[k := y]))
  }

  function Nulls(n: nat): seq<Value> {
    seq(n, _ => Null)
  }

  function FirstGap(s: seq<Type>, t: seq<Type>): (k: nat)
    requires |s| == |t| && (s != t || exists i :: 0 <= i < |s| && !TotalType(s[i]))
    ensures k < |s| && Gap(s[k], t[k])
  {
    if Gap(s[0], t[0]) then 0
    else
      assert s == [s[0]] + s[1..] && t == [t[0]] + t[1..];
      assert s != t || exists i :: 0 <= i < |s[1..]| && !TotalType(s[1..][i]) by {
        if s == t {
          var i :| 0 <= i < |s| && !TotalType(s[i]);
          assert s[1..][i - 1] == s[i];
        }
      }
      FirstGap(s[1..], t[1..]) + 1
  }

  lemma {:induction false} SeqUnrelated(a: seq<Value>, b: seq<Value>, k: nat)
    requires |a| == |b| && k < |a| && (forall i :: 0 <= i < k ==> a[i] == b[i])
    requires !Same(a[k], b[k]) && !Greater(a[k], b[k])
    ensures !SeqGreater(a, b)
  {
    if k > 0 {
      Irreflexive(a[0]);
      SeqUnrelated(a[1..], b[1..], k - 1);
    }
  }

  lemma {:induction false} UnrelatedPair(s: Type, t: Type)
    requires WellFormed(s) && WellFormed(t) && TypesMatch(s, t) && Gap(s, t)
    ensures var (a, b) := Unrelated(s, t);
            Conforms(a, s) && Conforms(b, t) && !Same(a, b) && !Greater(a, b) && !Greater(b, a)
    decreases s
  {
    var (a, b) := Unrelated(s, t);
    match s {
      case BaseType(_, tag) => UnorderedPair(tag);
      case ListType(elem) =>
        UnrelatedPair(elem, t.elem);
        assert !Same(a.items[0], b.items[0]);
        SeqUnrelated(a.items, b.items, 0);
        SeqUnrelated(b.items, a.items, 0);
      case StructType(_, names, fields) =>
        if names != t.names {
          SeqIrreflexive(a.fields);
        } else {
          var k := FirstGap(fields, t.fields);
          UnrelatedPair(fields[k], t.fields[k]);
          assert !Same(a.fields[k], b.fields[k]);
          SeqUnrelated(a.fields, b.fields, k);
          SeqUnrelated(b.fields, a.fields, k);
        }
    }
  }

  /** Matching types order all their values, exactly when they agree on every field name and no leaf is a
      floating-point number or an interval. */
  lemma OrderedIff(s: Type, t: Type)
    requires WellFormed(s) && WellFormed(t) && TypesMatch(s, t)
    ensures (forall a, b :: Conforms(a, s) && Conforms(b, t) ==> OneOf(a, b)) <==> s == t && TotalType(s)
  {
    if s == t && TotalType(s) {
      forall a, b | Conforms(a, s) && Conforms(b, t) ensures OneOf(a, b) { Trichotomy(a, b, s); }
    } else {
      UnrelatedPair(s, t);
      var (a, b) := Unrelated(s, t);
      assert Conforms(a, s) && Conforms(b, t) && !OneOf(a, b);
    }
  }

  // ----- comparing slots

  predicate Comparable(l: Vec, r: Vec, lp: nat, rp: nat) {
    Valid(l) && Valid(r) && lp < |l.nulls| && rp < |r.nulls|
  }

  lemma MatchIsSameKind(l: Vec, r: Vec)
    requires TypesMatch(TypeOf(l), TypeOf(r))
    ensures l.BaseVec? == r.BaseVec? && l.ListVec? == r.ListVec?
    ensures l.ListVec? ==> TypesMatch(TypeOf(l.data), TypeOf(r.data))
    ensures l.StructVec? ==> |l.fields| == |r.fields|
  {
  }

  lemma FieldsMatch(l: Vec, r: Vec, k: nat)
    requires TypesMatch(TypeOf(l), TypeOf(r)) && l.StructVec? && r.StructVec? && k < |l.fields| && k < |r.fields|
    ensures TypesMatch(TypeOf(l.fields[k]), TypeOf(r.fields[k]))
  {
    assert TypesMatch(TypeOf(l).fields[k], TypeOf(r).fields[k]);
  }

  method NestedEqual(l: Vec, r: Vec, lp: nat, rp: nat) returns (eq: bool)
    requires Comparable(l, r, lp, rp) && TypesMatch(TypeOf(l), TypeOf(r))
    ensures eq == Same(Read(l, lp), Read(r, rp))
    decreases l, 3
  {
    if l.nulls[lp] && r.nulls[rp] {
      eq := true;
    } else if l.nulls[lp] != r.nulls[rp] {
      eq := false;
    } else {
      eq := Equals(l, r, lp, rp);
    }
  }

  /** The comparison of two slots that are not null; list and struct operands may be of any two types. */
  method Equals(l: Vec, r: Vec, lp: nat, rp: nat) returns (eq: bool)
    requires Comparable(l, r, lp, rp) && !l.nulls[lp] && !r.nulls[rp]
    requires l.BaseVec? ==> TypesMatch(TypeOf(l), TypeOf(r))
    ensures eq == (TypesMatch(TypeOf(l), TypeOf(r)) && Same(Read(l, lp), Read(r, rp)))
    decreases l, 2
  {
    if !TypesMatch(TypeOf(l), TypeOf(r)) { return false; }
    MatchIsSameKind(l, r);
    match l
    case BaseVec(_, _, _, vals) => eq := BaseEqual(vals[lp], r.vals[rp]);
    case ListVec(_, entries, data) => eq := ListEquals(entries[lp], r.entries[rp], data, r.data);
    case StructVec(_, _, _, _) => eq := StructEquals(l, r, lp, rp);
  }

  method ListEquals(left: ListEntry, right: ListEntry, ldata: Vec, rdata: Vec) returns (eq: bool)
    requires Valid(ldata) && Valid(rdata) && TypesMatch(TypeOf(ldata), TypeOf(rdata))
    requires left.offset + left.size <= |ldata.nulls| && right.offset + right.size <= |rdata.nulls|
    ensures eq == Same(List(ReadRange(ldata, left.offset, left.size)), List(ReadRange(rdata, right.offset, right.size)))
    decreases ldata, 4
  {
    if left.size != right.size { return false; }
    ghost var xs, ys := ReadRange(ldata, left.offset, left.size), ReadRange(rdata, right.offset, right.size);
    for i := 0 to left.size
      invariant forall j :: 0 <= j < i ==> Same(xs[j], ys[j])
    {
      eq := NestedEqual(ldata, rdata, left.offset + i, right.offset + i);
      if !eq {
        assert !Same(xs[i], ys[i]);
        return;
      }
    }
    eq := true;
  }

  method StructEquals(l: Vec, r: Vec, lp: nat, rp: nat) returns (eq: bool)
    requires Comparable(l, r, lp, rp) && !l.nulls[lp] && !r.nulls[rp] && l.StructVec? && r.StructVec?
    requires TypesMatch(TypeOf(l), TypeOf(r))
    ensures eq == Same(Read(l, lp), Read(r, rp))
    decreases l, 1
  {
    MatchIsSameKind(l, r);
    ghost var xs, ys := Read(l, lp).fields, Read(r, rp).fields;
    for k := 0 to |l.fields|
      invariant forall j :: 0 <= j < k ==> Same(xs[j], ys[j])
    {
      FieldsMatch(l, r, k);
      eq := NestedEqual(l.fields[k], r.fields[k], lp, rp);
      if !eq {
        assert !Same(xs[k], ys[k]);
        return;
      }
    }
    assert xs == ys;
    eq := SameNames(l.names, r.names);
  }

  method SameNames(left: seq<string>, right: seq<string>) returns (same: bool)
    requires |left| == |right|
    ensures same == (left == right)
  {
    same := true;
    for k := 0 to |left|
      invariant same == (left[..k] == right[..k])
    {
      assert left[..k + 1] == left[..k] + [left[k]] && right[..k + 1] == right[..k] + [right[k]];
      if left[k] != right[k] { same := false; }
    }
    assert left[..|left|] == left && right[..|left|] == right;
  }

  method NestedGreaterThan(l: Vec, r: Vec, lp: nat, rp: nat)
    returns (greater: bool, equal: bool)
    requires Comparable(l, r, lp, rp) && TypesMatch(TypeOf(l), TypeOf(r))
    ensures greater == Greater(Read(l, lp), Read(r, rp))
    ensures !greater ==> equal == Same(Read(l, lp), Read(r, rp))
    decreases l, 3, 0
  {
    var isLeftNull, isRightNull := l.nulls[lp], r.nulls[rp];
    if isLeftNull || isRightNull {
      MatchIsSameKind(l, r);
      greater, equal := !isRightNull, isLeftNull == isRightNull;
    } else {
      greater := GreaterThan(l, r, lp, rp);
      if !greater {
        equal := Equals(l, r, lp, rp);
      } else {
        equal := false;
      }
    }
  }

  method GreaterThan(l: Vec, r: Vec, lp: nat, rp: nat) returns (greater: bool)
    requires Comparable(l, r, lp, rp) && TypesMatch(TypeOf(l), TypeOf(r)) && !l.nulls[lp] && !r.nulls[rp]
    ensures greater == Greater(Read(l, lp), Read(r, rp))
    decreases l, 2
  {
    MatchIsSameKind(l, r);
    match l
    case BaseVec(_, _, _, vals) => greater := BaseGreater(vals[lp], r.vals[rp]);
    case ListVec(_, entries, data) => greater := ListGreaterThan(entries[lp], r.entries[rp], data, r.data);
    case StructVec(_, _, _, _) => greater := StructGreaterThan(l, r, lp, rp);
  }

  /** The first elements decide, unless they are equal. */
  lemma DecideAt(xs: seq<Value>, ys: seq<Value>, i: nat)
    requires i < |xs| && i < |ys|
    ensures Greater(xs[i], ys[i]) ==> SeqGreater(xs[i..], ys[i..])
    ensures !Greater(xs[i], ys[i]) && !Same(xs[i], ys[i]) ==> !SeqGreater(xs[i..], ys[i..])
    ensures !Greater(xs[i], ys[i]) && Same(xs[i], ys[i]) ==>
              SeqGreater(xs[i..], ys[i..]) == SeqGreater(xs[i + 1..], ys[i + 1..])
  {
    assert xs[i..][1..] == xs[i + 1..] && ys[i..][1..] == ys[i + 1..];
  }

  method ListGreaterThan(left: ListEntry, right: ListEntry, ldata: Vec, rdata: Vec)
    returns (greater: bool)
    requires Valid(ldata) && Valid(rdata) && TypesMatch(TypeOf(ldata), TypeOf(rdata))
    requires left.offset + left.size <= |ldata.nulls| && right.offset + right.size <= |rdata.nulls|
    ensures greater == SeqGreater(ReadRange(ldata, left.offset, left.size), ReadRange(rdata, right.offset, right.size))
    decreases ldata, 4
  {
    ghost var xs := ReadRange(ldata, left.offset, left.size);
    ghost var ys := ReadRange(rdata, right.offset, right.size);
    var commonLength := if left.size < right.size then left.size else right.size;
    var equal := false;
    assert xs[0..] == xs && ys[0..] == ys;
    for i := 0 to commonLength
      invariant SeqGreater(xs, ys) == SeqGreater(xs[i..], ys[i..])
    {
      greater, equal := ElementGreaterThan(left, right, ldata, rdata, i, xs, ys);
      DecideAt(xs, ys, i);
      if greater || (!greater && !equal) { return; }
    }
    PrefixEnds(xs, ys, commonLength);
    greater := left.size > right.size;
  }

  method ElementGreaterThan(left: ListEntry, right: ListEntry, ldata: Vec, rdata: Vec,
                                   i: nat, ghost xs: seq<Value>, ghost ys: seq<Value>)
    returns (greater: bool, equal: bool)
    requires Valid(ldata) && Valid(rdata) && TypesMatch(TypeOf(ldata), TypeOf(rdata))
    requires left.offset + left.size <= |ldata.nulls| && right.offset + right.size <= |rdata.nulls|
    requires xs == ReadRange(ldata, left.offset, left.size) && ys == ReadRange(rdata, right.offset, right.size)
    requires i < left.size && i < right.size
    ensures greater == Greater(xs[i], ys[i])
    ensures !greater ==> equal == Same(xs[i], ys[i])
    decreases ldata, 3, 1
  {
    greater, equal := NestedGreaterThan(ldata, rdata, left.offset + i, right.offset + i);
    assert Read(ldata, left.offset + i) == xs[i] && Read(rdata, right.offset + i) == ys[i];
  }

  lemma PrefixEnds(xs: seq<Value>, ys: seq<Value>, i: nat)
    requires i <= |xs| && i <= |ys| && (i == |xs| || i == |ys|)
    ensures SeqGreater(xs[i..], ys[i..]) == (|xs| > |ys|)
  {
  }

  method StructGreaterThan(l: Vec, r: Vec, lp: nat, rp: nat) returns (greater: bool)
    requires Comparable(l, r, lp, rp) && !l.nulls[lp] && !r.nulls[rp] && l.StructVec? && r.StructVec?
    requires TypesMatch(TypeOf(l), TypeOf(r))
    ensures greater == Greater(Read(l, lp), Read(r, rp))
    decreases l, 1
  {
    MatchIsSameKind(l, r);
    ghost var xs, ys := Read(l, lp).fields, Read(r, rp).fields;
    var equal := false;
    assert xs[0..] == xs && ys[0..] == ys;
    for k := 0 to |l.fields|
      invariant SeqGreater(xs, ys) == SeqGreater(xs[k..], ys[k..])
    {
      greater, equal := FieldGreaterThan(l, r, lp, rp, k, xs, ys);
      DecideAt(xs, ys, k);
      if greater || (!greater && !equal) { return; }
    }
    greater := false;
  }

  method FieldGreaterThan(l: Vec, r: Vec, lp: nat, rp: nat, k: nat, ghost xs: seq<Value>, ghost ys: seq<Value>)
    returns (greater: bool, equal: bool)
    requires Comparable(l, r, lp, rp) && !l.nulls[lp] && !r.nulls[rp] && l.StructVec? && r.StructVec?
    requires TypesMatch(TypeOf(l), TypeOf(r)) && k < |l.fields| == |r.fields|
    requires xs == Read(l, lp).fields && ys == Read(r, rp).fields
    ensures greater == Greater(xs[k], ys[k])
    ensures !greater ==> equal == Same(xs[k], ys[k])
    decreases l, 0
  {
    FieldsMatch(l, r, k);
    greater, equal := NestedGreaterThan(l.fields[k], r.fields[k], lp, rp);
    assert Read(l.fields[k], lp) == xs[k] && Read(r.fields[k], rp) == ys[k];
  }

  // ----- less, and less or equal: the negations of greater or equal, and of greater

  /** The code's less, and its less or equal. */
  predicate Less(a: Value, b: Value) {
    !(Greater(a, b) || Same(a, b))
  }

  predicate LessOrEqual(a: Value, b: Value) {
    !Greater(a, b)
  }

  ghost predicate LessConverse(a: Value, b: Value) {
    (Less(a, b) <==> Greater(b, a)) && (LessOrEqual(a, b) <==> Greater(b, a) || Same(a, b))
  }

  /** Less is greater turned around, and less or equal is less or equal, for all values of matching types, under
      the same condition; where it fails, some two values are each less than the other. */
  lemma LessIsConverseIff(s: Type, t: Type)
    requires WellFormed(s) && WellFormed(t) && TypesMatch(s, t)
    ensures (forall a, b :: Conforms(a, s) && Conforms(b, t) ==> LessConverse(a, b)) <==> s == t && TotalType(s)
    ensures Gap(s, t) ==> exists a, b :: Conforms(a, s) && Conforms(b, t) && Less(a, b) && Less(b, a)
  {
    if Gap(s, t) {
      UnrelatedPair(s, t);
      var (a, b) := Unrelated(s, t);
      assert Conforms(a, s) && Conforms(b, t) && Less(a, b) && Less(b, a) && !LessConverse(a, b);
    } else {
      forall a, b | Conforms(a, s) && Conforms(b, t) ensures LessConverse(a, b) { Trichotomy(a, b, s); }
    }
  }
}
