/** Hashing the selected slots of a nested vector, column by column, against the hash of one value. */
module VectorHash {
  import opened Basics
  import opened BaseValues
  import opened ValueVectors

  /** The hash of null, of a base value, and of two hashes combined. */
  datatype Hasher<!H> = Hasher(nullHash: H, base: BaseValue -> H, combine: (H, H) -> H)

  /** A plain struct has a field; a node or relationship has its internal ID where the source looks for it; the data
      of lists can be counted. */
  predicate Hashable(v: Vec) {
    match v
    case BaseVec(_, _, _, _) => true
    case ListVec(_, _, data) => Hashable(data) && |data.nulls| < UINT32_LIMIT
    case StructVec(_, kind, _, fields) =>
      && IdField(kind) < |fields| && (kind != Plain ==> fields[IdField(kind)].BaseVec?)
      && forall k :: 0 <= k < |fields| ==> Hashable(fields[k])
  }

  function IdField(kind: StructKind): nat {
    if kind == Rel then 3 else 0
  }

  // ----- the hash of one slot, as the vectors hold it

  function HashSlot<H>(h: Hasher<H>, v: Vec, pos: nat): H
    requires Valid(v) && Hashable(v) && pos < |v.nulls|
    decreases v, 0
  {
    match v
    case BaseVec(nulls, _, _, vals) => if nulls[pos] then h.nullHash else h.base(vals[pos])
    case ListVec(nulls, entries, data) =>
      if nulls[pos] then h.nullHash else FoldItems(h, data, entries[pos].offset, entries[pos].size)
    case StructVec(_, kind, _, fields) =>
      if kind == Plain then FoldFields(h, fields, |fields|, pos) else HashSlot(h, fields[IdField(kind)], pos)
  }

  function FoldItems<H>(h: Hasher<H>, data: Vec, offset: nat, n: nat): H
    requires Valid(data) && Hashable(data) && offset + n <= |data.nulls|
    decreases data, 1, n
  {
    if n == 0 then h.nullHash
    else h.combine(FoldItems(h, data, offset, n - 1), HashSlot(h, data, offset + n - 1))
  }

  function FoldFields<H>(h: Hasher<H>, fields: seq<Vec>, n: nat, pos: nat): H
    requires 1 <= n <= |fields|
    requires forall k :: 0 <= k < |fields| ==> Valid(fields[k]) && Hashable(fields[k]) && pos < |fields[k].nulls|
    decreases fields, 1, n
  {
    if n == 1 then HashSlot(h, fields[0], pos)
    else h.combine(HashSlot(h, fields[n - 1], pos), FoldFields(h, fields, n - 1, pos))
  }

  // ----- the hash of a value

  predicate HashableType(t: Type) {
    match t
    case BaseType(_, _) => true
    case ListType(elem) => HashableType(elem)
    case StructType(kind, _, fields) =>
      && IdField(kind) < |fields| && (kind != Plain ==> fields[IdField(kind)].BaseType?)
      && forall k :: 0 <= k < |fields| ==> HashableType(fields[k])
  }

  /** The fields of a struct value; a null struct counts as one whose fields are all null. */
  function FieldsOf(v: Value, t: Type): (r: seq<Value>)
    requires t.StructType? && Conforms(v, t)
    ensures |r| == |t.fields| && forall k :: 0 <= k < |r| ==> Conforms(r[k], t.fields[k])
  {
    if v.Null? then seq(|t.fields|, _ => Null) else v.fields
  }

  function HashValue<H>(h: Hasher<H>, v: Value, t: Type): H
    requires HashableType(t) && Conforms(v, t)
    decreases t, 0
  {
    match t
    case BaseType(_, _) => if v.Null? then h.nullHash else h.base(v.x)
    case ListType(elem) => if v.Null? then h.nullHash else HashItems(h, v.items, |v.items|, elem)
    case StructType(kind, _, fields) =>
      var vals := FieldsOf(v, t);
      if kind == Plain then HashFields(h, vals, fields, |fields|)
      else HashValue(h, vals[IdField(kind)], fields[IdField(kind)])
  }

  function HashItems<H>(h: Hasher<H>, items: seq<Value>, n: nat, elem: Type): H
    requires n <= |items| && HashableType(elem) && forall i :: 0 <= i < |items| ==> Conforms(items[i], elem)
    decreases elem, 1, n
  {
    if n == 0 then h.nullHash
    else h.combine(HashItems(h, items, n - 1, elem), HashValue(h, items[n - 1], elem))
  }

  function HashFields<H>(h: Hasher<H>, vals: seq<Value>, ts: seq<Type>, n: nat): H
    requires 1 <= n <= |vals| == |ts|
    requires forall k :: 0 <= k < |ts| ==> HashableType(ts[k]) && Conforms(vals[k], ts[k])
    decreases ts, 1, n
  {
    if n == 1 then HashValue(h, vals[0], ts[0])
    else h.combine(HashValue(h, vals[n - 1], ts[n - 1]), HashFields(h, vals, ts, n - 1))
  }

  // ----- when the two agree: what a null struct leaves behind in its fields

  /** The slot hashes like a null of its type. */
  predicate HashesAsNull(v: Vec, pos: nat)
    requires Valid(v) && Hashable(v) && pos < |v.nulls|
  {
    match v
    case BaseVec(nulls, _, _, _) => nulls[pos]
    case ListVec(nulls, entries, _) => nulls[pos] || entries[pos].size == 0
    case StructVec(_, kind, _, fields) =>
      if kind == Plain then forall k :: 0 <= k < |fields| ==> HashesAsNull(fields[k], pos)
      else HashesAsNull(fields[IdField(kind)], pos)
  }

  /** Every null struct that the slot's hash reaches has fields that hash like nulls. */
  predicate Faithful(v: Vec, pos: nat)
    requires Valid(v) && Hashable(v) && pos < |v.nulls|
    decreases v
  {
    match v
    case BaseVec(_, _, _, _) => true
    case ListVec(nulls, entries, data) =>
      nulls[pos] ||
      forall i :: entries[pos].offset <= i < entries[pos].offset + entries[pos].size ==> Faithful(data, i)
    case StructVec(nulls, kind, _, fields) =>
      if nulls[pos] then HashesAsNull(v, pos)
      else kind == Plain ==> forall k :: 0 <= k < |fields| ==> Faithful(fields[k], pos)
  }

  lemma {:induction false} TypeHashable(v: Vec)
    requires Hashable(v)
    ensures HashableType(TypeOf(v))
    decreases v
  {
    match v {
      case BaseVec(_, _, _, _) =>
      case ListVec(_, _, data) => TypeHashable(data);
      case StructVec(_, _, _, fields) =>
        forall k | 0 <= k < |fields| ensures HashableType(TypeOf(fields[k])) { TypeHashable(fields[k]); }
    }
  }

  /** The hash of a slot is the hash of its value. */
  ghost predicate Agrees<H>(h: Hasher<H>, v: Vec, pos: nat, val: Value, t: Type)
    requires Valid(v) && Hashable(v) && pos < |v.nulls|
  {
    HashableType(t) && Conforms(val, t) && HashSlot(h, v, pos) == HashValue(h, val, t)
  }

  lemma {:induction false} FieldsAgree<H>(h: Hasher<H>, fields: seq<Vec>, vals: seq<Value>, ts: seq<Type>,
                                             n: nat, pos: nat)
    requires 1 <= n <= |fields| == |vals| == |ts|
    requires forall k :: 0 <= k < |fields| ==> Valid(fields[k]) && Hashable(fields[k]) && pos < |fields[k].nulls|
    requires forall k :: 0 <= k < |ts| ==> HashableType(ts[k]) && Conforms(vals[k], ts[k])
    requires forall k :: 0 <= k < n ==> Agrees(h, fields[k], pos, vals[k], ts[k])
    ensures FoldFields(h, fields, n, pos) == HashFields(h, vals, ts, n)
  {
    assert Agrees(h, fields[n - 1], pos, vals[n - 1], ts[n - 1]);
    if n > 1 { FieldsAgree(h, fields, vals, ts, n - 1, pos); }
  }

  lemma {:induction false} ItemsAgree<H>(h: Hasher<H>, data: Vec, offset: nat, items: seq<Value>, n: nat,
                                            elem: Type)
    requires Valid(data) && Hashable(data) && n <= |items| && offset + |items| <= |data.nulls|
    requires HashableType(elem) && forall i :: 0 <= i < |items| ==> Conforms(items[i], elem)
    requires forall i :: 0 <= i < n ==> Agrees(h, data, offset + i, items[i], elem)
    ensures FoldItems(h, data, offset, n) == HashItems(h, items, n, elem)
  {
    if n > 0 {
      assert Agrees(h, data, offset + (n - 1), items[n - 1], elem);
      ItemsAgree(h, data, offset, items, n - 1, elem);
    }
  }

  lemma {:induction false} NullAgrees<H>(h: Hasher<H>, v: Vec, pos: nat)
    requires Valid(v) && Hashable(v) && pos < |v.nulls| && HashesAsNull(v, pos)
    ensures Agrees(h, v, pos, Null, TypeOf(v))
    decreases v
  {
    TypeHashable(v);
    match v {
      case BaseVec(_, _, _, _) =>
      case ListVec(_, _, _) =>
      case StructVec(_, kind, _, fields) =>
        var t := TypeOf(v);
        var nulls := FieldsOf(Null, t);
        if kind == Plain {
          forall k | 0 <= k < |fields| ensures Agrees(h, fields[k], pos, nulls[k], t.fields[k]) {
            NullAgrees(h, fields[k], pos);
          }
          FieldsAgree(h, fields, nulls, t.fields, |fields|, pos);
        } else {
          NullAgrees(h, fields[IdField(kind)], pos);
        }
    }
  }

  /** The law: on a faithful slot the vectors hash what the slot denotes, wherever it is stored. */
  lemma {:induction false} SlotIsValue<H>(h: Hasher<H>, v: Vec, pos: nat)
    requires Valid(v) && Hashable(v) && pos < |v.nulls| && Faithful(v, pos)
    ensures Agrees(h, v, pos, Read(v, pos), TypeOf(v))
    decreases v, 1
  {
    TypeHashable(v);
    ReadConforms(v, pos);
    match v {
      case BaseVec(_, _, _, _) =>
      case ListVec(nulls, entries, data) =>
        if !nulls[pos] { ListIsValue(h, data, entries[pos].offset, entries[pos].size); }
      case StructVec(nulls, _, _, _) =>
        if nulls[pos] { NullAgrees(h, v, pos); } else { StructIsValue(h, v, pos); }
    }
  }

  lemma {:induction false} ListIsValue<H>(h: Hasher<H>, data: Vec, offset: nat, size: nat)
    requires Valid(data) && Hashable(data) && offset + size <= |data.nulls| && HashableType(TypeOf(data))
    requires forall i :: offset <= i < offset + size ==> Faithful(data, i)
    ensures var items := ReadRange(data, offset, size);
            && (forall i :: 0 <= i < size ==> Conforms(items[i], TypeOf(data)))
            && FoldItems(h, data, offset, size) == HashItems(h, items, size, TypeOf(data))
    decreases data, 2
  {
    var items, elem := ReadRange(data, offset, size), TypeOf(data);
    forall i | 0 <= i < size ensures Conforms(items[i], elem) && Agrees(h, data, offset + i, items[i], elem) {
      SlotIsValue(h, data, offset + i);
    }
    ItemsAgree(h, data, offset, items, size, elem);
  }

  lemma {:induction false} StructIsValue<H>(h: Hasher<H>, v: Vec, pos: nat)
    requires v.StructVec? && Valid(v) && Hashable(v) && pos < |v.nulls| && !v.nulls[pos] && Faithful(v, pos)
    requires HashableType(TypeOf(v)) && Conforms(Read(v, pos), TypeOf(v))
    ensures HashSlot(h, v, pos) == HashValue(h, Read(v, pos), TypeOf(v))
    decreases v, 0
  {
    var t, vals := TypeOf(v), Read(v, pos).fields;
    if v.kind == Plain {
      forall k | 0 <= k < |v.fields| ensures Agrees(h, v.fields[k], pos, vals[k], t.fields[k]) {
        SlotIsValue(h, v.fields[k], pos);
      }
      FieldsAgree(h, v.fields, vals, t.fields, |v.fields|, pos);
    } else {
      SlotIsValue(h, v.fields[IdField(v.kind)], pos);
    }
  }

  // ----- equal values hash equally

  lemma {:induction false} HashIgnoresNames<H>(h: Hasher<H>, v: Value, s: Type, t: Type)
    requires HashableType(s) && HashableType(t) && TypesMatch(s, t) && Conforms(v, s) && Conforms(v, t)
    ensures HashValue(h, v, s) == HashValue(h, v, t)
    decreases s, 0
  {
    match s {
      case BaseType(_, _) =>
      case ListType(elem) => if !v.Null? { ItemsIgnoreNames(h, v.items, |v.items|, elem, t.elem); }
      case StructType(kind, _, fields) =>
        var vals := FieldsOf(v, s);
        assert vals == FieldsOf(v, t);
        if kind == Plain {
          FieldsIgnoreNames(h, vals, fields, t.fields, |fields|);
        } else {
          HashIgnoresNames(h, vals[IdField(kind)], fields[IdField(kind)], t.fields[IdField(kind)]);
        }
    }
  }

  lemma {:induction false} ItemsIgnoreNames<H>(h: Hasher<H>, items: seq<Value>, n: nat, s: Type, t: Type)
    requires n <= |items| && HashableType(s) && HashableType(t) && TypesMatch(s, t)
    requires forall i :: 0 <= i < |items| ==> Conforms(items[i], s) && Conforms(items[i], t)
    ensures HashItems(h, items, n, s) == HashItems(h, items, n, t)
    decreases s, 1, n
  {
    if n > 0 {
      HashIgnoresNames(h, items[n - 1], s, t);
      ItemsIgnoreNames(h, items, n - 1, s, t);
    }
  }

  lemma {:induction false} FieldsIgnoreNames<H>(h: Hasher<H>, vals: seq<Value>, ss: seq<Type>, ts: seq<Type>,
                                                   n: nat)
    requires 1 <= n <= |vals| == |ss| == |ts|
    requires forall k :: 0 <= k < |ss| ==>
               HashableType(ss[k]) && HashableType(ts[k]) && TypesMatch(ss[k], ts[k]) &&
               Conforms(vals[k], ss[k]) && Conforms(vals[k], ts[k])
    ensures HashFields(h, vals, ss, n) == HashFields(h, vals, ts, n)
    decreases ss, 1, n
  {
    HashIgnoresNames(h, vals[n - 1], ss[n - 1], ts[n - 1]);
    if n > 1 { FieldsIgnoreNames(h, vals, ss, ts, n - 1); }
  }

  /** Slots that compare equal have the same hash, in any two vectors and at any two positions. */
  lemma EqualSlotsHashEqually<H>(h: Hasher<H>, l: Vec, r: Vec, lp: nat, rp: nat)
    requires Valid(l) && Hashable(l) && lp < |l.nulls| && Faithful(l, lp)
    requires Valid(r) && Hashable(r) && rp < |r.nulls| && Faithful(r, rp)
    requires TypesMatch(TypeOf(l), TypeOf(r)) && Read(l, lp) == Read(r, rp)
    ensures HashSlot(h, l, lp) == HashSlot(h, r, rp)
  {
    SlotIsValue(h, l, lp);
    SlotIsValue(h, r, rp);
    HashIgnoresNames(h, Read(l, lp), TypeOf(l), TypeOf(r));
  }

  // ----- and faithfulness is exactly what it takes

  /** Hashes that collide nowhere. */
  datatype Term = NullTerm | BaseTerm(x: BaseValue) | Combined(left: Term, right: Term)

  function Free(): Hasher<Term> {
    Hasher(NullTerm, x => BaseTerm(x), (a, b) => Combined(a, b))
  }

  lemma {:induction false} FieldsDiffer(fields: seq<Vec>, vals: seq<Value>, ts: seq<Type>, n: nat, pos: nat,
                                           k: nat)
    requires k < n <= |fields| == |vals| == |ts|
    requires forall k :: 0 <= k < |fields| ==> Valid(fields[k]) && Hashable(fields[k]) && pos < |fields[k].nulls|
    requires forall k :: 0 <= k < |ts| ==> HashableType(ts[k]) && Conforms(vals[k], ts[k])
    requires !Agrees(Free(), fields[k], pos, vals[k], ts[k])
    ensures FoldFields(Free(), fields, n, pos) != HashFields(Free(), vals, ts, n)
  {
    if k < n - 1 { FieldsDiffer(fields, vals, ts, n - 1, pos, k); }
  }

  lemma {:induction false} ItemsDiffer(data: Vec, offset: nat, items: seq<Value>, n: nat, elem: Type, i: nat)
    requires Valid(data) && Hashable(data) && i < n <= |items| && offset + |items| <= |data.nulls|
    requires HashableType(elem) && forall i :: 0 <= i < |items| ==> Conforms(items[i], elem)
    requires !Agrees(Free(), data, offset + i, items[i], elem)
    ensures FoldItems(Free(), data, offset, n) != HashItems(Free(), items, n, elem)
  {
    if i < n - 1 { ItemsDiffer(data, offset, items, n - 1, elem, i); }
  }

  lemma {:induction false} NullDiffers(v: Vec, pos: nat)
    requires Valid(v) && Hashable(v) && pos < |v.nulls| && !HashesAsNull(v, pos)
    ensures !Agrees(Free(), v, pos, Null, TypeOf(v))
    decreases v
  {
    TypeHashable(v);
    match v {
      case BaseVec(_, _, _, _) =>
      case ListVec(_, entries, data) =>
        assert FoldItems(Free(), data, entries[pos].offset, entries[pos].size).Combined?;
      case StructVec(_, kind, _, fields) =>
        var t := TypeOf(v);
        if kind == Plain {
          var k :| 0 <= k < |fields| && !HashesAsNull(fields[k], pos);
          NullDiffers(fields[k], pos);
          FieldsDiffer(fields, FieldsOf(Null, t), t.fields, |fields|, pos, k);
        } else {
          NullDiffers(fields[IdField(kind)], pos);
        }
    }
  }

  lemma {:induction false} UnfaithfulDiffers(v: Vec, pos: nat)
    requires Valid(v) && Hashable(v) && pos < |v.nulls| && !Faithful(v, pos)
    ensures !Agrees(Free(), v, pos, Read(v, pos), TypeOf(v))
    decreases v
  {
    TypeHashable(v);
    ReadConforms(v, pos);
    match v {
      case ListVec(_, entries, data) =>
        var e := entries[pos];
        var i :| e.offset <= i < e.offset + e.size && !Faithful(data, i);
        UnfaithfulDiffers(data, i);
        ListDiffers(v, pos, i);
      case StructVec(nulls, kind, _, fields) =>
        if nulls[pos] {
          NullDiffers(v, pos);
        } else {
          var k :| 0 <= k < |fields| && !Faithful(fields[k], pos);
          UnfaithfulDiffers(fields[k], pos);
          StructDiffers(v, pos, k);
        }
    }
  }

  lemma ListDiffers(v: Vec, pos: nat, i: nat)
    requires v.ListVec? && Valid(v) && Hashable(v) && pos < |v.nulls| && !v.nulls[pos]
    requires v.entries[pos].offset <= i < v.entries[pos].offset + v.entries[pos].size
    requires HashableType(TypeOf(v)) && Conforms(Read(v, pos), TypeOf(v))
    requires !Agrees(Free(), v.data, i, Read(v.data, i), TypeOf(v.data))
    ensures !Agrees(Free(), v, pos, Read(v, pos), TypeOf(v))
  {
    var e := v.entries[pos];
    assert e.offset + (i - e.offset) == i;
    ItemsDiffer(v.data, e.offset, Read(v, pos).items, e.size, TypeOf(v.data), i - e.offset);
  }

  lemma StructDiffers(v: Vec, pos: nat, k: nat)
    requires v.StructVec? && v.kind == Plain && Valid(v) && Hashable(v) && pos < |v.nulls| && !v.nulls[pos]
    requires HashableType(TypeOf(v)) && Conforms(Read(v, pos), TypeOf(v)) && k < |v.fields|
    requires !Agrees(Free(), v.fields[k], pos, Read(v.fields[k], pos), TypeOf(v.fields[k]))
    ensures !Agrees(Free(), v, pos, Read(v, pos), TypeOf(v))
  {
    FieldsDiffer(v.fields, Read(v, pos).fields, TypeOf(v).fields, |v.fields|, pos, k);
  }

  /** Whatever the hash of base values and the way of combining, a slot hashes as its value does, if and only if
      it is faithful. */
  lemma AgreesIffFaithful(v: Vec, pos: nat)
    requires Valid(v) && Hashable(v) && pos < |v.nulls|
    ensures (forall h: Hasher<Term> :: Agrees(h, v, pos, Read(v, pos), TypeOf(v))) <==> Faithful(v, pos)
  {
    if Faithful(v, pos) {
      forall h: Hasher<Term> ensures Agrees(h, v, pos, Read(v, pos), TypeOf(v)) { SlotIsValue(h, v, pos); }
    } else {
      UnfaithfulDiffers(v, pos);
    }
  }

  // ----- hashing a selection of slots

  predicate InRange(sel: seq<nat>, n: nat) {
    forall i :: 0 <= i < |sel| ==> sel[i] < n
  }

  /** The selected slots may be hashed into the selected places. */
  ghost predicate Selected(v: Vec, sel: seq<nat>, size: nat, resSel: seq<nat>) {
    && Valid(v) && Hashable(v) && InRange(sel, |v.nulls|)
    && |sel| == |resSel| && InRange(resSel, size) && Distinct(resSel)
  }

  /** The first n selected slots have their hashes in place, and nothing else changed. */
  ghost predicate Hashed<H>(h: Hasher<H>, v: Vec, sel: seq<nat>, was: seq<H>, now: seq<H>, resSel: seq<nat>,
                               n: nat)
    requires Selected(v, sel, |was|, resSel) && |now| == |was| && n <= |sel|
  {
    && (forall i :: 0 <= i < n ==> now[resSel[i]] == HashSlot(h, v, sel[i]))
    && (forall p :: 0 <= p < |was| && p !in resSel[..n] ==> now[p] == was[p])
  }

  /** Base values; a null guarantee and an unfiltered selection each save work and change nothing. */
  method HashBase<H>(h: Hasher<H>, v: Vec, noNulls: bool, sel: seq<nat>, unfiltered: bool, result: array<H>,
                        resSel: seq<nat>)
    requires v.BaseVec? && Selected(v, sel, result.Length, resSel)
    requires noNulls ==> forall p :: 0 <= p < |v.nulls| ==> !v.nulls[p]
    requires unfiltered ==> forall i :: 0 <= i < |sel| ==> sel[i] == i
    modifies result
    ensures Hashed(h, v, sel, old(result[..]), result[..], resSel, |sel|)
  {
    for i := 0 to |sel|
      invariant Hashed(h, v, sel, old(result[..]), result[..], resSel, i)
    {
      var pos := if unfiltered then i else sel[i];
      if noNulls || !v.nulls[pos] {
        result[resSel[i]] := h.base(v.vals[pos]);
      } else {
        result[resSel[i]] := h.nullHash;
      }
      assert resSel[..i + 1] == resSel[..i] + [resSel[i]];
    }
  }

  method ComputeHash<H>(h: Hasher<H>, v: Vec, sel: seq<nat>, result: array<H>, resSel: seq<nat>)
    requires Selected(v, sel, result.Length, resSel)
    modifies result
    ensures Hashed(h, v, sel, old(result[..]), result[..], resSel, |sel|)
    decreases v, 1
  {
    match v
    case BaseVec(nulls, _, _, _) =>
      // the vector's guarantee and the selection's state, whenever they say so
      var noNulls: bool :| noNulls ==> forall p :: 0 <= p < |nulls| ==> !nulls[p];
      var unfiltered: bool :| unfiltered ==> forall i :: 0 <= i < |sel| ==> sel[i] == i;
      HashBase(h, v, noNulls, sel, unfiltered, result, resSel);
    case ListVec(_, _, data) =>
      var hashes := HashData(h, data);
      FinalizeLists(h, v, hashes, sel, result, resSel);
    case StructVec(_, kind, _, fields) =>
      if kind == Plain {
        HashStruct(h, v, sel, result, resSel);
      } else {
        ComputeHash(h, fields[IdField(kind)], sel, result, resSel);
      }
  }

  function Range(from: nat, n: nat): (r: seq<nat>)
    ensures |r| == n && forall i :: 0 <= i < n ==> r[i] == from + i
  {
    seq(n, i => from + i)
  }

  /** How many of the values not yet hashed go into the next selection. */
  function Chunk(computed: nat, size: nat): (n: nat)
    requires computed < size
    ensures 0 < n <= size - computed
  {
    var left := size - computed;
    if left < DEFAULT_VECTOR_CAPACITY then left else DEFAULT_VECTOR_CAPACITY
  }

  /** The counter after some selections, as 32 bits hold it. */
  function Counter(selections: nat, size: nat): (c: nat) {
    if selections == 0 then 0
    else
      var c := Counter(selections - 1, size);
      if c < size then (c + Chunk(c, size)) % UINT32_LIMIT else c
  }

  lemma {:induction false} CounterGrows(selections: nat, size: nat)
    requires size < UINT32_LIMIT
    ensures Counter(selections, size) <= size
    ensures Counter(selections, size) < size ==> Counter(selections, size) >= selections
  {
    if selections > 0 { CounterGrows(selections - 1, size); }
  }

  /** The loop over the data ends if and only if the counter can hold the number of values. */
  lemma DataLoopEndsIff(size: nat)
    ensures (exists k: nat :: Counter(k, size) >= size) <==> size < UINT32_LIMIT
  {
    if size < UINT32_LIMIT {
      CounterGrows(size, size);
    } else {
      forall k: nat ensures Counter(k, size) < size { CounterStaysBelow(k, size); }
    }
  }

  lemma {:induction false} CounterStaysBelow(selections: nat, size: nat)
    requires size >= UINT32_LIMIT
    ensures Counter(selections, size) < UINT32_LIMIT
  {
    if selections > 0 { CounterStaysBelow(selections - 1, size); }
  }

  /** All slots of the data vector, one selection of at most the vector capacity after the other. */
  method HashData<H>(h: Hasher<H>, data: Vec) returns (hashes: array<H>)
    requires Valid(data) && Hashable(data) && |data.nulls| < UINT32_LIMIT
    ensures fresh(hashes) && hashes.Length == |data.nulls|
    ensures forall p :: 0 <= p < hashes.Length ==> hashes[p] == HashSlot(h, data, p)
    decreases data, 2
  {
    hashes := new H[|data.nulls|](_ => h.nullHash);
    var computed: nat := 0;
    while computed < hashes.Length
      invariant computed <= hashes.Length
      invariant forall p :: 0 <= p < computed ==> hashes[p] == HashSlot(h, data, p)
    {
      var n := Chunk(computed, hashes.Length);
      var sel := Range(computed, n);
      ghost var was := hashes[..];
      ComputeHash(h, data, sel, hashes, sel);
      forall p | 0 <= p < computed + n ensures hashes[p] == HashSlot(h, data, p) {
        if p < computed {
          assert p !in sel[..n];
          assert hashes[..][p] == was[p];
        } else {
          assert hashes[..][sel[p - computed]] == HashSlot(h, data, sel[p - computed]);
        }
      }
      computed := (computed + n) % UINT32_LIMIT;
    }
  }

  method FinalizeLists<H>(h: Hasher<H>, v: Vec, hashes: array<H>, sel: seq<nat>, result: array<H>,
                             resSel: seq<nat>)
    requires v.ListVec? && Selected(v, sel, result.Length, resSel) && hashes != result
    requires hashes.Length == |v.data.nulls|
    requires forall p :: 0 <= p < hashes.Length ==> hashes[p] == HashSlot(h, v.data, p)
    modifies result
    ensures Hashed(h, v, sel, old(result[..]), result[..], resSel, |sel|)
  {
    for i := 0 to |sel|
      invariant Hashed(h, v, sel, old(result[..]), result[..], resSel, i)
    {
      var pos := sel[i];
      var entry := v.entries[pos];
      if v.nulls[pos] {
        result[resSel[i]] := h.nullHash;
      } else {
        var value := h.nullHash;
        for j := 0 to entry.size
          invariant value == FoldItems(h, v.data, entry.offset, j)
        {
          value := h.combine(value, hashes[entry.offset + j]);
        }
        result[resSel[i]] := value;
      }
      assert resSel[..i + 1] == resSel[..i] + [resSel[i]];
    }
  }

  /** Field by field: the hash so far is combined in place with the hash of the next field. */
  method HashStruct<H>(h: Hasher<H>, v: Vec, sel: seq<nat>, result: array<H>, resSel: seq<nat>)
    requires v.StructVec? && v.kind == Plain && Selected(v, sel, result.Length, resSel)
    modifies result
    ensures Hashed(h, v, sel, old(result[..]), result[..], resSel, |sel|)
    decreases v, 0
  {
    ComputeHash(h, v.fields[0], sel, result, resSel);
    var tmp := new H[|resSel|](_ => h.nullHash);
    var tmpSel := Range(0, |resSel|);
    for k := 1 to |v.fields|
      invariant forall i :: 0 <= i < |sel| ==> result[resSel[i]] == FoldFields(h, v.fields, k, sel[i])
      invariant forall p :: 0 <= p < result.Length && p !in resSel ==> result[p] == old(result[p])
    {
      HashField(h, v.fields[k], sel, tmp, tmpSel);
      CombineHash(h, tmp, tmpSel, result, resSel, result, resSel);
    }
    assert resSel[..|sel|] == resSel;
  }

  /** The hashes of one field, in the temporary vector. */
  method HashField<H>(h: Hasher<H>, v: Vec, sel: seq<nat>, tmp: array<H>, tmpSel: seq<nat>)
    requires Selected(v, sel, tmp.Length, tmpSel) && tmp.Length == |sel|
    requires forall i :: 0 <= i < |sel| ==> tmpSel[i] == i
    modifies tmp
    ensures forall i :: 0 <= i < |sel| ==> tmp[i] == HashSlot(h, v, sel[i])
    decreases v, 2
  {
    ComputeHash(h, v, sel, tmp, tmpSel);
    forall i | 0 <= i < |sel| ensures tmp[i] == HashSlot(h, v, sel[i]) { assert tmp[..][tmpSel[i]] == tmp[i]; }
  }

  /** Where the i-th operand is: a single one is used for all. */
  function OperandAt(sel: seq<nat>, i: nat): nat
    requires |sel| == 1 || i < |sel|
  {
    if |sel| == 1 then sel[0] else sel[i]
  }

  /** How many pairs of operands there are. */
  function Operands(leftSel: seq<nat>, rightSel: seq<nat>): nat {
    if |leftSel| == 1 then |rightSel| else |leftSel|
  }

  /** Combines two selections of hashes, one by one, or a single one with all of the other; an operand may be the
      result itself, place by place. */
  method CombineHash<H>(h: Hasher<H>, left: array<H>, leftSel: seq<nat>, right: array<H>, rightSel: seq<nat>,
                        result: array<H>, resSel: seq<nat>)
    requires InRange(leftSel, left.Length) && InRange(rightSel, right.Length)
    requires InRange(resSel, result.Length) && Distinct(resSel)
    requires |leftSel| == 1 || |rightSel| == 1 || |leftSel| == |rightSel|
    requires |leftSel| <= |resSel| && |rightSel| <= |resSel|
    requires (left != result || leftSel == resSel) && (right != result || rightSel == resSel)
    modifies result
    ensures forall i :: 0 <= i < Operands(leftSel, rightSel) ==>
              result[resSel[i]] == h.combine(old(left[OperandAt(leftSel, i)]), old(right[OperandAt(rightSel, i)]))
    ensures forall p :: 0 <= p < result.Length && p !in resSel[..Operands(leftSel, rightSel)] ==>
              result[p] == old(result[p])
  {
    for i := 0 to Operands(leftSel, rightSel)
      invariant forall j :: 0 <= j < i ==>
                  result[resSel[j]] == h.combine(old(left[OperandAt(leftSel, j)]), old(right[OperandAt(rightSel, j)]))
      invariant forall p :: 0 <= p < result.Length && p !in resSel[..i] ==> result[p] == old(result[p])
    {
      var leftPos, rightPos := OperandAt(leftSel, i), OperandAt(rightSel, i);
      assert resSel[i] !in resSel[..i] && resSel[..i + 1] == resSel[..i] + [resSel[i]];
      result[resSel[i]] := h.combine(left[leftPos], right[rightPos]);
    }
  }
}
