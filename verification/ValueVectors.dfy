/** Value vectors of nested types: what a slot holds and what it denotes. */
module ValueVectors {
  import opened Basics
  import opened BaseValues

  /** Nodes and relationships are structs too; they are hashed by their internal ID alone. */
  datatype StructKind = Plain | Node | Rel

  /** A base type is its logical type and how its values are stored. */
  datatype Type =
    | BaseType(logical: nat, tag: Tag)
    | ListType(elem: Type)
    | StructType(kind: StructKind, names: seq<string>, fields: seq<Type>)

  predicate WellFormed(t: Type) {
    match t
    case BaseType(_, _) => true
    case ListType(elem) => WellFormed(elem)
    case StructType(_, names, fields) => |names| == |fields| && forall k :: 0 <= k < |fields| ==> WellFormed(fields[k])
  }

  /** The equality of types the source uses: struct fields are compared by type and not by name. */
  predicate TypesMatch(a: Type, b: Type) {
    match (a, b)
    case (BaseType(i, x), BaseType(j, y)) => i == j && x == y
    case (ListType(x), ListType(y)) => TypesMatch(x, y)
    case (StructType(j, _, xs), StructType(k, _, ys)) =>
      j == k && |xs| == |ys| && forall i :: 0 <= i < |xs| ==> TypesMatch(xs[i], ys[i])
    case _ => false
  }

  /** What a slot denotes. */
  datatype Value = Null | Base(x: BaseValue) | List(items: seq<Value>) | Struct(names: seq<string>, fields: seq<Value>)

  predicate Conforms(v: Value, t: Type) {
    match v
    case Null => true
    case Base(x) => t.BaseType? && t.tag == TagOf(x)
    case List(items) => t.ListType? && forall i :: 0 <= i < |items| ==> Conforms(items[i], t.elem)
    case Struct(names, fields) =>
      && t.StructType? && names == t.names && |fields| == |t.fields|
      && forall k :: 0 <= k < |fields| ==> Conforms(fields[k], t.fields[k])
  }

  /** A vector: its nulls, and the base values, the list entries with their shared data vector, or the field
      vectors, which are read at the struct's own position. */
  datatype Vec =
    | BaseVec(nulls: seq<bool>, logical: nat, tag: Tag, vals: seq<BaseValue>)
    | ListVec(nulls: seq<bool>, entries: seq<ListEntry>, data: Vec)
    | StructVec(nulls: seq<bool>, kind: StructKind, names: seq<string>, fields: seq<Vec>)

  predicate Valid(v: Vec) {
    match v
    case BaseVec(nulls, _, tag, vals) =>
      |vals| == |nulls| && forall i :: 0 <= i < |vals| ==> TagOf(vals[i]) == tag
    case ListVec(nulls, entries, data) =>
      && |entries| == |nulls| && Valid(data)
      && forall i :: 0 <= i < |nulls| && !nulls[i] ==> entries[i].offset + entries[i].size <= |data.nulls|
    case StructVec(nulls, _, names, fields) =>
      && |names| == |fields|
      && forall k :: 0 <= k < |fields| ==> Valid(fields[k]) && |fields[k].nulls| == |nulls|
  }

  function TypeOf(v: Vec): Type
    decreases v
  {
    match v
    case BaseVec(_, logical, tag, _) => BaseType(logical, tag)
    case ListVec(_, _, data) => ListType(TypeOf(data))
    case StructVec(_, kind, names, fields) => StructType(kind, names, TypesOf(fields))
  }

  function TypesOf(fields: seq<Vec>): (r: seq<Type>)
    ensures |r| == |fields| && forall k :: 0 <= k < |fields| ==> r[k] == TypeOf(fields[k])
    decreases fields
  {
    if fields == [] then [] else [TypeOf(fields[0])] + TypesOf(fields[1..])
  }

  /** The value of a slot: a null slot hides whatever its vector still holds. */
  function Read(v: Vec, pos: nat): Value
    requires Valid(v) && pos < |v.nulls|
    decreases v, 0
  {
    if v.nulls[pos] then Null
    else
      match v
      case BaseVec(_, _, _, vals) => Base(vals[pos])
      case ListVec(_, entries, data) => List(ReadRange(data, entries[pos].offset, entries[pos].size))
      case StructVec(_, _, names, fields) => Struct(names, ReadFields(fields, pos))
  }

  function ReadFields(fields: seq<Vec>, pos: nat): (r: seq<Value>)
    requires forall k :: 0 <= k < |fields| ==> Valid(fields[k]) && pos < |fields[k].nulls|
    ensures |r| == |fields| && forall k :: 0 <= k < |fields| ==> r[k] == Read(fields[k], pos)
    decreases fields, 0
  {
    if fields == [] then [] else [Read(fields[0], pos)] + ReadFields(fields[1..], pos)
  }

  function ReadRange(data: Vec, offset: nat, size: nat): (r: seq<Value>)
    requires Valid(data) && offset + size <= |data.nulls|
    ensures |r| == size && forall i :: 0 <= i < size ==> r[i] == Read(data, offset + i)
    decreases data, 1
  {
    seq(size, i requires 0 <= i < size => Read(data, offset + i))
  }

  lemma {:induction false} ReadConforms(v: Vec, pos: nat)
    requires Valid(v) && pos < |v.nulls|
    ensures Conforms(Read(v, pos), TypeOf(v))
    decreases v
  {
    if !v.nulls[pos] {
      match v {
        case BaseVec(_, _, _, _) =>
        case ListVec(_, entries, data) =>
          var items := ReadRange(data, entries[pos].offset, entries[pos].size);
          forall i | 0 <= i < |items| ensures Conforms(items[i], TypeOf(data)) {
            ReadConforms(data, entries[pos].offset + i);
          }
        case StructVec(_, _, _, fields) =>
          forall k | 0 <= k < |fields| ensures Conforms(Read(fields[k], pos), TypeOf(fields[k])) {
            ReadConforms(fields[k], pos);
          }
      }
    }
  }
}
