/** The optimizer rule that moves group-by keys which depend on a primary key or an internal ID into the payload. */
module GroupByKeys {
  import opened Basics

  const INTERNAL_ID: string := "_ID"

  /** Whether a table has a property, and whether it is the table's primary key. */
  datatype Info = Info(present: bool, isPrimaryKey: bool)

  /** A key expression: a property of a variable, with what it is in each table it may come from; a whole node or
      relationship; or anything else. */
  datatype Key =
    | Property(variable: string, name: string, infos: map<nat, Info>)
    | Pattern(variable: string)
    | Other(n: nat)

  predicate IsPrimary(k: Key) {
    k.Property? && ((forall t :: t in k.infos ==> k.infos[t].isPrimaryKey) || k.name == INTERNAL_ID)
  }

  // ----- the rule

  function PrimaryVariables(input: seq<Key>): (r: set<string>)
    ensures forall x :: x in r <==> exists i :: 0 <= i < |input| && IsPrimary(input[i]) && input[i].variable == x
  {
    set i | 0 <= i < |input| && IsPrimary(input[i]) :: input[i].variable
  }

  predicate Dependent(k: Key, primary: set<string>) {
    !k.Other? && !IsPrimary(k) && k.variable in primary
  }

  /** The keys of one kind, in their order. */
  function Select(input: seq<Key>, primary: set<string>, dependent: bool): seq<Key> {
    if input == [] then []
    else
      var last := input[|input| - 1];
      Select(input[..|input| - 1], primary, dependent) + if Dependent(last, primary) == dependent then [last] else []
  }

  function Keys(input: seq<Key>): seq<Key> {
    Select(input, PrimaryVariables(input), false)
  }

  function DependentKeys(input: seq<Key>): seq<Key> {
    Select(input, PrimaryVariables(input), true)
  }

  method IsPrimaryKey(k: Key) returns (r: bool)
    requires k.Property?
    ensures r == forall t :: t in k.infos ==> k.infos[t].isPrimaryKey
  {
    var rest := k.infos.Keys;
    while rest != {}
      invariant rest <= k.infos.Keys && forall t :: t in k.infos && t !in rest ==> k.infos[t].isPrimaryKey
      decreases rest
    {
      var t :| t in rest;
      if !k.infos[t].isPrimaryKey { return false; }
      rest := rest - {t};
    }
    r := true;
  }

  method CollectPrimaryVariables(input: seq<Key>) returns (primary: set<string>)
    ensures primary == PrimaryVariables(input)
  {
    primary := {};
    for i := 0 to |input|
      invariant forall x :: x in primary <==> exists j :: 0 <= j < i && IsPrimary(input[j]) && input[j].variable == x
    {
      if input[i].Property? {
        var isKey := IsPrimaryKey(input[i]);
        if isKey || input[i].name == INTERNAL_ID { primary := primary + {input[i].variable}; }
      }
    }
  }

  method ResolveKeysAndDependentKeys(input: seq<Key>) returns (keys: seq<Key>, dependentKeys: seq<Key>)
    ensures keys == Keys(input) && dependentKeys == DependentKeys(input)
  {
    var primary := CollectPrimaryVariables(input);
    keys, dependentKeys := [], [];
    for i := 0 to |input|
      invariant keys == Select(input[..i], primary, false) && dependentKeys == Select(input[..i], primary, true)
    {
      var key := input[i];
      SelectNext(input, primary, i);
      var isKey := true;
      if key.Property? && key.name != INTERNAL_ID {
        isKey := IsPrimaryKey(key);
        if !isKey { isKey := key.variable !in primary; }
      } else if key.Pattern? {
        isKey := key.variable !in primary;
      }
      if isKey { keys := keys + [key]; } else { dependentKeys := dependentKeys + [key]; }
    }
    assert input[..|input|] == input;
  }

  lemma SelectNext(input: seq<Key>, primary: set<string>, i: nat)
    requires i < |input|
    ensures forall d :: Select(input[..i + 1], primary, d) ==
              Select(input[..i], primary, d) + if Dependent(input[i], primary) == d then [input[i]] else []
  {
    assert input[..i + 1][..i] == input[..i];
  }

  lemma {:induction false} SelectHas(input: seq<Key>, primary: set<string>, dependent: bool, k: Key)
    ensures k in Select(input, primary, dependent) <==> k in input && Dependent(k, primary) == dependent
  {
    if input != [] {
      var n := |input| - 1;
      SelectHas(input[..n], primary, dependent, k);
      assert input == input[..n] + [input[n]];
    }
  }

  /** Nothing is lost and nothing is added. */
  lemma {:induction false} Partition(input: seq<Key>, primary: set<string>)
    ensures multiset(Select(input, primary, false)) + multiset(Select(input, primary, true)) == multiset(input)
  {
    if input != [] {
      var n := |input| - 1;
      var last, keys, dependent := input[n], Select(input[..n], primary, false), Select(input[..n], primary, true);
      Partition(input[..n], primary);
      assert input == input[..n] + [last];
      if Dependent(last, primary) {
        assert Select(input, primary, false) == keys && Select(input, primary, true) == dependent + [last];
      } else {
        assert Select(input, primary, false) == keys + [last] && Select(input, primary, true) == dependent;
      }
    }
  }

  // ----- rows

  /** A stored node or relationship. */
  datatype Entity = Entity(table: nat, offset: nat)
  datatype Value = Null | Id(e: Entity) | Whole(e: Entity) | Data(x: int)

  /** The tables a variable ranges over, the properties of the tables, and the primary key of those that have one. */
  datatype Schema = Schema(labels: map<string, set<nat>>, columns: map<nat, set<string>>, primaryKeys: map<nat, string>)
  type Store = (Entity, string) -> Value

  /** What each variable is bound to, if anything, and the values of other expressions. */
  datatype Row = Row(vars: map<string, Option<Entity>>, others: map<nat, Value>)

  predicate HasColumn(schema: Schema, t: nat, name: string) {
    t in schema.columns && name in schema.columns[t]
  }

  /** A primary key is one of the table's properties. */
  predicate SchemaOK(schema: Schema) {
    forall t :: t in schema.primaryKeys ==> HasColumn(schema, t, schema.primaryKeys[t])
  }

  /** The properties' table infos are those of the schema, and some table has the property. */
  predicate KeyOK(schema: Schema, k: Key) {
    match k
    case Other(_) => true
    case Pattern(x) => x in schema.labels
    case Property(x, name, infos) =>
      && x in schema.labels && infos.Keys == schema.labels[x] && infos != map[]
      && (name != INTERNAL_ID ==> exists t :: t in infos && infos[t].present)
      && forall t :: t in infos ==>
           infos[t] == Info(HasColumn(schema, t, name), t in schema.primaryKeys && schema.primaryKeys[t] == name)
  }

  /** Within one table the primary key is not null and unique, and what is no property of the table is null. */
  ghost predicate StoreOK(schema: Schema, db: Store) {
    && (forall e: Entity, name :: !HasColumn(schema, e.table, name) ==> db(e, name) == Null)
    && (forall e: Entity :: e.table in schema.primaryKeys ==> db(e, schema.primaryKeys[e.table]) != Null)
    && (forall e: Entity, f: Entity {:trigger db(e, schema.primaryKeys[e.table]), db(f, schema.primaryKeys[f.table])} ::
          (e.table == f.table && e.table in schema.primaryKeys &&
           db(e, schema.primaryKeys[e.table]) == db(f, schema.primaryKeys[f.table])) ==> e == f)
  }

  ghost predicate RowOK(schema: Schema, row: Row) {
    && row.vars.Keys == schema.labels.Keys
    && forall x :: x in row.vars && row.vars[x].Some? ==> row.vars[x].value.table in schema.labels[x]
  }

  function Eval(db: Store, row: Row, k: Key): Value {
    match k
    case Other(n) => if n in row.others then row.others[n] else Null
    case Pattern(x) => if x in row.vars && row.vars[x].Some? then Whole(row.vars[x].value) else Null
    case Property(x, name, _) =>
      if x in row.vars && row.vars[x].Some? then
        if name == INTERNAL_ID then Id(row.vars[x].value) else db(row.vars[x].value, name)
      else Null
  }

  ghost predicate Agree(db: Store, ks: seq<Key>, r: Row, s: Row) {
    forall k :: k in ks ==> Eval(db, r, k) == Eval(db, s, k)
  }

  // ----- when the rule keeps the groups

  /** The variable is pinned down by its internal ID, or it ranges over one table, whose primary key will do. */
  predicate Pinned(schema: Schema, input: seq<Key>, x: string) {
    || (exists j :: j in input && j.Property? && j.variable == x && j.name == INTERNAL_ID)
    || (x in schema.labels && |schema.labels[x]| == 1)
  }

  /** So is every variable that has a dependent key. */
  predicate Anchored(schema: Schema, input: seq<Key>) {
    forall k :: k in input && Dependent(k, PrimaryVariables(input)) ==> Pinned(schema, input, k.variable)
  }

  ghost predicate SameGroups(schema: Schema, input: seq<Key>) {
    forall db: Store, r: Row, s: Row ::
      StoreOK(schema, db) && RowOK(schema, r) && RowOK(schema, s) ==>
        (Agree(db, Keys(input), r, s) <==> Agree(db, input, r, s))
  }

  /** The value of a primary key decides what its variable is bound to. */
  lemma PrimaryDecides(schema: Schema, db: Store, k: Key, r: Row, s: Row)
    requires KeyOK(schema, k) && StoreOK(schema, db) && RowOK(schema, r) && RowOK(schema, s)
    requires IsPrimary(k) && (k.name == INTERNAL_ID || |schema.labels[k.variable]| == 1)
    requires Eval(db, r, k) == Eval(db, s, k)
    ensures r.vars[k.variable] == s.vars[k.variable]
  {
    var x := k.variable;
    if k.name != INTERNAL_ID {
      var t :| t in schema.labels[x];
      assert schema.labels[x] == {t} by { OnlyOne(schema.labels[x], t); }
      assert k.infos[t].isPrimaryKey && schema.primaryKeys[t] == k.name;
      if r.vars[x].Some? { assert db(r.vars[x].value, schema.primaryKeys[t]) != Null; }
      if s.vars[x].Some? { assert db(s.vars[x].value, schema.primaryKeys[t]) != Null; }
    }
  }

  lemma OnlyOne(labels: set<nat>, t: nat)
    requires |labels| == 1 && t in labels
    ensures labels == {t}
  {
    assert labels - {t} == {} by { assert |labels - {t}| == 0; }
  }

  lemma AnchoredKeeps(schema: Schema, input: seq<Key>, db: Store, r: Row, s: Row)
    requires forall k :: k in input ==> KeyOK(schema, k)
    requires Anchored(schema, input) && StoreOK(schema, db) && RowOK(schema, r) && RowOK(schema, s)
    requires Agree(db, Keys(input), r, s)
    ensures Agree(db, input, r, s)
  {
    var primary := PrimaryVariables(input);
    forall k | k in input ensures Eval(db, r, k) == Eval(db, s, k) {
      SelectHas(input, primary, false, k);
      if Dependent(k, primary) {
        var j := Anchor(schema, input, k);
        SelectHas(input, primary, false, j);
        PrimaryDecides(schema, db, j, r, s);
      }
    }
  }

  lemma Anchor(schema: Schema, input: seq<Key>, k: Key) returns (j: Key)
    requires Anchored(schema, input) && k in input && Dependent(k, PrimaryVariables(input))
    ensures j in input && IsPrimary(j) && j.variable == k.variable
    ensures j.name == INTERNAL_ID || (k.variable in schema.labels && |schema.labels[k.variable]| == 1)
  {
    if i :| i in input && i.Property? && i.variable == k.variable && i.name == INTERNAL_ID {
      j := i;
    } else {
      var n :| 0 <= n < |input| && IsPrimary(input[n]) && input[n].variable == k.variable;
      j := input[n];
    }
  }

  /** A store in which two tables use the same primary key values and differ in everything else. */
  function Twins(schema: Schema): Store {
    (e: Entity, name: string) =>
      if !HasColumn(schema, e.table, name) then Null
      else if e.table in schema.primaryKeys && schema.primaryKeys[e.table] == name then Data(e.offset)
      else Data(e.table)
  }

  function Bound(schema: Schema, x: string, e: Entity): Row {
    Row(map y | y in schema.labels :: if y == x then Some(e) else None, map[])
  }

  lemma TwinsOK(schema: Schema)
    requires SchemaOK(schema)
    ensures StoreOK(schema, Twins(schema))
  {
  }

  lemma BoundOK(schema: Schema, x: string, e: Entity)
    requires x in schema.labels && e.table in schema.labels[x]
    ensures RowOK(schema, Bound(schema, x, e))
  {
  }

  /** The twins cannot be told apart by the reduced keys. */
  lemma TwinsAgree(schema: Schema, input: seq<Key>, x: string, t: nat, u: nat)
    requires forall k :: k in input ==> KeyOK(schema, k)
    requires x in PrimaryVariables(input) && x in schema.labels && t in schema.labels[x] && u in schema.labels[x]
    requires SchemaOK(schema) && !Pinned(schema, input, x)
    ensures Agree(Twins(schema), Keys(input), Bound(schema, x, Entity(t, 0)), Bound(schema, x, Entity(u, 0)))
  {
    var r, s := Bound(schema, x, Entity(t, 0)), Bound(schema, x, Entity(u, 0));
    forall j | j in Keys(input) ensures Eval(Twins(schema), r, j) == Eval(Twins(schema), s, j) {
      SelectHas(input, PrimaryVariables(input), false, j);
      if !j.Other? && j.variable == x { PrimaryAgrees(schema, j, t, u); }
    }
  }

  lemma UnanchoredBreaks(schema: Schema, input: seq<Key>) returns (db: Store, r: Row, s: Row)
    requires SchemaOK(schema) && forall k :: k in input ==> KeyOK(schema, k)
    requires !Anchored(schema, input)
    ensures StoreOK(schema, db) && RowOK(schema, r) && RowOK(schema, s)
    ensures Agree(db, Keys(input), r, s) && !Agree(db, input, r, s)
  {
    var primary := PrimaryVariables(input);
    var k :| k in input && Dependent(k, primary) && !Pinned(schema, input, k.variable);
    var x := k.variable;
    var n :| 0 <= n < |input| && IsPrimary(input[n]) && input[n].variable == x;
    assert input[n] in input && input[n].name != INTERNAL_ID;
    var t: nat :| t in schema.labels[x] && (k.Property? ==> k.infos[t].present);
    var u := OtherThan(schema.labels[x], t);
    db, r, s := Twins(schema), Bound(schema, x, Entity(t, 0)), Bound(schema, x, Entity(u, 0));
    TwinsOK(schema);
    BoundOK(schema, x, Entity(t, 0));
    BoundOK(schema, x, Entity(u, 0));
    DependentDiffers(schema, input[n], k, t, u);
    TwinsAgree(schema, input, x, t, u);
  }

  lemma OtherThan(labels: set<nat>, t: nat) returns (u: nat)
    requires |labels| > 1 && t in labels
    ensures u in labels && u != t
  {
    assert |labels - {t}| > 0;
    u :| u in labels - {t};
  }

  lemma PrimaryAgrees(schema: Schema, j: Key, t: nat, u: nat)
    requires SchemaOK(schema) && KeyOK(schema, j) && IsPrimary(j) && j.name != INTERNAL_ID
    requires t in schema.labels[j.variable] && u in schema.labels[j.variable]
    ensures Eval(Twins(schema), Bound(schema, j.variable, Entity(t, 0)), j) ==
            Eval(Twins(schema), Bound(schema, j.variable, Entity(u, 0)), j)
  {
    assert j.infos[t].isPrimaryKey && j.infos[u].isPrimaryKey;
  }

  lemma DependentDiffers(schema: Schema, p: Key, k: Key, t: nat, u: nat)
    requires KeyOK(schema, p) && IsPrimary(p) && p.name != INTERNAL_ID
    requires KeyOK(schema, k) && !k.Other? && !IsPrimary(k) && k.variable == p.variable
    requires t in schema.labels[p.variable] && u in schema.labels[p.variable] && t != u
    requires k.Property? ==> k.infos[t].present
    ensures Eval(Twins(schema), Bound(schema, p.variable, Entity(t, 0)), k) !=
            Eval(Twins(schema), Bound(schema, p.variable, Entity(u, 0)), k)
  {
    assert p.infos[t].isPrimaryKey && p.infos[u].isPrimaryKey;
    if k.Property? {
      var w :| w in k.infos && !k.infos[w].isPrimaryKey;
      assert p.infos[w].isPrimaryKey;
      assert k.name != p.name;
    }
  }

  /** The reduced keys group every table like all of the keys, if and only if every variable with dependent keys is
      anchored. */
  lemma GroupsKeptIffAnchored(schema: Schema, input: seq<Key>)
    requires SchemaOK(schema) && forall k :: k in input ==> KeyOK(schema, k)
    ensures SameGroups(schema, input) <==> Anchored(schema, input)
  {
    if Anchored(schema, input) {
      forall db: Store, r: Row, s: Row | StoreOK(schema, db) && RowOK(schema, r) && RowOK(schema, s)
        ensures Agree(db, Keys(input), r, s) <==> Agree(db, input, r, s)
      {
        if Agree(db, Keys(input), r, s) { AnchoredKeeps(schema, input, db, r, s); }
        forall k | k in Keys(input) ensures k in input { SelectHas(input, PrimaryVariables(input), false, k); }
      }
    } else {
      var db, r, s := UnanchoredBreaks(schema, input);
    }
  }
}
