/** Nested values, their types, and the printer that turns a value into text. */
module NestedValues {

  /** `isString` tells string columns, for which only the empty text is null, from all other base types. */
  datatype Type =
    | Leaf(isString: bool)
    | ListOf(elem: Type)
    | StructOf(fields: seq<Field>)
    | MapOf(key: Type, value: Type)

  datatype Field = Field(name: string, typ: Type)

  /** A base value is represented by its own text; printing and casting base values are not modelled. */
  datatype Value =
    | Null
    | Text(text: string)
    | List(items: seq<Value>)
    | Struct(vals: seq<Value>)
    | Map(entries: seq<Entry>)

  datatype Entry = Entry(key: Value, val: Value)

  // ----- the printer

  function Print(v: Value, t: Type): string
    decreases v, 1
  {
    match (v, t)
    case (Text(text), Leaf(_)) => text
    case (List(items), ListOf(elem)) => "[" + PrintItems(items, elem) + "]"
    case (Struct(vals), StructOf(fields)) => "{" + PrintFields(vals, fields) + "}"
    case (Map(entries), MapOf(key, value)) => "{" + PrintEntries(entries, key, value) + "}"
    case _ => ""
  }

  function PrintItems(items: seq<Value>, elem: Type): string
    decreases items, 0
  {
    if |items| == 0 then ""
    else if |items| == 1 then Print(items[0], elem)
    else Print(items[0], elem) + "," + PrintItems(items[1..], elem)
  }

  function PrintFields(vals: seq<Value>, fields: seq<Field>): string
    decreases vals, 0
  {
    if |vals| == 0 || |fields| == 0 then ""
    else
      var first := fields[0].name + ": " + Print(vals[0], fields[0].typ);
      if |vals| == 1 || |fields| == 1 then first else first + ", " + PrintFields(vals[1..], fields[1..])
  }

  function PrintEntries(entries: seq<Entry>, key: Type, value: Type): string
    decreases entries, 0
  {
    if |entries| == 0 then ""
    else if |entries| == 1 then PrintEntry(entries[0], key, value)
    else PrintEntry(entries[0], key, value) + ", " + PrintEntries(entries[1..], key, value)
  }

  function PrintEntry(e: Entry, key: Type, value: Type): string
    decreases e, 2
  {
    Print(e.key, key) + "=" + Print(e.val, value)
  }

  // ----- values the text format can carry

  predicate IsSpace(c: char) {
    c == ' ' || c == '\t' || c == '\n' || c == '\U{000B}' || c == '\U{000C}' || c == '\r'
  }

  predicate IsBracket(c: char) {
    c == '[' || c == ']' || c == '{' || c == '}'
  }

  predicate IsQuote(c: char) {
    c == '\'' || c == '"'
  }

  /** Text that no scan mistakes for structure: no bracket, quote or comma, and no white space at its ends. */
  predicate Bare(s: string) {
    && |s| > 0
    && !IsSpace(s[0]) && !IsSpace(s[|s| - 1])
    && (forall k :: 0 <= k < |s| ==> !IsBracket(s[k]) && !IsQuote(s[k]) && s[k] != ',')
  }

  function Lower(c: char): char {
    if 'A' <= c <= 'Z' then (c as int + 32) as char else c
  }

  /** What the parser takes for null outside string columns: blank text or the word NULL in any case. */
  predicate IsNullText(s: string) {
    var i := SkipSpace(s, 0);
    i == |s| || (i + 4 <= |s| && IsNullWord(s[i..i + 4]) && SkipSpace(s, i + 4) == |s|)
  }

  predicate IsNullWord(w: string)
    requires |w| == 4
  {
    Lower(w[0]) == 'n' && Lower(w[1]) == 'u' && Lower(w[2]) == 'l' && Lower(w[3]) == 'l'
  }

  /** Position of the first character from i on that is not white space. */
  function SkipSpace(s: string, i: nat): (r: nat)
    requires i <= |s|
    ensures i <= r <= |s|
    ensures r < |s| ==> !IsSpace(s[r])
    decreases |s| - i
  {
    if i < |s| && IsSpace(s[i]) then SkipSpace(s, i + 1) else i
  }

  function Upper(s: string): string {
    seq(|s|, i requires 0 <= i < |s| => if 'a' <= s[i] <= 'z' then (s[i] as int - 32) as char else s[i])
  }

  /** Field names are bare, free of colons, and distinct up to case. */
  predicate NamesOK(fields: seq<Field>) {
    && (forall i :: 0 <= i < |fields| ==> Bare(fields[i].name) && ':' !in fields[i].name)
    && (forall i, j :: 0 <= i < j < |fields| ==> Upper(fields[i].name) != Upper(fields[j].name))
  }

  predicate Carried(v: Value, t: Type)
    decreases v, 0
  {
    match v
    case Null => true
    case Text(text) => t.Leaf? && Bare(text) && (t.isString || !IsNullText(text))
    case List(items) => t.ListOf? && forall i :: 0 <= i < |items| ==> Carried(items[i], t.elem)
    case Struct(vals) =>
      && t.StructOf? && |vals| == |t.fields| && NamesOK(t.fields)
      && forall i :: 0 <= i < |vals| ==> Carried(vals[i], t.fields[i].typ)
    case Map(entries) =>
      && t.MapOf?
      && (forall i :: 0 <= i < |entries| ==> CarriedKey(entries[i].key, t.key) && Carried(entries[i].val, t.value))
      && (forall i, j :: 0 <= i < j < |entries| ==> Collapse(entries[i].key) != Collapse(entries[j].key))
  }

  /** Map keys are not null, and a base key holds no equals sign. */
  predicate CarriedKey(v: Value, t: Type)
    decreases v, 1
  {
    !v.Null? && Carried(v, t) && (v.Text? ==> '=' !in v.text)
  }

  /** The one loss of the format: a list of exactly one null prints as the empty list. */
  function Collapse(v: Value): Value
    decreases v, 1
  {
    match v
    case List(items) => if items == [Null] then List([]) else List(CollapseItems(items))
    case Struct(vals) => Struct(CollapseItems(vals))
    case Map(entries) => Map(CollapseEntries(entries))
    case _ => v
  }

  function CollapseEntry(e: Entry): Entry
    decreases e, 2
  {
    Entry(Collapse(e.key), Collapse(e.val))
  }

  function CollapseItems(items: seq<Value>): (r: seq<Value>)
    ensures |r| == |items|
    ensures forall i :: 0 <= i < |items| ==> r[i] == Collapse(items[i])
    decreases items, 0
  {
    if items == [] then [] else [Collapse(items[0])] + CollapseItems(items[1..])
  }

  function CollapseEntries(entries: seq<Entry>): (r: seq<Entry>)
    ensures |r| == |entries|
    ensures forall i :: 0 <= i < |entries| ==> r[i] == CollapseEntry(entries[i])
    decreases entries, 0
  {
    if entries == [] then [] else [CollapseEntry(entries[0])] + CollapseEntries(entries[1..])
  }

  predicate NoLoneNull(v: Value)
    decreases v
  {
    match v
    case List(items) => items != [Null] && forall i :: 0 <= i < |items| ==> NoLoneNull(items[i])
    case Struct(vals) => forall i :: 0 <= i < |vals| ==> NoLoneNull(vals[i])
    case Map(entries) =>
      forall i :: 0 <= i < |entries| ==> NoLoneNull(entries[i].key) && NoLoneNull(entries[i].val)
    case _ => true
  }

  /** A value survives collapsing exactly when no list in it is a lone null. */
  lemma {:induction false} CollapseKeepsIff(v: Value)
    ensures Collapse(v) == v <==> NoLoneNull(v)
    decreases v
  {
    match v
    case List(items) =>
      forall i | 0 <= i < |items| ensures Collapse(items[i]) == items[i] <==> NoLoneNull(items[i]) {
        CollapseKeepsIff(items[i]);
      }
    case Struct(vals) =>
      forall i | 0 <= i < |vals| ensures Collapse(vals[i]) == vals[i] <==> NoLoneNull(vals[i]) {
        CollapseKeepsIff(vals[i]);
      }
    case Map(entries) =>
      forall i | 0 <= i < |entries|
        ensures Collapse(entries[i].key) == entries[i].key <==> NoLoneNull(entries[i].key)
        ensures Collapse(entries[i].val) == entries[i].val <==> NoLoneNull(entries[i].val)
      {
        CollapseKeepsIff(entries[i].key);
        CollapseKeepsIff(entries[i].val);
      }
    case _ =>
  }
}
