/** The parser of nested text: cursor scans that find where a nested part ends, the splitters built on
    them, and the recursive cast.  A position stands for the source's pointer into the text; every scan is
    total, so malformed text takes the source's error path. */
module NestedScan {
  import opened Basics
  import opened NestedValues

  // ----- trimming

  function TrimRight(s: string, i: nat, j: nat): (r: nat)
    requires i <= j <= |s|
    ensures i <= r <= j
    ensures i < r ==> !IsSpace(s[r - 1])
    decreases j
  {
    if i < j && IsSpace(s[j - 1]) then TrimRight(s, i, j - 1) else j
  }

  function Trim(s: string): string {
    var i := SkipSpace(s, 0);
    s[i..TrimRight(s, i, |s|)]
  }

  /** Drops one pair of equal quotes around a part.  A lone quote has no inside: the source then builds a
      string from reversed pointers, which throws. */
  function TrimQuotes(s: string, i: nat, j: nat): Option<string>
    requires i <= j <= |s|
  {
    if i < |s| && 0 < j && IsQuote(s[i]) && s[j - 1] == s[i] then
      if i + 1 <= j - 1 then Some(s[i + 1..j - 1]) else None
    else Some(s[i..j])
  }

  // ----- scans

  /** Where a scan stopped, at a closing character if `ok` and at the end of the text otherwise. */
  datatype Stop = Stop(ok: bool, pos: nat, lvl: int)

  function CloseQuote(s: string, i: nat, k: nat): (r: Stop)
    requires i < k <= |s|
    ensures r.pos <= |s| && (r.ok <==> r.pos < |s|) && k <= r.pos
    ensures r.ok ==> s[r.pos] == s[i]
    ensures r.lvl == 0
    decreases |s| - k
  {
    if k == |s| then Stop(false, k, 0)
    else if s[k] == s[i] then Stop(true, k, 0)
    else CloseQuote(s, i, k + 1)
  }

  /** `skipToClose`: from an opening bracket to its closing one, over nested brackets and quoted text. */
  function SkipToClose(s: string, i: nat, lvl: int, target: char): (r: Stop)
    requires i < |s|
    ensures i < r.pos <= |s| && (r.ok <==> r.pos < |s|)
    decreases |s| - i, 0
  {
    CloseFrom(s, i + 1, lvl, target)
  }

  function CloseFrom(s: string, i: nat, lvl: int, target: char): (r: Stop)
    requires i <= |s|
    ensures i <= r.pos <= |s| && (r.ok <==> r.pos < |s|)
    decreases |s| - i, 1
  {
    if i == |s| then Stop(false, i, lvl)
    else if s[i] == '\'' then
      var q := CloseQuote(s, i, i + 1);
      if !q.ok then Stop(false, |s|, lvl) else CloseFrom(s, q.pos + 1, lvl, target)
    else if s[i] == '{' then
      var r := SkipToClose(s, i, lvl, '}');
      if !r.ok then r else CloseFrom(s, r.pos + 1, r.lvl, target)
    else if s[i] == '[' then
      var r := SkipToClose(s, i, lvl, ']');
      if !r.ok then r else CloseFrom(s, r.pos + 1, r.lvl + 1, target)
    else if s[i] == target then Stop(true, i, if target == ']' then lvl - 1 else lvl)
    else CloseFrom(s, i + 1, lvl, target)
  }

  // ----- lists

  datatype Split = Split(ok: bool, pieces: seq<string>)

  /** `splitCStringList` from inside its loop: the current piece began at `start`. */
  function SplitFrom(s: string, i: nat, start: nat, lvl: int, seen: bool, atStart: bool): Split
    requires start <= i <= |s| + 1
    decreases |s| + 1 - i
  {
    if i >= |s| then Split(false, [])
    else if s[i] == '[' then
      var r := SkipToClose(s, i, lvl + 1, ']');
      if !r.ok then Split(false, []) else SplitFrom(s, r.pos + 1, start, r.lvl, seen, false)
    else if IsQuote(s[i]) && atStart then
      var q := CloseQuote(s, i, i + 1);
      SplitFrom(s, if q.ok then q.pos + 1 else i + 1, start, lvl, seen, false)
    else if s[i] == '{' then
      SplitFrom(s, SkipToClose(s, i, 0, '}').pos + 1, start, lvl, seen, false)
    else if s[i] == ',' || s[i] == ']' then
      var piece := if s[i] == ',' || start < i || seen then [s[start..i]] else [];
      var next := SkipSpace(s, i + 1);
      if s[i] == ']' then Split(next == |s| && lvl == 1, piece)
      else
        var rest := SplitFrom(s, next, next, lvl, true, true);
        Split(rest.ok, piece + rest.pieces)
    else SplitFrom(s, i + 1, start, lvl, seen, false)
  }

  function SplitList(s: string): Split {
    var i := SkipSpace(s, 0);
    if i == |s| || s[i] != '[' then Split(false, [])
    else
      var first := SkipSpace(s, i + 1);
      SplitFrom(s, first, first, 1, false, true)
  }

  // ----- structs

  function FindColon(s: string, i: nat): (r: nat)
    requires i <= |s|
    ensures i <= r <= |s| && (r < |s| ==> s[r] == ':')
    decreases |s| - i
  {
    if i == |s| || s[i] == ':' then i else FindColon(s, i + 1)
  }

  /** `parseStructFieldValue`: the comma or brace that ends the value. */
  function ValueEnd(s: string, i: nat, lvl: int): (r: Stop)
    requires i <= |s|
    ensures i <= r.pos <= |s| && (r.ok ==> r.pos < |s| && (s[r.pos] == ',' || s[r.pos] == '}'))
    decreases |s| - i
  {
    if i == |s| then Stop(false, i, lvl)
    else if IsQuote(s[i]) then
      var q := CloseQuote(s, i, i + 1);
      if !q.ok then Stop(false, |s|, lvl) else ValueEnd(s, q.pos + 1, lvl)
    else if s[i] == '{' then
      var r := SkipToClose(s, i, lvl, '}');
      if !r.ok then Stop(false, |s|, lvl) else ValueEnd(s, r.pos + 1, r.lvl)
    else if s[i] == '[' then
      var r := SkipToClose(s, i, lvl + 1, ']');
      if !r.ok then Stop(false, |s|, lvl) else ValueEnd(s, r.pos + 1, r.lvl)
    else if s[i] == ',' || s[i] == '}' then Stop(lvl == 0, i, lvl)
    else ValueEnd(s, i + 1, lvl)
  }

  /** The field a key names, up to case, or the number of fields. */
  function FieldIdx(fields: seq<Field>, key: string, k: nat := 0): (r: nat)
    requires k <= |fields|
    ensures k <= r <= |fields|
    decreases |fields| - k
  {
    if k == |fields| || Upper(fields[k].name) == Upper(key) then k else FieldIdx(fields, key, k + 1)
  }

  /** One `key: value` of a struct: the key and value texts, where the next one begins, and whether the
      closing brace was reached. */
  datatype Part = Part(key: string, val: string, next: nat, closed: bool)

  function StructPart(s: string, i: nat): (r: Option<Part>)
    requires i < |s|
    ensures r.Some? ==> i < r.value.next <= |s|
  {
    var colon := FindColon(s, i);
    if colon == |s| then None
    else
      var key := TrimQuotes(s, i, TrimRight(s, i, colon));
      var start := SkipSpace(s, colon + 1);
      var end := ValueEnd(s, start, 0);
      if key.None? || !end.ok then None
      else
        var val := TrimQuotes(s, start, TrimRight(s, start, end.pos));
        if val.None? then None
        else Some(Part(key.value, val.value, SkipSpace(s, end.pos + 1), s[end.pos] == '}'))
  }

  // ----- maps

  /** `parseKeyOrValue`: the equals sign that ends a key, or the comma or brace that ends a value. */
  function EntryEnd(s: string, i: nat, isKey: bool, lvl: int): (r: Stop)
    requires i <= |s|
    ensures i <= r.pos <= |s|
    ensures r.ok ==> r.pos < |s| && (if isKey then s[r.pos] == '=' else s[r.pos] == ',' || s[r.pos] == '}')
    decreases |s| - i
  {
    if i == |s| then Stop(false, i, lvl)
    else if IsQuote(s[i]) then
      var q := CloseQuote(s, i, i + 1);
      if !q.ok then Stop(false, |s|, lvl) else EntryEnd(s, q.pos + 1, isKey, lvl)
    else if s[i] == '{' then
      var r := SkipToClose(s, i, lvl, '}');
      if !r.ok then Stop(false, |s|, lvl) else EntryEnd(s, r.pos + 1, isKey, r.lvl)
    else if s[i] == '[' then
      var r := SkipToClose(s, i, lvl, ']');
      if !r.ok then Stop(false, |s|, lvl) else EntryEnd(s, r.pos + 1, isKey, r.lvl)
    else if isKey && s[i] == '=' then Stop(true, i, lvl)
    else if !isKey && (s[i] == ',' || s[i] == '}') then Stop(true, i, lvl)
    else EntryEnd(s, i + 1, isKey, lvl)
  }

  function MapPart(s: string, i: nat): (r: Option<Part>)
    requires i < |s|
    ensures r.Some? ==> i < r.value.next <= |s|
  {
    var eq := EntryEnd(s, i, true, 0);
    if !eq.ok then None
    else
      var start := SkipSpace(s, eq.pos + 1);
      var end := EntryEnd(s, start, false, 0);
      if !end.ok then None
      else
        Some(Part(s[i..TrimRight(s, i, eq.pos)], s[start..TrimRight(s, start, end.pos)],
                  SkipSpace(s, end.pos + 1), s[end.pos] == '}'))
  }

  /** A way to read one part of a text: it always moves forward. */
  type Reader = f: (string, nat) -> Option<Part> |
    forall s: string, i: nat :: f(s, i).Some? ==> i < f(s, i).value.next <= |s|
    witness (s: string, i: nat) => None

  function ReaderOf(isMap: bool): (r: Reader)
    ensures forall s: string, i: nat :: i < |s| ==> r(s, i) == if isMap then MapPart(s, i) else StructPart(s, i)
  {
    (s: string, i: nat) => if i >= |s| then None else if isMap then MapPart(s, i) else StructPart(s, i)
  }

  /** All parts of a struct or a map from position i on, if they run up to a brace that ends the text. */
  function PartsFrom(s: string, i: nat, read: Reader): Option<seq<Part>>
    requires i <= |s|
    decreases |s| - i
  {
    if i == |s| then None
    else
      var p := read(s, i);
      if p.None? then None
      else if p.value.closed then if p.value.next == |s| then Some([p.value]) else None
      else
        var rest := PartsFrom(s, p.value.next, read);
        if rest.None? then None else Some([p.value] + rest.value)
  }

  function Parts(s: string, isMap: bool): Option<seq<Part>> {
    var i := SkipSpace(s, 0);
    if i == |s| || s[i] != '{' then None
    else
      var j := SkipSpace(s, i + 1);
      if j == |s| then None
      else if s[j] == '}' then if SkipSpace(s, j + 1) == |s| then Some([]) else None
      else PartsFrom(s, j, ReaderOf(isMap))
  }

  // ----- the cast

  predicate TextIsNull(t: Type, s: string) {
    if t.Leaf? && t.isString then s == "" else IsNullText(s)
  }

  /** `copyStringToVector`: the value a text denotes at a type, or None where the source throws. */
  function Cast(t: Type, s: string): Option<Value>
    decreases t, 1, 0
  {
    if TextIsNull(t, s) then Some(Null)
    else
      match t
      case Leaf(_) => Some(Text(s))
      case ListOf(elem) =>
        var split := SplitList(s);
        if !split.ok then None
        else
          var items := CastAll(elem, split.pieces);
          if items.None? then None else Some(List(items.value))
      case StructOf(fields) =>
        var parts := Parts(s, false);
        if parts.None? then None
        else
          var vals := CastFields(t, parts.value, seq(|fields|, _ => Null));
          if vals.None? then None else Some(Struct(vals.value))
      case MapOf(key, value) =>
        var parts := Parts(s, true);
        if parts.None? then None
        else
          var entries := CastEntries(t, parts.value, []);
          if entries.None? then None else Some(Map(entries.value))
  }

  function CastAll(elem: Type, pieces: seq<string>): Option<seq<Value>>
    decreases elem, 2, |pieces|
  {
    if pieces == [] then Some([])
    else
      var v := Cast(elem, Trim(pieces[0]));
      var rest := CastAll(elem, pieces[1..]);
      if v.None? || rest.None? then None else Some([v.value] + rest.value)
  }

  function CastFields(t: Type, parts: seq<Part>, vals: seq<Value>): Option<seq<Value>>
    requires t.StructOf? && |vals| == |t.fields|
    decreases t, 0, |parts|
  {
    if parts == [] then Some(vals)
    else
      var k := FieldIdx(t.fields, parts[0].key);
      if k == |t.fields| then None
      else
        assert t.fields[k] in t.fields;
        var v := Cast(t.fields[k].typ, parts[0].val);
        if v.None? then None else CastFields(t, parts[1..], vals[k := v.value])
  }

  function CastEntries(t: Type, parts: seq<Part>, entries: seq<Entry>): Option<seq<Entry>>
    requires t.MapOf?
    decreases t, 0, |parts|
  {
    if parts == [] then Some(entries)
    else
      var k := Cast(t.key, parts[0].key);
      if k.None? || k.value.Null? || (exists i :: 0 <= i < |entries| && entries[i].key == k.value) then None
      else
        var v := Cast(t.value, parts[0].val);
        if v.None? then None else CastEntries(t, parts[1..], entries + [Entry(k.value, v.value)])
  }
}
