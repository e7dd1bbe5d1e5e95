/** The parser and the printer in the source's own form: cursors that advance in loops and results that
    grow step by step, each proved to compute its specification on every text. */
module NestedParser {
  import opened Basics
  import opened NestedValues
  import opened NestedScan

  // ----- cursors

  method SkipWhitespace(s: string, i: nat) returns (j: nat)
    requires i <= |s|
    ensures j == SkipSpace(s, i)
  {
    j := i;
    while j < |s|
      invariant i <= j <= |s| && SkipSpace(s, j) == SkipSpace(s, i)
    {
      if !IsSpace(s[j]) { break; }
      j := j + 1;
    }
  }

  method TrimRightWhitespace(s: string, i: nat, end: nat) returns (j: nat)
    requires i <= end <= |s|
    ensures j == TrimRight(s, i, end)
  {
    j := end;
    while i < j && IsSpace(s[j - 1])
      invariant i <= j <= end && TrimRight(s, i, j) == TrimRight(s, i, end)
    {
      j := j - 1;
    }
  }

  method SkipToCloseQuotes(s: string, i: nat) returns (r: Stop)
    requires i < |s|
    ensures r == CloseQuote(s, i, i + 1)
  {
    var k := i + 1;
    while k != |s|
      invariant i < k <= |s| && CloseQuote(s, i, k) == CloseQuote(s, i, i + 1)
    {
      if s[k] == s[i] { return Stop(true, k, 0); }
      k := k + 1;
    }
    r := Stop(false, k, 0);
  }

  method SkipToCloseBracket(s: string, i: nat, lvl: int, target: char) returns (r: Stop)
    requires i < |s|
    ensures r == SkipToClose(s, i, lvl, target)
    decreases |s| - i
  {
    var k, l := i + 1, lvl;
    while k != |s|
      invariant i < k <= |s| && CloseFrom(s, k, l, target) == SkipToClose(s, i, lvl, target)
    {
      if s[k] == '\'' {
        var q := SkipToCloseQuotes(s, k);
        if !q.ok { return Stop(false, |s|, l); }
        k := q.pos;
      } else if s[k] == '{' {
        var n := SkipToCloseBracket(s, k, l, '}');
        if !n.ok { return n; }
        k, l := n.pos, n.lvl;
      } else if s[k] == '[' {
        var n := SkipToCloseBracket(s, k, l, ']');
        if !n.ok { return n; }
        k, l := n.pos, n.lvl + 1;
      } else if s[k] == target {
        return Stop(true, k, if target == ']' then l - 1 else l);
      }
      k := k + 1;
    }
    r := Stop(false, k, l);
  }

  // ----- splitting

  /** What splitting still has to deliver from a state of the loop. */
  ghost function SplitRest(done: seq<string>, rest: Split): Split {
    Split(rest.ok, done + rest.pieces)
  }

  lemma SplitComma(s: string, i: nat, start: nat, lvl: int, seen: bool, atStart: bool, done: seq<string>)
    requires start <= i < |s| && s[i] == ','
    ensures var next := SkipSpace(s, i + 1);
            SplitRest(done, SplitFrom(s, i, start, lvl, seen, atStart)) ==
            SplitRest(done + [s[start..i]], SplitFrom(s, next, next, lvl, true, true))
  {
    var next := SkipSpace(s, i + 1);
    var rest := SplitFrom(s, next, next, lvl, true, true);
    assert (done + [s[start..i]]) + rest.pieces == done + ([s[start..i]] + rest.pieces);
  }

  lemma SplitEnd(s: string, i: nat, start: nat, lvl: int, seen: bool, atStart: bool, done: seq<string>)
    requires start <= i < |s| && s[i] == ']'
    ensures SplitRest(done, SplitFrom(s, i, start, lvl, seen, atStart)) ==
            Split(SkipSpace(s, i + 1) == |s| && lvl - 1 == 0, done + if start < i || seen then [s[start..i]] else [])
  {
  }

  method SplitCStringList(s: string) returns (r: Split)
    ensures r == SplitList(s)
  {
    var i := SkipWhitespace(s, 0);
    if i == |s| || s[i] != '[' { return Split(false, []); }
    i := SkipWhitespace(s, i + 1);
    var start: nat := i;
    var lvl, seen, atStart := 1, false, true;
    var pieces: seq<string> := [];
    while i < |s|
      invariant start <= i <= |s| + 1
      invariant SplitRest(pieces, SplitFrom(s, i, start, lvl, seen, atStart)) == SplitList(s)
      decreases |s| + 1 - i
    {
      var ch := s[i];
      if ch == '[' {
        var c := SkipToCloseBracket(s, i, lvl + 1, ']');
        if !c.ok { return Split(false, pieces); }
        i, lvl := c.pos, c.lvl;
      } else if IsQuote(ch) && atStart {
        var q := SkipToCloseQuotes(s, i);
        if q.ok { i := q.pos; }
      } else if ch == '{' {
        var c := SkipToCloseBracket(s, i, 0, '}');
        i := c.pos;
      } else if ch == ',' || ch == ']' {
        if ch == ',' {
          SplitComma(s, i, start, lvl, seen, atStart, pieces);
        } else {
          SplitEnd(s, i, start, lvl, seen, atStart, pieces);
        }
        if ch != ']' || start < i || seen {
          pieces := pieces + [s[start..i]];
        }
        var next := SkipWhitespace(s, i + 1);
        if ch == ']' { return Split(next == |s| && lvl - 1 == 0, pieces); }
        i, start, seen, atStart := next, next, true, true;
        continue;
      }
      atStart := false;
      i := i + 1;
    }
    r := Split(false, pieces);
  }

  method ParseStructFieldValue(s: string, i: nat) returns (r: Stop)
    requires i <= |s|
    ensures r == ValueEnd(s, i, 0)
  {
    var k, lvl := i, 0;
    while k < |s|
      invariant i <= k <= |s| && ValueEnd(s, k, lvl) == ValueEnd(s, i, 0)
      decreases |s| - k
    {
      if IsQuote(s[k]) {
        var q := SkipToCloseQuotes(s, k);
        if !q.ok { return Stop(false, |s|, lvl); }
        k := q.pos;
      } else if s[k] == '{' {
        var c := SkipToCloseBracket(s, k, lvl, '}');
        if !c.ok { return Stop(false, |s|, lvl); }
        k, lvl := c.pos, c.lvl;
      } else if s[k] == '[' {
        var c := SkipToCloseBracket(s, k, lvl + 1, ']');
        if !c.ok { return Stop(false, |s|, lvl); }
        k, lvl := c.pos, c.lvl;
      } else if s[k] == ',' || s[k] == '}' {
        return Stop(lvl == 0, k, lvl);
      }
      k := k + 1;
    }
    r := Stop(false, k, lvl);
  }

  method ParseKeyOrValue(s: string, i: nat, isKey: bool) returns (r: Stop)
    requires i <= |s|
    ensures r == EntryEnd(s, i, isKey, 0)
  {
    var k, lvl := i, 0;
    while k < |s|
      invariant i <= k <= |s| && EntryEnd(s, k, isKey, lvl) == EntryEnd(s, i, isKey, 0)
      decreases |s| - k
    {
      if IsQuote(s[k]) {
        var q := SkipToCloseQuotes(s, k);
        if !q.ok { return Stop(false, |s|, lvl); }
        k := q.pos;
      } else if s[k] == '{' {
        var c := SkipToCloseBracket(s, k, lvl, '}');
        if !c.ok { return Stop(false, |s|, lvl); }
        k, lvl := c.pos, c.lvl;
      } else if s[k] == '[' {
        var c := SkipToCloseBracket(s, k, lvl, ']');
        if !c.ok { return Stop(false, |s|, lvl); }
        k, lvl := c.pos, c.lvl;
      } else if isKey && s[k] == '=' {
        return Stop(true, k, lvl);
      } else if !isKey && (s[k] == ',' || s[k] == '}') {
        return Stop(true, k, lvl);
      }
      k := k + 1;
    }
    r := Stop(false, k, lvl);
  }

  method ParseStructPart(s: string, i: nat) returns (r: Option<Part>)
    requires i < |s|
    ensures r == StructPart(s, i)
  {
    var colon := i;
    while colon < |s| && s[colon] != ':'
      invariant i <= colon <= |s| && FindColon(s, colon) == FindColon(s, i)
    {
      colon := colon + 1;
    }
    if colon == |s| { return None; }
    var keyEnd := TrimRightWhitespace(s, i, colon);
    var key := TrimQuotes(s, i, keyEnd);
    if key.None? { return None; }
    var start := SkipWhitespace(s, colon + 1);
    var end := ParseStructFieldValue(s, start);
    if !end.ok { return None; }
    var valEnd := TrimRightWhitespace(s, start, end.pos);
    var val := TrimQuotes(s, start, valEnd);
    if val.None? { return None; }
    var next := SkipWhitespace(s, end.pos + 1);
    r := Some(Part(key.value, val.value, next, s[end.pos] == '}'));
  }

  method ParseMapPart(s: string, i: nat) returns (r: Option<Part>)
    requires i < |s|
    ensures r == MapPart(s, i)
  {
    var eq := ParseKeyOrValue(s, i, true);
    if !eq.ok { return None; }
    var start := SkipWhitespace(s, eq.pos + 1);
    var end := ParseKeyOrValue(s, start, false);
    if !end.ok { return None; }
    var part := MapPartBetween(s, i, eq.pos, start, end.pos);
    r := Some(part);
  }

  /** The texts of a key and a value whose ends are known. */
  method MapPartBetween(s: string, i: nat, keyEnd: nat, start: nat, valEnd: nat) returns (part: Part)
    requires i <= keyEnd <= |s| && start <= valEnd < |s|
    ensures part == Part(s[i..TrimRight(s, i, keyEnd)], s[start..TrimRight(s, start, valEnd)],
                         SkipSpace(s, valEnd + 1), s[valEnd] == '}')
  {
    var k := TrimRightWhitespace(s, i, keyEnd);
    var v := TrimRightWhitespace(s, start, valEnd);
    var next := SkipWhitespace(s, valEnd + 1);
    part := Part(s[i..k], s[start..v], next, s[valEnd] == '}');
  }

  // ----- casting

  ghost function PartsRest(done: seq<Part>, rest: Option<seq<Part>>): Option<seq<Part>> {
    if rest.None? then None else Some(done + rest.value)
  }

  lemma PartsOnce(s: string, i: nat, isMap: bool, done: seq<Part>, p: Option<Part>)
    requires i < |s| && p == if isMap then MapPart(s, i) else StructPart(s, i)
    ensures PartsRest(done, PartsFrom(s, i, ReaderOf(isMap))) ==
            if p.None? then None
            else if p.value.closed then if p.value.next == |s| then Some(done + [p.value]) else None
            else PartsRest(done + [p.value], PartsFrom(s, p.value.next, ReaderOf(isMap)))
  {
    if p.Some? && !p.value.closed {
      var rest := PartsFrom(s, p.value.next, ReaderOf(isMap));
      if rest.Some? { assert done + ([p.value] + rest.value) == (done + [p.value]) + rest.value; }
    }
  }

  /** The key and value texts of a struct or a map, in order. */
  method ParseParts(s: string, isMap: bool) returns (r: Option<seq<Part>>)
    ensures r == Parts(s, isMap)
  {
    var i := SkipWhitespace(s, 0);
    if i == |s| || s[i] != '{' { return None; }
    i := SkipWhitespace(s, i + 1);
    if i == |s| { return None; }
    if s[i] == '}' {
      var end := SkipWhitespace(s, i + 1);
      return if end == |s| then Some([]) else None;
    }
    r := ParsePartsFrom(s, i, isMap);
  }

  method ParsePartsFrom(s: string, first: nat, isMap: bool) returns (r: Option<seq<Part>>)
    requires first <= |s|
    ensures r == PartsFrom(s, first, ReaderOf(isMap))
  {
    var i := first;
    var parts: seq<Part> := [];
    ghost var all := PartsFrom(s, first, ReaderOf(isMap));
    assert all.Some? ==> [] + all.value == all.value;
    while i < |s|
      invariant i <= |s|
      invariant PartsRest(parts, PartsFrom(s, i, ReaderOf(isMap))) == all
      decreases |s| - i
    {
      var p := ParsePart(s, i, isMap);
      PartsOnce(s, i, isMap, parts, p);
      if p.None? { return None; }
      parts := parts + [p.value];
      i := p.value.next;
      if p.value.closed { return if i == |s| then Some(parts) else None; }
    }
    r := None;
  }

  method ParsePart(s: string, i: nat, isMap: bool) returns (r: Option<Part>)
    requires i < |s|
    ensures r == if isMap then MapPart(s, i) else StructPart(s, i)
    ensures r.Some? ==> i < r.value.next <= |s|
  {
    if isMap { r := ParseMapPart(s, i); } else { r := ParseStructPart(s, i); }
  }

  method TryCastStringToStruct(t: Type, parts: seq<Part>) returns (r: Option<seq<Value>>)
    requires t.StructOf?
    ensures r == CastFields(t, parts, seq(|t.fields|, _ => Null))
    decreases t, 0
  {
    var vals: seq<Value> := seq(|t.fields|, _ => Null);
    ghost var goal := CastFields(t, parts, vals);
    var i := 0;
    while i < |parts|
      invariant 0 <= i <= |parts| && |vals| == |t.fields|
      invariant CastFields(t, parts[i..], vals) == goal
    {
      assert parts[i..][0] == parts[i] && parts[i..][1..] == parts[i + 1..];
      var k := FieldIdx(t.fields, parts[i].key);
      if k == |t.fields| { return None; }
      assert t.fields[k] in t.fields;
      var v := CastText(t.fields[k].typ, parts[i].val);
      if v.None? { return None; }
      vals := vals[k := v.value];
      i := i + 1;
    }
    r := Some(vals);
  }

  method CastStringToMap(t: Type, parts: seq<Part>) returns (r: Option<seq<Entry>>)
    requires t.MapOf?
    ensures r == CastEntries(t, parts, [])
    decreases t, 0
  {
    var entries: seq<Entry> := [];
    var i := 0;
    while i < |parts|
      invariant 0 <= i <= |parts|
      invariant CastEntries(t, parts[i..], entries) == CastEntries(t, parts, [])
    {
      assert parts[i..][0] == parts[i] && parts[i..][1..] == parts[i + 1..];
      var k := CastText(t.key, parts[i].key);
      if k.None? || k.value.Null? { return None; }
      var known := false;
      for j := 0 to |entries|
        invariant known <==> exists m :: 0 <= m < j && entries[m].key == k.value
      {
        known := known || entries[j].key == k.value;
      }
      if known { return None; }
      var v := CastText(t.value, parts[i].val);
      if v.None? { return None; }
      entries := entries + [Entry(k.value, v.value)];
      i := i + 1;
    }
    r := Some(entries);
  }

  method CastPieces(elem: Type, pieces: seq<string>) returns (r: Option<seq<Value>>)
    ensures r == CastAll(elem, pieces)
    decreases elem, 2
  {
    var items: seq<Value> := [];
    var k := |pieces|;
    assert pieces[k..] == [];
    while k > 0
      invariant 0 <= k <= |pieces|
      invariant CastAll(elem, pieces[k..]) == Some(items)
    {
      k := k - 1;
      assert pieces[k..][0] == pieces[k] && pieces[k..][1..] == pieces[k + 1..];
      var piece := pieces[k];
      var v := CastText(elem, Trim(piece));
      if v.None? {
        CastAllNone(elem, pieces, k);
        return None;
      }
      items := [v.value] + items;
    }
    assert pieces[0..] == pieces;
    r := Some(items);
  }

  lemma {:induction false} CastAllNone(elem: Type, pieces: seq<string>, k: nat)
    requires k < |pieces| && Cast(elem, Trim(pieces[k])).None?
    ensures CastAll(elem, pieces).None?
    decreases k
  {
    if k > 0 { CastAllNone(elem, pieces[1..], k - 1); }
  }

  method CastText(t: Type, s: string) returns (r: Option<Value>)
    ensures r == Cast(t, s)
    decreases t, 1
  {
    if TextIsNull(t, s) { return Some(Null); }
    match t {
      case Leaf(_) => r := Some(Text(s));
      case ListOf(elem) =>
        var split := SplitCStringList(s);
        if !split.ok { return None; }
        var items := CastPieces(elem, split.pieces);
        r := if items.None? then None else Some(List(items.value));
      case StructOf(fields) =>
        var parts := ParseParts(s, false);
        if parts.None? { return None; }
        var vals := TryCastStringToStruct(t, parts.value);
        r := if vals.None? then None else Some(Struct(vals.value));
      case MapOf(key, value) =>
        var parts := ParseParts(s, true);
        if parts.None? { return None; }
        var entries := CastStringToMap(t, parts.value);
        r := if entries.None? then None else Some(Map(entries.value));
    }
  }

  // ----- printing

  method ToString(v: Value, t: Type) returns (s: string)
    ensures s == Print(v, t)
    decreases v, 1
  {
    match (v, t) {
      case (Text(text), Leaf(_)) => s := text;
      case (List(items), ListOf(elem)) => s := ListToString(items, elem);
      case (Struct(vals), StructOf(fields)) => s := StructToString(vals, fields);
      case (Map(entries), MapOf(key, value)) => s := MapToString(entries, key, value);
      case _ => s := "";
    }
  }

  method ListToString(items: seq<Value>, elem: Type) returns (s: string)
    ensures s == "[" + PrintItems(items, elem) + "]"
    decreases items, 0
  {
    if |items| == 0 { return "[]"; }
    s := "[";
    var i := 0;
    while i < |items| - 1
      invariant 0 <= i < |items|
      invariant s + PrintItems(items[i..], elem) == "[" + PrintItems(items, elem)
    {
      var text := ToString(items[i], elem);
      assert items[i..][0] == items[i] && items[i..][1..] == items[i + 1..];
      s := s + text + ",";
      i := i + 1;
    }
    assert items[i..] == [items[i]];
    var text := ToString(items[i], elem);
    s := s + text + "]";
  }

  method StructToString(vals: seq<Value>, fields: seq<Field>) returns (s: string)
    ensures s == "{" + PrintFields(vals, fields) + "}"
    decreases vals, 0
  {
    var n := if |vals| <= |fields| then |vals| else |fields|;
    if n == 0 { return "{}"; }
    s := "{";
    var i := 0;
    while i < n - 1
      invariant 0 <= i < n
      invariant s + PrintFields(vals[i..], fields[i..]) == "{" + PrintFields(vals, fields)
    {
      var text := ToString(vals[i], fields[i].typ);
      assert vals[i..][0] == vals[i] && vals[i..][1..] == vals[i + 1..];
      assert fields[i..][0] == fields[i] && fields[i..][1..] == fields[i + 1..];
      s := s + (fields[i].name + ": " + text + ", ");
      i := i + 1;
    }
    assert vals[i..][0] == vals[i] && fields[i..][0] == fields[i];
    var text := ToString(vals[i], fields[i].typ);
    s := s + (fields[i].name + ": " + text) + "}";
  }

  method MapToString(entries: seq<Entry>, key: Type, value: Type) returns (s: string)
    ensures s == "{" + PrintEntries(entries, key, value) + "}"
    decreases entries, 0
  {
    if |entries| == 0 { return "{}"; }
    s := "{";
    var i := 0;
    while i < |entries| - 1
      invariant 0 <= i < |entries|
      invariant s + PrintEntries(entries[i..], key, value) == "{" + PrintEntries(entries, key, value)
    {
      var text := EntryToString(entries[i], key, value);
      assert entries[i..][0] == entries[i] && entries[i..][1..] == entries[i + 1..];
      s := s + (text + ", ");
      i := i + 1;
    }
    assert entries[i..] == [entries[i]];
    var text := EntryToString(entries[i], key, value);
    s := s + text + "}";
  }

  method EntryToString(e: Entry, key: Type, value: Type) returns (s: string)
    ensures s == PrintEntry(e, key, value)
    decreases e, 2
  {
    var k := ToString(e.key, key);
    var v := ToString(e.val, value);
    s := k + "=" + v;
  }
}
