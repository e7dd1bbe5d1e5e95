/** Parsing what was printed gives the value back, for nested lists, structs and maps of any depth. */
module NestedRoundTrip {
  import opened Basics
  import opened NestedValues
  import opened NestedScan

  /** Text p occurs in s at position i. */
  ghost predicate At(s: string, i: nat, p: string) {
    i + |p| <= |s| && s[i..i + |p|] == p
  }

  lemma AtSplit(s: string, i: nat, p: string, q: string)
    ensures At(s, i, p + q) <==> At(s, i, p) && At(s, i + |p|, q)
  {
    if At(s, i, p + q) {
      assert s[i..i + |p|] == (p + q)[..|p|] == p;
      assert s[i + |p|..i + |p| + |q|] == (p + q)[|p|..] == q;
    }
    if At(s, i, p) && At(s, i + |p|, q) {
      assert s[i..i + |p + q|] == s[i..i + |p|] + s[i + |p|..i + |p| + |q|];
    }
  }

  lemma AtIndex(s: string, i: nat, p: string, k: nat)
    requires At(s, i, p) && k < |p|
    ensures s[i + k] == p[k]
  {
    assert s[i..i + |p|][k] == s[i + k];
  }

  predicate Plain(c: char) {
    !IsBracket(c) && !IsQuote(c)
  }

  // ----- a scan for a closing bracket passes over printed values

  lemma {:induction false} ClosePlain(s: string, i: nat, j: nat, lvl: int, target: char)
    requires i <= j <= |s| && IsBracket(target)
    requires forall k :: i <= k < j ==> Plain(s[k])
    ensures CloseFrom(s, i, lvl, target) == CloseFrom(s, j, lvl, target)
    decreases j - i
  {
    if i < j { ClosePlain(s, i + 1, j, lvl, target); }
  }

  /** Text that every scan for a closing bracket passes over without changing its level. */
  ghost predicate Closed(p: string) {
    forall s: string, i: nat, lvl: int, target: char {:trigger At(s, i, p), CloseFrom(s, i, lvl, target)} ::
      At(s, i, p) && IsBracket(target) ==>
        CloseFrom(s, i, lvl, target) == CloseFrom(s, i + |p|, lvl, target)
  }

  lemma ClosedPlain(p: string)
    requires forall k :: 0 <= k < |p| ==> Plain(p[k])
    ensures Closed(p)
  {
    forall s: string, i: nat, lvl: int, target: char | At(s, i, p) && IsBracket(target)
      ensures CloseFrom(s, i, lvl, target) == CloseFrom(s, i + |p|, lvl, target)
    {
      forall k | i <= k < i + |p| ensures Plain(s[k]) { AtIndex(s, i, p, k - i); }
      ClosePlain(s, i, i + |p|, lvl, target);
    }
  }

  lemma ClosedCat(p: string, q: string)
    requires Closed(p) && Closed(q)
    ensures Closed(p + q)
  {
    forall s: string, i: nat, lvl: int, target: char | At(s, i, p + q) && IsBracket(target)
      ensures CloseFrom(s, i, lvl, target) == CloseFrom(s, i + |p + q|, lvl, target)
    {
      AtSplit(s, i, p, q);
      assert CloseFrom(s, i, lvl, target) == CloseFrom(s, i + |p|, lvl, target);
    }
  }

  function Boxed(open: char, body: string, close: char): string {
    [open] + body + [close]
  }

  lemma AtBoxed(s: string, i: nat, open: char, body: string, close: char)
    requires At(s, i, Boxed(open, body, close))
    ensures i + |body| + 1 < |s| && s[i] == open && At(s, i + 1, body) && s[i + 1 + |body|] == close
  {
    AtSplit(s, i, [open] + body, [close]);
    AtSplit(s, i, [open], body);
    AtIndex(s, i, [open], 0);
    AtIndex(s, i + 1 + |body|, [close], 0);
  }

  /** From an opening bracket, `skipToClose` stops at the one that ends the same box. */
  lemma SkipBoxed(s: string, i: nat, body: string, lvl: int)
    requires Closed(body)
    ensures At(s, i, Boxed('[', body, ']')) ==> SkipToClose(s, i, lvl, ']') == Stop(true, i + 1 + |body|, lvl - 1)
    ensures At(s, i, Boxed('{', body, '}')) ==> SkipToClose(s, i, lvl, '}') == Stop(true, i + 1 + |body|, lvl)
  {
    if At(s, i, Boxed('[', body, ']')) {
      AtBoxed(s, i, '[', body, ']');
      assert CloseFrom(s, i + 1, lvl, ']') == CloseFrom(s, i + 1 + |body|, lvl, ']');
    }
    if At(s, i, Boxed('{', body, '}')) {
      AtBoxed(s, i, '{', body, '}');
      assert CloseFrom(s, i + 1, lvl, '}') == CloseFrom(s, i + 1 + |body|, lvl, '}');
    }
  }

  lemma ClosedBoxed(body: string)
    requires Closed(body)
    ensures Closed(Boxed('[', body, ']')) && Closed(Boxed('{', body, '}'))
  {
    forall s: string, i: nat, lvl: int, target: char | At(s, i, Boxed('[', body, ']')) && IsBracket(target)
      ensures CloseFrom(s, i, lvl, target) == CloseFrom(s, i + |body| + 2, lvl, target)
    {
      AtBoxed(s, i, '[', body, ']');
      SkipBoxed(s, i, body, lvl);
    }
    forall s: string, i: nat, lvl: int, target: char | At(s, i, Boxed('{', body, '}')) && IsBracket(target)
      ensures CloseFrom(s, i, lvl, target) == CloseFrom(s, i + |body| + 2, lvl, target)
    {
      AtBoxed(s, i, '{', body, '}');
      SkipBoxed(s, i, body, lvl);
    }
  }

  // ----- printed values are closed

  lemma {:induction false} ClosedValue(v: Value, t: Type)
    requires Carried(v, t)
    ensures Closed(Print(v, t))
    decreases v, 1
  {
    match v
    case Null => ClosedPlain("");
    case Text(text) => ClosedPlain(text);
    case List(items) =>
      ClosedItems(items, t.elem);
      ClosedBoxed(PrintItems(items, t.elem));
    case Struct(vals) =>
      ClosedFields(vals, t.fields);
      ClosedBoxed(PrintFields(vals, t.fields));
    case Map(entries) =>
      ClosedEntries(entries, t.key, t.value);
      ClosedBoxed(PrintEntries(entries, t.key, t.value));
  }

  lemma {:induction false} ClosedItems(items: seq<Value>, elem: Type)
    requires forall k :: 0 <= k < |items| ==> Carried(items[k], elem)
    ensures Closed(PrintItems(items, elem))
    decreases items, 0
  {
    if |items| == 0 {
      ClosedPlain("");
    } else {
      ClosedValue(items[0], elem);
      if |items| > 1 {
        var first := Print(items[0], elem);
        ClosedPlain(",");
        ClosedCat(first, ",");
        ClosedItems(items[1..], elem);
        ClosedCat(first + ",", PrintItems(items[1..], elem));
      }
    }
  }

  lemma {:induction false} ClosedFields(vals: seq<Value>, fields: seq<Field>)
    requires |vals| == |fields| && NamesOK(fields)
    requires forall k :: 0 <= k < |vals| ==> Carried(vals[k], fields[k].typ)
    ensures Closed(PrintFields(vals, fields))
    decreases vals, 0
  {
    if |vals| == 0 {
      ClosedPlain("");
    } else {
      var name, val := fields[0].name + ": ", Print(vals[0], fields[0].typ);
      ClosedPlain(name);
      ClosedValue(vals[0], fields[0].typ);
      ClosedCat(name, val);
      if |vals| > 1 {
        ClosedPlain(", ");
        ClosedCat(name + val, ", ");
        ClosedFields(vals[1..], fields[1..]);
        ClosedCat(name + val + ", ", PrintFields(vals[1..], fields[1..]));
      }
    }
  }

  lemma {:induction false} ClosedEntries(entries: seq<Entry>, key: Type, value: Type)
    requires forall k :: 0 <= k < |entries| ==> CarriedKey(entries[k].key, key) && Carried(entries[k].val, value)
    ensures Closed(PrintEntries(entries, key, value))
    decreases entries, 0
  {
    if |entries| == 0 {
      ClosedPlain("");
    } else {
      ClosedEntry(entries[0], key, value);
      if |entries| > 1 {
        var first := PrintEntry(entries[0], key, value);
        ClosedPlain(", ");
        ClosedCat(first, ", ");
        ClosedEntries(entries[1..], key, value);
        ClosedCat(first + ", ", PrintEntries(entries[1..], key, value));
      }
    }
  }

  lemma {:induction false} ClosedEntry(e: Entry, key: Type, value: Type)
    requires CarriedKey(e.key, key) && Carried(e.val, value)
    ensures Closed(PrintEntry(e, key, value))
    decreases e, 2
  {
    var k, v := Print(e.key, key), Print(e.val, value);
    ClosedValue(e.key, key);
    ClosedValue(e.val, value);
    ClosedPlain("=");
    ClosedCat(k, "=");
    ClosedCat(k + "=", v);
  }

  // ----- the shapes a printed value can have

  function BodyOf(v: Value, t: Type): string {
    match (v, t)
    case (List(items), ListOf(elem)) => PrintItems(items, elem)
    case (Struct(vals), StructOf(fields)) => PrintFields(vals, fields)
    case (Map(entries), MapOf(key, value)) => PrintEntries(entries, key, value)
    case _ => ""
  }

  ghost predicate Shape(p: string, body: string) {
    || p == ""
    || Bare(p)
    || (Closed(body) && (p == Boxed('[', body, ']') || p == Boxed('{', body, '}')))
  }

  lemma ShapeOf(v: Value, t: Type)
    requires Carried(v, t)
    ensures Shape(Print(v, t), BodyOf(v, t))
    ensures Print(v, t) == "" <==> v.Null?
  {
    match v
    case List(items) => ClosedItems(items, t.elem);
    case Struct(vals) => ClosedFields(vals, t.fields);
    case Map(entries) => ClosedEntries(entries, t.key, t.value);
    case _ =>
  }

  lemma ShapeEnds(p: string, body: string)
    requires Shape(p, body) && p != ""
    ensures !IsSpace(p[0]) && !IsSpace(p[|p| - 1]) && !IsQuote(p[0])
  {
  }

  lemma ShapeTrim(p: string, body: string)
    requires Shape(p, body)
    ensures Trim(p) == p
  {
    if p != "" { ShapeEnds(p, body); }
  }

  /** The character after position i when a shaped text and then c stand there. */
  lemma NextNotSpace(s: string, i: nat, p: string, body: string, c: char)
    requires Shape(p, body) && At(s, i, p + [c]) && !IsSpace(c)
    ensures i < |s| && !IsSpace(s[i]) && SkipSpace(s, i) == i
  {
    AtIndex(s, i, p + [c], 0);
    if p != "" { ShapeEnds(p, body); }
  }

  // ----- lists

  lemma {:induction false} SplitPlain(s: string, i: nat, j: nat, start: nat, lvl: int, seen: bool, atStart: bool)
    requires start <= i <= j <= |s|
    requires forall k :: i <= k < j ==> Plain(s[k]) && s[k] != ','
    ensures SplitFrom(s, i, start, lvl, seen, atStart) ==
            SplitFrom(s, j, start, lvl, seen, if i < j then false else atStart)
    decreases j - i
  {
    if i < j { SplitPlain(s, i + 1, j, start, lvl, seen, false); }
  }

  lemma SplitPass(s: string, i: nat, p: string, body: string, start: nat, lvl: int, seen: bool, atStart: bool)
    requires start <= i && At(s, i, p) && Shape(p, body)
    ensures SplitFrom(s, i, start, lvl, seen, atStart) ==
            SplitFrom(s, i + |p|, start, lvl, seen, if p == "" then atStart else false)
  {
    if p == "" {
    } else if Bare(p) {
      forall k | i <= k < i + |p| ensures Plain(s[k]) && s[k] != ',' { AtIndex(s, i, p, k - i); }
      SplitPlain(s, i, i + |p|, start, lvl, seen, atStart);
    } else if p == Boxed('[', body, ']') {
      AtBoxed(s, i, '[', body, ']');
      SkipBoxed(s, i, body, lvl + 1);
    } else {
      AtBoxed(s, i, '{', body, '}');
      SkipBoxed(s, i, body, 0);
    }
  }

  function PrintAll(items: seq<Value>, elem: Type): (r: seq<string>)
    ensures |r| == |items|
  {
    if items == [] then [] else [Print(items[0], elem)] + PrintAll(items[1..], elem)
  }

  lemma SplitAtComma(s: string, i: nat, p: string, body: string, seen: bool)
    requires Shape(p, body) && At(s, i, p + ",")
    requires i + |p| + 1 < |s| && !IsSpace(s[i + |p| + 1])
    ensures var rest := SplitFrom(s, i + |p| + 1, i + |p| + 1, 1, true, true);
            SplitFrom(s, i, i, 1, seen, true) == Split(rest.ok, [p] + rest.pieces)
  {
    AtSplit(s, i, p, ",");
    AtIndex(s, i + |p|, ",", 0);
    SplitPass(s, i, p, body, i, 1, seen, true);
  }

  lemma SplitAtEnd(s: string, i: nat, p: string, body: string, seen: bool)
    requires Shape(p, body) && At(s, i, p + "]") && i + |p| + 1 == |s|
    ensures SplitFrom(s, i, i, 1, seen, true) == Split(true, if p == "" && !seen then [] else [p])
  {
    AtSplit(s, i, p, "]");
    AtIndex(s, i + |p|, "]", 0);
    SplitPass(s, i, p, body, i, 1, seen, true);
  }

  /** Text that, closed by a last bracket, is split into the given pieces once a value has been seen. */
  ghost predicate Splits(p: string, pieces: seq<string>) {
    forall s: string, i: nat {:trigger At(s, i, p + "]")} ::
      At(s, i, p + "]") && i + |p| + 1 == |s| ==>
        !IsSpace(s[i]) && SplitFrom(s, i, i, 1, true, true) == Split(true, pieces)
  }

  lemma SplitsOne(p: string, body: string)
    requires Shape(p, body)
    ensures Splits(p, [p])
  {
    forall s: string, i: nat | At(s, i, p + "]") && i + |p| + 1 == |s|
      ensures !IsSpace(s[i]) && SplitFrom(s, i, i, 1, true, true) == Split(true, [p])
    {
      NextNotSpace(s, i, p, body, ']');
      SplitAtEnd(s, i, p, body, true);
    }
  }

  /** An item, a comma, and further items: after the first value and at the start of the list alike. */
  lemma SplitsMoreAt(s: string, i: nat, p: string, body: string, q: string, pieces: seq<string>, seen: bool)
    requires Shape(p, body) && Splits(q, pieces)
    requires At(s, i, ((p + ",") + q) + "]") && i + |p| + |q| + 2 == |s|
    ensures !IsSpace(s[i]) && SplitFrom(s, i, i, 1, seen, true) == Split(true, [p] + pieces)
  {
    assert ((p + ",") + q) + "]" == (p + ",") + (q + "]");
    AtSplit(s, i, p + ",", q + "]");
    NextNotSpace(s, i, p, body, ',');
    SplitAtComma(s, i, p, body, seen);
  }

  lemma SplitsMore(p: string, body: string, q: string, pieces: seq<string>)
    requires Shape(p, body) && Splits(q, pieces)
    ensures Splits((p + ",") + q, [p] + pieces)
  {
    forall s: string, i: nat | At(s, i, ((p + ",") + q) + "]") && i + |(p + ",") + q| + 1 == |s|
      ensures !IsSpace(s[i]) && SplitFrom(s, i, i, 1, true, true) == Split(true, [p] + pieces)
    {
      SplitsMoreAt(s, i, p, body, q, pieces, true);
    }
  }

  lemma {:induction false} SplitItems(items: seq<Value>, elem: Type)
    requires |items| > 0 && (forall k :: 0 <= k < |items| ==> Carried(items[k], elem))
    ensures Splits(PrintItems(items, elem), PrintAll(items, elem))
    decreases |items|
  {
    var p, body := Print(items[0], elem), BodyOf(items[0], elem);
    ShapeOf(items[0], elem);
    if |items| == 1 {
      SplitsOne(p, body);
      assert PrintAll(items, elem) == [p];
    } else {
      SplitItems(items[1..], elem);
      SplitsMore(p, body, PrintItems(items[1..], elem), PrintAll(items[1..], elem));
    }
  }

  /** A whole list in brackets: a lone empty item is no item. */
  lemma SplitBoxed(p: string, body: string, q: string, pieces: seq<string>, single: bool)
    requires Shape(p, body) && (!single ==> Splits(q, pieces))
    ensures single ==> SplitList(Boxed('[', p, ']')) == Split(true, if p == "" then [] else [p])
    ensures !single ==> SplitList(Boxed('[', (p + ",") + q, ']')) == Split(true, [p] + pieces)
  {
    var text := if single then p else (p + ",") + q;
    var s := Boxed('[', text, ']');
    assert s[0] == '[' && s[1..1 + |text + "]"|] == text + "]";
    assert At(s, 1, text + "]");
    if single {
      NextNotSpace(s, 1, p, body, ']');
      SplitAtEnd(s, 1, p, body, false);
    } else {
      SplitsMoreAt(s, 1, p, body, q, pieces, false);
    }
  }

  lemma SplitPrinted(items: seq<Value>, elem: Type)
    requires forall k :: 0 <= k < |items| ==> Carried(items[k], elem)
    ensures SplitList(Boxed('[', PrintItems(items, elem), ']')) ==
            Split(true, if items == [Null] then [] else PrintAll(items, elem))
  {
    if items == [] {
      SplitBoxed("", "", "", [], true);
    } else {
      var p, body := Print(items[0], elem), BodyOf(items[0], elem);
      ShapeOf(items[0], elem);
      if |items| == 1 {
        assert items == [items[0]] && PrintAll(items, elem) == [p];
        SplitBoxed(p, body, "", [], true);
      } else {
        SplitItems(items[1..], elem);
        SplitBoxed(p, body, PrintItems(items[1..], elem), PrintAll(items[1..], elem), false);
      }
    }
  }

  // ----- structs and maps

  lemma {:induction false} ValuePlain(s: string, i: nat, j: nat, lvl: int)
    requires i <= j <= |s|
    requires forall k :: i <= k < j ==> Plain(s[k]) && s[k] != ','
    ensures ValueEnd(s, i, lvl) == ValueEnd(s, j, lvl)
    decreases j - i
  {
    if i < j { ValuePlain(s, i + 1, j, lvl); }
  }

  lemma ValueBoxed(s: string, i: nat, body: string, lvl: int)
    requires Closed(body)
    ensures At(s, i, Boxed('[', body, ']')) ==> ValueEnd(s, i, lvl) == ValueEnd(s, i + 2 + |body|, lvl)
    ensures At(s, i, Boxed('{', body, '}')) ==> ValueEnd(s, i, lvl) == ValueEnd(s, i + 2 + |body|, lvl)
  {
    if At(s, i, Boxed('[', body, ']')) {
      AtBoxed(s, i, '[', body, ']');
      SkipBoxed(s, i, body, lvl + 1);
    }
    if At(s, i, Boxed('{', body, '}')) {
      AtBoxed(s, i, '{', body, '}');
      SkipBoxed(s, i, body, lvl);
    }
  }

  lemma ValuePass(s: string, i: nat, p: string, body: string, lvl: int)
    requires At(s, i, p) && Shape(p, body)
    ensures ValueEnd(s, i, lvl) == ValueEnd(s, i + |p|, lvl)
  {
    if p == "" {
    } else if Bare(p) {
      forall k | i <= k < i + |p| ensures Plain(s[k]) && s[k] != ',' { AtIndex(s, i, p, k - i); }
      ValuePlain(s, i, i + |p|, lvl);
    } else {
      ValueBoxed(s, i, body, lvl);
    }
  }

  lemma {:induction false} EntryPlain(s: string, i: nat, j: nat, isKey: bool, lvl: int)
    requires i <= j <= |s|
    requires forall k :: i <= k < j ==> Plain(s[k]) && (if isKey then s[k] != '=' else s[k] != ',')
    ensures EntryEnd(s, i, isKey, lvl) == EntryEnd(s, j, isKey, lvl)
    decreases j - i
  {
    if i < j { EntryPlain(s, i + 1, j, isKey, lvl); }
  }

  lemma EntryBoxed(s: string, i: nat, body: string, isKey: bool)
    requires Closed(body)
    ensures At(s, i, Boxed('[', body, ']')) ==> EntryEnd(s, i, isKey, 0) == EntryEnd(s, i + 2 + |body|, isKey, -1)
    ensures At(s, i, Boxed('{', body, '}')) ==> EntryEnd(s, i, isKey, 0) == EntryEnd(s, i + 2 + |body|, isKey, 0)
  {
    if At(s, i, Boxed('[', body, ']')) {
      AtBoxed(s, i, '[', body, ']');
      SkipBoxed(s, i, body, 0);
    }
    if At(s, i, Boxed('{', body, '}')) {
      AtBoxed(s, i, '{', body, '}');
      SkipBoxed(s, i, body, 0);
    }
  }

  lemma EntryStops(s: string, j: nat, isKey: bool, lvl: int)
    requires j < |s| && (if isKey then s[j] == '=' else s[j] == ',' || s[j] == '}')
    ensures EntryEnd(s, j, isKey, lvl) == Stop(true, j, lvl)
  {
  }

  /** A map scan passes over a printed key or value and stops at the character after it. */
  lemma EntryPass(s: string, i: nat, p: string, body: string, isKey: bool)
    requires At(s, i, p) && Shape(p, body) && i + |p| < |s|
    requires if isKey then s[i + |p|] == '=' else s[i + |p|] == ',' || s[i + |p|] == '}'
    requires isKey && Bare(p) ==> '=' !in p
    ensures EntryEnd(s, i, isKey, 0).ok && EntryEnd(s, i, isKey, 0).pos == i + |p|
  {
    EntryStops(s, i + |p|, isKey, 0);
    EntryStops(s, i + |p|, isKey, -1);
    if p == "" {
    } else if Bare(p) {
      forall k | i <= k < i + |p| ensures Plain(s[k]) && s[k] != ',' && s[k] == p[k - i] { AtIndex(s, i, p, k - i); }
      EntryPlain(s, i, i + |p|, isKey, 0);
    } else {
      EntryBoxed(s, i, body, isKey);
    }
  }

  lemma {:induction false} ColonAfter(s: string, i: nat, j: nat)
    requires i <= j < |s| && s[j] == ':'
    requires forall k :: i <= k < j ==> s[k] != ':'
    ensures FindColon(s, i) == j
    decreases j - i
  {
    if i < j { ColonAfter(s, i + 1, j); }
  }

  lemma KeyAt(s: string, i: nat, name: string)
    requires Bare(name) && ':' !in name && At(s, i, name + ": ")
    ensures var c := i + |name|;
            && FindColon(s, i) == c && c + 1 < |s| && s[c + 1] == ' ' && s[i..c] == name
            && TrimRight(s, i, c) == c && !IsQuote(s[i]) && !IsSpace(s[i])
  {
    var c := i + |name|;
    AtSplit(s, i, name, ": ");
    AtIndex(s, c, ": ", 0);
    AtIndex(s, c, ": ", 1);
    AtIndex(s, i, name, 0);
    AtIndex(s, i, name, |name| - 1);
    forall k | i <= k < c ensures s[k] != ':' { AtIndex(s, i, name, k - i); }
    ColonAfter(s, i, c);
  }

  ghost predicate Separated(s: string, i: nat, p: string) {
    At(s, i, p) && i + |p| < |s| && (s[i + |p|] == ',' || s[i + |p|] == '}')
  }

  /** Text read whole as a struct field's value, wherever a comma or brace follows it. */
  ghost predicate FieldText(p: string) {
    forall s: string, i: nat {:trigger At(s, i, p)} :: Separated(s, i, p) ==>
      && SkipSpace(s, i) == i && TrimRight(s, i, i + |p|) == i + |p| && !IsQuote(s[i])
      && ValueEnd(s, i, 0) == Stop(true, i + |p|, 0)
  }

  /** Text read whole as a map entry's value, wherever a comma or brace follows it. */
  ghost predicate ValText(p: string) {
    forall s: string, i: nat {:trigger At(s, i, p)} :: Separated(s, i, p) ==>
      && SkipSpace(s, i) == i && TrimRight(s, i, i + |p|) == i + |p|
      && EntryEnd(s, i, false, 0).ok && EntryEnd(s, i, false, 0).pos == i + |p|
  }

  /** Text read whole as a map entry's key, wherever an equals sign follows it. */
  ghost predicate KeyText(p: string) {
    && StartsPart(p)
    && forall s: string, i: nat {:trigger At(s, i, p)} :: At(s, i, p) && i + |p| < |s| && s[i + |p|] == '=' ==>
         && TrimRight(s, i, i + |p|) == i + |p|
         && EntryEnd(s, i, true, 0).ok && EntryEnd(s, i, true, 0).pos == i + |p|
  }

  lemma StandsTrimmed(s: string, i: nat, p: string, body: string)
    requires At(s, i, p) && Shape(p, body) && i + |p| < |s| && !IsSpace(s[i + |p|]) && !IsQuote(s[i + |p|])
    ensures SkipSpace(s, i) == i && TrimRight(s, i, i + |p|) == i + |p| && !IsQuote(s[i])
  {
    if p != "" {
      ShapeEnds(p, body);
      AtIndex(s, i, p, 0);
      AtIndex(s, i, p, |p| - 1);
    }
  }

  lemma ShapeTexts(p: string, body: string)
    requires Shape(p, body)
    ensures FieldText(p) && ValText(p)
  {
    forall s: string, i: nat | Separated(s, i, p)
      ensures SkipSpace(s, i) == i && TrimRight(s, i, i + |p|) == i + |p| && !IsQuote(s[i])
      ensures ValueEnd(s, i, 0) == Stop(true, i + |p|, 0)
      ensures EntryEnd(s, i, false, 0).ok && EntryEnd(s, i, false, 0).pos == i + |p|
    {
      StandsTrimmed(s, i, p, body);
      ValuePass(s, i, p, body, 0);
      EntryPass(s, i, p, body, false);
    }
  }

  lemma ShapeKey(p: string, body: string)
    requires Shape(p, body) && p != "" && (Bare(p) ==> '=' !in p)
    ensures KeyText(p)
  {
    ShapeEnds(p, body);
    forall s: string, i: nat | At(s, i, p) && i + |p| < |s| && s[i + |p|] == '='
      ensures TrimRight(s, i, i + |p|) == i + |p|
      ensures EntryEnd(s, i, true, 0).ok && EntryEnd(s, i, true, 0).pos == i + |p|
    {
      StandsTrimmed(s, i, p, body);
      EntryPass(s, i, p, body, true);
    }
  }

  lemma StructPartFrom(s: string, i: nat, c: nat, j: nat)
    requires i < c && c + 2 <= j < |s| && FindColon(s, i) == c && s[c + 1] == ' '
    requires TrimRight(s, i, c) == c && !IsQuote(s[i])
    requires SkipSpace(s, c + 2) == c + 2 && TrimRight(s, c + 2, j) == j && !IsQuote(s[c + 2])
    requires ValueEnd(s, c + 2, 0) == Stop(true, j, 0)
    ensures StructPart(s, i) == Some(Part(s[i..c], s[c + 2..j], SkipSpace(s, j + 1), s[j] == '}'))
  {
    assert SkipSpace(s, c + 1) == SkipSpace(s, c + 2);
  }

  lemma MapPartFrom(s: string, i: nat, c: nat, j: nat)
    requires i <= c < j < |s| && EntryEnd(s, i, true, 0).ok && EntryEnd(s, i, true, 0).pos == c
    requires EntryEnd(s, c + 1, false, 0).ok && EntryEnd(s, c + 1, false, 0).pos == j
    requires SkipSpace(s, c + 1) == c + 1 && TrimRight(s, i, c) == c && TrimRight(s, c + 1, j) == j
    ensures MapPart(s, i) == Some(Part(s[i..c], s[c + 1..j], SkipSpace(s, j + 1), s[j] == '}'))
  {
  }

  /** A struct or map part found at position i with the given texts, ending at j. */
  ghost predicate PartIs(r: Option<Part>, s: string, key: string, val: string, j: nat) {
    j < |s| && r == Some(Part(key, val, SkipSpace(s, j + 1), s[j] == '}'))
  }

  lemma AtSlice(s: string, i: nat, p: string, j: nat)
    requires At(s, i, p) && j == i + |p|
    ensures s[i..j] == p
  {
  }

  lemma StructPartOf(s: string, i: nat, c: nat, j: nat, name: string, p: string)
    requires i < c && c + 2 <= j < |s| && s[i..c] == name && s[c + 2..j] == p
    requires FindColon(s, i) == c && s[c + 1] == ' ' && TrimRight(s, i, c) == c && !IsQuote(s[i])
    requires SkipSpace(s, c + 2) == c + 2 && TrimRight(s, c + 2, j) == j && !IsQuote(s[c + 2])
    requires ValueEnd(s, c + 2, 0) == Stop(true, j, 0)
    ensures PartIs(StructPart(s, i), s, name, p, j)
  {
    StructPartFrom(s, i, c, j);
  }

  lemma MapPartOf(s: string, i: nat, c: nat, j: nat, k: string, p: string)
    requires i <= c < j < |s| && s[i..c] == k && s[c + 1..j] == p
    requires EntryEnd(s, i, true, 0).ok && EntryEnd(s, i, true, 0).pos == c
    requires EntryEnd(s, c + 1, false, 0).ok && EntryEnd(s, c + 1, false, 0).pos == j
    requires SkipSpace(s, c + 1) == c + 1 && TrimRight(s, i, c) == c && TrimRight(s, c + 1, j) == j
    ensures PartIs(MapPart(s, i), s, k, p, j)
  {
    MapPartFrom(s, i, c, j);
  }

  // ----- all parts of a struct or map

  function KeyTexts(parts: seq<Part>): (r: seq<string>)
    ensures |r| == |parts|
  {
    if parts == [] then [] else [parts[0].key] + KeyTexts(parts[1..])
  }

  function ValTexts(parts: seq<Part>): (r: seq<string>)
    ensures |r| == |parts|
  {
    if parts == [] then [] else [parts[0].val] + ValTexts(parts[1..])
  }

  function Texts(r: Option<seq<Part>>): Option<(seq<string>, seq<string>)> {
    match r
    case None => None
    case Some(parts) => Some((KeyTexts(parts), ValTexts(parts)))
  }

  ghost predicate PartsAre(r: Option<seq<Part>>, keys: seq<string>, vals: seq<string>) {
    Texts(r) == Some((keys, vals))
  }

  lemma {:induction false} PartsAreAt(parts: seq<Part>, k: nat)
    requires k < |parts|
    ensures KeyTexts(parts)[k] == parts[k].key && ValTexts(parts)[k] == parts[k].val
  {
    if k > 0 { PartsAreAt(parts[1..], k - 1); }
  }

  lemma PartsAreEach(parts: seq<Part>, keys: seq<string>, vals: seq<string>)
    requires PartsAre(Some(parts), keys, vals)
    ensures |parts| == |keys| == |vals|
    ensures forall k :: 0 <= k < |keys| ==> parts[k].key == keys[k] && parts[k].val == vals[k]
  {
    forall k | 0 <= k < |keys| ensures parts[k].key == keys[k] && parts[k].val == vals[k] { PartsAreAt(parts, k); }
  }

  lemma LastPart(s: string, i: nat, read: Reader, key: string, val: string, j: nat)
    requires i < |s| && PartIs(read(s, i), s, key, val, j)
    requires s[j] == '}' && j + 1 == |s|
    ensures PartsAre(PartsFrom(s, i, read), [key], [val])
  {
    var p := read(s, i).value;
    assert PartsFrom(s, i, read) == Some([p]);
    assert KeyTexts([p]) == [key] && ValTexts([p]) == [val];
  }

  lemma PartsUnfold(s: string, i: nat, read: Reader, p: Part)
    requires i < |s| && read(s, i) == Some(p) && !p.closed
    requires p.next <= |s| && PartsFrom(s, p.next, read).Some?
    ensures PartsFrom(s, i, read) == Some([p] + PartsFrom(s, p.next, read).value)
  {
  }

  lemma PartsCons(p: Part, rest: seq<Part>, keys: seq<string>, vals: seq<string>)
    requires PartsAre(Some(rest), keys, vals)
    ensures PartsAre(Some([p] + rest), [p.key] + keys, [p.val] + vals)
  {
    assert ([p] + rest)[1..] == rest;
  }

  lemma SeparatorEnds(s: string, j: nat)
    requires At(s, j, ", ") && j + 2 < |s| && !IsSpace(s[j + 2])
    ensures SkipSpace(s, j + 1) == j + 2 && s[j] == ','
  {
    AtIndex(s, j, ", ", 0);
    AtIndex(s, j, ", ", 1);
    assert SkipSpace(s, j + 1) == SkipSpace(s, j + 2);
  }

  lemma MorePart(s: string, i: nat, read: Reader, p: Part, j: nat, keys: seq<string>, vals: seq<string>)
    requires i < |s| && read(s, i) == Some(p)
    requires At(s, j, ", ") && j + 2 < |s| && !IsSpace(s[j + 2])
    requires p.next == SkipSpace(s, j + 1) && p.closed == (s[j] == '}')
    requires PartsAre(PartsFrom(s, j + 2, read), keys, vals)
    ensures PartsAre(PartsFrom(s, i, read), [p.key] + keys, [p.val] + vals)
  {
    SeparatorEnds(s, j);
    PartsUnfold(s, i, read, p);
    PartsCons(p, PartsFrom(s, j + 2, read).value, keys, vals);
  }

  ghost predicate StartsPart(p: string) {
    p != "" && !IsSpace(p[0]) && p[0] != '}'
  }

  /** Text that is read as one part with the given key and value wherever a comma or brace follows it. */
  ghost predicate OnePart(p: string, read: Reader, key: string, val: string) {
    StartsPart(p) &&
    forall s: string, i: nat {:trigger At(s, i, p)} ::
      At(s, i, p) && i + |p| < |s| && (s[i + |p|] == ',' || s[i + |p|] == '}') ==>
        PartIs(read(s, i), s, key, val, i + |p|)
  }

  /** Text that, closed by a last brace, is read as the parts with the given keys and values. */
  ghost predicate Yields(p: string, read: Reader, keys: seq<string>, vals: seq<string>) {
    StartsPart(p) &&
    forall s: string, i: nat {:trigger At(s, i, p + "}")} ::
      At(s, i, p + "}") && i + |p| + 1 == |s| ==> PartsAre(PartsFrom(s, i, read), keys, vals)
  }

  lemma YieldsOne(p: string, read: Reader, key: string, val: string)
    requires OnePart(p, read, key, val)
    ensures Yields(p, read, [key], [val])
  {
    forall s: string, i: nat | At(s, i, p + "}") && i + |p| + 1 == |s|
      ensures PartsAre(PartsFrom(s, i, read), [key], [val])
    {
      AtSplit(s, i, p, "}");
      AtIndex(s, i + |p|, "}", 0);
      LastPart(s, i, read, key, val, i + |p|);
    }
  }

  lemma OnePartAt(p: string, read: Reader, key: string, val: string, s: string, i: nat)
    requires OnePart(p, read, key, val)
    requires At(s, i, p) && i + |p| < |s| && (s[i + |p|] == ',' || s[i + |p|] == '}')
    ensures PartIs(read(s, i), s, key, val, i + |p|)
  {
  }

  lemma YieldsAt(p: string, read: Reader, keys: seq<string>, vals: seq<string>, s: string, i: nat)
    requires Yields(p, read, keys, vals) && At(s, i, p + "}") && i + |p| + 1 == |s|
    ensures PartsAre(PartsFrom(s, i, read), keys, vals)
  {
  }

  lemma YieldsMore(p: string, q: string, read: Reader, key: string, val: string, keys: seq<string>, vals: seq<string>)
    requires OnePart(p, read, key, val) && Yields(q, read, keys, vals)
    ensures Yields((p + ", ") + q, read, [key] + keys, [val] + vals)
  {
    forall s: string, i: nat | At(s, i, ((p + ", ") + q) + "}") && i + |(p + ", ") + q| + 1 == |s|
      ensures PartsAre(PartsFrom(s, i, read), [key] + keys, [val] + vals)
    {
      YieldsMoreAt(p, q, read, key, val, keys, vals, s, i);
    }
  }

  lemma YieldsMoreAt(p: string, q: string, read: Reader, key: string, val: string, keys: seq<string>,
                     vals: seq<string>, s: string, i: nat)
    requires OnePart(p, read, key, val) && Yields(q, read, keys, vals)
    requires At(s, i, ((p + ", ") + q) + "}") && i + |(p + ", ") + q| + 1 == |s|
    ensures PartsAre(PartsFrom(s, i, read), [key] + keys, [val] + vals)
  {
    MoreAt(s, i, p, q);
    YieldsAt(q, read, keys, vals, s, i + |p| + 2);
    OnePartAt(p, read, key, val, s, i);
    PartThenParts(s, i, read, key, val, i + |p|, keys, vals);
  }

  lemma PartThenParts(s: string, i: nat, read: Reader, key: string, val: string, j: nat, keys: seq<string>,
                      vals: seq<string>)
    requires i < |s| && PartIs(read(s, i), s, key, val, j)
    requires At(s, j, ", ") && j + 2 < |s| && !IsSpace(s[j + 2])
    requires PartsAre(PartsFrom(s, j + 2, read), keys, vals)
    ensures PartsAre(PartsFrom(s, i, read), [key] + keys, [val] + vals)
  {
    var part := read(s, i).value;
    MorePart(s, i, read, part, j, keys, vals);
  }

  lemma MoreAt(s: string, i: nat, p: string, q: string)
    requires StartsPart(q) && At(s, i, ((p + ", ") + q) + "}")
    ensures var j := i + |p|;
            && At(s, i, p) && At(s, j, ", ") && At(s, j + 2, q + "}")
            && j + 2 < |s| && s[j] == ',' && !IsSpace(s[j + 2])
  {
    var j := i + |p|;
    assert ((p + ", ") + q) + "}" == p + (", " + (q + "}"));
    AtSplit(s, i, p, ", " + (q + "}"));
    AtSplit(s, j, ", ", q + "}");
    AtIndex(s, j, ", ", 0);
    AtIndex(s, j + 2, q + "}", 0);
  }

  lemma OneField(name: string, p: string)
    requires Bare(name) && ':' !in name && FieldText(p)
    ensures OnePart((name + ": ") + p, ReaderOf(false), name, p)
  {
    var text := (name + ": ") + p;
    assert StartsPart(text) by { assert text[0] == name[0]; }
    var read := ReaderOf(false);
    forall s: string, i: nat | At(s, i, text) && i + |text| < |s| && (s[i + |text|] == ',' || s[i + |text|] == '}')
      ensures PartIs(read(s, i), s, name, p, i + |text|)
    {
      FieldPart(s, i, name, p);
    }
  }

  lemma FieldPart(s: string, i: nat, name: string, p: string)
    requires Bare(name) && ':' !in name && FieldText(p) && Separated(s, i, (name + ": ") + p)
    ensures PartIs(StructPart(s, i), s, name, p, i + |(name + ": ") + p|)
  {
    FieldAt(s, i, name, p);
    var c, j := i + |name|, i + |(name + ": ") + p|;
    assert j == c + 2 + |p|;
    FieldTextAt(s, c + 2, p);
    OneFieldAt(s, i, c, j, name, p);
  }

  lemma FieldTextAt(s: string, i: nat, p: string)
    requires FieldText(p) && Separated(s, i, p)
    ensures SkipSpace(s, i) == i && TrimRight(s, i, i + |p|) == i + |p| && !IsQuote(s[i])
    ensures ValueEnd(s, i, 0) == Stop(true, i + |p|, 0)
  {
  }

  lemma FieldAt(s: string, i: nat, name: string, p: string)
    requires Separated(s, i, (name + ": ") + p)
    ensures At(s, i, name + ": ") && At(s, i, name) && Separated(s, i + |name| + 2, p)
  {
    AtSplit(s, i, name + ": ", p);
    AtSplit(s, i, name, ": ");
  }

  lemma OneFieldAt(s: string, i: nat, c: nat, j: nat, name: string, p: string)
    requires Bare(name) && ':' !in name && c == i + |name| && j == c + 2 + |p| && j < |s|
    requires At(s, i, name + ": ") && At(s, i, name) && At(s, c + 2, p)
    requires SkipSpace(s, c + 2) == c + 2 && TrimRight(s, c + 2, j) == j && !IsQuote(s[c + 2])
    requires ValueEnd(s, c + 2, 0) == Stop(true, j, 0)
    ensures PartIs(StructPart(s, i), s, name, p, j)
  {
    KeyAt(s, i, name);
    AtSlice(s, i, name, c);
    AtSlice(s, c + 2, p, j);
    StructPartOf(s, i, c, j, name, p);
  }

  lemma OneEntry(k: string, p: string)
    requires KeyText(k) && ValText(p)
    ensures OnePart((k + "=") + p, ReaderOf(true), k, p)
  {
    var text := (k + "=") + p;
    assert StartsPart(text) by { assert text[0] == k[0]; }
    var read := ReaderOf(true);
    forall s: string, i: nat | At(s, i, text) && i + |text| < |s| && (s[i + |text|] == ',' || s[i + |text|] == '}')
      ensures PartIs(read(s, i), s, k, p, i + |text|)
    {
      EntryPart(s, i, k, p);
    }
  }

  lemma EntryPart(s: string, i: nat, k: string, p: string)
    requires KeyText(k) && ValText(p) && Separated(s, i, (k + "=") + p)
    ensures PartIs(MapPart(s, i), s, k, p, i + |(k + "=") + p|)
  {
    EntryTextAt(s, i, k, p);
    var c, j := i + |k|, i + |(k + "=") + p|;
    assert j == c + 1 + |p|;
    KeyTextAt(s, i, k);
    ValTextAt(s, c + 1, p);
    OneEntryAt(s, i, c, j, k, p);
  }

  lemma OneEntryAt(s: string, i: nat, c: nat, j: nat, k: string, p: string)
    requires k != [] && c == i + |k| && j == c + 1 + |p| && j < |s| && s[c] == '='
    requires At(s, i, k) && At(s, c + 1, p)
    requires TrimRight(s, i, c) == c && EntryEnd(s, i, true, 0).ok && EntryEnd(s, i, true, 0).pos == c
    requires SkipSpace(s, c + 1) == c + 1 && TrimRight(s, c + 1, j) == j
    requires EntryEnd(s, c + 1, false, 0).ok && EntryEnd(s, c + 1, false, 0).pos == j
    ensures PartIs(MapPart(s, i), s, k, p, j)
  {
    AtSlice(s, i, k, c);
    AtSlice(s, c + 1, p, j);
    MapPartOf(s, i, c, j, k, p);
  }

  lemma KeyTextAt(s: string, i: nat, k: string)
    requires KeyText(k) && At(s, i, k) && i + |k| < |s| && s[i + |k|] == '='
    ensures TrimRight(s, i, i + |k|) == i + |k|
    ensures EntryEnd(s, i, true, 0).ok && EntryEnd(s, i, true, 0).pos == i + |k|
  {
  }

  lemma ValTextAt(s: string, i: nat, p: string)
    requires ValText(p) && Separated(s, i, p)
    ensures SkipSpace(s, i) == i && TrimRight(s, i, i + |p|) == i + |p|
    ensures EntryEnd(s, i, false, 0).ok && EntryEnd(s, i, false, 0).pos == i + |p|
  {
  }

  lemma EntryTextAt(s: string, i: nat, k: string, p: string)
    requires Separated(s, i, (k + "=") + p)
    ensures At(s, i, k) && i + |k| < |s| && s[i + |k|] == '=' && Separated(s, i + |k| + 1, p)
  {
    AtSplit(s, i, k + "=", p);
    AtSplit(s, i, k, "=");
    AtIndex(s, i + |k|, "=", 0);
  }

  function FieldNames(fields: seq<Field>): (r: seq<string>)
    ensures |r| == |fields| && forall i :: 0 <= i < |fields| ==> r[i] == fields[i].name
  {
    if fields == [] then [] else [fields[0].name] + FieldNames(fields[1..])
  }

  function FieldTexts(vals: seq<Value>, fields: seq<Field>): (r: seq<string>)
    requires |vals| == |fields|
    ensures |r| == |vals| && forall i :: 0 <= i < |vals| ==> r[i] == Print(vals[i], fields[i].typ)
  {
    if vals == [] then [] else [Print(vals[0], fields[0].typ)] + FieldTexts(vals[1..], fields[1..])
  }

  lemma {:induction false} FieldParts(vals: seq<Value>, fields: seq<Field>)
    requires |vals| == |fields| > 0 && NamesOK(fields)
    requires forall k :: 0 <= k < |vals| ==> Carried(vals[k], fields[k].typ)
    ensures Yields(PrintFields(vals, fields), ReaderOf(false), FieldNames(fields), FieldTexts(vals, fields))
    decreases |vals|
  {
    var name, p := fields[0].name, Print(vals[0], fields[0].typ);
    ShapeOf(vals[0], fields[0].typ);
    ShapeTexts(p, BodyOf(vals[0], fields[0].typ));
    OneField(name, p);
    if |vals| == 1 {
      YieldsOne((name + ": ") + p, ReaderOf(false), name, p);
      assert FieldNames(fields) == [name] && FieldTexts(vals, fields) == [p];
    } else {
      FieldParts(vals[1..], fields[1..]);
      YieldsMore((name + ": ") + p, PrintFields(vals[1..], fields[1..]), ReaderOf(false), name, p,
                 FieldNames(fields[1..]), FieldTexts(vals[1..], fields[1..]));
    }
  }

  function EntryTexts(entries: seq<Entry>, key: Type, value: Type): (r: (seq<string>, seq<string>))
    ensures |r.0| == |r.1| == |entries|
    ensures forall i :: 0 <= i < |entries| ==>
              r.0[i] == Print(entries[i].key, key) && r.1[i] == Print(entries[i].val, value)
  {
    if entries == [] then ([], [])
    else
      var rest := EntryTexts(entries[1..], key, value);
      ([Print(entries[0].key, key)] + rest.0, [Print(entries[0].val, value)] + rest.1)
  }

  lemma OnePrintedEntry(e: Entry, key: Type, value: Type)
    requires CarriedKey(e.key, key) && Carried(e.val, value)
    ensures OnePart(PrintEntry(e, key, value), ReaderOf(true), Print(e.key, key), Print(e.val, value))
  {
    ShapeOf(e.key, key);
    ShapeKey(Print(e.key, key), BodyOf(e.key, key));
    ShapeOf(e.val, value);
    ShapeTexts(Print(e.val, value), BodyOf(e.val, value));
    OneEntry(Print(e.key, key), Print(e.val, value));
  }

  lemma {:induction false} EntryParts(entries: seq<Entry>, key: Type, value: Type)
    requires |entries| > 0
    requires forall k :: 0 <= k < |entries| ==> CarriedKey(entries[k].key, key) && Carried(entries[k].val, value)
    ensures Yields(PrintEntries(entries, key, value), ReaderOf(true),
                   EntryTexts(entries, key, value).0, EntryTexts(entries, key, value).1)
    decreases |entries|
  {
    var k, p := Print(entries[0].key, key), Print(entries[0].val, value);
    OnePrintedEntry(entries[0], key, value);
    if |entries| == 1 {
      YieldsOne((k + "=") + p, ReaderOf(true), k, p);
      assert EntryTexts(entries, key, value).0 == [k] && EntryTexts(entries, key, value).1 == [p];
    } else {
      EntryParts(entries[1..], key, value);
      var rest := EntryTexts(entries[1..], key, value);
      YieldsMore((k + "=") + p, PrintEntries(entries[1..], key, value), ReaderOf(true), k, p,
                 rest.0, rest.1);
    }
  }

  lemma PartsPrinted(body: string, isMap: bool, keys: seq<string>, vals: seq<string>)
    requires Yields(body, ReaderOf(isMap), keys, vals)
    ensures PartsAre(Parts(Boxed('{', body, '}'), isMap), keys, vals)
  {
    var s := Boxed('{', body, '}');
    assert s[0] == '{' && s[1] == body[0];
    assert s[1..1 + |body + "}"|] == body + "}";
    assert At(s, 1, body + "}");
    assert SkipSpace(s, 0) == 0 && SkipSpace(s, 1) == 1;
  }

  lemma PartsEmpty(isMap: bool)
    ensures Parts("{}", isMap) == Some([])
  {
    assert SkipSpace("{}", 1) == 1;
  }

  // ----- casting the parts

  lemma BoxedNotNull(open: char, body: string, close: char, t: Type)
    requires IsBracket(open)
    ensures !TextIsNull(t, Boxed(open, body, close))
  {
    var s := Boxed(open, body, close);
    assert s[0] == open;
    assert SkipSpace(s, 0) == 0;
    if 4 <= |s| { assert s[0..4][0] == open; }
  }

  lemma {:induction false} FieldFound(fields: seq<Field>, k: nat, from: nat)
    requires NamesOK(fields) && from <= k < |fields|
    ensures FieldIdx(fields, fields[k].name, from) == k
    decreases k - from
  {
    if from < k { FieldFound(fields, k, from + 1); }
  }

  /** Parse undoes print, up to the lone null: nested values of any depth. */
  lemma {:induction false} CastPrint(v: Value, t: Type)
    requires Carried(v, t)
    ensures Cast(t, Print(v, t)) == Some(Collapse(v))
    decreases v, 1
  {
    match v
    case Null =>
    case Text(text) =>
    case List(items) =>
      BoxedNotNull('[', PrintItems(items, t.elem), ']', t);
      SplitPrinted(items, t.elem);
      CastItems(items, t.elem);
    case Struct(vals) => CastStruct(vals, t);
    case Map(entries) => CastMap(entries, t);
  }

  lemma {:induction false} CastItems(items: seq<Value>, elem: Type)
    requires forall k :: 0 <= k < |items| ==> Carried(items[k], elem)
    ensures CastAll(elem, PrintAll(items, elem)) == Some(CollapseItems(items))
    decreases items, 0
  {
    if items != [] {
      ShapeOf(items[0], elem);
      ShapeTrim(Print(items[0], elem), BodyOf(items[0], elem));
      CastPrint(items[0], elem);
      CastItems(items[1..], elem);
    }
  }

  lemma StructParts(vals: seq<Value>, fields: seq<Field>)
    requires |vals| == |fields| && NamesOK(fields)
    requires forall k :: 0 <= k < |vals| ==> Carried(vals[k], fields[k].typ)
    ensures var r := Parts(Boxed('{', PrintFields(vals, fields), '}'), false);
            && r.Some? && |r.value| == |vals|
            && forall k :: 0 <= k < |vals| ==>
                 r.value[k].key == fields[k].name && r.value[k].val == Print(vals[k], fields[k].typ)
  {
    if vals == [] {
      PartsEmpty(false);
    } else {
      FieldParts(vals, fields);
      var names, texts := FieldNames(fields), FieldTexts(vals, fields);
      PartsPrinted(PrintFields(vals, fields), false, names, texts);
      PartsAreEach(Parts(Boxed('{', PrintFields(vals, fields), '}'), false).value, names, texts);
    }
  }

  lemma {:induction false} CastStruct(vals: seq<Value>, t: Type)
    requires Carried(Struct(vals), t)
    ensures Cast(t, Print(Struct(vals), t)) == Some(Struct(CollapseItems(vals)))
    decreases vals, 2
  {
    var s := Boxed('{', PrintFields(vals, t.fields), '}');
    BoxedNotNull('{', PrintFields(vals, t.fields), '}', t);
    StructParts(vals, t.fields);
    var parts := Parts(s, false).value;
    forall k | 0 <= k < |vals| ensures Cast(t.fields[k].typ, parts[k].val) == Some(Collapse(vals[k])) {
      CastPrint(vals[k], t.fields[k].typ);
    }
    CastStructOf(t, s, parts, vals);
  }

  lemma CastStructOf(t: Type, s: string, parts: seq<Part>, vals: seq<Value>)
    requires t.StructOf? && NamesOK(t.fields) && |vals| == |t.fields| == |parts|
    requires !TextIsNull(t, s) && Parts(s, false) == Some(parts)
    requires forall i :: 0 <= i < |vals| ==>
               parts[i].key == t.fields[i].name && Cast(t.fields[i].typ, parts[i].val) == Some(Collapse(vals[i]))
    ensures Cast(t, s) == Some(Struct(CollapseItems(vals)))
  {
    CastFieldsFrom(t, parts, vals, seq(|t.fields|, _ => Null), 0);
    assert parts[0..] == parts;
  }

  lemma {:induction false} CastFieldsFrom(t: Type, parts: seq<Part>, vals: seq<Value>, acc: seq<Value>, k: nat)
    requires t.StructOf? && NamesOK(t.fields) && |vals| == |t.fields| == |acc| == |parts| && k <= |vals|
    requires forall i :: 0 <= i < |vals| ==>
               parts[i].key == t.fields[i].name && Cast(t.fields[i].typ, parts[i].val) == Some(Collapse(vals[i]))
    requires forall i :: 0 <= i < k ==> acc[i] == Collapse(vals[i])
    ensures CastFields(t, parts[k..], acc) == Some(CollapseItems(vals))
    decreases |vals| - k
  {
    if k == |vals| {
      assert acc == CollapseItems(vals);
    } else {
      FieldFound(t.fields, k, 0);
      assert parts[k..][0] == parts[k] && parts[k..][1..] == parts[k + 1..];
      CastFieldsFrom(t, parts, vals, acc[k := Collapse(vals[k])], k + 1);
    }
  }

  lemma CastMapOf(t: Type, s: string, keys: seq<string>, vals: seq<string>, all: seq<Entry>)
    requires t.MapOf? && !TextIsNull(t, s) && PartsAre(Parts(s, true), keys, vals) && |all| == |keys|
    requires forall i, j :: 0 <= i < j < |all| ==> all[i].key != all[j].key
    requires forall i :: 0 <= i < |all| ==>
               !all[i].key.Null? && Cast(t.key, keys[i]) == Some(all[i].key) &&
               Cast(t.value, vals[i]) == Some(all[i].val)
    ensures Cast(t, s) == Some(Map(all))
  {
    var parts := Parts(s, true).value;
    PartsAreEach(parts, keys, vals);
    CastEntriesFrom(t, parts, all, 0);
    assert parts[0..] == parts && all[..0] == [];
  }

  lemma {:induction false} CastMap(entries: seq<Entry>, t: Type)
    requires Carried(Map(entries), t)
    ensures Cast(t, Print(Map(entries), t)) == Some(Map(CollapseEntries(entries)))
    decreases entries, 3
  {
    var keys, vals := EntryTexts(entries, t.key, t.value).0, EntryTexts(entries, t.key, t.value).1;
    var all := CollapseEntries(entries);
    forall k | 0 <= k < |all|
      ensures !all[k].key.Null? && Cast(t.key, keys[k]) == Some(all[k].key) &&
                Cast(t.value, vals[k]) == Some(all[k].val)
    {
      CastEntry(entries[k], t.key, t.value);
    }
    if entries != [] { EntryParts(entries, t.key, t.value); }
    CastMapBody(t, PrintEntries(entries, t.key, t.value), keys, vals, all);
  }

  lemma CastMapBody(t: Type, body: string, keys: seq<string>, vals: seq<string>, all: seq<Entry>)
    requires t.MapOf? && |all| == |keys| == |vals|
    requires if |all| == 0 then body == "" else Yields(body, ReaderOf(true), keys, vals)
    requires forall i, j :: 0 <= i < j < |all| ==> all[i].key != all[j].key
    requires forall i :: 0 <= i < |all| ==>
               !all[i].key.Null? && Cast(t.key, keys[i]) == Some(all[i].key) &&
               Cast(t.value, vals[i]) == Some(all[i].val)
    ensures Cast(t, Boxed('{', body, '}')) == Some(Map(all))
  {
    BoxedNotNull('{', body, '}', t);
    if |all| == 0 { PartsEmpty(true); } else { PartsPrinted(body, true, keys, vals); }
    CastMapOf(t, Boxed('{', body, '}'), keys, vals, all);
  }

  lemma {:induction false} CastEntry(e: Entry, key: Type, value: Type)
    requires CarriedKey(e.key, key) && Carried(e.val, value)
    ensures !Collapse(e.key).Null?
    ensures Cast(key, Print(e.key, key)) == Some(Collapse(e.key))
    ensures Cast(value, Print(e.val, value)) == Some(Collapse(e.val))
    decreases e, 2
  {
    CastPrint(e.key, key);
    CastPrint(e.val, value);
  }

  lemma EntriesStep(t: Type, parts: seq<Part>, acc: seq<Entry>, e: Entry)
    requires t.MapOf? && |parts| > 0 && !e.key.Null?
    requires Cast(t.key, parts[0].key) == Some(e.key) && Cast(t.value, parts[0].val) == Some(e.val)
    requires forall i :: 0 <= i < |acc| ==> acc[i].key != e.key
    ensures CastEntries(t, parts, acc) == CastEntries(t, parts[1..], acc + [e])
  {
  }

  /** The parts from k on are read as these entries, whose keys are pairwise different and not null. */
  lemma {:induction false} CastEntriesFrom(t: Type, parts: seq<Part>, all: seq<Entry>, k: nat)
    requires t.MapOf? && |parts| == |all| && k <= |all|
    requires forall i, j :: 0 <= i < j < |all| ==> all[i].key != all[j].key
    requires forall i :: 0 <= i < |all| ==>
               && !all[i].key.Null?
               && Cast(t.key, parts[i].key) == Some(all[i].key) && Cast(t.value, parts[i].val) == Some(all[i].val)
    ensures CastEntries(t, parts[k..], all[..k]) == Some(all)
    decreases |all| - k
  {
    if k < |all| {
      assert parts[k..][0] == parts[k] && parts[k..][1..] == parts[k + 1..];
      assert all[..k] + [all[k]] == all[..k + 1];
      EntriesStep(t, parts[k..], all[..k], all[k]);
      CastEntriesFrom(t, parts, all, k + 1);
    } else {
      assert all[..k] == all;
    }
  }

  /** The text format carries a value faithfully exactly when no list in it is a lone null. */
  lemma RoundTripIff(v: Value, t: Type)
    requires Carried(v, t)
    ensures Cast(t, Print(v, t)) == Some(v) <==> NoLoneNull(v)
  {
    CastPrint(v, t);
    CollapseKeepsIff(v);
  }
}
