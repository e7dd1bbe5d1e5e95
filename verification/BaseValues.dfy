/** Values of the base types, their equality and their order, as the comparison of two slots uses them. */
module BaseValues {
  import opened Basics

  datatype Tag = BoolTag | IntTag(signed: bool, bits: nat) | FloatTag(bits: nat) | TextTag | IdTag | IntervalTag

  /** A floating-point number; the two zeros are one value, and not-a-number carries its bits. */
  datatype Number = NaN(payload: nat) | NegInf | Finite(r: real) | PosInf

  datatype BaseValue =
    | Bool(b: bool)
    | Int(signed: bool, bits: nat, n: int)
    | Float(bits: nat, x: Number)
    | Text(chars: seq<byte>)
    | Id(table: nat, offset: nat)
    | Interval(months: int, days: int, micros: int)

  function TagOf(x: BaseValue): Tag {
    match x
    case Bool(_) => BoolTag
    case Int(signed, bits, _) => IntTag(signed, bits)
    case Float(bits, _) => FloatTag(bits)
    case Text(_) => TextTag
    case Id(_, _) => IdTag
    case Interval(_, _, _) => IntervalTag
  }

  predicate IsNaN(x: BaseValue) {
    x.Float? && x.x.NaN?
  }

  /** Not-a-number is equal to nothing, itself included. */
  predicate BaseEqual(x: BaseValue, y: BaseValue) {
    x == y && !IsNaN(x)
  }

  // ----- strings: the prefix first, then everything up to the shorter length, then the lengths

  const PREFIX_LENGTH: nat := 4

  /** The difference of the first bytes that differ among n, from position i on. */
  function MemCmp(a: seq<byte>, b: seq<byte>, i: nat, n: nat): int
    requires i <= n <= |a| && n <= |b|
    decreases n - i
  {
    if i == n then 0 else if a[i] != b[i] then a[i] - b[i] else MemCmp(a, b, i + 1, n)
  }

  predicate TextGreater(a: seq<byte>, b: seq<byte>) {
    var shared := Min(|a|, |b|);
    var prefix := MemCmp(a, b, 0, Min(shared, PREFIX_LENGTH));
    var c := if prefix == 0 && |a| > PREFIX_LENGTH then MemCmp(a, b, 0, shared) else prefix;
    if c == 0 then |a| > |b| else c > 0
  }

  /** The lexicographic order of byte strings. */
  predicate LexGreater(a: seq<byte>, b: seq<byte>) {
    if a == [] || b == [] then |a| > |b|
    else a[0] > b[0] || (a[0] == b[0] && LexGreater(a[1..], b[1..]))
  }

  lemma {:induction false} MemCmpDecides(a: seq<byte>, b: seq<byte>, i: nat, n: nat)
    requires i <= n <= |a| && n <= |b|
    ensures MemCmp(a, b, i, n) > 0 ==> LexGreater(a[i..], b[i..])
    ensures MemCmp(a, b, i, n) < 0 ==> !LexGreater(a[i..], b[i..])
    ensures MemCmp(a, b, i, n) == 0 ==> LexGreater(a[i..], b[i..]) == LexGreater(a[n..], b[n..])
    decreases n - i
  {
    if i < n {
      assert a[i..][1..] == a[i + 1..] && b[i..][1..] == b[i + 1..];
      if a[i] == b[i] { MemCmpDecides(a, b, i + 1, n); }
    }
  }

  lemma TextIsLex(a: seq<byte>, b: seq<byte>)
    ensures TextGreater(a, b) == LexGreater(a, b)
  {
    var shared := Min(|a|, |b|);
    MemCmpDecides(a, b, 0, Min(shared, PREFIX_LENGTH));
    MemCmpDecides(a, b, 0, shared);
    assert a[0..] == a && b[0..] == b;
  }

  lemma {:induction false} LexIrreflexive(a: seq<byte>)
    ensures !LexGreater(a, a)
  {
    if a != [] { LexIrreflexive(a[1..]); }
  }

  lemma {:induction false} LexTransitive(a: seq<byte>, b: seq<byte>, c: seq<byte>)
    requires LexGreater(a, b) && LexGreater(b, c)
    ensures LexGreater(a, c)
  {
    if b != [] && c != [] && a[0] == b[0] == c[0] { LexTransitive(a[1..], b[1..], c[1..]); }
  }

  lemma {:induction false} LexTotal(a: seq<byte>, b: seq<byte>)
    ensures a == b || LexGreater(a, b) || LexGreater(b, a)
  {
    if a != [] && b != [] {
      LexTotal(a[1..], b[1..]);
      assert a == [a[0]] + a[1..] && b == [b[0]] + b[1..];
    }
  }

  // ----- intervals: a month counts as thirty days

  const DAYS_PER_MONTH: int := 30
  const MICROS_PER_DAY: int := 86_400_000_000
  const MICROS_PER_MONTH: int := 2_592_000_000_000

  /** Months, days and microseconds after carrying, toward zero. */
  function Normalized(x: BaseValue): (int, int, int)
    requires x.Interval?
  {
    var fromDays, fromMicros := TruncDiv(x.days, DAYS_PER_MONTH), TruncDiv(x.micros, MICROS_PER_MONTH);
    var days, micros := x.days - fromDays * DAYS_PER_MONTH, x.micros - fromMicros * MICROS_PER_MONTH;
    var carried := TruncDiv(micros, MICROS_PER_DAY);
    (x.months + fromDays + fromMicros, days + carried, micros - carried * MICROS_PER_DAY)
  }

  predicate TripleGreater(a: (int, int, int), b: (int, int, int)) {
    if a.0 != b.0 then a.0 > b.0 else if a.1 != b.1 then a.1 > b.1 else a.2 > b.2
  }

  predicate IntervalGreater(x: BaseValue, y: BaseValue)
    requires x.Interval? && y.Interval?
  {
    TripleGreater(Normalized(x), Normalized(y))
  }

  /** Equality compares the fields and the order compares the normalized fields, so two intervals are equal or
      ordered if and only if they are the same or normalize differently. */
  lemma IntervalsOrderedIff(x: BaseValue, y: BaseValue)
    requires x.Interval? && y.Interval?
    ensures x == y || IntervalGreater(x, y) || IntervalGreater(y, x) <==> x == y || Normalized(x) != Normalized(y)
  {
  }

  /** Thirty days and one month: different, and neither is greater. */
  lemma MonthIsThirtyDays()
    ensures var x, y := Interval(0, 30, 0), Interval(1, 0, 0);
            x != y && !IntervalGreater(x, y) && !IntervalGreater(y, x)
  {
    assert Normalized(Interval(0, 30, 0)) == (1, 0, 0) == Normalized(Interval(1, 0, 0));
  }

  // ----- the order of base values

  predicate NumberGreater(x: Number, y: Number) {
    match (x, y)
    case (Finite(r), Finite(s)) => r > s
    case (PosInf, Finite(_)) => true
    case (PosInf, NegInf) => true
    case (Finite(_), NegInf) => true
    case _ => false
  }

  predicate BaseGreater(x: BaseValue, y: BaseValue) {
    TagOf(x) == TagOf(y) &&
    match x
    case Bool(b) => b && !y.b
    case Int(_, _, n) => n > y.n
    case Float(_, v) => NumberGreater(v, y.x)
    case Text(chars) => TextGreater(chars, y.chars)
    case Id(table, offset) => table > y.table || (table == y.table && offset > y.offset)
    case Interval(_, _, _) => IntervalGreater(x, y)
  }

  /** Base types with neither a not-a-number nor different values that normalize alike. */
  predicate TotalTag(t: Tag) {
    !t.FloatTag? && !t.IntervalTag?
  }

  lemma BaseIrreflexive(x: BaseValue)
    ensures !BaseGreater(x, x)
  {
    if x.Text? {
      TextIsLex(x.chars, x.chars);
      LexIrreflexive(x.chars);
    }
  }

  lemma BaseTransitive(x: BaseValue, y: BaseValue, z: BaseValue)
    requires BaseGreater(x, y) && BaseGreater(y, z)
    ensures BaseGreater(x, z)
  {
    if x.Text? {
      TextIsLex(x.chars, y.chars);
      TextIsLex(y.chars, z.chars);
      TextIsLex(x.chars, z.chars);
      LexTransitive(x.chars, y.chars, z.chars);
    }
  }

  lemma BaseTotal(x: BaseValue, y: BaseValue)
    requires TagOf(x) == TagOf(y) && TotalTag(TagOf(x))
    ensures BaseEqual(x, y) || BaseGreater(x, y) || BaseGreater(y, x)
  {
    if x.Text? {
      TextIsLex(x.chars, y.chars);
      TextIsLex(y.chars, x.chars);
      LexTotal(x.chars, y.chars);
    }
  }

  /** Two values of any other base type that are neither equal nor ordered. */
  function Unordered(t: Tag): (r: (BaseValue, BaseValue))
    requires !TotalTag(t)
  {
    if t.FloatTag? then (Float(t.bits, NaN(0)), Float(t.bits, NaN(0))) else (Interval(0, 30, 0), Interval(1, 0, 0))
  }

  lemma UnorderedPair(t: Tag)
    requires !TotalTag(t)
    ensures var (x, y) := Unordered(t);
            && TagOf(x) == t && TagOf(y) == t
            && !BaseEqual(x, y) && !BaseGreater(x, y) && !BaseGreater(y, x)
  {
    MonthIsThirtyDays();
  }
}
