/** JSON values as the filters see them: comparison, equality and the `$` operators. */
module Json {
  import opened Prelude
  import opened Ordering
  import opened Like
  import Links

  /** Printed text of a floating point number; it starts with a sign or a digit. */
  type NumberText = s: string | s != "" && (s[0] == '-' || Links.IsDigit(s[0])) witness "0"

  datatype Number =
    | Integer(value: int)
    | Float(f64: real, text: NumberText)

  /** Spacing of doubles at `n`: the least power of two (times `unit`) that leaves at most 53 bits. */
  function Spacing(n: nat, unit: nat): (u: nat)
    requires unit > 0
    ensures u > 0
    decreases if n < 0x20_0000_0000_0000 * unit then 0 else n - unit
  {
    if n < 0x20_0000_0000_0000 * unit then unit else Spacing(n, 2 * unit)
  }

  /** Integer to double, to the nearest, ties to even. */
  function ToDouble(n: nat): nat {
    var u := Spacing(n, 1);
    var q, r := n / u, n % u;
    if 2 * r > u || (2 * r == u && q % 2 == 1) then (q + 1) * u else q * u
  }

  /** `Number::as_f64`. */
  function AsF64(n: Number): real {
    match n
    case Integer(i) => if i < 0 then -(ToDouble(-i) as real) else ToDouble(i) as real
    case Float(f, _) => f
  }

  datatype Value =
    | Null
    | Bool(b: bool)
    | Num(n: Number)
    | Str(s: string)
    | Arr(items: seq<Value>)
    | Obj(fields: seq<(string, Value)>)

  // -------------------------------------------------------------- printing

  function HexDigit(n: nat): char
    requires n < 16
  {
    "0123456789abcdef"[n]
  }

  function EscapeChar(c: char): string {
    if c == '\"' then "\\\""
    else if c == '\\' then "\\\\"
    else if c == '\n' then "\\n"
    else if c == '\r' then "\\r"
    else if c == '\t' then "\\t"
    else if c as int == 8 then "\\b"
    else if c as int == 12 then "\\f"
    else if c as int < 32 then "\\u00" + [HexDigit(c as int / 16), HexDigit(c as int % 16)]
    else [c]
  }

  function Quote(s: string): string {
    "\"" + Flatten(Map(EscapeChar, s)) + "\""
  }

  function PrintNumber(n: Number): NumberText {
    match n
    case Float(_, text) => text
    case Integer(i) =>
      if i < 0 then "-" + Links.Decimal(-i) else assert Links.IsDigit(Links.Decimal(i)[0]); Links.Decimal(i)
  }

  /** Compact JSON text. */
  function Print(v: Value): string
    decreases v, 1
  {
    match v
    case Null => "null"
    case Bool(b) => if b then "true" else "false"
    case Num(n) => PrintNumber(n)
    case Str(s) => Quote(s)
    case Arr(items) => "[" + PrintItems(v, |items|) + "]"
    case Obj(fields) => "{" + PrintFields(v, |fields|) + "}"
  }

  function PrintItems(v: Value, n: nat): string
    requires v.Arr? && n <= |v.items|
    decreases v, 0, n
  {
    if n == 0 then "" else PrintItems(v, n - 1) + (if n == 1 then "" else ",") + Print(v.items[n - 1])
  }

  function PrintFields(v: Value, n: nat): string
    requires v.Obj? && n <= |v.fields|
    decreases v, 0, n
  {
    if n == 0 then "" else
      PrintFields(v, n - 1) + (if n == 1 then "" else ",") + Quote(v.fields[n - 1].0) + ":" + Print(v.fields[n - 1].1)
  }

  // ------------------------------------------------------------ comparison

  function RealCmp(a: real, b: real): Order {
    if a < b then Less else if a == b then Equal else Greater
  }

  /** Numbers by value, strings by code point, booleans false first, anything else by printed text. */
  function Compare(a: Value, b: Value): Order {
    match (a, b)
    case (Num(x), Num(y)) => RealCmp(AsF64(x), AsF64(y))
    case (Str(x), Str(y)) => StrCmp(x, y)
    case (Bool(x), Bool(y)) => if x == y then Equal else if y then Less else Greater
    case _ => StrCmp(Print(a), Print(b))
  }

  /** Where the first printed character puts a value; note that null falls between false and true. */
  function Rank(v: Value): nat {
    match v
    case Str(_) => 0
    case Num(_) => 1
    case Arr(_) => 2
    case Bool(b) => if b then 5 else 3
    case Null => 4
    case Obj(_) => 6
  }

  lemma FirstCharacter(v: Value)
    ensures var t := Print(v);
      t != "" &&
      match v
      case Str(_) => t[0] == '\"'
      case Num(_) => t[0] == '-' || Links.IsDigit(t[0])
      case Arr(_) => t[0] == '['
      case Bool(b) => t[0] == if b then 't' else 'f'
      case Null => t[0] == 'n'
      case Obj(_) => t[0] == '{'
  {
  }

  lemma CompareAcrossRanks(a: Value, b: Value)
    requires Rank(a) < Rank(b)
    ensures Compare(a, b) == Less && Compare(b, a) == Greater
  {
    FirstCharacter(a);
    FirstCharacter(b);
    assert Print(a)[0] < Print(b)[0];
  }

  lemma CompareWithinRank(a: Value, b: Value)
    requires Rank(a) == Rank(b)
    ensures Compare(a, b) ==
      match a
      case Num(x) => RealCmp(AsF64(x), AsF64(b.n))
      case Str(x) => StrCmp(x, b.s)
      case Bool(_) => Equal
      case Null => Equal
      case _ => StrCmp(Print(a), Print(b))
  {
    StrCmpEqual("null", "null");
  }

  lemma CompareFlips(a: Value, b: Value)
    ensures Compare(b, a) == Flip(Compare(a, b))
  {
    if Rank(a) == Rank(b) {
      CompareWithinRank(a, b);
      CompareWithinRank(b, a);
      StrCmpFlip(Print(a), Print(b));
      if a.Str? {
        StrCmpFlip(a.s, b.s);
      }
    } else if Rank(a) < Rank(b) {
      CompareAcrossRanks(a, b);
    } else {
      CompareAcrossRanks(b, a);
    }
  }

  lemma CompareRespectsRank(a: Value, b: Value)
    requires Compare(a, b) != Greater
    ensures Rank(a) <= Rank(b)
  {
    if Rank(b) < Rank(a) {
      CompareAcrossRanks(b, a);
    }
  }

  lemma CompareTransitive(a: Value, b: Value, c: Value)
    requires Compare(a, b) != Greater && Compare(b, c) != Greater
    ensures Compare(a, c) != Greater
  {
    CompareRespectsRank(a, b);
    CompareRespectsRank(b, c);
    if Rank(a) < Rank(c) {
      CompareAcrossRanks(a, c);
    } else {
      CompareWithinRank(a, b);
      CompareWithinRank(b, c);
      CompareWithinRank(a, c);
      if a.Str? {
        StrLeqTransitive(a.s, b.s, c.s);
      } else if a.Arr? || a.Obj? {
        StrLeqTransitive(Print(a), Print(b), Print(c));
      }
    }
  }

  predicate Leq(a: Value, b: Value) {
    Compare(a, b) != Greater
  }

  /** The comparison is a total preorder on all JSON values, and its reverse agrees with it. */
  lemma CompareIsTotalPreorder()
    ensures TotalPreorder(Leq)
    ensures forall a, b :: Compare(b, a) == Flip(Compare(a, b))
  {
    forall a, b ensures Compare(b, a) == Flip(Compare(a, b)) {
      CompareFlips(a, b);
    }
    forall a, b, c | Leq(a, b) && Leq(b, c) ensures Leq(a, c) {
      CompareTransitive(a, b, c);
    }
  }

  // -------------------------------------------------------------- equality

  /** `==` on JSON values; an integer never equals a float. */
  predicate JsonEq(a: Value, b: Value)
    decreases a
  {
    match (a, b)
    case (Null, Null) => true
    case (Bool(x), Bool(y)) => x == y
    case (Num(x), Num(y)) => if x.Integer? then y.Integer? && x.value == y.value else y.Float? && x.f64 == y.f64
    case (Str(x), Str(y)) => x == y
    case (Arr(x), Arr(y)) => |x| == |y| && forall i :: 0 <= i < |x| ==> JsonEq(x[i], y[i])
    case (Obj(x), Obj(y)) => |x| == |y| && forall i :: 0 <= i < |x| ==> x[i].0 == y[i].0 && JsonEq(x[i].1, y[i].1)
    case _ => false
  }

  lemma {:induction false} JsonEqReflexive(a: Value)
    ensures JsonEq(a, a)
    decreases a
  {
    match a
    case Arr(x) =>
      forall i | 0 <= i < |x| ensures JsonEq(x[i], x[i]) {
        JsonEqReflexive(x[i]);
      }
    case Obj(x) =>
      forall i | 0 <= i < |x| ensures JsonEq(x[i].1, x[i].1) {
        JsonEqReflexive(x[i].1);
      }
    case _ =>
  }

  lemma {:induction false} JsonEqSymmetric(a: Value, b: Value)
    ensures JsonEq(a, b) == JsonEq(b, a)
    decreases a
  {
    match (a, b)
    case (Arr(x), Arr(y)) =>
      if |x| == |y| {
        forall i | 0 <= i < |x| ensures JsonEq(x[i], y[i]) == JsonEq(y[i], x[i]) {
          JsonEqSymmetric(x[i], y[i]);
        }
      }
    case (Obj(x), Obj(y)) =>
      if |x| == |y| {
        forall i | 0 <= i < |x| ensures JsonEq(x[i].1, y[i].1) == JsonEq(y[i].1, x[i].1) {
          JsonEqSymmetric(x[i].1, y[i].1);
        }
      }
    case _ =>
  }

  // --------------------------------------------------------------- filters

  /** `$gt`, `$gte`, `$lt`, `$lte`, `$ne`, `$in`, `$like`; any other name accepts everything. */
  datatype Operator = Gt | Gte | Lt | Lte | Ne | In | LikeOp | Unknown

  ghost predicate Satisfies(v: Value, op: Operator, operand: Value) {
    match op
    case Gt => Compare(v, operand) == Greater
    case Gte => Compare(v, operand) in {Greater, Equal}
    case Lt => Compare(v, operand) == Less
    case Lte => Compare(v, operand) in {Less, Equal}
    case Ne => Compare(v, operand) != Equal
    case In => operand.Arr? && exists i :: 0 <= i < |operand.items| && JsonEq(v, operand.items[i])
    case LikeOp => v.Str? && operand.Str? && Decomposes(v.s, Segments(operand.s))
    case Unknown => true
  }

  /** The order operators agree with one another on every pair of values, in both argument orders. */
  lemma FilterOperatorsAgree(v: Value, w: Value)
    ensures Satisfies(v, Gte, w) <==> !Satisfies(v, Lt, w)
    ensures Satisfies(v, Lte, w) <==> !Satisfies(v, Gt, w)
    ensures Satisfies(v, Gt, w) <==> Satisfies(w, Lt, v)
    ensures Satisfies(v, Gte, w) <==> Satisfies(w, Lte, v)
    ensures Satisfies(v, Ne, w) <==> Satisfies(v, Lt, w) || Satisfies(v, Gt, w)
    ensures !(Satisfies(v, Lt, w) && Satisfies(v, Gt, w))
  {
    CompareFlips(v, w);
  }

  /** Adjacent half-open ranges split a range: whatever mixture of types the bounds and the value have, a value
      in [lo, hi) is in exactly one of [lo, mid) and [mid, hi), and conversely. */
  lemma RangesSplit(v: Value, lo: Value, mid: Value, hi: Value)
    requires Leq(lo, mid) && Leq(mid, hi)
    ensures var below := Satisfies(v, Gte, lo) && Satisfies(v, Lt, mid);
      var above := Satisfies(v, Gte, mid) && Satisfies(v, Lt, hi);
      && !(below && above)
      && (Satisfies(v, Gte, lo) && Satisfies(v, Lt, hi) <==> below || above)
  {
    FilterOperatorsAgree(v, lo);
    FilterOperatorsAgree(v, mid);
    FilterOperatorsAgree(v, hi);
    if Leq(mid, v) {
      CompareTransitive(lo, mid, v);
    }
    if Leq(hi, v) {
      CompareTransitive(mid, hi, v);
    }
  }
}
