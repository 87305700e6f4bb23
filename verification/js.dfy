/** The loosely typed JavaScript values the dashboard reads from its JSON
    snapshot, and the conversions the source applies to them: truthiness,
    `Number(x)`, `String(x)`, `toFixed(2)`, `x | 0`, `JSON.stringify`,
    property access and object spread.

    Numbers are modelled as exact decimals `mant / 10^exp` (plus `NaN` and the
    two infinities): a number written in the JSON snapshot is a decimal
    literal, and exact decimals let `String(x)` and `toFixed(2)` be computed.
    Binary floating-point rounding is not part of the model. */
module Js {
  import opened Base
  import opened Text

  // ================================================================ numbers

  datatype Number = Fin(mant: int, exp: nat) | NaN | PosInf | NegInf

  const Zero: Number := Fin(0, 0)
  const One: Number := Fin(1, 0)

  /** A finite number, such as any sum of finite counts. */
  type Finite = n: Number | n.Fin? witness Zero

  function Pow10(k: nat): (p: nat)
    ensures p >= 1
  {
    if k == 0 then 1 else 10 * Pow10(k - 1)
  }

  lemma {:induction false} Pow10Add(a: nat, b: nat)
    ensures Pow10(a + b) == Pow10(a) * Pow10(b)
    decreases a
  {
    if a > 0 {
      Pow10Add(a - 1, b);
      assert Pow10(a + b) == 10 * Pow10(a - 1 + b);
    }
  }

  function Max(a: nat, b: nat): nat {
    if a >= b then a else b
  }

  /** The exact value of a finite number. */
  function Val(n: Number): real
    requires n.Fin?
  {
    n.mant as real / Pow10(n.exp) as real
  }

  lemma ValSign(n: Number)
    requires n.Fin?
    ensures Val(n) > 0.0 <==> n.mant > 0
    ensures Val(n) == 0.0 <==> n.mant == 0
    ensures Val(n) < 0.0 <==> n.mant < 0
  {
    var p := Pow10(n.exp) as real;
    assert Val(n) * p == n.mant as real;
  }

  /** `Number.isFinite`. */
  predicate IsFinite(n: Number) {
    n.Fin?
  }

  /** The mantissa of a finite number rewritten with `e` decimal places. */
  function Scaled(n: Number, e: nat): int
    requires n.Fin? && e >= n.exp
  {
    n.mant * Pow10(e - n.exp)
  }

  /** JavaScript `+` on numbers. */
  function Add(a: Number, b: Number): Number {
    if a.NaN? || b.NaN? then NaN
    else if (a.PosInf? && b.NegInf?) || (a.NegInf? && b.PosInf?) then NaN
    else if a.PosInf? || b.PosInf? then PosInf
    else if a.NegInf? || b.NegInf? then NegInf
    else
      var e := Max(a.exp, b.exp);
      Fin(Scaled(a, e) + Scaled(b, e), e)
  }

  /** Unary minus. */
  function Neg(a: Number): Number {
    match a
    case Fin(m, e) => Fin(-m, e)
    case NaN => NaN
    case PosInf => NegInf
    case NegInf => PosInf
  }

  /** JavaScript `-` on numbers. */
  function Sub(a: Number, b: Number): Number {
    Add(a, Neg(b))
  }

  /** -1, 0 or 1 for a non-NaN number. */
  function Sign(a: Number): int
    requires !a.NaN?
  {
    match a
    case Fin(m, _) => if m > 0 then 1 else if m < 0 then -1 else 0
    case PosInf => 1
    case NegInf => -1
  }

  /** JavaScript `*` on numbers. */
  function Mul(a: Number, b: Number): Number {
    if a.NaN? || b.NaN? then NaN
    else if a.Fin? && b.Fin? then Fin(a.mant * b.mant, a.exp + b.exp)
    else if Sign(a) == 0 || Sign(b) == 0 then NaN
    else if Sign(a) * Sign(b) > 0 then PosInf
    else NegInf
  }

  lemma AddCommutes(a: Number, b: Number)
    ensures Add(a, b) == Add(b, a)
  {
  }

  lemma AddZero(a: Number)
    ensures Add(Zero, a) == a && Add(a, Zero) == a
  {
  }

  /** Integers add exactly. */
  lemma AddIntegers(i: int, j: int)
    ensures Add(Fin(i, 0), Fin(j, 0)) == Fin(i + j, 0)
  {
    assert Pow10(0) == 1;
  }

  lemma ScaledUp(n: Number, e: nat, f: nat)
    requires n.Fin? && n.exp <= e <= f
    ensures Scaled(n, e) * Pow10(f - e) == Scaled(n, f)
  {
    Pow10Add(e - n.exp, f - e);
    assert f - n.exp == (e - n.exp) + (f - e);
  }

  /** Rewriting a sum at a larger scale rewrites each summand. */
  lemma ScaledOfAdd(a: Number, b: Number, e: nat)
    requires a.Fin? && b.Fin? && e >= a.exp && e >= b.exp
    ensures Add(a, b).Fin? && e >= Add(a, b).exp
    ensures Scaled(Add(a, b), e) == Scaled(a, e) + Scaled(b, e)
  {
    var f := Max(a.exp, b.exp);
    ScaledUp(a, f, e);
    ScaledUp(b, f, e);
    var x, y, p := Scaled(a, f), Scaled(b, f), Pow10(e - f);
    assert (x + y) * p == x * p + y * p;
  }

  /** Exact addition is associative, so sums may be regrouped freely. */
  lemma AddAssociates(a: Number, b: Number, c: Number)
    ensures Add(Add(a, b), c) == Add(a, Add(b, c))
  {
    if a.Fin? && b.Fin? && c.Fin? {
      var e := Max(Max(a.exp, b.exp), c.exp);
      ScaledOfAdd(a, b, e);
      ScaledOfAdd(b, c, e);
      assert Scaled(a, e) == Scaled(a, e) * 1;
      assert Add(Add(a, b), c) == Fin(Scaled(Add(a, b), e) + Scaled(c, e) * Pow10(0), e);
      assert Add(a, Add(b, c)) == Fin(Scaled(a, e) * Pow10(0) + Scaled(Add(b, c), e), e);
    }
  }

  // ---------------------------------------------------------------- comparison

  /** JavaScript `a < b` on numbers (false whenever `NaN` is involved). */
  predicate Lt(a: Number, b: Number) {
    if a.NaN? || b.NaN? then false
    else if a.Fin? && b.Fin? then Val(a) < Val(b)
    else if a.NegInf? then !b.NegInf?
    else if b.PosInf? then !a.PosInf?
    else false
  }

  /** JavaScript `a === b` on numbers. */
  predicate NumEq(a: Number, b: Number) {
    if a.Fin? && b.Fin? then Val(a) == Val(b)
    else (a.PosInf? && b.PosInf?) || (a.NegInf? && b.NegInf?)
  }

  /** JavaScript `a <= b` on numbers. */
  predicate Le(a: Number, b: Number) {
    !a.NaN? && !b.NaN? && !Lt(b, a)
  }

  lemma LeIsLtOrEq(a: Number, b: Number)
    ensures Le(a, b) <==> Lt(a, b) || NumEq(a, b)
  {
  }

  lemma LtTransitive(a: Number, b: Number, c: Number)
    requires Lt(a, b) && Lt(b, c)
    ensures Lt(a, c)
  {
  }

  lemma LeTransitive(a: Number, b: Number, c: Number)
    requires Le(a, b) && Le(b, c)
    ensures Le(a, c)
  {
  }

  /** A finite value read at a finer scale. */
  lemma ValAtScale(n: Number, e: nat)
    requires n.Fin? && e >= n.exp
    ensures Val(n) == Scaled(n, e) as real / Pow10(e) as real
  {
    var k: nat := e - n.exp;
    ScaledQuotient(n.mant, n.exp, k);
    assert Scaled(n, e) == n.mant * Pow10(k);
    assert Pow10(e) == Pow10(n.exp + k);
  }

  lemma ScaledQuotient(m: int, x: nat, k: nat)
    ensures (m * Pow10(k)) as real / Pow10(x + k) as real == m as real / Pow10(x) as real
  {
    Pow10Add(x, k);
    ScaleQuotient(m, Pow10(x), Pow10(k), m * Pow10(k), Pow10(x + k));
  }

  lemma ScaleQuotient(m: int, p1: nat, p2: nat, sc: int, p: nat)
    requires p1 > 0 && p2 > 0
    requires sc == m * p2 && p == p1 * p2
    ensures sc as real / p as real == m as real / p1 as real
  {
    CastProduct(p1, p2);
    CastProduct(m, p2);
    CancelFactor(m as real, p1 as real, p2 as real);
  }

  lemma CastProduct(a: int, b: int)
    ensures (a * b) as real == a as real * b as real
  {
  }

  lemma CancelFactor(m: real, p1: real, p2: real)
    requires p1 > 0.0 && p2 > 0.0
    ensures (m * p2) / (p1 * p2) == m / p1
  {
    assert (m / p1) * (p1 * p2) == m * p2;
  }

  /** Finite addition is exact. */
  lemma AddVal(a: Number, b: Number)
    requires a.Fin? && b.Fin?
    ensures Add(a, b).Fin? && Val(Add(a, b)) == Val(a) + Val(b)
  {
    var e := Max(a.exp, b.exp);
    ValAtScale(a, e);
    ValAtScale(b, e);
    DivAdd(Scaled(a, e) as real, Scaled(b, e) as real, Pow10(e) as real);
  }

  lemma DivAdd(x: real, y: real, p: real)
    requires p > 0.0
    ensures (x + y) / p == x / p + y / p
  {
  }

  lemma NegVal(a: Number)
    requires a.Fin?
    ensures Neg(a).Fin? && Val(Neg(a)) == -Val(a)
  {
  }

  /** Finite subtraction is exact. */
  lemma SubVal(a: Number, b: Number)
    requires a.Fin? && b.Fin?
    ensures Sub(a, b).Fin? && Val(Sub(a, b)) == Val(a) - Val(b)
  {
    NegVal(b);
    AddVal(a, Neg(b));
  }

  /** Finite multiplication is exact. */
  lemma MulVal(a: Number, b: Number)
    requires a.Fin? && b.Fin?
    ensures Mul(a, b).Fin? && Val(Mul(a, b)) == Val(a) * Val(b)
  {
    Pow10Add(a.exp, b.exp);
    ProductQuotient(a.mant, b.mant, Pow10(a.exp), Pow10(b.exp), a.mant * b.mant, Pow10(a.exp + b.exp));
  }

  lemma ProductQuotient(x: int, y: int, p: nat, q: nat, xy: int, pq: nat)
    requires p > 0 && q > 0 && xy == x * y && pq == p * q
    ensures xy as real / pq as real == (x as real / p as real) * (y as real / q as real)
  {
    CastProduct(x, y);
    CastProduct(p, q);
    DivMul(x as real, y as real, p as real, q as real);
  }

  lemma DivMul(x: real, y: real, p: real, q: real)
    requires p > 0.0 && q > 0.0
    ensures (x * y) / (p * q) == (x / p) * (y / q)
  {
  }

  /** `b - a` of two finite numbers is finite, and its sign compares them. */
  lemma SubSign(a: Number, b: Number)
    requires a.Fin? && b.Fin?
    ensures Sub(b, a).Fin?
    ensures Sub(b, a).mant > 0 <==> Val(a) < Val(b)
    ensures Sub(b, a).mant == 0 <==> Val(a) == Val(b)
  {
    var e := Max(a.exp, b.exp);
    assert Scaled(Neg(a), e) == -Scaled(a, e);
    assert Sub(b, a) == Fin(Scaled(b, e) - Scaled(a, e), e);
    ValAtScale(a, e);
    ValAtScale(b, e);
    var p := Pow10(e) as real;
    assert Val(a) < Val(b) <==> Scaled(a, e) as real < Scaled(b, e) as real;
  }

  /** Rank used to place every number, `NaN` included, in one total preorder:
      -Infinity, the finite values, +Infinity, then NaN. */
  function Tier(a: Number): nat {
    match a
    case NegInf => 0
    case Fin(_, _) => 1
    case PosInf => 2
    case NaN => 3
  }

  /** A total preorder on numbers that agrees with `<=` away from `NaN`. */
  predicate NumOrderLe(a: Number, b: Number) {
    Tier(a) < Tier(b) || (Tier(a) == Tier(b) && (a.Fin? ==> Val(a) <= Val(b)))
  }

  lemma NumOrderAgrees(a: Number, b: Number)
    requires !a.NaN? && !b.NaN?
    ensures NumOrderLe(a, b) <==> Le(a, b)
    ensures NumOrderLe(a, b) && NumOrderLe(b, a) <==> NumEq(a, b)
  {
  }

  lemma NumOrderTotalPreorder(a: Number, b: Number, c: Number)
    ensures NumOrderLe(a, a)
    ensures NumOrderLe(a, b) || NumOrderLe(b, a)
    ensures NumOrderLe(a, b) && NumOrderLe(b, c) ==> NumOrderLe(a, c)
  {
  }

  // ---------------------------------------------------------------- numbers as text

  /** `String(n)`. Finite values are written positionally with no trailing
      fractional zeros; the exponent notation JavaScript uses beyond 1e21 and
      below 1e-6 is not modelled. */
  function NumberToString(n: Number): string {
    match n
    case NaN => "NaN"
    case PosInf => "Infinity"
    case NegInf => "-Infinity"
    case Fin(m, e) =>
      var magnitude: nat := if m < 0 then -m else m;
      var digits := ZeroPad(NatToString(magnitude), e + 1);
      var intPart := digits[..|digits| - e];
      var frac := StripTrailingZeros(digits[|digits| - e..]);
      (if m < 0 then "-" else "") + intPart + (if |frac| == 0 then "" else "." + frac)
  }

  /** Left-pads with '0' to at least `width` characters. */
  function ZeroPad(s: string, width: nat): (r: string)
    ensures |r| >= width && |r| >= |s|
    decreases width - |s|
  {
    if |s| >= width then s else ZeroPad("0" + s, width)
  }

  function StripTrailingZeros(s: string): (r: string)
    ensures |r| <= |s|
  {
    if |s| > 0 && s[|s| - 1] == '0' then StripTrailingZeros(s[..|s| - 1]) else s
  }

  /** `toFixed(2)` magnitude: the number of hundredths in `|n|`, rounding a half up
      (ties go to the larger magnitude, as `toFixed` does). */
  function RoundedHundredths(n: Number): nat
    requires n.Fin?
  {
    var a: nat := if n.mant < 0 then -n.mant else n.mant;
    if n.exp <= 2 then MulPow10(a, 2 - n.exp)
    else DivPow10(a + MulPow10(5, n.exp - 3), n.exp - 2)
  }

  /** `x * 10^k`, written with linear steps. */
  function MulPow10(x: nat, k: nat): nat {
    if k == 0 then x else MulPow10(x, k - 1) * 10
  }

  /** `x / 10^k` (rounding down), written with linear steps. */
  function DivPow10(x: nat, k: nat): nat {
    if k == 0 then x else DivPow10(x / 10, k - 1)
  }

  /** The two-character text of 0..99. */
  function TwoDigits(k: nat): (s: string)
    requires k < 100
    ensures |s| == 2 && AllDigits(s)
  {
    [DigitChar(k / 10), DigitChar(k % 10)]
  }

  /** `n.toFixed(2)`. A negative number keeps its sign even when it rounds to
      zero ("-0.00"), as in JavaScript. */
  function ToFixed2(n: Number): string {
    match n
    case NaN => "NaN"
    case PosInf => "Infinity"
    case NegInf => "-Infinity"
    case Fin(m, _) =>
      var h := RoundedHundredths(n);
      (if m < 0 then "-" else "") + NatToString(h / 100) + "." + TwoDigits(h % 100)
  }

  /** Text of the shape `-?\d+\.\d{2}`. */
  predicate IsFixed2Text(s: string) {
    var body := if |s| > 0 && s[0] == '-' then s[1..] else s;
    && |body| >= 4
    && AllDigits(body[..|body| - 3])
    && body[|body| - 3] == '.'
    && AllDigits(body[|body| - 2..])
  }

  /** Every finite number's `toFixed(2)` text has the shape `-?\d+\.\d{2}`. */
  lemma ToFixed2Shape(n: Number)
    requires n.Fin?
    ensures IsFixed2Text(ToFixed2(n))
  {
    var h := RoundedHundredths(n);
    var whole := NatToString(h / 100);
    var body := whole + "." + TwoDigits(h % 100);
    assert body[..|body| - 3] == whole;
    assert body[|body| - 2..] == TwoDigits(h % 100);
    if n.mant < 0 {
      assert ToFixed2(n) == "-" + body;
      assert ("-" + body)[1..] == body;
    } else {
      assert ToFixed2(n) == body;
      assert body[0] != '-' by { assert body[0] == whole[0]; }
    }
  }

  /** The signed hundredths a `-?\d+\.\d{2}` text denotes. */
  function Fixed2Value(s: string): int
    requires IsFixed2Text(s)
  {
    var neg := |s| > 0 && s[0] == '-';
    var body := if neg then s[1..] else s;
    var h := DigitsValue(body[..|body| - 3]) * 100 + DigitsValue(body[|body| - 2..]);
    if neg then -h else h
  }

  /** The signed number of hundredths `toFixed(2)` rounds to. */
  function Hundredths(n: Number): int
    requires n.Fin?
  {
    var h: int := RoundedHundredths(n);
    if n.mant < 0 then -h else h
  }

  /** Reading a `toFixed(2)` text back gives the rounded hundredths. */
  lemma ToFixed2RoundTrip(n: Number)
    requires n.Fin?
    ensures IsFixed2Text(ToFixed2(n)) && Fixed2Value(ToFixed2(n)) == Hundredths(n)
  {
    var h := RoundedHundredths(n);
    SignedFixed2(n.mant < 0, h);
  }

  /** The text of `h` hundredths, with a sign when `neg`, reads back as them. */
  lemma SignedFixed2(neg: bool, h: nat)
    ensures var s := (if neg then "-" else "") + NatToString(h / 100) + "." + TwoDigits(h % 100);
            IsFixed2Text(s) && Fixed2Value(s) == if neg then -(h as int) else h as int
  {
    var whole := NatToString(h / 100);
    var two := TwoDigits(h % 100);
    var body := whole + "." + two;
    assert body[..|body| - 3] == whole;
    assert body[|body| - 2..] == two;
    DigitsValueOfNatToString(h / 100);
    TwoDigitsValue(h % 100);
    if neg {
      assert (if neg then "-" else "") + whole + "." + two == "-" + body;
      assert ("-" + body)[1..] == body;
    } else {
      assert (if neg then "-" else "") + whole + "." + two == body;
      assert body[0] != '-' by { assert body[0] == whole[0]; }
    }
  }

  lemma TwoDigitsValue(k: nat)
    requires k < 100
    ensures DigitsValue(TwoDigits(k)) == k
  {
    var s := TwoDigits(k);
    var hi, lo := DigitChar(k / 10), DigitChar(k % 10);
    assert DigitValue(hi) == k / 10;
    assert DigitValue(lo) == k % 10;
    assert s[..1] == [hi];
    assert [hi][..0] == [];
    assert DigitsValue([hi]) == k / 10;
  }

  // ---------------------------------------------------------------- text as numbers

  /** `Number(s)` for a string: surrounding white space is ignored, the empty
      string is 0, and an optionally signed decimal literal (`12`, `-3.5`, `.5`,
      `7.`) or `Infinity` is read exactly; anything else is `NaN`. Exponents and
      hexadecimal, octal and binary literals are not modelled. */
  function StringToNumber(s: string): Number {
    var t := Trim(s);
    if |t| == 0 then Zero
    else if t[0] == '-' then Neg(UnsignedToNumber(t[1..]))
    else if t[0] == '+' then UnsignedToNumber(t[1..])
    else UnsignedToNumber(t)
  }

  function UnsignedToNumber(u: string): Number {
    if u == "Infinity" then PosInf
    else
      var whole := DigitPrefix(u);
      var rest := u[|whole|..];
      if |rest| == 0 then (if |whole| == 0 then NaN else Fin(DigitsValue(whole), 0))
      else if rest[0] != '.' then NaN
      else
        var frac := rest[1..];
        if !AllDigits(frac) || (|whole| == 0 && |frac| == 0) then NaN
        else Fin(DigitsValue(whole + frac), |frac|)
  }

  // ---------------------------------------------------------------- 32-bit integers

  const TwoTo32: int := 0x1_0000_0000
  const TwoTo31: int := 0x8000_0000

  /** Truncation toward zero of a finite number. */
  function Trunc(n: Number): int
    requires n.Fin?
  {
    var q: int := DivPow10(if n.mant >= 0 then n.mant else -n.mant, n.exp);
    if n.mant >= 0 then q else -q
  }

  /** `x | 0` (ToInt32): truncate, then wrap around modulo 2^32 into the signed range. */
  function ToInt32(n: Number): (r: int)
    ensures -TwoTo31 <= r < TwoTo31
  {
    if !n.Fin? then 0
    else ((Trunc(n) + TwoTo31) % TwoTo32) - TwoTo31
  }

  /** The end index `slice(0, end)` uses on a sequence of length `len`
      (ToIntegerOrInfinity, then negative values count from the end). */
  function SliceEnd(len: nat, end: Number): (r: nat)
    ensures r <= len
  {
    match end
    case NaN => 0
    case PosInf => len
    case NegInf => 0
    case Fin(_, _) =>
      var k := Trunc(end);
      if k < 0 then (if len + k < 0 then 0 else len + k)
      else if k < len then k else len
  }

  lemma SliceEndOfNonNegative(len: nat, k: nat)
    ensures SliceEnd(len, Fin(k, 0)) == if k < len then k else len
  {
  }

  // ================================================================ values

  /** A JSON-like JavaScript value. Objects keep their properties in order. */
  datatype Value =
    | Undefined
    | Null
    | Bool(b: bool)
    | Num(n: Number)
    | Str(s: string)
    | Arr(items: seq<Value>)
    | Obj(fields: seq<(string, Value)>)

  /** `!!v`. */
  predicate Truthy(v: Value) {
    match v
    case Undefined => false
    case Null => false
    case Bool(b) => b
    case Num(n) => (n.Fin? && n.mant != 0) || n.PosInf? || n.NegInf?
    case Str(s) => |s| > 0
    case Arr(_) => true
    case Obj(_) => true
  }

  /** `v || d`. */
  function Or(v: Value, d: Value): (r: Value)
    ensures Truthy(v) ==> r == v
    ensures !Truthy(v) ==> r == d
  {
    if Truthy(v) then v else d
  }

  /** `v ?? d`: only `null` and `undefined` fall through. */
  function Coalesce(v: Value, d: Value): (r: Value)
    ensures !v.Undefined? && !v.Null? ==> r == v
    ensures v.Undefined? || v.Null? ==> r == d
  {
    if v.Undefined? || v.Null? then d else v
  }

  /** `v?.[key]`: the first property named `key` of an object, else `undefined`. */
  function Get(v: Value, key: string): Value {
    if v.Obj? then FieldOf(v.fields, key) else Undefined
  }

  function FieldOf(fields: seq<(string, Value)>, key: string): Value {
    if |fields| == 0 then Undefined
    else if fields[0].0 == key then fields[0].1
    else FieldOf(fields[1..], key)
  }

  /** `Object.prototype.hasOwnProperty.call(v, key)`. */
  predicate HasOwn(v: Value, key: string) {
    v.Obj? && exists i :: 0 <= i < |v.fields| && v.fields[i].0 == key
  }

  /** `Object.keys(v)` for an object; other values are taken to have no keys. */
  function Keys(v: Value): seq<string> {
    if v.Obj? then seq(|v.fields|, i requires 0 <= i < |v.fields| => v.fields[i].0) else []
  }

  /** `{ ...v, [key]: x }` for an object: an existing property keeps its place. */
  function Put(v: Value, key: string, x: Value): (r: Value)
    requires v.Obj?
    ensures r.Obj?
    ensures Get(r, key) == x
    ensures forall k :: k != key ==> Get(r, k) == Get(v, k)
  {
    Obj(PutField(v.fields, key, x))
  }

  function PutField(fields: seq<(string, Value)>, key: string, x: Value): (r: seq<(string, Value)>)
    ensures FieldOf(r, key) == x
    ensures forall k :: k != key ==> FieldOf(r, k) == FieldOf(fields, k)
  {
    if |fields| == 0 then [(key, x)]
    else if fields[0].0 == key then [(key, x)] + fields[1..]
    else [fields[0]] + PutField(fields[1..], key, x)
  }

  /** Spreading the same property twice is the same as spreading it once. */
  lemma {:induction false} PutFieldTwice(fields: seq<(string, Value)>, key: string, x: Value)
    ensures PutField(PutField(fields, key, x), key, x) == PutField(fields, key, x)
  {
    if |fields| > 0 && fields[0].0 != key {
      PutFieldTwice(fields[1..], key, x);
    }
  }

  lemma PutTwice(v: Value, key: string, x: Value)
    requires v.Obj?
    ensures Put(Put(v, key, x), key, x) == Put(v, key, x)
  {
    PutFieldTwice(v.fields, key, x);
  }

  // ---------------------------------------------------------------- conversions

  /** `Number(v)`. Arrays and objects go through their string form, as in JavaScript. */
  function ToNumber(v: Value): Number {
    match v
    case Undefined => NaN
    case Null => Zero
    case Bool(b) => if b then One else Zero
    case Num(n) => n
    case Str(s) => StringToNumber(s)
    case Arr(_) => StringToNumber(ToText(v))
    case Obj(_) => StringToNumber(ToText(v))
  }

  /** `String(v)`. */
  function ToText(v: Value): string
    decreases v, 1
  {
    match v
    case Undefined => "undefined"
    case Null => "null"
    case Bool(b) => if b then "true" else "false"
    case Num(n) => NumberToString(n)
    case Str(s) => s
    case Arr(items) => Join(ItemTexts(v, items), ",")
    case Obj(_) => "[object Object]"
  }

  /** The texts `Array.prototype.join` uses: `null` and `undefined` items are empty. */
  function ItemTexts(parent: Value, items: seq<Value>): seq<string>
    requires forall i :: 0 <= i < |items| ==> items[i] < parent
    decreases parent, 0, |items|
  {
    if |items| == 0 then []
    else
      var first := if items[0].Undefined? || items[0].Null? then "" else ToText(items[0]);
      [first] + ItemTexts(parent, items[1..])
  }

  /** `String(v || '')`, the idiom the source uses to read an optional text field. */
  function TextOr(v: Value): (s: string)
    ensures v.Str? ==> s == v.s
    ensures !Truthy(v) ==> s == ""
  {
    if Truthy(v) then ToText(v) else ""
  }

  // ---------------------------------------------------------------- JSON text

  /** `JSON.stringify(v)`; `None` stands for the `undefined` it returns for `undefined`. */
  function JsonText(v: Value): Option<string>
    decreases v, 1
  {
    match v
    case Undefined => None
    case Null => Some("null")
    case Bool(b) => Some(if b then "true" else "false")
    case Num(n) => Some(if n.Fin? then NumberToString(n) else "null")
    case Str(s) => Some(Quote(s))
    case Arr(items) => Some("[" + Join(JsonItems(v, items), ",") + "]")
    case Obj(fields) => Some("{" + Join(JsonMembers(v, fields), ",") + "}")
  }

  function JsonItems(parent: Value, items: seq<Value>): seq<string>
    requires forall i :: 0 <= i < |items| ==> items[i] < parent
    decreases parent, 0, |items|
  {
    if |items| == 0 then []
    else [JsonText(items[0]).GetOr("null")] + JsonItems(parent, items[1..])
  }

  /** Object members as `"key":value`; members whose value is `undefined` are skipped. */
  function JsonMembers(parent: Value, fields: seq<(string, Value)>): seq<string>
    requires forall i :: 0 <= i < |fields| ==> fields[i].1 < parent
    decreases parent, 0, |fields|
  {
    if |fields| == 0 then []
    else
      var rest := JsonMembers(parent, fields[1..]);
      match JsonText(fields[0].1)
      case None => rest
      case Some(t) => [Quote(fields[0].0) + ":" + t] + rest
  }

  /** A JSON string literal. */
  function Quote(s: string): string {
    "\"" + QuoteChars(s) + "\""
  }

  function QuoteChars(s: string): string {
    if |s| == 0 then "" else EscapeJsonChar(s[0]) + QuoteChars(s[1..])
  }

  function HexDigit(d: nat): char
    requires d < 16
  {
    if d < 10 then DigitChar(d) else ('a' as int + (d - 10)) as char
  }

  function EscapeJsonChar(c: char): string {
    if c == '"' then "\\\""
    else if c == '\\' then "\\\\"
    else if c == '\U{0008}' then "\\b"
    else if c == '\U{000C}' then "\\f"
    else if c == '\n' then "\\n"
    else if c == '\r' then "\\r"
    else if c == '\t' then "\\t"
    else if (c as int) < 0x20 then "\\u00" + [HexDigit(c as int / 16), HexDigit(c as int % 16)]
    else [c]
  }
}
