/** The few pieces of JavaScript's runtime semantics that the controllers depend on:
    the Number type with its `+` and truncating `%`, truthiness, `Array.prototype.find`,
    and `String.prototype.trim`. */
module JsRuntime {

  datatype Option<T> = None | Some(value: T)

  // ---------------------------------------------------------------------------
  // Numbers
  // ---------------------------------------------------------------------------

  /** A JavaScript Number. Finite values are kept exact (as reals); the double's
      rounding and the sign of zero are not modelled. */
  datatype Num = Fin(v: real) | NaN | PosInf | NegInf

  function Int(k: int): Num { Fin(k as real) }

  /** `a + b` on Numbers. */
  function Add(a: Num, b: Num): (r: Num)
    ensures a.Fin? && b.Fin? ==> r == Fin(a.v + b.v)
    ensures a.NaN? || b.NaN? ==> r.NaN?
    ensures r.NaN? <==> (a.NaN? || b.NaN? || (a.PosInf? && b.NegInf?) || (a.NegInf? && b.PosInf?))
  {
    match (a, b)
    case (NaN, _) => NaN
    case (_, NaN) => NaN
    case (PosInf, NegInf) => NaN
    case (NegInf, PosInf) => NaN
    case (PosInf, _) => PosInf
    case (_, PosInf) => PosInf
    case (NegInf, _) => NegInf
    case (_, NegInf) => NegInf
    case (Fin(x), Fin(y)) => Fin(x + y)
  }

  /** The integer part of `x`, rounding toward zero. */
  function Trunc(x: real): (t: int)
    ensures 0.0 <= x ==> 0 <= t && t as real <= x < t as real + 1.0
    ensures x < 0.0 ==> t <= 0 && t as real - 1.0 < x <= t as real
  {
    if x >= 0.0 then x.Floor else -((-x).Floor)
  }

  /** Integer division rounding toward zero. */
  function TruncDiv(a: int, n: int): int
    requires n > 0
  {
    if a >= 0 then a / n else -((-a) / n)
  }

  /** `a % n` on integral Numbers: `a - n * q` for the quotient rounded toward
      zero, so the remainder takes the sign of the dividend (unlike Dafny's
      Euclidean `%`). */
  function TruncRem(a: int, n: int): (r: int)
    requires n > 0
    ensures a >= 0 ==> 0 <= r < n && r == a % n
    ensures a < 0 ==> -n < r <= 0 && r == -((-a) % n)
  {
    a - n * TruncDiv(a, n)
  }

  /** `x % n` for a positive integer `n`, the only divisor the controllers use.
      ECMAScript defines it as `x - n * q` with `q` the quotient `x / n` rounded
      toward zero; for an integer `n` that quotient is the integer part of `x`
      divided by `n`, rounded toward zero, so `q` is computed on integers.
      `NaN` and the infinities give `NaN`. */
  function RemBy(x: Num, n: nat): (r: Num)
    requires n >= 1
    ensures x.Fin? <==> r.Fin?
    ensures !x.Fin? ==> r == NaN
  {
    match x
    case Fin(v) => Fin(v - (n * TruncDiv(Trunc(v), n)) as real)
    case _ => NaN
  }

  /** A Number is falsy when it is `0` or `NaN`; `x || d` then yields `d`. */
  predicate Truthy(x: Num) {
    !(x.NaN? || x == Fin(0.0))
  }

  /** `x > 0` */
  predicate Positive(x: Num) {
    x.PosInf? || (x.Fin? && x.v > 0.0)
  }

  /** `x === i` for an array index `i`. */
  predicate IsIndex(x: Num, i: int) {
    x.Fin? && x.v == i as real
  }

  predicate Integral(x: Num) {
    x.Fin? && x.v == x.v.Floor as real
  }

  /** `(index + n) % n`, the wrap expression every controller uses. */
  function Wrap(index: Num, n: nat): (r: Num)
    requires n >= 1
    ensures index.Fin? <==> r.Fin?
    ensures !index.Fin? ==> r == NaN
  {
    RemBy(Add(index, Int(n)), n)
  }

  lemma MulAtLeast(d: int, n: int)
    requires d >= 1 && n > 0
    ensures d * n >= n
  {
  }

  /** A decomposition `a == q * n + r` with `0 <= r < n` is the Euclidean one. */
  lemma ModOf(a: int, n: int, q: int, r: int)
    requires n > 0 && a == q * n + r && 0 <= r < n
    ensures a % n == r && a / n == q
  {
    var q', r' := a / n, a % n;
    assert a == q' * n + r' && 0 <= r' < n;
    var d := q - q';
    assert d * n == q * n - q' * n;
    assert d * n == r' - r;
    if d >= 1 {
      MulAtLeast(d, n);
    } else if d <= -1 {
      MulAtLeast(-d, n);
    }
  }

  /** On an integral dividend, the Number remainder is the integer `TruncRem`. */
  lemma RemOfInt(a: int, n: nat)
    requires n >= 1
    ensures RemBy(Int(a), n) == Int(TruncRem(a, n))
  {
    assert Trunc(a as real) == a;
  }

  /** The wrap of an integer no smaller than `-n` is its Euclidean residue,
      an index of the n-element collection. */
  lemma WrapOfInt(k: int, n: nat)
    requires n >= 1 && k + n >= 0
    ensures Wrap(Int(k), n) == Int((k + n) % n)
    ensures 0 <= (k + n) % n < n
  {
    assert Add(Int(k), Int(n)) == Int(k + n);
    RemOfInt(k + n, n);
  }

  /** An in-range index wraps to itself. */
  lemma WrapOfIndex(k: nat, n: nat)
    requires k < n
    ensures Wrap(Int(k), n) == Int(k)
  {
    WrapOfInt(k, n);
    ModOf(k + n, n, 1, k);
  }

  /** Euclidean residues repeat with period `n`. */
  lemma ModShift(x: int, m: int, n: int)
    requires n > 0
    ensures (x + m * n) % n == x % n
  {
    var q, r := x / n, x % n;
    assert x == q * n + r && 0 <= r < n;
    assert (q + m) * n == q * n + m * n;
    ModOf(x + m * n, n, q + m, r);
  }

  /** Requests that differ by a multiple of `n` select the same slot, as long as
      both stay at or above `-n` (below that the truncating `%` goes negative). */
  lemma WrapPeriodic(k: int, m: int, n: nat)
    requires n >= 1 && k + n >= 0 && k + m * n + n >= 0
    ensures Wrap(Int(k + m * n), n) == Wrap(Int(k), n)
  {
    WrapOfInt(k, n);
    WrapOfInt(k + m * n, n);
    ModShift(k + n, m, n);
    assert k + m * n + n == (k + n) + m * n;
  }

  /** Stepping forward from the last slot wraps to the first. */
  lemma WrapNextFromLast(n: nat)
    requires n >= 1
    ensures Wrap(Add(Int(n - 1), Int(1)), n) == Int(0)
  {
    ModOf(n + n, n, 2, 0);
    WrapOfInt(n, n);
    assert Add(Int(n - 1), Int(1)) == Int(n);
  }

  /** Stepping back from the first slot wraps to the last. */
  lemma WrapPrevFromFirst(n: nat)
    requires n >= 1
    ensures Wrap(Add(Int(0), Int(-1)), n) == Int(n - 1)
  {
    var m := n - 1;
    ModOf(m, n, 0, m);
    assert (-1 + n) % n == m;
    WrapOfInt(-1, n);
    assert Add(Int(0), Int(-1)) == Int(-1);
  }

  /** `goToNext` and `goToPrev` at the two ends, for a current position held
      as a Number. */
  lemma StepForwardFromLast(current: Num, n: nat)
    requires n >= 1 && IsIndex(current, n - 1)
    ensures Wrap(Add(current, Int(1)), n) == Int(0)
  {
    assert current == Int(n - 1);
    WrapNextFromLast(n);
  }

  lemma StepBackFromFirst(current: Num, n: nat)
    requires n >= 1 && IsIndex(current, 0)
    ensures Wrap(Add(current, Int(-1)), n) == Int(n - 1)
  {
    assert current == Int(0);
    WrapPrevFromFirst(n);
  }

  /** Whatever is requested, the wrapped value can only equal an index in
      `(-n, n)`, and only an integral request can equal any index at all. */
  lemma WrapMatch(index: Num, n: nat, i: int)
    requires n >= 1 && IsIndex(Wrap(index, n), i)
    ensures -(n as int) < i < n
    ensures Integral(index)
  {
    var a := Add(index, Int(n));
    assert a.Fin? && index.Fin?;
    var k := Trunc(a.v);
    var q := TruncDiv(k, n);
    var r := TruncRem(k, n);
    assert r == k - n * q;
    assert Wrap(index, n) == Fin(a.v - (n * q) as real);
    assert i as real == a.v - (n * q) as real;
    assert a.v == (i + n * q) as real;
    assert index.v == (i + n * q - n) as real;
    // the wrapped value is r plus the fractional part of a.v
    assert a.v - (n * q) as real == r as real + (a.v - k as real);
  }

  /** A non-integral request, `NaN` or an infinity selects no index. */
  lemma WrapSelectsNothing(index: Num, n: nat)
    requires n >= 1 && !Integral(index)
    ensures forall i :: !IsIndex(Wrap(index, n), i)
  {
    forall i | IsIndex(Wrap(index, n), i)
      ensures false
    {
      WrapMatch(index, n, i);
    }
  }

  /** Three concrete requests: an integer below `-n` keeps a negative remainder
      unless it is a multiple of `n`, and a fractional one survives the wrap. */
  lemma WrapExamples()
    ensures Wrap(Int(-5), 3) == Int(-2)
    ensures Wrap(Int(-6), 3) == Int(0)
    ensures Wrap(Fin(1.5), 3) == Fin(1.5)
  {
    assert Add(Int(-5), Int(3)) == Int(-2);
    RemOfInt(-2, 3);
    assert Add(Int(-6), Int(3)) == Int(-3);
    RemOfInt(-3, 3);
    assert Add(Fin(1.5), Int(3)) == Fin(4.5);
    assert Trunc(4.5) == 4;
  }

  // ---------------------------------------------------------------------------
  // Arrays and strings
  // ---------------------------------------------------------------------------

  /** `Array.prototype.findIndex`: the first position whose element satisfies `p`. */
  function First<T>(s: seq<T>, p: T -> bool): (r: Option<nat>)
    ensures r.Some? ==> r.value < |s| && p(s[r.value])
    ensures r.Some? ==> forall j :: 0 <= j < r.value ==> !p(s[j])
    ensures r.None? ==> forall j :: 0 <= j < |s| ==> !p(s[j])
  {
    if |s| == 0 then None
    else if p(s[0]) then Some(0)
    else match First(s[1..], p)
      case None => None
      case Some(k) => Some(k + 1)
  }

  /** WhiteSpace and LineTerminator code points of ECMAScript, the set that
      `String.prototype.trim` strips. */
  predicate IsJsSpace(c: char) {
    var k := c as int;
    k == 0x09 || k == 0x0A || k == 0x0B || k == 0x0C || k == 0x0D || k == 0x20 ||
    k == 0xA0 || k == 0x1680 || (0x2000 <= k <= 0x200A) || k == 0x2028 ||
    k == 0x2029 || k == 0x202F || k == 0x205F || k == 0x3000 || k == 0xFEFF
  }

  /** The number of white-space characters `s` starts with. */
  function LeadingSpace(s: string): (k: nat)
    ensures k <= |s|
    ensures forall j :: 0 <= j < k ==> IsJsSpace(s[j])
    ensures k < |s| ==> !IsJsSpace(s[k])
  {
    if s != [] && IsJsSpace(s[0]) then 1 + LeadingSpace(s[1..]) else 0
  }

  /** The number of white-space characters `s` ends with. */
  function TrailingSpace(s: string): (k: nat)
    ensures k <= |s|
    ensures forall j :: |s| - k <= j < |s| ==> IsJsSpace(s[j])
    ensures k < |s| ==> !IsJsSpace(s[|s| - k - 1])
  {
    if s != [] && IsJsSpace(s[|s| - 1]) then 1 + TrailingSpace(s[..|s| - 1]) else 0
  }

  /** `String.prototype.trim`: the part of `s` after its leading white space and
      before its trailing white space. */
  function Trim(s: string): (r: string)
    ensures var i := LeadingSpace(s);
      i + |r| <= |s| && r == s[i..i + |r|] &&
      (forall j :: i + |r| <= j < |s| ==> IsJsSpace(s[j]))
    ensures r != [] ==> !IsJsSpace(r[0]) && !IsJsSpace(r[|r| - 1])
  {
    var t := s[LeadingSpace(s)..];
    t[..|t| - TrailingSpace(t)]
  }

  lemma TrimIdempotent(s: string)
    ensures Trim(Trim(s)) == Trim(s)
  {
    var r := Trim(s);
    assert LeadingSpace(r) == 0;
    assert r[0..] == r;
    assert TrailingSpace(r) == 0;
    assert r[..|r|] == r;
  }
}
