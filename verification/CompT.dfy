/** The comp_t encoding of accounting records (kernel/acct.c, encode_comp_t): a 13-bit fraction and a
    3-bit exponent to base 8. */
module CompT {

  const MAXFRACT := 0x1fff
  const FRACTIONS := MAXFRACT + 1
  const ULONG_MAX := 0xffff_ffff

  function Pow8(e: nat): (r: nat)
    ensures r > 0
  {
    if e == 0 then 1 else 8 * Pow8(e - 1)
  }

  /** How often a value must be divided by 8 to fit the fraction. */
  function Exponent(v: nat): nat { if v <= MAXFRACT then 0 else 1 + Exponent(v / 8) }

  /** What a code stands for. */
  function Decode(code: nat): nat { (code % FRACTIONS) * Pow8(code / FRACTIONS) }

  /** `v` in units of 8^e, and what is left. */
  ghost predicate Split(v: nat, e: nat, m: nat, low: nat) { v == m * Pow8(e) + low && low < Pow8(e) }

  /** Half a unit or more is left over. */
  predicate RoundsUp(e: nat, low: nat) { e > 0 && 2 * low >= Pow8(e) }

  /** The code of a fraction after rounding, with the carry into the exponent. */
  function Code(e: nat, m: nat): nat { if m > MAXFRACT then (e + 1) * FRACTIONS + m / 8 else e * FRACTIONS + m }

  /** The meaning of an encoding: the nearest fraction for the least exponent. */
  ghost predicate Encodes(v: nat, code: nat) {
    exists m: nat, low: nat :: Split(v, Exponent(v), m, low) &&
      code == Code(Exponent(v), if RoundsUp(Exponent(v), low) then m + 1 else m)
  }

  lemma {:induction false} SplitWhole(v: nat)
    ensures Split(v, 0, v, 0) && !RoundsUp(0, 0)
  {}

  /** What is left after one more digit is cut off. */
  ghost function LowNext(m: nat, e: nat, low: nat): nat { (m % 8) * Pow8(e) + low }

  lemma {:induction false} SplitNext(v: nat, e: nat, m: nat, low: nat)
    requires Split(v, e, m, low)
    ensures Split(v, e + 1, m / 8, LowNext(m, e, low))
    ensures RoundsUp(e + 1, LowNext(m, e, low)) <==> m % 8 >= 4
  {
    var p, q, d := Pow8(e), m / 8, m % 8;
    assert m * p == q * (8 * p) + d * p by { assert m == 8 * q + d; Distribute(q, d, p); }
    assert d * p + low < 8 * p by { Digit(d, p); }
    assert 2 * (d * p + low) >= 8 * p <==> d >= 4 by { Digit(d, p); }
  }

  lemma {:induction false} Distribute(q: nat, d: nat, p: nat)
    ensures (8 * q + d) * p == q * (8 * p) + d * p
  {}

  lemma {:induction false} Digit(d: nat, p: nat)
    requires d < 8
    ensures d * p <= 7 * p && (d >= 4 ==> d * p >= 4 * p) && (d <= 3 ==> d * p <= 3 * p)
  {
    assert d == 0 || d == 1 || d == 2 || d == 3 || d == 4 || d == 5 || d == 6 || d == 7;
  }

  method EncodeCompT(v: nat) returns (code: nat)
    ensures Encodes(v, code)
  {
    hide Split, RoundsUp, LowNext;
    var value: nat, exp: nat, rnd := v, 0, false;
    ghost var low: nat := 0;
    SplitWhole(v);
    while value > MAXFRACT
      invariant Split(v, exp, value, low) && rnd == RoundsUp(exp, low) && Exponent(v) == exp + Exponent(value)
    {
      SplitNext(v, exp, value, low);
      low := LowNext(value, exp, low);
      rnd := value % 8 >= 4;
      value := value / 8;
      exp := exp + 1;
    }
    ghost var m := value;
    assert Split(v, Exponent(v), m, low);
    if rnd {
      value := value + 1;
      if value > MAXFRACT {
        value := value / 8;
        exp := exp + 1;
      }
    }
    code := exp * FRACTIONS + value;
    assert code == Code(Exponent(v), if RoundsUp(Exponent(v), low) then m + 1 else m);
  }

  // ---- what the code is good for ----

  lemma {:induction false} SplitOnce(v: nat, e: nat, m: nat, low: nat, m': nat, low': nat)
    requires Split(v, e, m, low) && Split(v, e, m', low')
    ensures m == m' && low == low'
  {
    var p := Pow8(e);
    OneMoreTime(m, p);
    OneMoreTime(m', p);
    if m < m' { Times(m + 1, m', p); }
    if m' < m { Times(m' + 1, m, p); }
  }

  lemma {:induction false} Times(a: nat, b: nat, p: nat)
    requires a <= b
    ensures a * p <= b * p
  {}

  /** The fraction of the least exponent fits, and is at least an eighth of the range. */
  lemma {:induction false} FractionRange(v: nat, m: nat, low: nat)
    requires Split(v, Exponent(v), m, low)
    ensures m <= MAXFRACT && (Exponent(v) > 0 ==> m >= FRACTIONS / 8)
  {
    var m', low' := LeastSplit(v, v, 0, 0);
    SplitOnce(v, Exponent(v), m, low, m', low');
  }

  lemma {:induction false} LeastSplit(v: nat, value: nat, e: nat, low: nat) returns (m: nat, low': nat)
    requires Split(v, e, value, low) && (e > 0 ==> value >= FRACTIONS / 8)
    ensures Split(v, e + Exponent(value), m, low') && m <= MAXFRACT && (e + Exponent(value) > 0 ==> m >= FRACTIONS / 8)
    decreases value
  {
    if value <= MAXFRACT {
      m, low' := value, low;
    } else {
      SplitNext(v, e, value, low);
      m, low' := LeastSplit(v, value / 8, e + 1, LowNext(value, e, low));
    }
  }

  lemma {:induction false} ExponentMonotone(a: nat, b: nat)
    requires a <= b
    ensures Exponent(a) <= Exponent(b)
  {
    if a > MAXFRACT { ExponentMonotone(a / 8, b / 8); }
  }

  lemma {:induction false} ExponentOfUlong(v: nat)
    requires v <= ULONG_MAX
    ensures Exponent(v) <= 7
  {
    ExponentMonotone(v, ULONG_MAX);
    assert Exponent(ULONG_MAX) == 7 by {
      assert ULONG_MAX / 8 == 0x1fff_ffff && 0x1fff_ffff / 8 == 0x3ff_ffff && 0x3ff_ffff / 8 == 0x7f_ffff;
      assert Exponent(0x7f_ffff) == 4 by {
        assert 0x7f_ffff / 8 == 0xf_ffff && 0xf_ffff / 8 == 0x1_ffff && 0x1_ffff / 8 == 0x3fff && 0x3fff / 8 == 0x7ff;
        assert Exponent(0x3fff) == 1;
      }
      assert Exponent(0x3ff_ffff) == 5;
    }
  }

  /** A code as the parts it is made of. */
  lemma {:induction false} CodeParts(e: nat, m: nat)
    requires m <= MAXFRACT + 1
    ensures m <= MAXFRACT ==> Code(e, m) / FRACTIONS == e && Code(e, m) % FRACTIONS == m
    ensures m == MAXFRACT + 1 ==> Code(e, m) / FRACTIONS == e + 1 && Code(e, m) % FRACTIONS == FRACTIONS / 8
    ensures Decode(Code(e, m)) == m * Pow8(e)
  {
    hide Pow8;
    if m == MAXFRACT + 1 {
      assert Code(e, m) == (e + 1) * FRACTIONS + FRACTIONS / 8;
      Carry(e);
    } else {
      assert Code(e, m) == e * FRACTIONS + m;
    }
  }

  lemma {:induction false} Carry(e: nat)
    ensures (FRACTIONS / 8) * Pow8(e + 1) == (MAXFRACT + 1) * Pow8(e)
  {}

  /** The parts of the code of `v`: its exponent, fraction, rest, and the fraction after rounding. */
  lemma {:induction false} Parts(v: nat, code: nat) returns (e: nat, m: nat, low: nat, n: nat)
    requires Encodes(v, code)
    ensures e == Exponent(v) && Split(v, e, m, low) && n == (if RoundsUp(e, low) then m + 1 else m)
    ensures code == Code(e, n)
    ensures m <= MAXFRACT && (e > 0 ==> m >= FRACTIONS / 8) && Decode(code) == n * Pow8(e)
    ensures n <= MAXFRACT ==> code / FRACTIONS == e && code % FRACTIONS == n
    ensures n == MAXFRACT + 1 ==> code / FRACTIONS == e + 1 && code % FRACTIONS == FRACTIONS / 8
  {
    hide Split, RoundsUp, Pow8, Code, Decode;
    e := Exponent(v);
    m, low :| Split(v, e, m, low) && code == Code(e, if RoundsUp(e, low) then m + 1 else m);
    n := if RoundsUp(e, low) then m + 1 else m;
    FractionRange(v, m, low);
    CodeParts(e, n);
  }

  /** Every 32-bit value has a code of 16 bits; up to 8191 it is exact; a nonzero exponent comes with
      a fraction of at least 1024. */
  lemma {:induction false} CodeFits(v: nat, code: nat)
    requires v <= ULONG_MAX && Encodes(v, code)
    ensures code <= 0xffff && (v <= MAXFRACT ==> code == v && Decode(code) == v)
    ensures code / FRACTIONS > 0 ==> code % FRACTIONS >= FRACTIONS / 8
  {
    hide Decode, Code, Pow8, Encodes;
    var e, m, low, n := Parts(v, code);
    ExponentOfUlong(v);
    if e == 7 { TopFraction(v, m, low); }
    if e == 0 { WholeSplit(v, m, low); }
  }

  lemma {:induction false} WholeSplit(v: nat, m: nat, low: nat)
    requires Split(v, 0, m, low)
    ensures m == v && low == 0 && !RoundsUp(0, low) && m * Pow8(0) == m
  {}

  lemma {:induction false} TopFraction(v: nat, m: nat, low: nat)
    requires v <= ULONG_MAX && Split(v, 7, m, low)
    ensures m < MAXFRACT
  {
    assert Pow8(7) == 0x20_0000 by { assert Pow8(4) == 0x1000 && Pow8(7) == 512 * Pow8(4); }
  }

  /** The code stands for a value within one part in 2048. */
  lemma {:induction false} CodeIsClose(v: nat, code: nat)
    requires Encodes(v, code)
    ensures 2048 * (Decode(code) - v) <= v && 2048 * (v - Decode(code)) <= v
  {
    hide Decode, Code, Pow8, Encodes;
    var e, m, low, n := Parts(v, code);
    if e == 0 {
      WholeSplit(v, m, low);
    } else {
      Times(FRACTIONS / 8, m, Pow8(e));
      OneMoreTime(m, Pow8(e));
      HalfUnit(v, m * Pow8(e), Pow8(e), low, Decode(code));
    }
  }

  /** Half of one unit, of 1024 and more. */
  lemma {:induction false} HalfUnit(v: nat, q: nat, p: nat, low: nat, d: nat)
    requires v == q + low && low < p && 1024 * p <= q && d == if 2 * low >= p then q + p else q
    ensures 2048 * (d - v) <= v && 2048 * (v - d) <= v
  {}

  lemma {:induction false} OneMoreTime(m: nat, p: nat)
    ensures (m + 1) * p == m * p + p
  {}

  /** Larger values have larger codes. */
  lemma {:induction false} CodeIsMonotone(a: nat, b: nat, codeA: nat, codeB: nat)
    requires a <= b && Encodes(a, codeA) && Encodes(b, codeB)
    ensures codeA <= codeB
  {
    hide Decode, Pow8, Split, Encodes;
    var e, m, low, n := Parts(a, codeA);
    var f, m', low', n' := Parts(b, codeB);
    ExponentMonotone(a, b);
    if e == f { SameExponent(a, b, e, m, low, m', low'); }
  }

  lemma {:induction false} SameExponent(a: nat, b: nat, e: nat, m: nat, low: nat, n: nat, rest: nat)
    requires a <= b && Split(a, e, m, low) && Split(b, e, n, rest)
    ensures m <= n && (m == n ==> low <= rest)
  {
    var p := Pow8(e);
    OneMoreTime(n, p);
    if n < m { Times(n + 1, m, p); }
  }
}
