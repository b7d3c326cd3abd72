/**
 * Java's fixed-width integer types and the primitive conversions between them
 * (Java Language Specification, section 5.1.2 widening and 5.1.3 narrowing
 * primitive conversions), stated on mathematical integers.
 *
 * A Java value of `byte`, `short`, `int` or `long` is the integer it denotes;
 * a widening conversion keeps that integer (two's-complement sign extension
 * does not change the value) and a narrowing conversion keeps the low bits,
 * which is the unique value of the target type congruent to the source value
 * modulo 2^bits.
 */
module JavaInt {

  const BYTE_MOD: int := 0x100
  const SHORT_MOD: int := 0x1_0000
  const INT_MOD: int := 0x1_0000_0000
  const LONG_MOD: int := 0x1_0000_0000_0000_0000

  /** Integer.MAX_VALUE and Integer.MIN_VALUE */
  const INT_MAX: int := 0x7fff_ffff
  const INT_MIN: int := -0x8000_0000

  type JByte = x: int | -0x80 <= x < 0x80
  type JShort = x: int | -0x8000 <= x < 0x8000
  type JInt = x: int | -0x8000_0000 <= x < 0x8000_0000
  type JLong = x: int | -0x8000_0000_0000_0000 <= x < 0x8000_0000_0000_0000

  /** The moduli of the four Java integer widths. */
  predicate IsWidth(m: int) {
    m == BYTE_MOD || m == SHORT_MOD || m == INT_MOD || m == LONG_MOD
  }

  /** Two's-complement wrap-around: the value of the m-valued signed type that
      is congruent to x modulo m. */
  function Wrap(x: int, m: int): (r: int)
    requires IsWidth(m)
    ensures -(m / 2) <= r < m / 2
    ensures (x - r) % m == 0
  {
    var u := x % m;
    assert x == m * (x / m) + u;
    MultipleMod(x / m, m);
    MultipleMod(x / m + 1, m);
    if u < m / 2 then u else u - m
  }

  /** (byte) x */
  function ToByte(x: int): (r: JByte)
    ensures (x - r) % BYTE_MOD == 0
  {
    Wrap(x, BYTE_MOD)
  }

  /** (short) x */
  function ToShort(x: int): (r: JShort)
    ensures (x - r) % SHORT_MOD == 0
  {
    Wrap(x, SHORT_MOD)
  }

  /** (int) x */
  function ToInt(x: int): (r: JInt)
    ensures (x - r) % INT_MOD == 0
  {
    Wrap(x, INT_MOD)
  }

  /** (long) x, and the result of every long-valued + and * */
  function ToLong(x: int): (r: JLong)
    ensures (x - r) % LONG_MOD == 0
  {
    Wrap(x, LONG_MOD)
  }

  lemma MulLe(a: int, b: int, c: int)
    requires a <= b && 0 <= c
    ensures a * c <= b * c
  {
    assert b * c - a * c == (b - a) * c;
  }

  /** m * k is a multiple of m. */
  lemma MultipleMod(k: int, m: int)
    requires m > 0
    ensures (m * k) % m == 0
  {
    var r := (m * k) % m;
    var q := (m * k) / m;
    assert m * k == m * q + r;
    var t := k - q;
    assert m * t == r;
    if t >= 1 {
      MulLe(1, t, m);
    } else if t <= -1 {
      MulLe(t, -1, m);
    }
  }

  lemma ModMultiple(d: int, m: int)
    requires m > 0 && d % m == 0
    ensures d == m * (d / m)
  {
  }

  /** A multiple of m strictly between -m and m is zero. */
  lemma SmallMultipleIsZero(d: int, m: int)
    requires m > 0 && -m < d < m && d % m == 0
    ensures d == 0
  {
    var q := d / m;
    ModMultiple(d, m);
    if q >= 1 {
      MulLe(1, q, m);
    } else if q <= -1 {
      MulLe(q, -1, m);
    }
  }

  /** Congruence modulo m is transitive. */
  lemma CongruenceTrans(x: int, y: int, z: int, m: int)
    requires m > 0 && (x - y) % m == 0 && (y - z) % m == 0
    ensures (x - z) % m == 0
  {
    var q1 := (x - y) / m;
    var q2 := (y - z) / m;
    ModMultiple(x - y, m);
    ModMultiple(y - z, m);
    assert x - z == m * (q1 + q2);
    MultipleMod(q1 + q2, m);
  }

  /** Congruence modulo m is symmetric. */
  lemma CongruenceSym(x: int, y: int, m: int)
    requires m > 0 && (x - y) % m == 0
    ensures (y - x) % m == 0
  {
    var q := (x - y) / m;
    ModMultiple(x - y, m);
    assert y - x == m * -q;
    MultipleMod(-q, m);
  }

  /** x mod m is congruent to x. */
  lemma CongruentToMod(x: int, m: int)
    requires m > 0
    ensures (x % m - x) % m == 0
  {
    assert x == m * (x / m) + x % m;
    assert x % m - x == m * -(x / m);
    MultipleMod(-(x / m), m);
  }

  /** A multiple of m times anything is a multiple of m. */
  lemma MultipleTimes(d: int, b: int, m: int)
    requires m > 0 && d % m == 0
    ensures (d * b) % m == 0
  {
    var q := d / m;
    ModMultiple(d, m);
    assert d * b == m * (q * b);
    MultipleMod(q * b, m);
  }

  /** Wrap is the ONLY value in range congruent to x: every narrowing
      conversion is characterised by its range and its congruence. */
  lemma {:induction false} WrapUnique(x: int, r: int, m: int)
    requires IsWidth(m)
    requires -(m / 2) <= r < m / 2 && (x - r) % m == 0
    ensures r == Wrap(x, m)
  {
    var w := Wrap(x, m);
    CongruenceSym(x, w, m);
    CongruenceTrans(w, x, r, m);
    SmallMultipleIsZero(w - r, m);
  }

  /** A narrowing conversion returns its argument exactly when the argument
      is representable in the target type. */
  lemma ToShortExact(x: int)
    ensures ToShort(x) == x <==> -0x8000 <= x < 0x8000
  {
    if -0x8000 <= x < 0x8000 {
      WrapUnique(x, x, SHORT_MOD);
    }
  }

  lemma ToByteExact(x: int)
    ensures ToByte(x) == x <==> -0x80 <= x < 0x80
  {
    if -0x80 <= x < 0x80 {
      WrapUnique(x, x, BYTE_MOD);
    }
  }

  lemma ToIntExact(x: int)
    ensures ToInt(x) == x <==> INT_MIN <= x <= INT_MAX
  {
    if INT_MIN <= x <= INT_MAX {
      WrapUnique(x, x, INT_MOD);
    }
  }

  lemma ToLongExact(x: int)
    ensures ToLong(x) == x <==> -LONG_MOD / 2 <= x < LONG_MOD / 2
  {
    if -LONG_MOD / 2 <= x < LONG_MOD / 2 {
      WrapUnique(x, x, LONG_MOD);
    }
  }

  /** Wrapping an operand first does not change the wrapped sum or product:
      Java's step-by-step wrap-around equals one wrap of the exact result. */
  lemma WrapAdd(a: int, b: int, m: int)
    requires IsWidth(m)
    ensures Wrap(Wrap(a, m) + b, m) == Wrap(a + b, m)
  {
    var wa := Wrap(a, m);
    var w := Wrap(wa + b, m);
    assert (a + b - (wa + b)) % m == 0 by {
      assert a + b - (wa + b) == a - wa;
    }
    CongruenceTrans(a + b, wa + b, w, m);
    WrapUnique(a + b, w, m);
  }

  lemma WrapMul(a: int, b: int, m: int)
    requires IsWidth(m)
    ensures Wrap(Wrap(a, m) * b, m) == Wrap(a * b, m)
  {
    var wa := Wrap(a, m);
    var w := Wrap(wa * b, m);
    assert (a * b - wa * b) % m == 0 by {
      assert a * b - wa * b == (a - wa) * b;
      MultipleTimes(a - wa, b, m);
    }
    CongruenceTrans(a * b, wa * b, w, m);
    WrapUnique(a * b, w, m);
  }

  /** Narrowing a value already in a narrower type changes nothing: a `byte`
      widened to `short` or `int` and narrowed back is the same `byte`. */
  lemma ByteSurvivesShort(b: JByte)
    ensures ToShort(b) == b && ToByte(ToShort(b)) == b
  {
    ToShortExact(b);
    ToByteExact(b);
  }

  /** (byte)(short) v keeps the low 8 bits of v, as (byte) v does. */
  lemma ToByteOfToShort(v: int)
    ensures ToByte(ToShort(v)) == ToByte(v)
  {
    var s := ToShort(v);
    var b := ToByte(s);
    assert (v - s) % BYTE_MOD == 0 by {
      var q := (v - s) / SHORT_MOD;
      ModMultiple(v - s, SHORT_MOD);
      assert v - s == BYTE_MOD * (0x100 * q);
      MultipleMod(0x100 * q, BYTE_MOD);
    }
    CongruenceTrans(v, s, b, BYTE_MOD);
    WrapUnique(v, b, BYTE_MOD);
  }
}
