/** Python's numeric conversions on reals: `math.ceil`, `int()`, `round()` and `min`. */
module PyMath {

  /** `math.ceil`: the least integer not below `x`. */
  function Ceil(x: real): (r: int)
    ensures x <= r as real < x + 1.0
  {
    -((-x).Floor)
  }

  /** `int(x)` on a float: truncation toward zero. */
  function Trunc(x: real): (r: int)
    ensures x >= 0.0 ==> 0 <= r && r as real <= x < r as real + 1.0
    ensures x < 0.0 ==> r <= 0 && x <= r as real && r as real - 1.0 < x
  {
    if x >= 0.0 then x.Floor else -((-x).Floor)
  }

  /** `round(x)` on a float: nearest integer, ties to the even neighbour
      (see RoundTiesToEven). */
  function Round(x: real): (r: int)
    ensures x - 0.5 <= r as real <= x + 0.5
  {
    var f := x.Floor;
    var d := x - f as real;
    if d < 0.5 then f
    else if d > 0.5 then f + 1
    else if Even(f) then f
    else f + 1
  }

  /** Parity by counting down in twos, which keeps the solver away from
      integer remainders wherever `Round` unfolds. */
  predicate EvenNat(n: nat)
  {
    n == 0 || (n != 1 && EvenNat(n - 2))
  }

  predicate Even(n: int)
  {
    if n < 0 then EvenNat(-n) else EvenNat(n)
  }

  lemma {:induction false} EvenNatIsMod2(n: nat)
    ensures EvenNat(n) <==> n % 2 == 0
  {
    if n >= 2 {
      EvenNatIsMod2(n - 2);
    }
  }

  /** `Even` is the usual parity. */
  lemma EvenIsMod2(n: int)
    ensures Even(n) <==> n % 2 == 0
  {
    if n < 0 {
      EvenNatIsMod2(-n);
      assert (-n) % 2 == 0 <==> n % 2 == 0;
    } else {
      EvenNatIsMod2(n);
    }
  }

  /** Of two nearest integers, `round` picks the even one. */
  lemma RoundTiesToEven(x: real)
    ensures Round(x) as real == x - 0.5 ==> Round(x) % 2 == 0
    ensures Round(x) as real == x + 0.5 ==> Round(x) % 2 == 0
  {
    var f := x.Floor;
    EvenIsMod2(f);
    EvenIsMod2(f + 1);
  }

  function Min(a: real, b: real): (r: real)
    ensures r <= a && r <= b && (r == a || r == b)
  {
    if a <= b then a else b
  }

  /** Rounding an integer gives it back. */
  lemma RoundInt(n: int)
    ensures Round(n as real) == n
  {
  }

  /** `round` never reverses the order of its arguments. */
  lemma RoundMonotone(x: real, y: real)
    requires x <= y
    ensures Round(x) <= Round(y)
  {
    if x.Floor < y.Floor {
      assert Round(x) <= x.Floor + 1 <= y.Floor <= Round(y);
    }
  }

  /** A point between two integers rounds to a value between them. */
  lemma RoundBetween(lo: int, x: real, hi: int)
    requires lo as real <= x <= hi as real
    ensures lo <= Round(x) <= hi
  {
    RoundInt(lo);
    RoundInt(hi);
    RoundMonotone(lo as real, x);
    RoundMonotone(x, hi as real);
  }

  /** Two points at least one apart round to different integers, unless
      they are exactly one apart and the lower one is a half-integer. */
  lemma RoundSeparates(a: real, s: real)
    requires s > 1.0 || (s == 1.0 && a == a.Floor as real)
    ensures Round(a) < Round(a + s)
  {
    if s == 1.0 {
      RoundInt(a.Floor);
      RoundInt(a.Floor + 1);
      assert a + s == (a.Floor + 1) as real;
    }
  }
}
