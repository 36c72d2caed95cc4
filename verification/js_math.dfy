/** JavaScript's `Math.ceil` applied to the quotient of two integers, as the
    Express server and the client compute page counts and reading times.
    JavaScript divides in double precision, so the quotient itself is not
    exact; its ceiling is, for operands below 2^53, and that is what is
    modelled here on unbounded integers. */
module JsMath {

  /** The floor of `a / b` for a non-zero divisor of either sign. */
  function FloorDiv(a: int, b: int): (q: int)
    requires b != 0
    ensures b > 0 ==> q * b <= a < (q + 1) * b
    ensures b < 0 ==> (q + 1) * b < a <= q * b
  {
    if b > 0 then a / b else (-a) / (-b)
  }

  /** `Math.ceil(a / b)`: the least integer not below the quotient. */
  function CeilDiv(a: int, b: int): (q: int)
    requires b != 0
    ensures b > 0 ==> (q - 1) * b < a <= q * b
    ensures b < 0 ==> q * b <= a < (q - 1) * b
  {
    -FloorDiv(-a, b)
  }

  /** For a positive divisor the ceiling is the unique integer the
      characterization allows, and it is positive exactly when `a` is. */
  lemma CeilDivUnique(a: int, b: int, q: int)
    requires b > 0 && (q - 1) * b < a <= q * b
    ensures q == CeilDiv(a, b)
    ensures q > 0 <==> a > 0
  {
    var c := CeilDiv(a, b);
    if q < c {
      assert q * b <= (c - 1) * b by { MulMono(q, c - 1, b); }
    } else if q > c {
      assert c * b <= (q - 1) * b by { MulMono(c, q - 1, b); }
    }
    if q <= 0 {
      assert q * b <= 0 by { MulMono(q, 0, b); }
    } else {
      assert (q - 1) * b >= 0 by { MulMono(0, q - 1, b); }
    }
  }

  lemma MulMono(x: int, y: int, b: int)
    requires x <= y && b > 0
    ensures x * b <= y * b
  {
    assert y * b - x * b == (y - x) * b;
  }
}
