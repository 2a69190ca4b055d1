/** Facts about Euclidean division and products that the index
    computations need; Dafny's `/` and `%` agree with the floor division
    and modulo of affine expressions for a positive divisor. */
module Arith {

  /** The sign of a product with a positive factor. */
  lemma MulSign(x: int, b: int)
    requires b > 0
    ensures x >= 0 ==> x * b >= 0
    ensures x >= 1 ==> x * b >= b
    ensures x <= -1 ==> x * b <= -b
  {
    if x >= 1 {
      assert x * b == (x - 1) * b + b;
    } else if x <= -1 {
      assert x * b == (x + 1) * b - b;
    }
  }

  lemma MulMono(a: int, b: int, c: int)
    requires c > 0 && a <= b
    ensures a * c <= b * c
  {
    MulSign(b - a, c);
    assert (b - a) * c == b * c - a * c;
  }

  lemma MulAssoc(a: int, b: int, c: int)
    ensures (a * b) * c == a * (b * c)
  {
  }

  lemma MulPositive(a: int, b: int)
    requires a >= 1 && b >= 1
    ensures a * b >= 1 && a * b >= a && a * b >= b
  {
    MulSign(a, b);
    MulSign(b, a);
  }

  /** The quotient and remainder of a positive divisor are unique. */
  lemma DivModUnique(a: int, b: int, q: int, r: int)
    requires b > 0 && 0 <= r < b && a == q * b + r
    ensures a / b == q && a % b == r
  {
    var q0, r0 := a / b, a % b;
    assert a == q0 * b + r0;
    assert (q - q0) * b == r0 - r;
    MulSign(q - q0, b);
  }

  lemma MulDivCancel(a: int, b: int)
    requires b > 0
    ensures (a * b) / b == a && (a * b) % b == 0
  {
    DivModUnique(a * b, b, a, 0);
  }

  /** Mixed-radix digits: dividing by `b` and then by `c` is dividing by `b * c`. */
  lemma DivDiv(a: int, b: int, c: int)
    requires b > 0 && c > 0
    ensures a / b / c == a / (b * c)
  {
    MulPositive(b, c);
    var q, r := a / (b * c), a % (b * c);
    var r2, r1 := r / b, r % b;
    QuotientBound(r, c, b);
    Regroup(q, b, c, r2, r1);
    DivModUnique(a, b, q * c + r2, r1);
    DivModUnique(a / b, c, q, r2);
  }

  lemma Regroup(q: int, b: int, c: int, r2: int, r1: int)
    ensures q * (b * c) + (r2 * b + r1) == (q * c + r2) * b + r1
  {
    MulAssoc(q, c, b);
    assert (q * c + r2) * b == (q * c) * b + r2 * b;
  }

  /** Cancelling a positive common factor. */
  lemma MulCancel(a: int, b: int, c: int)
    requires c > 0 && a * c == b * c
    ensures a == b
  {
    assert (a - b) * c == a * c - b * c;
    MulSign(a - b, c);
  }

  /** A quotient by a positive divisor of a number below `n * b` is below `n`. */
  lemma QuotientBound(a: int, n: int, b: int)
    requires b > 0 && 0 <= a < n * b
    ensures 0 <= a / b < n
  {
    var q := a / b;
    assert a == q * b + a % b;
    MulSign(q - n, b);
    MulSign(q, b);
    assert (q - n) * b == q * b - n * b;
  }

  /** Two mixed-radix digits `lo` (below `base`) and `hi` (below `n`) give
      a number below `base * n`. */
  lemma DigitsBound(lo: int, hi: int, base: int, n: int)
    requires 0 <= lo < base && 0 <= hi < n
    ensures 0 <= lo + base * hi < base * n
  {
    MulSign(hi, base);
    MulSign(n - 1 - hi, base);
    assert base * hi + base * (n - 1 - hi) + base == base * n;
  }

  /** Splitting off the next digit of `id` keeps the value represented. */
  lemma NextDigit(id: int, nt: int, below: int, rest: int)
    requires nt > 0
    ensures (id / nt) * (nt * below) + ((id % nt) * below + rest) == id * below + rest
  {
    var q, d := id / nt, id % nt;
    assert id == q * nt + d;
    MulAssoc(q, nt, below);
    assert (q * nt + d) * below == (q * nt) * below + d * below;
  }

  /** C++ integer division, which truncates toward zero: the remainder
      `a - q * b` has the sign of `a` and is smaller than `b` in magnitude. */
  function TruncDiv(a: int, b: int): (q: int)
    requires b != 0
    ensures a >= 0 && b > 0 ==> q == a / b
    ensures a >= 0 ==> 0 <= a - q * b < if b > 0 then b else -b
    ensures a <= 0 ==> 0 <= q * b - a < if b > 0 then b else -b
  {
    var m := if b > 0 then b else -b;
    var u := (if a >= 0 then a else -a) / m;
    assert 0 <= (if a >= 0 then a else -a) - u * m < m;
    var q := if (a >= 0) == (b > 0) then u else -u;
    assert q * b == if a >= 0 then u * m else -(u * m) by {
      if b > 0 {
        if a < 0 { assert (-u) * b == -(u * b); }
      } else {
        if a >= 0 { assert (-u) * b == u * (-b); }
        else { assert u * b == -(u * (-b)); }
      }
    }
    q
  }
}
