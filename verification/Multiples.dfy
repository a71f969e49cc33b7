/** Integer multiples of a real by repeated addition, so that proofs about them stay
    linear; `IsProduct` and `ScaleIsProduct` turn the results back into products.  The
    Holm products, the load ratio and the lap bound are proved with them.  Squares are
    kept behind a function for the same reason. */
module Multiples {

  function Times(n: nat, x: real): real {
    if n == 0 then 0.0 else Times(n - 1, x) + x
  }

  lemma {:induction false} IsProduct(n: nat, x: real)
    ensures Times(n, x) == n as real * x
  {
    if n > 0 {
      IsProduct(n - 1, x);
      assert n as real * x == (n - 1) as real * x + x;
    }
  }

  lemma {:induction false} TimesMonotone(a: nat, b: nat, x: real, y: real)
    requires a <= b && 0.0 <= x <= y
    ensures 0.0 <= Times(a, x) <= Times(b, y)
  {
    if a > 0 {
      TimesMonotone(a - 1, b - 1, x, y);
    } else if b > 0 {
      TimesMonotone(a, b - 1, x, y);
    }
  }

  lemma {:induction false} TimesIncreasing(n: nat, x: real, y: real)
    requires x <= y
    ensures Times(n, x) <= Times(n, y)
  {
    if n > 0 { TimesIncreasing(n - 1, x, y); }
  }

  lemma {:induction false} TimesDifference(n: nat, x: real, y: real)
    ensures Times(n, x - y) == Times(n, x) - Times(n, y)
  {
    if n > 0 { TimesDifference(n - 1, x, y); }
  }

  /** The same for naturals. */
  function Scale(n: nat, k: nat): nat {
    if n == 0 then 0 else Scale(n - 1, k) + k
  }

  lemma {:induction false} ScaleIsProduct(n: nat, k: nat)
    ensures Scale(n, k) == n * k
  {
    if n > 0 {
      ScaleIsProduct(n - 1, k);
      assert n * k == (n - 1) * k + k;
    }
  }

  lemma {:induction false} ScaleDrop(a: nat, b: nat, k: nat, x: nat)
    requires a < b && x < k
    ensures Scale(a, k) + x < Scale(b, k)
  {
    if a < b - 1 { ScaleDrop(a, b - 1, k, x); }
  }

  function Square(d: real): real {
    d * d
  }

  lemma PositiveProduct(a: real, b: real, product: real)
    requires a > 0.0 && b > 0.0 && product == a * b
    ensures product > 0.0
  {
  }

  lemma SquareSign(d: real)
    ensures if d == 0.0 then Square(d) == 0.0 else Square(d) > 0.0
  {
    if d > 0.0 { PositiveProduct(d, d, Square(d)); }
    if d < 0.0 { PositiveProduct(-d, -d, Square(d)); }
  }

  lemma SmallerSquare(a: real, b: real)
    requires 0.0 <= a < b
    ensures Square(a) < Square(b)
  {
    PositiveProduct(b - a, b + a, Square(b) - Square(a));
  }
}
