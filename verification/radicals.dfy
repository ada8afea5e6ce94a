/** Exact arithmetic on square roots of quotients, enough to state ratios
    of Euclidean distances without computing a square root. */
module Radicals {

  /** A real number given exactly by the quotient of its square and by its
      sign: it stands for the value `v` with `v * v * den == num`,
      non-positive when `negative` and non-negative otherwise. */
  datatype Radical = Radical(negative: bool, num: real, den: real)

  /** `v` is the number that `r` stands for. */
  predicate Denotes(r: Radical, v: real) {
    (v * v) * r.den == r.num && (if r.negative then v <= 0.0 else v >= 0.0)
  }

  /** The product of the number `r` stands for with the quotient `a / b`. */
  function ScaleRadical(r: Radical, a: real, b: real): Radical {
    Radical(r.negative != ((a < 0.0) != (b < 0.0)), r.num * (a * a), r.den * (b * b))
  }

  lemma SquareProduct(q: real, b: real, a: real)
    requires q * b == a
    ensures (q * q) * (b * b) == a * a
  {
    assert (q * q) * (b * b) == (q * b) * (q * b);
  }

  lemma SignOfProduct(x: real, y: real)
    ensures x > 0.0 && y > 0.0 ==> x * y > 0.0
    ensures x < 0.0 && y < 0.0 ==> x * y > 0.0
    ensures x > 0.0 && y < 0.0 ==> x * y < 0.0
    ensures x < 0.0 && y > 0.0 ==> x * y < 0.0
    ensures x == 0.0 || y == 0.0 ==> x * y == 0.0
  {
  }

  /** `w` is `v` times the quotient `a / b`, stated without the division. */
  predicate ScaledBy(w: real, b: real, v: real, a: real) {
    w * b == v * a
  }

  /** Scaling a radical by `a / b` scales the number it stands for by
      `a / b`: `w` with `w * b == v * a` is that product. */
  lemma ScaleRadicalDenotes(r: Radical, v: real, a: real, b: real, w: real)
    requires Denotes(r, v)
    requires b != 0.0 && w * b == v * a
    ensures Denotes(ScaleRadical(r, a, b), w)
  {
    SquareProduct(w, b, v * a);
    assert (v * a) * (v * a) == (v * v) * (a * a);
    assert ((w * w) * (b * b)) * r.den == ((v * v) * r.den) * (a * a);
    SignOfProduct(w, b);
    SignOfProduct(v, a);
  }

  /** The ratio `q` of two non-negative numbers `n` and `d` (`q * d == n`,
      `d` non-zero) is what the quotient of their squares stands for. */
  lemma RatioDenotes(n: real, d: real, q: real)
    requires n >= 0.0 && d >= 0.0 && d * d != 0.0
    requires q * d == n
    ensures Denotes(Radical(false, n * n, d * d), q)
  {
    assert d > 0.0;
    SquareProduct(q, d, n);
    SignOfProduct(q, d);
  }
}
