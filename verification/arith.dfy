/** Small facts about integer multiplication and Euclidean division that the
    solver does not find on its own. */
module Arith {

  function Max(a: int, b: int): int { if a <= b then b else a }

  lemma MulMonotone(a: int, b: int, c: int)
    requires a <= b && 0 <= c
    ensures a * c <= b * c
  {
    assert b * c - a * c == (b - a) * c;
  }

  lemma MulSucc(a: int, b: int)
    ensures (a + 1) * b == a * b + b
  {
  }

  lemma MulDistrib(q: int, m: int, c: int, d: int)
    ensures (q * m + c) * d == q * (m * d) + c * d
  {
  }

  lemma MulPositive(a: int, b: int)
    requires 0 <= a && 0 <= b
    ensures a * b > 0 <==> a > 0 && b > 0
  {
    if a > 0 && b > 0 {
      MulMonotone(1, a, b);
    }
  }

  /** Quotient and remainder are determined by any decomposition with the
      remainder in range. */
  lemma DivModUnique(a: int, d: int, q: int, r: int)
    requires d > 0 && 0 <= r < d && a == q * d + r
    ensures a / d == q && a % d == r
  {
    var q', r' := a / d, a % d;
    assert (q' - q) * d == r - r';
    if q' > q {
      MulMonotone(1, q' - q, d);
    } else if q' < q {
      MulMonotone(1, q - q', d);
    }
  }

  /** Moving one divisor down shifts the quotient by one and keeps the remainder. */
  lemma DivModShift(k: int, d: int)
    requires 0 < d <= k
    ensures k / d == (k - d) / d + 1 && k % d == (k - d) % d
  {
    var q, r := (k - d) / d, (k - d) % d;
    assert k == (q + 1) * d + r;
    DivModUnique(k, d, q + 1, r);
  }

  lemma MulDivCancel(a: int, n: int)
    requires n > 0
    ensures (a * n) / n == a && (a * n) % n == 0
  {
    DivModUnique(a * n, n, a, 0);
  }

  /** A mean of values in [0, hi] lies in [0, hi]. */
  lemma MeanBound(s: int, n: int, hi: int)
    requires n > 0 && 0 <= s <= hi * n
    ensures 0 <= s / n <= hi
  {
    var q := s / n;
    assert q * n + s % n == s;
    if q > hi {
      MulMonotone(hi + 1, q, n);
    }
    if q < 0 {
      MulMonotone(q, -1, n);
    }
  }

  /** The Euclidean quotient is the mean rounded down. */
  lemma FloorOfQuotient(s: int, n: int)
    requires n > 0
    ensures (s / n) * n <= s < (s / n + 1) * n
  {
    assert s == (s / n) * n + s % n;
  }

  /** Offset v in rows of width w lies in row v / w at column v mod w; the
      row scaled by c is a multiple of c from which the row is recovered. */
  lemma ScaledRow(v: nat, w: nat, c: nat)
    requires w > 0 && c > 0
    ensures 0 <= v % w < w && 0 <= (v / w) * c && ((v / w) * c) % c == 0
    ensures (((v / w) * c) / c) * w + v % w == v
  {
    MulMonotone(0, v / w, c);
    MulDivCancel(v / w, c);
  }

  /** v rounded down to a multiple of size: the start of the block of side
      size that holds v. */
  function RoundDown(v: nat, size: nat): (s: nat)
    requires size > 0
    ensures s <= v < s + size && s % size == 0
  {
    var q := v / size;
    FloorOfQuotient(v, size);
    MulSucc(q, size);
    MulMonotone(0, q, size);
    MulDivCancel(q, size);
    q * size
  }
}
