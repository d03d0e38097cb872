/** Small facts of nonlinear integer arithmetic, one step each. */
module Arith {

  lemma {:induction false} MulMono(a: int, x: int, y: int)
    requires a >= 0 && x <= y
    ensures a * x <= a * y
  {}

  lemma {:induction false} MulPos(a: int, b: int)
    requires a > 0 && b > 0
    ensures a * b > 0 && a * b >= a && a * b >= b
  {
    MulMono(a, 1, b);
    MulMono(b, 1, a);
  }

  lemma {:induction false} Commuted(a: int, b: int)
    ensures a * b == b * a
  {}

  lemma {:induction false} Assoc(a: int, b: int, c: int)
    ensures (a * b) * c == a * (b * c)
  {}

  lemma {:induction false} Distrib(a: int, b: int, c: int)
    ensures a * (b + c) == a * b + a * c
  {}

  lemma {:induction false} DistribSub(a: int, b: int, c: int)
    ensures a * (b - c) == a * b - a * c
  {}

  lemma {:induction false} Swap4(a: int, b: int, c: int, d: int)
    ensures (a * b) * (c * d) == (a * c) * (b * d)
  {
    var bcd := b * (c * d);
    Assoc(a, b, c * d);
    Assoc(a, c, b * d);
    Assoc(b, c, d);
    Assoc(c, b, d);
  }

  lemma {:induction false} Replace(p: int, old': int, new': int, q: int)
    ensures p * (new' + q) == p * (old' + q) + p * (new' - old')
  {
    Distrib(p, old' + q, new' - old');
  }

  /** The quotient and the remainder are determined by their equation. */
  lemma {:induction false} DivUnique(a: int, m: int, q: int, r: int)
    requires m > 0 && a == m * q + r && 0 <= r < m
    ensures a / m == q && a % m == r
  {
    var (d, e) := (a / m, a % m);
    DistribSub(m, q, d);
    if q - d >= 1 { MulMono(m, 1, q - d); }
    if q - d <= -1 { MulMono(m, q - d, -1); }
  }

  lemma {:induction false} ModAddMultiple(a: int, m: int, k: int)
    requires m > 0
    ensures (a + m * k) % m == a % m
  {
    Distrib(m, a / m, k);
    DivUnique(a + m * k, m, a / m + k, a % m);
  }

  lemma {:induction false} ModSum(p: int, q: int, m: int)
    requires m > 0
    ensures (p + q) % m == p % m + q % m || (p + q) % m + m == p % m + q % m
  {
    var s := p % m + q % m;
    Distrib(m, p / m, q / m);
    if s < m {
      DivUnique(p + q, m, p / m + q / m, s);
    } else {
      Distrib(m, p / m + q / m, 1);
      DivUnique(p + q, m, p / m + q / m + 1, s - m);
    }
  }
}
