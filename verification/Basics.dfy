/** Vocabulary and arithmetic that several components share. */
module Basics {
  datatype Option<+T> = None | Some(value: T)

  type byte = x: int | 0 <= x < 256

  const U32_MAX := 0xFFFF_FFFF
  const U64_MAX := 0xFFFF_FFFF_FFFF_FFFF

  function Min(a: nat, b: nat): nat {
    if a <= b then a else b
  }

  function Max(a: nat, b: nat): nat {
    if a <= b then b else a
  }

  /** Subtraction that stops at zero: timestamps need not be in order. */
  function Elapsed(now: nat, since: nat): nat {
    if now >= since then now - since else 0
  }

  function Pow2(n: nat): (p: nat)
    ensures p > 0
  {
    if n == 0 then 1 else 2 * Pow2(n - 1)
  }

  lemma Times(x: int, y: int, b: nat)
    requires x <= y
    ensures x * b <= y * b
  {
  }

  lemma OneLess(b: nat, x: int)
    ensures (x - 1) * b == x * b - b
  {
  }

  lemma DivisionMeans(a: nat, b: nat)
    requires b > 0
    ensures a == a / b * b + a % b && 0 <= a % b < b && a / b >= 0
  {
  }

  /** A quotient and remainder are the quotient and remainder. */
  lemma QuotientIs(a: nat, d: nat, p: nat, r: nat)
    requires d > 0 && a == p * d + r && r < d
    ensures a / d == p
  {
    DivisionMeans(a, d);
    SameQuotient(d, p, r, a / d, a % d);
  }

  lemma SameQuotient(d: nat, p: nat, r: nat, q: nat, s: nat)
    requires p * d + r == q * d + s && r < d && s < d
    ensures p == q
  {
    if q < p {
      Times(q + 1, p, d);
    }
    if q > p {
      Times(p + 1, q, d);
    }
  }

  lemma QuotientAtMost(a: nat, n: nat, w: nat)
    requires n > 0 && a <= w * n
    ensures a / n <= w
  {
    if a / n > w {
      Times(w + 1, a / n, n);
    }
  }

  lemma DivideMonotone(a: nat, b: nat, n: nat)
    requires n > 0 && a <= b
    ensures a / n <= b / n
  {
    if a / n > b / n {
      Times(b / n + 1, a / n, n);
    }
  }

  lemma AtLeastItsRemainder(q: nat, word: nat)
    requires word > 0
    ensures q % word <= q
    ensures q < word ==> q % word == q
  {
  }
}
