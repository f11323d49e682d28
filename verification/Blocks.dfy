/** Arithmetic of indices cut into blocks of equal size. */
module Blocks {

  lemma {:induction false} MulSteps(p: nat, a: nat, b: nat)
    requires a < b
    ensures p * a + p <= p * b
    decreases b
  {
    if a + 1 < b {
      MulSteps(p, a, b - 1);
    }
  }

  lemma ModUnique(x: nat, q: nat, r: nat, p: nat)
    requires p > 0 && x == p * q + r && r < p
    ensures x / p == q && x % p == r
  {
    if x / p < q {
      MulSteps(p, x / p, q);
    } else if q < x / p {
      MulSteps(p, q, x / p);
    }
  }

  lemma StartBounds(x: nat, p: nat)
    requires p > 0
    ensures x / p * p <= x < x / p * p + p && x / p * p % p == 0
  {
    var q := x / p;
    assert x == p * q + x % p;
    ModUnique(p * q, q, 0, p);
    assert q * p == p * q;
  }

  /** The first index of the block that x lies in. */
  function Start(x: nat, p: nat): (s: nat)
    requires p > 0
    ensures s <= x < s + p && s % p == 0
  {
    StartBounds(x, p);
    x / p * p
  }

  lemma MultiplesApart(a: nat, b: nat, p: nat)
    requires p > 0 && a % p == 0 && b % p == 0 && a < b
    ensures a + p <= b
  {
    if b / p < a / p {
      MulSteps(p, b / p, a / p);
    } else if a / p < b / p {
      MulSteps(p, a / p, b / p);
    }
  }

  /** A block start is found from any index of its block. */
  lemma StartUnique(s: nat, x: nat, p: nat)
    requires p > 0 && s % p == 0 && s <= x < s + p
    ensures Start(x, p) == s
  {
    hide Start;
    var t := Start(x, p);
    if t < s {
      MultiplesApart(t, s, p);
    } else if s < t {
      MultiplesApart(s, t, p);
    }
  }

  lemma ModAdds(a: nat, b: nat, p: nat)
    requires p > 0 && a % p == 0
    ensures (a + b) % p == b % p
  {
    assert a + b == p * (a / p + b / p) + b % p;
    ModUnique(a + b, a / p + b / p, b % p, p);
  }

  lemma ModSubtracts(a: nat, b: nat, p: nat)
    requires p > 0 && a % p == 0 && b % p == 0 && a <= b
    ensures (b - a) % p == 0
  {
    ModAdds(a, b - a, p);
  }
}
