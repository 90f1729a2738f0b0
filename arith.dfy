/** Small facts about multiplication, division and remainder that the
    solver does not find on its own. Divisors are positive throughout. */
module Arith {

  lemma MulMono(a: int, b: int, c: int)
    requires a <= b && 0 <= c
    ensures a * c <= b * c
  {
    assert b * c == a * c + (b - a) * c;
    assert (b - a) * c >= 0;
  }

  lemma MulSucc(a: int, c: int)
    ensures (a + 1) * c == a * c + c
  {
  }

  /** Euclidean division is unique: a quotient and an in-range remainder
      that rebuild `p` are the quotient and remainder of `p`. */
  lemma DivModUnique(p: int, q: int, s: int, d: int)
    requires 0 < d && 0 <= s < d && p == q * d + s
    ensures p / d == q && p % d == s
  {
    var q', s' := p / d, p % d;
    assert p == q' * d + s';
    if q' < q {
      MulMono(q' + 1, q, d);
      assert false;
    } else if q < q' {
      MulMono(q + 1, q', d);
      assert false;
    }
  }

  /** A positive multiple of `t` is at least `t`, and one step down is still a multiple. */
  lemma MultipleStepDown(l: int, t: int)
    requires 0 < t && 0 < l && l % t == 0
    ensures t <= l && (l - t) % t == 0
  {
    var q := l / t;
    assert l == q * t;
    if q < 1 {
      MulMono(q, 0, t);
      assert false;
    }
    MulMono(1, q, t);
    DivModUnique(l - t, q - 1, 0, t);
  }

  /** Between two multiples `l < k` of `t` there is room for a whole step of `t`. */
  lemma MultipleStepUp(l: int, k: int, t: int)
    requires 0 < t && 0 <= l < k && l % t == 0 && k % t == 0
    ensures l + t <= k && (l + t) % t == 0
  {
    var ql, qk := l / t, k / t;
    assert l == ql * t && k == qk * t;
    if qk <= ql {
      MulMono(qk, ql, t);
      assert false;
    }
    MulMono(ql + 1, qk, t);
    DivModUnique(l + t, ql + 1, 0, t);
  }

  /** Group `g` of `n / t` groups of width `t` ends inside `[0, n)`. */
  lemma GroupFits(g: int, t: int, n: int)
    requires 0 < t && 0 <= g < n / t && n % t == 0
    ensures g * t + t <= n
  {
    assert n == (n / t) * t;
    MulMono(g + 1, n / t, t);
  }

  /** `n / t` groups of width `t` tile `[0, n)` exactly. */
  lemma GroupsCover(t: int, n: int)
    requires 0 < t && n % t == 0
    ensures (n / t) * t == n
  {
  }
}
