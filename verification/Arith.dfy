/** The few facts about products and quotients that index arithmetic needs. */
module Arith {

  lemma MulMono(a: nat, b: nat, d: nat)
    requires a <= b
    ensures a * d <= b * d
  {
    assert (b - a) * d >= 0;
    assert (b - a) * d == b * d - a * d;
  }

  lemma MulStep(a: nat, b: nat, d: nat)
    requires a < b
    ensures a * d + d <= b * d
  {
    MulMono(a + 1, b, d);
    assert (a + 1) * d == a * d + d;
  }

  lemma DivMod(a: nat, d: nat)
    requires d > 0
    ensures a == a / d * d + a % d
  {
  }

  /** Quotient and remainder are the only way to split a number by `d`. */
  lemma DivModUnique(a: nat, q: nat, d: nat, k: nat)
    requires k < d && a == q * d + k
    ensures a / d == q && a % d == k
  {
    var q' := a / d;
    DivMod(a, d);
    if q' < q {
      MulStep(q', q, d);
    } else if q < q' {
      MulStep(q, q', d);
    }
  }

  /** `s` lies in a whole block below `n`. */
  lemma BlockBound(s: nat, n: nat, w: nat)
    requires w > 0 && n % w == 0 && s < n
    ensures s / w < n / w
    ensures s == s / w * w + s % w
  {
    DivMod(n, w);
    DivMod(s, w);
    if n / w <= s / w {
      MulMono(n / w, s / w, w);
    }
  }

  /** Entry `j` of block `b`, when each of `blocks` blocks has `r` entries. */
  lemma BlockIndex(b: nat, blocks: nat, r: nat, j: nat)
    requires b < blocks && j < r
    ensures b * r + j < blocks * r
    ensures (b * r + j) / r == b && (b * r + j) % r == j
  {
    MulStep(b, blocks, r);
    DivModUnique(b * r + j, b, r, j);
  }

  /** Where slot `start + k` lies: in the block of `start` or in the next one. */
  lemma SplitBlock(start: nat, w: nat, k: nat)
    requires k < w
    ensures var p := start % w + k;
      (start + k) / w == (if p < w then start / w else start / w + 1)
      && (start + k) % w == (if p < w then p else p - w)
  {
    var b, p := start / w, start % w + k;
    DivMod(start, w);
    if p < w {
      DivModUnique(start + k, b, w, p);
    } else {
      assert (b + 1) * w == b * w + w;
      DivModUnique(start + k, b + 1, w, p - w);
    }
  }

  lemma Distribute(a: int, b: int, c: int)
    ensures (a + b) * c == a * c + b * c
  {
  }

  lemma Associate(a: int, b: int, c: int)
    ensures a * b * c == a * (b * c)
  {
  }

  /** Adding multiples of `p` does not change the remainder. */
  lemma ModShift(a: nat, i: nat, p: nat)
    requires p > 0
    ensures i * p >= 0 && (a + i * p) % p == a % p
  {
    DivMod(a, p);
    Distribute(a / p, i, p);
    MulMono(0, i, p);
    DivModUnique(a + i * p, a / p + i, p, a % p);
  }

  lemma ModEqual(a: nat, i: nat, b: nat, j: nat, p: nat)
    requires p > 0 && a + i * p == b + j * p
    ensures a % p == b % p
  {
    ModShift(a, i, p);
    ModShift(b, j, p);
  }

  /** Reducing a factor modulo `p` does not change the product modulo `p`. */
  lemma ModMul(a: nat, d: nat, p: nat)
    requires p > 0
    ensures a % p * d >= 0 && a * d >= 0 && (a % p * d) % p == (a * d) % p
  {
    var q, r := a / p, a % p;
    DivMod(a, p);
    MulMono(0, r, d);
    MulMono(0, a, d);
    MulMono(0, q, d);
    assert a * d == r * d + (q * d) * p by {
      Distribute(q * p, r, d);
      Associate(q, p, d);
      Associate(q, d, p);
    }
    ModShift(r * d, q * d, p);
  }

  lemma InverseMod(n: nat, c: nat, d: nat, k: nat, p: nat)
    requires p > 0 && c * d == 1 + k * p
    ensures n * c >= 0 && n * c % p * d >= 0 && (n * c % p * d) % p == n % p
  {
    MulMono(0, n, c);
    ModMul(n * c, d, p);
    assert n * c * d == n + (n * k) * p by {
      Associate(n, c, d);
      Associate(n, k, p);
      Distribute(1, k * p, n);
    }
    MulMono(0, n, k);
    ModShift(n, n * k, p);
  }

  lemma AddSubCore(x: nat, y: nat, p: nat, s: nat, i: nat, z: nat, j: nat)
    requires p > 0 && y <= p && x + y == i * p + s && p - y == j * p + z
    ensures (s + z) % p == x % p
  {
    Distribute(i, j, p);
    ModEqual(s + z, i + j, x, 1, p);
  }

  lemma AddSubMod(x: nat, y: nat, p: nat)
    requires p > 0 && y <= p
    ensures ((x + y) % p + (p - y) % p) % p == x % p
  {
    DivMod(x + y, p);
    DivMod(p - y, p);
    AddSubCore(x, y, p, (x + y) % p, (x + y) / p, (p - y) % p, (p - y) / p);
  }

  lemma SubAddCore(x: nat, y: nat, p: nat, z: nat, j: nat, s: nat, i: nat)
    requires p > 0 && y <= p && p - y == j * p + z && x + z == i * p + s
    ensures (s + y) % p == x % p
  {
    Distribute(i, j, p);
    ModEqual(s + y, i + j, x, 1, p);
  }

  lemma SubAddMod(x: nat, y: nat, p: nat)
    requires p > 0 && y <= p
    ensures ((x + (p - y) % p) % p + y) % p == x % p
  {
    var z := (p - y) % p;
    DivMod(p - y, p);
    DivMod(x + z, p);
    SubAddCore(x, y, p, z, (p - y) / p, (x + z) % p, (x + z) / p);
  }

  lemma DivLess(a: nat, b: nat, d: nat)
    requires a < b * d
    ensures d > 0 && a / d < b
  {
    if d > 0 {
      var q: nat := a / d;
      DivMod(a, d);
      if b <= q {
        MulMono(b, q, d);
      }
    }
  }

  function Div(a: nat, d: nat): (q: nat)
    requires d > 0
  {
    a / d
  }

  /** One block, or it and the next, end within `blocks` blocks of `r` entries. */
  lemma TwoBlocks(b: nat, blocks: nat, r: nat, second: bool)
    requires b < blocks && (second ==> b + 1 < blocks)
    ensures b * r + (if second then r else 0) + r <= blocks * r
  {
    if second {
      Distribute(b, 1, r);
      MulStep(b + 1, blocks, r);
    } else {
      MulStep(b, blocks, r);
    }
  }
}
