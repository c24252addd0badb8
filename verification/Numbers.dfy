/** Words as numbers: what exclusive or, shifts and slices do to the number a word stands for. */
module Numbers {
  import opened Arith
  import opened Words

  /** The number whose bits are the bits of `a` and `b` summed without carry. */
  function XorNat(a: nat, b: nat): (c: nat) {
    if a == 0 && b == 0 then 0 else (a % 2 + b % 2) % 2 + 2 * XorNat(a / 2, b / 2)
  }

  /** `n | 1`. */
  function OddNat(n: nat): nat {
    n + 1 - n % 2
  }

  predicate Bit(n: nat, k: nat) {
    n / Pow2(k) % 2 == 1
  }

  lemma XorNatStep(a: nat, b: nat)
    ensures XorNat(a, b) == (a % 2 + b % 2) % 2 + 2 * XorNat(a / 2, b / 2)
  {
  }

  lemma XorZero()
    ensures XorNat(0, 0) == 0
  {
  }

  lemma {:induction false} NatOfXor(v: Word, u: Word)
    requires |v| == |u|
    ensures NatOfWord(Xor(v, u)) == XorNat(NatOfWord(v), NatOfWord(u))
  {
    hide XorNat;
    XorZero();
    if |v| > 0 {
      NatOfXor(v[1..], u[1..]);
      assert Xor(v, u)[1..] == Xor(v[1..], u[1..]);
      XorNatStep(NatOfWord(v), NatOfWord(u));
    }
  }

  /** Dividing twice is dividing by the product. */
  lemma DivTwice(n: nat, a: nat, b: nat)
    requires a > 0 && b > 0
    ensures a * b > 0 && n / a / b == n / (a * b)
  {
    MulStep(0, a, b);
    var q, r, s := n / a / b, n / a % b, n % a;
    DivMod(n, a);
    DivMod(n / a, b);
    Distribute(q * b, r, a);
    Associate(q, b, a);
    MulStep(r, b, a);
    assert n == q * (a * b) + (r * a + s) by {
      assert b * a == a * b;
    }
    DivModUnique(n, q, a * b, r * a + s);
  }

  lemma {:induction false} NatOfSuffix(v: Word, t: nat)
    requires t <= |v|
    ensures NatOfWord(v[t..]) == NatOfWord(v) / Pow2(t)
  {
    if t == 0 {
      assert v[0..] == v;
    } else {
      NatOfSuffix(v[1..], t - 1);
      assert v[1..][t - 1..] == v[t..];
      assert NatOfWord(v) / 2 == NatOfWord(v[1..]);
      DivTwice(NatOfWord(v), 2, Pow2(t - 1));
    }
  }

  lemma NatOfShr(v: Word, t: nat)
    requires t <= |v|
    ensures NatOfWord(Shr(v, t)) == NatOfWord(v) / Pow2(t)
  {
    NatOfSuffix(v, t);
    NatOfPadded(v[t..], t);
  }

  lemma NatOfSlice(v: Word, i: nat, j: nat)
    requires i <= j <= |v|
    ensures NatOfWord(v[i..j]) == NatOfWord(v) / Pow2(i) % Pow2(j - i)
  {
    NatOfSuffix(v, i);
    NatOfPrefix(v[i..], j - i);
    assert v[i..][..j - i] == v[i..j];
  }

  lemma {:induction false} NatOfConcat(a: Word, b: Word)
    ensures NatOfWord(a + b) == NatOfWord(a) + Pow2(|a|) * NatOfWord(b)
  {
    if |a| == 0 {
      assert a + b == b;
    } else {
      NatOfConcat(a[1..], b);
      assert (a + b)[1..] == a[1..] + b;
      Associate(2, Pow2(|a| - 1), NatOfWord(b));
    }
  }

  lemma LowBit(v: Word)
    requires |v| > 0
    ensures NatOfWord(v) == (if v[0] then 1 else 0) + 2 * NatOfWord(v[1..])
  {
  }

  lemma LowTail(v: Word)
    requires |v| > 0
    ensures SetLow(v)[1..] == v[1..]
  {
  }

  lemma OddOf(b: nat, m: nat)
    requires b <= 1
    ensures OddNat(b + 2 * m) == 1 + 2 * m
  {
  }

  lemma NatOfSetLow(v: Word)
    requires |v| > 0
    ensures NatOfWord(SetLow(v)) == OddNat(NatOfWord(v))
  {
    hide SetLow, NatOfWord, OddNat;
    LowBit(v);
    LowBit(SetLow(v));
    LowTail(v);
    OddOf(if v[0] then 1 else 0, NatOfWord(v[1..]));
  }

  lemma {:induction false} WordOfNatBit(n: nat, w: nat, k: nat)
    requires k < w
    ensures WordOfNat(n, w)[k] == Bit(n, k)
  {
    if k > 0 {
      WordOfNatBit(n / 2, w - 1, k - 1);
      DivTwice(n, 2, Pow2(k - 1));
    }
  }

  lemma WordNat(n: nat, w: nat)
    requires n < Pow2(w)
    ensures NatOfWord(WordOfNat(n, w)) == n
  {
    NatOfWordOfNat(n, w);
    DivModUnique(n, 0, Pow2(w), n);
  }

  lemma Halve(m: nat, x: nat)
    ensures (2 * m + x) / 2 == m + x / 2 && (2 * m + x) % 2 == x % 2
  {
  }

  /** The low `k` bits of two numbers are summed apart from the others. */
  lemma {:induction false} XorDigit(a: nat, b: nat, x: nat, y: nat, k: nat)
    requires x < Pow2(k) && y < Pow2(k)
    ensures Pow2(k) * a >= 0 && Pow2(k) * b >= 0
    ensures XorNat(Pow2(k) * a + x, Pow2(k) * b + y) == Pow2(k) * XorNat(a, b) + XorNat(x, y)
  {
    hide XorNat;
    var p := Pow2(k);
    MulMono(0, p, a);
    MulMono(0, p, b);
    if k > 0 {
      XorNatStep(x, y);
      var h := Pow2(k - 1);
      Associate(2, h, a);
      Associate(2, h, b);
      Halve(h * a, x);
      Halve(h * b, y);
      XorDigit(a, b, x / 2, y / 2, k - 1);
      XorNatStep(p * a + x, p * b + y);
      Associate(2, h, XorNat(a, b));
    } else {
      XorZero();
    }
  }

  lemma Halves(x: nat)
    requires x < 16
    ensures x / 2 / 2 == x / 4 && x / 4 / 2 == x / 8 && x / 8 / 2 == 0 && x / 8 % 2 == x / 8
  {
  }

  lemma XorStepped(x: nat, y: nat, x1: nat, y1: nat, x2: nat, y2: nat, x3: nat, y3: nat)
    requires x1 == x / 2 && y1 == y / 2 && x2 == x1 / 2 && y2 == y1 / 2 && x3 == x2 / 2 && y3 == y2 / 2
    requires x3 / 2 == 0 && y3 / 2 == 0
    ensures XorNat(x, y) == (x % 2 + y % 2) % 2 + 2 * ((x1 % 2 + y1 % 2) % 2)
                            + 4 * ((x2 % 2 + y2 % 2) % 2) + 8 * ((x3 % 2 + y3 % 2) % 2)
  {
    hide XorNat;
    XorNatStep(x, y);
    XorNatStep(x1, y1);
    XorNatStep(x2, y2);
    XorNatStep(x3, y3);
    XorZero();
  }

  lemma XorOfNibbles(x: nat, y: nat)
    requires x < 16 && y < 16
    ensures XorNat(x, y) == (x % 2 + y % 2) % 2 + 2 * ((x / 2 % 2 + y / 2 % 2) % 2)
                            + 4 * ((x / 4 % 2 + y / 4 % 2) % 2) + 8 * ((x / 8 + y / 8) % 2)
  {
    hide XorNat;
    Halves(x);
    Halves(y);
    XorStepped(x, y, x / 2, y / 2, x / 4, y / 4, x / 8, y / 8);
  }

  /** One more digit of a sum of two numbers written out in base 16. */
  lemma XorHex(a: nat, b: nat, c: nat, x: nat, y: nat, z: nat)
    requires XorNat(a, b) == c && x < 16 && y < 16
    requires z == (x % 2 + y % 2) % 2 + 2 * ((x / 2 % 2 + y / 2 % 2) % 2)
                  + 4 * ((x / 4 % 2 + y / 4 % 2) % 2) + 8 * ((x / 8 + y / 8) % 2)
    ensures XorNat(16 * a + x, 16 * b + y) == 16 * c + z
  {
    hide XorNat;
    assert Pow2(4) == 16;
    XorOfNibbles(x, y);
    XorDigit(a, b, x, y, 4);
  }

  lemma {:induction false} XorNothing(a: nat)
    ensures XorNat(a, 0) == a
  {
    XorNatStep(a, 0);
    if a > 0 {
      XorNothing(a / 2);
    }
  }
}
