/** Machine words of any width as bit sequences, least significant bit first. The filter uses
    the widths 64 and 128; every operation and lemma here is stated for all widths. */
module Words {
  import opened Arith

  type Word = seq<bool>

  /** A 32-bit word: one bit for each possible result column. */
  type Bits32 = v: Word | |v| == 32 witness seq(32, _ => false)

  predicate IsZero(v: Word) {
    forall k :: 0 <= k < |v| ==> !v[k]
  }

  function Zeros(w: nat): (r: Word)
    ensures |r| == w && IsZero(r)
  {
    seq(w, _ => false)
  }

  const ZERO32: Bits32 := Zeros(32)

  function Xor(a: Word, b: Word): (r: Word)
    requires |a| == |b|
    ensures |r| == |a|
  {
    seq(|a|, k requires 0 <= k < |a| => a[k] != b[k])
  }

  // Laws of exclusive or, as the eliminations below use them.

  lemma XorSwap(a: Word, b: Word, c: Word, d: Word)
    requires |a| == |b| == |c| == |d|
    ensures Xor(Xor(a, b), Xor(c, d)) == Xor(Xor(a, c), Xor(b, d))
  {
  }

  lemma XorComm(a: Word, b: Word)
    requires |a| == |b|
    ensures Xor(a, b) == Xor(b, a)
  {
  }

  lemma XorZeros(a: Word, b: Word)
    requires |a| == |b| && IsZero(b)
    ensures Xor(a, b) == a == Xor(b, a)
  {
  }

  /** Adding the same word twice changes nothing; words are equal when they sum to zero. */
  lemma XorCancel(a: Word, b: Word)
    requires |a| == |b|
    ensures Xor(Xor(a, b), b) == a
    ensures IsZero(Xor(a, b)) <==> a == b
  {
    if IsZero(Xor(a, b)) {
      assert forall k :: 0 <= k < |a| ==> !Xor(a, b)[k];
    }
  }

  function And(a: Word, b: Word): (r: Word)
    requires |a| == |b|
    ensures |r| == |a|
  {
    seq(|a|, k requires 0 <= k < |a| => a[k] && b[k])
  }

  function Or(a: Word, b: Word): (r: Word)
    requires |a| == |b|
    ensures |r| == |a|
  {
    seq(|a|, k requires 0 <= k < |a| => a[k] || b[k])
  }

  /** `v << t`: bits pushed past the width are lost. */
  function Shl(v: Word, t: nat): (r: Word)
    requires t <= |v|
    ensures |r| == |v|
  {
    Zeros(t) + v[..|v| - t]
  }

  /** `v >> t`. */
  function Shr(v: Word, t: nat): (r: Word)
    requires t <= |v|
    ensures |r| == |v|
  {
    v[t..] + Zeros(t)
  }

  /** `v | 1`. */
  function SetLow(v: Word): (r: Word)
    requires |v| > 0
    ensures |r| == |v| && r[0]
  {
    v[0 := true]
  }

  /** `v | b` for a single bit `b`. */
  function OrBit(v: Word, b: bool): (r: Word)
    requires |v| > 0
    ensures |r| == |v|
  {
    v[0 := v[0] || b]
  }

  /** Number of trailing zero bits of a non-zero word. */
  function Ctz(v: Word): (t: nat)
    requires !IsZero(v)
    ensures t < |v| && v[t] && IsZero(v[..t])
  {
    if v[0] then 0 else
      assert exists k :: 0 <= k < |v[1..]| && v[1..][k] by {
        var k :| 0 <= k < |v| && v[k];
        assert v[1..][k - 1];
      }
      var t := 1 + Ctz(v[1..]);
      assert v[..t] == [v[0]] + v[1..][..t - 1];
      t
  }

  /** Parity of the population count. */
  function Parity(v: Word): bool {
    if |v| == 0 then false else v[0] != Parity(v[1..])
  }

  lemma {:induction false} ParityConcat(a: Word, b: Word)
    ensures Parity(a + b) == (Parity(a) != Parity(b))
  {
    if |a| == 0 {
      assert a + b == b;
    } else {
      ParityConcat(a[1..], b);
      assert (a + b)[1..] == a[1..] + b;
    }
  }

  lemma {:induction false} ParityXor(a: Word, b: Word)
    requires |a| == |b|
    ensures Parity(Xor(a, b)) == (Parity(a) != Parity(b))
  {
    if |a| > 0 {
      ParityXor(a[1..], b[1..]);
      assert Xor(a, b)[1..] == Xor(a[1..], b[1..]);
    }
  }

  /** Rotating a word keeps its parity. */
  lemma ParityRotate(v: Word, t: nat)
    requires t <= |v|
    ensures Parity(v[t..] + v[..t]) == Parity(v)
  {
    ParityConcat(v[t..], v[..t]);
    ParityConcat(v[..t], v[t..]);
    assert v[..t] + v[t..] == v;
  }

  function Pow2(n: nat): (p: nat)
    ensures p > 0
  {
    if n == 0 then 1 else 2 * Pow2(n - 1)
  }

  /** The low `w` bits of a natural number. */
  function WordOfNat(n: nat, w: nat): (r: Word)
    ensures |r| == w
  {
    if w == 0 then [] else [n % 2 == 1] + WordOfNat(n / 2, w - 1)
  }

  function NatOfWord(v: Word): (n: nat)
    ensures n < Pow2(|v|)
  {
    if |v| == 0 then 0 else (if v[0] then 1 else 0) + 2 * NatOfWord(v[1..])
  }

  lemma HalfMod(n: nat, p: nat)
    requires p > 0
    ensures n % (2 * p) == n % 2 + 2 * (n / 2 % p)
  {
    var q, r := n / 2 / p, n / 2 % p;
    DivMod(n / 2, p);
    Associate(2, q, p);
    Associate(q, 2, p);
    DivModUnique(n, q, 2 * p, n % 2 + 2 * r);
  }

  /** Writing a number into `w` bits truncates it modulo two to the `w`. */
  lemma {:induction false} NatOfWordOfNat(n: nat, w: nat)
    ensures NatOfWord(WordOfNat(n, w)) == n % Pow2(w)
  {
    if w > 0 {
      NatOfWordOfNat(n / 2, w - 1);
      assert WordOfNat(n, w)[1..] == WordOfNat(n / 2, w - 1);
      HalfMod(n, Pow2(w - 1));
    }
  }

  lemma {:induction false} WordOfNatOfWord(v: Word)
    ensures WordOfNat(NatOfWord(v), |v|) == v
  {
    if |v| > 0 {
      WordOfNatOfWord(v[1..]);
      assert NatOfWord(v) / 2 == NatOfWord(v[1..]);
      assert v == [v[0]] + v[1..];
    }
  }

  lemma {:induction false} WordOfNatPrefix(n: nat, w: nat, k: nat)
    requires k <= w
    ensures WordOfNat(n, w)[..k] == WordOfNat(n, k)
  {
    if k > 0 {
      WordOfNatPrefix(n / 2, w - 1, k - 1);
      assert WordOfNat(n, w)[..k] == [n % 2 == 1] + WordOfNat(n / 2, w - 1)[..k - 1];
    }
  }

  /** Truncation keeps the low bits. */
  lemma {:induction false} NatOfPrefix(v: Word, k: nat)
    requires k <= |v|
    ensures NatOfWord(v[..k]) == NatOfWord(v) % Pow2(k)
  {
    NatOfWordOfNat(NatOfWord(v), k);
    WordOfNatOfWord(v);
    WordOfNatPrefix(NatOfWord(v), |v|, k);
  }

  lemma {:induction false} NatOfZeros(t: nat)
    ensures NatOfWord(Zeros(t)) == 0
  {
    if t > 0 {
      NatOfZeros(t - 1);
      assert Zeros(t)[1..] == Zeros(t - 1);
    }
  }

  lemma {:induction false} NatOfPadded(v: Word, t: nat)
    ensures NatOfWord(v + Zeros(t)) == NatOfWord(v)
  {
    if |v| > 0 {
      assert (v + Zeros(t))[1..] == v[1..] + Zeros(t);
      NatOfPadded(v[1..], t);
    } else {
      assert v + Zeros(t) == Zeros(t);
      NatOfZeros(t);
    }
  }

  lemma {:induction false} NatOfSetBit(v: Word, k: nat)
    requires k < |v| && !v[k]
    ensures NatOfWord(v[k := true]) == NatOfWord(v) + Pow2(k)
  {
    if k > 0 {
      NatOfSetBit(v[1..], k - 1);
      assert v[k := true][1..] == v[1..][k - 1 := true];
    } else {
      assert v[0 := true][1..] == v[1..];
    }
  }

  // ---------------------------------------------------------------- wrapping arithmetic

  /** A `u64`. */
  type Bits64 = v: Word | |v| == 64 witness seq(64, _ => false)

  const TWO64: nat := 0x1_0000_0000_0000_0000
  const TWO32: nat := 0x1_0000_0000

  lemma {:induction false} Pow2Add(a: nat, b: nat)
    ensures Pow2(a + b) == Pow2(a) * Pow2(b)
  {
    if a > 0 {
      Pow2Add(a - 1, b);
      Associate(2, Pow2(a - 1), Pow2(b));
      assert Pow2(a + b) == 2 * Pow2(a - 1 + b);
    }
  }

  lemma Pow2Doubles(a: nat)
    ensures Pow2(a + a) == Pow2(a) * Pow2(a)
  {
    Pow2Add(a, a);
  }

  lemma Pow2Of8()
    ensures Pow2(8) == 0x100
  {
  }

  lemma Pow2Values()
    ensures Pow2(64) == TWO64 && Pow2(32) == TWO32
  {
    hide Pow2;
    Pow2Of8();
    Pow2Doubles(8);
    Pow2Doubles(16);
    Pow2Doubles(32);
  }

  /** The low `w` bits of `n`, with what they are worth. */
  function Truncate(n: nat, w: nat): (r: Word)
    ensures |r| == w && NatOfWord(r) == n % Pow2(w)
  {
    NatOfWordOfNat(n, w);
    WordOfNat(n, w)
  }

  /** `v.wrapping_mul(c)`. */
  function Mul(v: Word, c: nat): (r: Word)
    ensures |r| == |v|
  {
    Truncate(NatOfWord(v) * c, |v|)
  }

  /** `a.wrapping_add(b)`. */
  function Add(a: Word, b: Word): (r: Word)
    requires |a| == |b|
    ensures |r| == |a|
  {
    Truncate(NatOfWord(a) + NatOfWord(b), |a|)
  }

  lemma NatInjective(a: Word, b: Word)
    requires |a| == |b| && NatOfWord(a) == NatOfWord(b)
    ensures a == b
  {
    WordOfNatOfWord(a);
    WordOfNatOfWord(b);
  }

  lemma SameNat(t: Word, v: Word, n: nat, m: nat, p: nat)
    requires |t| == |v| && p == Pow2(|v|) && n == NatOfWord(v) && NatOfWord(t) == m % p && m % p == n % p
    ensures t == v
  {
    DivModUnique(n, 0, p, n);
    NatInjective(t, v);
  }

  lemma MulInverseNat(v: Word, c: nat, d: nat, k: nat, n: nat, p: nat, u: nat)
    requires p == Pow2(|v|) && n == NatOfWord(v) && u == NatOfWord(Mul(v, c)) && c * d == 1 + k * p
    ensures Mul(Mul(v, c), d) == v
  {
    assert u == n * c % p;
    InverseMod(n, c, d, k, p);
    SameNat(Mul(Mul(v, c), d), v, n, u * d, p);
  }

  /** Multiplying by `c` and then by an inverse of `c` modulo two to the width is the identity. */
  lemma MulInverse(v: Word, c: nat, d: nat, k: nat)
    requires c * d == 1 + k * Pow2(|v|)
    ensures Mul(Mul(v, c), d) == v
  {
    MulInverseNat(v, c, d, k, NatOfWord(v), Pow2(|v|), NatOfWord(Mul(v, c)));
  }

  /** Two's complement. */
  function Negate(b: Word): (r: Word)
    ensures |r| == |b|
  {
    Truncate(Pow2(|b|) - NatOfWord(b), |b|)
  }

  lemma AddNegateNat(a: Word, b: Word, x: nat, y: nat, p: nat, s: nat, z: nat)
    requires |a| == |b| && x == NatOfWord(a) && y == NatOfWord(b) < p == Pow2(|a|)
    requires s == NatOfWord(Add(a, b)) && z == NatOfWord(Negate(b))
    ensures Add(Add(a, b), Negate(b)) == a
  {
    hide NatOfWord, WordOfNat, Pow2;
    assert s == (x + y) % p && z == (p - y) % p;
    AddSubMod(x, y, p);
    SameNat(Add(Add(a, b), Negate(b)), a, x, s + z, p);
  }

  lemma AddNegate(a: Word, b: Word)
    requires |a| == |b|
    ensures Add(Add(a, b), Negate(b)) == a
  {
    AddNegateNat(a, b, NatOfWord(a), NatOfWord(b), Pow2(|a|), NatOfWord(Add(a, b)), NatOfWord(Negate(b)));
  }

  lemma AddNegateBackNat(a: Word, b: Word, x: nat, y: nat, p: nat, z: nat)
    requires |a| == |b| && x == NatOfWord(a) && y == NatOfWord(b) < p == Pow2(|a|)
    requires z == NatOfWord(Negate(b))
    ensures Add(Add(a, Negate(b)), b) == a
  {
    hide NatOfWord, WordOfNat, Pow2;
    assert z == (p - y) % p;
    SubAddMod(x, y, p);
    SameNat(Add(Add(a, Negate(b)), b), a, x, NatOfWord(Add(a, Negate(b))) + y, p);
  }

  lemma AddNegateBack(a: Word, b: Word)
    requires |a| == |b|
    ensures Add(Add(a, Negate(b)), b) == a
  {
    AddNegateBackNat(a, b, NatOfWord(a), NatOfWord(b), Pow2(|a|), NatOfWord(Negate(b)));
  }

  /** `v ^ (v >> t)` undoes itself once `t` is at least half the width. */
  lemma XorShiftInvolution(v: Word, t: nat)
    requires t <= |v| <= 2 * t
    ensures Xor(Xor(v, Shr(v, t)), Shr(Xor(v, Shr(v, t)), t)) == v
  {
    var y := Xor(v, Shr(v, t));
    forall k | 0 <= k < |v| ensures Xor(y, Shr(y, t))[k] == v[k] {
    }
  }
}
