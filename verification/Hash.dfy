/** Per-key hashing of the homogeneous family: finalizer, range reduction, coefficient row. */
module Hash {
  import opened Arith
  import opened Words

  const MIX_A: nat := 0xff51_afd7_ed55_8ccd
  const MIX_B: nat := 0xc4ce_b9fe_1a85_ec53
  const COEFF_FACTOR: nat := 0xc28f_8282_2b65_0bed

  // Inverses of the multipliers modulo two to the 64, with the quotients that show it.
  const MIX_A_INVERSE: nat := 0x4f74430c22a54005
  const MIX_B_INVERSE: nat := 0x9cb4b2f8129337db
  const COEFF_INVERSE: nat := 0xfa21b227e9d509e5

  function XorShift33(h: Bits64): (r: Bits64) {
    Xor(h, Shr(h, 33))
  }

  function RibbonHash(key: Bits64, rawSeed: Bits64): (r: Bits64) {
    var h: Bits64 := Add(key, rawSeed);
    var h: Bits64 := XorShift33(h);
    var h: Bits64 := Mul(h, MIX_A);
    var h: Bits64 := XorShift33(h);
    var h: Bits64 := Mul(h, MIX_B);
    XorShift33(h)
  }

  /** Undoes RibbonHash step by step. */
  function Unhash(h: Bits64, rawSeed: Bits64): (key: Bits64) {
    var h: Bits64 := XorShift33(h);
    var h: Bits64 := Mul(h, MIX_B_INVERSE);
    var h: Bits64 := XorShift33(h);
    var h: Bits64 := Mul(h, MIX_A_INVERSE);
    var h: Bits64 := XorShift33(h);
    Add(h, Negate(rawSeed))
  }

  lemma MulBack(h: Bits64, c: nat, d: nat)
    requires c * d % TWO64 == 1
    ensures Mul(Mul(h, c), d) == h && Mul(Mul(h, d), c) == h
  {
    Pow2Values();
    DivMod(c * d, TWO64);
    assert d * c == c * d;
    MulInverse(h, c, d, c * d / TWO64);
    MulInverse(h, d, c, c * d / TWO64);
  }

  lemma Inverses()
    ensures MIX_A * MIX_A_INVERSE % TWO64 == 1
    ensures MIX_B * MIX_B_INVERSE % TWO64 == 1
    ensures COEFF_FACTOR * COEFF_INVERSE % TWO64 == 1
  {
  }

  lemma AddBack(a: Bits64, b: Bits64)
    ensures Add(Add(a, Negate(b)), b) == a
  {
    AddNegateBack(a, b);
  }

  /** For every seed the key hash is a bijection on 64-bit words. */
  lemma RibbonHashBijective(key: Bits64, h: Bits64, rawSeed: Bits64)
    ensures Unhash(RibbonHash(key, rawSeed), rawSeed) == key
    ensures RibbonHash(Unhash(h, rawSeed), rawSeed) == h
  {
    Inverses();
    var a: Bits64 := Add(key, rawSeed);
    var b: Bits64 := XorShift33(a);
    var c: Bits64 := Mul(b, MIX_A);
    var d: Bits64 := XorShift33(c);
    var e: Bits64 := Mul(d, MIX_B);
    XorShiftInvolution(a, 33);
    XorShiftInvolution(c, 33);
    XorShiftInvolution(e, 33);
    MulBack(b, MIX_A, MIX_A_INVERSE);
    MulBack(d, MIX_B, MIX_B_INVERSE);
    AddNegate(key, rawSeed);

    var u: Bits64 := XorShift33(h);
    var v: Bits64 := Mul(u, MIX_B_INVERSE);
    var w: Bits64 := XorShift33(v);
    var x: Bits64 := Mul(w, MIX_A_INVERSE);
    var y: Bits64 := XorShift33(x);
    XorShiftInvolution(h, 33);
    XorShiftInvolution(v, 33);
    XorShiftInvolution(x, 33);
    MulBack(u, MIX_B, MIX_B_INVERSE);
    MulBack(w, MIX_A, MIX_A_INVERSE);
    AddBack(y, rawSeed);
  }

  /** Range reduction: the high 64 bits of the 128-bit product. */
  function Start(h: Bits64, numStarts: nat): (s: nat) {
    NatOfWord(h) * numStarts / TWO64
  }

  /** Every start is a legal one, and every legal start is the image of some hash. */
  lemma StartRange(h: Bits64, numStarts: nat)
    requires 0 < numStarts
    ensures Start(h, numStarts) < numStarts
  {
    Pow2Values();
    var n := NatOfWord(h);
    MulStep(n, TWO64, numStarts);
    DivLess(n * numStarts, numStarts, TWO64);
  }

  /** A row of width `w` at any hash's start fits below slot `n`. */
  lemma StartFits(h: Bits64, n: nat, w: nat)
    requires 0 < w <= n
    ensures Start(h, n - w + 1) + w <= n
  {
    StartRange(h, n - w + 1);
  }

  lemma StartOnto(s: nat, numStarts: nat) returns (h: Bits64)
    requires s < numStarts <= TWO64
    ensures Start(h, numStarts) == s
  {
    Pow2Values();
    var n := (s * TWO64 + numStarts - 1) / numStarts;
    DivMod(s * TWO64 + numStarts - 1, numStarts);
    var rest := (s * TWO64 + numStarts - 1) % numStarts;
    assert n * numStarts == s * TWO64 + (numStarts - 1 - rest);
    if n >= TWO64 {
      MulMono(TWO64, n, numStarts);
      MulStep(s, numStarts, TWO64);
      assert false;
    }
    h := Truncate(n, 64);
    DivModUnique(n, 0, TWO64, n);
    DivModUnique(n * numStarts, s, TWO64, numStarts - 1 - rest);
  }

  /** The 64-bit coefficient row: `h * factor | 1`. */
  function CoeffRow(h: Bits64): (row: Bits64)
    ensures row[0]
  {
    SetLow(Mul(h, COEFF_FACTOR))
  }
}

/** Per-key hashing of the standard family. */
module Hash128 {
  import opened Words
  import opened Hash

  const COEFF_XOR: nat := 0xc367_844a_6e52_731d
  const RAW_SEED_FACTOR: nat := 0xc782_19a2_3eea_dd03
  const SEED_FACTOR_INVERSE: nat := 0x14b4_75ab  // modulo two to the 32

  function Extend(v: Word, w: nat): (r: Word)
    requires |v| <= w
    ensures |r| == w
  {
    v + Zeros(w - |v|)
  }

  /** The 128-bit coefficient row `((a << 64) ^ (a ^ K)) | 1` with `a = h * factor`. */
  function CoeffRow128(h: Bits64): (row: Word)
    ensures |row| == 128 && row[0]
  {
    var a := Mul(h, COEFF_FACTOR);
    SetLow(Xor(Shl(Extend(a, 128), 64), Extend(Xor(a, WordOfNat(COEFF_XOR, 64)), 128)))
  }

  lemma RowBits(h: Bits64, k: nat)
    requires k < 128
    ensures CoeffRow128(h)[k] == if k == 0 then true
      else if k < 64 then Mul(h, COEFF_FACTOR)[k] != WordOfNat(COEFF_XOR, 64)[k]
      else Mul(h, COEFF_FACTOR)[k - 64]
  {
    hide Mul, WordOfNat;
    var a := Mul(h, COEFF_FACTOR);
    var hi, lo := Shl(Extend(a, 128), 64), Extend(Xor(a, WordOfNat(COEFF_XOR, 64)), 128);
    if k < 64 {
      assert !hi[k] && lo[k] == Xor(a, WordOfNat(COEFF_XOR, 64))[k];
    } else {
      assert !lo[k] && hi[k] == Extend(a, 128)[k - 64];
    }
  }

  /** The high half of the row is `h * factor` itself. */
  lemma CoeffRow128High(h: Bits64)
    ensures CoeffRow128(h)[64..] == Mul(h, COEFF_FACTOR)
  {
    hide CoeffRow128, Mul, WordOfNat;
    forall k | 0 <= k < 64 ensures CoeffRow128(h)[64..][k] == Mul(h, COEFF_FACTOR)[k] {
      RowBits(h, 64 + k);
    }
  }

  /** Under one seed, distinct keys have distinct 128-bit coefficient rows. */
  lemma DistinctKeysDistinctRows(a: Bits64, b: Bits64, rawSeed: Bits64)
    ensures CoeffRow128(RibbonHash(a, rawSeed)) == CoeffRow128(RibbonHash(b, rawSeed)) <==> a == b
  {
    var g, h := RibbonHash(a, rawSeed), RibbonHash(b, rawSeed);
    CoeffRow128High(g);
    CoeffRow128High(h);
    Inverses();
    MulBack(g, COEFF_FACTOR, COEFF_INVERSE);
    MulBack(h, COEFF_FACTOR, COEFF_INVERSE);
    RibbonHashBijective(a, g, rawSeed);
    RibbonHashBijective(b, h, rawSeed);
  }

  function SwapBytes(v: Bits64): (r: Bits64) {
    v[56..64] + v[48..56] + v[40..48] + v[32..40] + v[24..32] + v[16..24] + v[8..16] + v[0..8]
  }

  /** The result row: the low half of the byte-swapped product. */
  function ResultRow(h: Bits64): (r: Bits32) {
    SwapBytes(Mul(h, COEFF_FACTOR))[..32]
  }

  /** `tmp ^ ((tmp & mask) >> 4)`, where the mask keeps the high half of every byte. */
  function MixNibbles(v: Word): (r: Word)
    requires 4 <= |v|
    ensures |r| == |v|
  {
    Xor(v, Shr(And(v, seq(|v|, k => k % 8 >= 4)), 4))
  }

  /** The number whose `n` bytes are all 0xf0. */
  function NibbleNat(n: nat): nat {
    if n == 0 then 0 else 0xf0 + 0x100 * NibbleNat(n - 1)
  }

  lemma BitStep(b: bool, m: nat, w: nat)
    ensures WordOfNat((if b then 1 else 0) + 2 * m, 1 + w) == [b] + WordOfNat(m, w)
  {
  }

  lemma TwoBits(b: bool, m: nat, w: nat)
    ensures WordOfNat((if b then 3 else 0) + 4 * m, 2 + w) == [b, b] + WordOfNat(m, w)
  {
    hide WordOfNat;
    BitStep(b, m, w);
    BitStep(b, (if b then 1 else 0) + 2 * m, 1 + w);
    assert [b] + ([b] + WordOfNat(m, w)) == [b, b] + WordOfNat(m, w);
  }

  lemma FourBits(b: bool, m: nat, w: nat)
    ensures WordOfNat((if b then 15 else 0) + 16 * m, 4 + w) == [b, b, b, b] + WordOfNat(m, w)
  {
    hide WordOfNat;
    TwoBits(b, m, w);
    TwoBits(b, (if b then 3 else 0) + 4 * m, 2 + w);
    assert [b, b] + ([b, b] + WordOfNat(m, w)) == [b, b, b, b] + WordOfNat(m, w);
  }

  lemma NibbleByte(m: nat, w: nat)
    ensures WordOfNat(0xf0 + 0x100 * m, 8 + w)
         == [false, false, false, false] + ([true, true, true, true] + WordOfNat(m, w))
  {
    hide WordOfNat;
    FourBits(true, m, w);
    FourBits(false, 15 + 16 * m, 4 + w);
  }

  function NibblePattern(n: nat): Word {
    if n == 0 then [] else [false, false, false, false] + ([true, true, true, true] + NibblePattern(n - 1))
  }

  lemma {:induction false} NibbleWord(n: nat)
    ensures WordOfNat(NibbleNat(n), 8 * n) == NibblePattern(n)
  {
    if n > 0 {
      NibbleWord(n - 1);
      NibbleByte(NibbleNat(n - 1), 8 * (n - 1));
    }
  }

  lemma {:induction false} NibbleBits(n: nat, k: nat)
    requires k < 8 * n
    ensures |NibblePattern(n)| == 8 * n && NibblePattern(n)[k] == (k % 8 >= 4)
  {
    var p := NibblePattern(n);
    if n > 1 {
      NibbleBits(n - 1, if k < 8 then 0 else k - 8);
    }
    if k >= 8 {
      assert p[k] == NibblePattern(n - 1)[k - 8] && k % 8 == (k - 8) % 8;
    }
  }

  /** The seed mixing mask is the constant 0xf0f0_f0f0_f0f0_f0f0. */
  lemma NibbleMask()
    ensures WordOfNat(0xf0f0_f0f0_f0f0_f0f0, 64) == seq(64, k => k % 8 >= 4)
  {
    NibbleWord(8);
    assert NibbleNat(4) == 0xf0f0_f0f0;
    assert NibbleNat(8) == 0xf0f0_f0f0_f0f0_f0f0;
    forall k | 0 <= k < 64 ensures |NibblePattern(8)| == 64 && NibblePattern(8)[k] == (k % 8 >= 4) {
      NibbleBits(8, k);
    }
  }

  /** The raw seed of an ordinal seed, mixed through a 64-bit intermediate. */
  function OrdinalToRawSeed(ordinal: Bits32): (r: Bits32) {
    MixNibbles(Mul(Extend(ordinal, 64), RAW_SEED_FACTOR))[..32]
  }

  /** Undoes OrdinalToRawSeed. */
  function RawSeedToOrdinal(raw: Bits32): (r: Bits32) {
    Mul(MixNibbles(raw), SEED_FACTOR_INVERSE)
  }

  lemma MixBit(v: Word, k: nat)
    requires 4 <= |v| && k < |v|
    ensures MixNibbles(v)[k] == (v[k] != (k % 8 < 4 && k + 4 < |v| && v[k + 4]))
  {
    var mask := seq(|v|, k => k % 8 >= 4);
    if k + 4 < |v| {
      assert Shr(And(v, mask), 4)[k] == And(v, mask)[k + 4] == (v[k + 4] && (k + 4) % 8 >= 4);
    } else {
      assert !Shr(And(v, mask), 4)[k];
      assert |v| <= k + 4;
    }
  }

  /** Mixing moves only the high half of a byte into its low half, so it undoes itself. */
  lemma MixInvolution(v: Word)
    requires 4 <= |v|
    ensures MixNibbles(MixNibbles(v)) == v
  {
    hide MixNibbles;
    var y := MixNibbles(v);
    forall k | 0 <= k < |v| ensures MixNibbles(y)[k] == v[k] {
      MixBit(y, k);
      MixBit(v, k);
      if k % 8 < 4 && k + 4 < |v| {
        MixBit(v, k + 4);
        assert (k + 4) % 8 >= 4;
      }
    }
  }

  lemma MixPrefix(v: Bits64)
    ensures MixNibbles(v)[..32] == MixNibbles(v[..32])
  {
    forall k | 0 <= k < 32 ensures MixNibbles(v)[k] == MixNibbles(v[..32])[k] {
      MixBit(v, k);
      MixBit(v[..32], k);
    }
  }

  lemma MulPrefix(ordinal: Bits32, c: nat)
    ensures Mul(Extend(ordinal, 64), c)[..32] == Mul(ordinal, c)
  {
    hide WordOfNat, NatOfWord, Pow2;
    NatOfPadded(ordinal, 32);
    WordOfNatPrefix(NatOfWord(ordinal) * c, 64, 32);
  }

  /** The seed mapping is a bijection on all 32-bit words, not only on the 64 seeds tried. */
  lemma OrdinalToRawSeedBijective(ordinal: Bits32, raw: Bits32)
    ensures RawSeedToOrdinal(OrdinalToRawSeed(ordinal)) == ordinal
    ensures OrdinalToRawSeed(RawSeedToOrdinal(raw)) == raw
  {
    Pow2Values();
    var f, g := RAW_SEED_FACTOR, SEED_FACTOR_INVERSE;
    var k := 0x1022_cd2e_6c9c_dc89;
    assert f * g == 1 + k * TWO32 == g * f;
    MulPrefix(ordinal, f);
    MixPrefix(Mul(Extend(ordinal, 64), f));
    MixInvolution(Mul(ordinal, f));
    MulInverse(ordinal, f, g, k);

    var o := RawSeedToOrdinal(raw);
    MulPrefix(o, f);
    MixPrefix(Mul(Extend(o, 64), f));
    MulInverse(MixNibbles(raw), g, f, k);
    MixInvolution(raw);
  }
}
