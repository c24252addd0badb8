/** What hashing computes, as numbers with the constants written out, and the first reference
    vectors of both families. */
module Values {
  import opened Arith
  import opened Words
  import opened Numbers
  import opened Hash
  import opened Hash128

  // ---------------------------------------------------------------- key hash and start

  /** `n ^ (n >> 33)`. */
  ghost function Shifted(n: nat): nat {
    XorNat(n, n / 0x2_0000_0000)
  }

  lemma Pow2Of1()
    ensures Pow2(1) == 2
  {
  }

  lemma Pow2Of33()
    ensures Pow2(33) == 0x2_0000_0000
  {
    hide Pow2;
    Pow2Values();
    Pow2Add(1, 32);
    Pow2Of1();
  }

  lemma XorShiftValue(h: Bits64)
    ensures NatOfWord(XorShift33(h)) == Shifted(NatOfWord(h))
  {
    hide XorNat, NatOfWord, Pow2, Xor, Shr;
    Pow2Of33();
    NatOfShr(h, 33);
    NatOfXor(h, Shr(h, 33));
  }

  /** The key hash is the finalizer of key and seed, modulo two to the 64. */
  lemma RibbonHashValue(key: Bits64, rawSeed: Bits64)
    ensures NatOfWord(RibbonHash(key, rawSeed))
         == Shifted(Shifted(Shifted((NatOfWord(key) + NatOfWord(rawSeed)) % 0x1_0000_0000_0000_0000)
              * 0xff51_afd7_ed55_8ccd % 0x1_0000_0000_0000_0000)
              * 0xc4ce_b9fe_1a85_ec53 % 0x1_0000_0000_0000_0000)
  {
    hide NatOfWord, WordOfNat, Pow2, Shifted, XorShift33;
    Pow2Values();
    var a: Bits64 := Add(key, rawSeed);
    var b: Bits64 := XorShift33(a);
    var c: Bits64 := Mul(b, MIX_A);
    var d: Bits64 := XorShift33(c);
    var e: Bits64 := Mul(d, MIX_B);
    XorShiftValue(a);
    XorShiftValue(c);
    XorShiftValue(e);
  }

  /** The start is the hash times the number of starts, over two to the 64, rounded down. */
  lemma StartValue(h: Bits64, numStarts: nat)
    ensures Start(h, numStarts) * 0x1_0000_0000_0000_0000 <= NatOfWord(h) * numStarts
    ensures NatOfWord(h) * numStarts < (Start(h, numStarts) + 1) * 0x1_0000_0000_0000_0000
  {
    hide NatOfWord;
    MulMono(0, NatOfWord(h), numStarts);
    DivMod(NatOfWord(h) * numStarts, TWO64);
  }

  // ---------------------------------------------------------------- rows

  /** The hash times the factor of both families, modulo two to the 64. */
  ghost function Product(h: Bits64): nat {
    NatOfWord(h) * 0xc28f_8282_2b65_0bed % 0x1_0000_0000_0000_0000
  }

  lemma ProductValue(h: Bits64)
    ensures NatOfWord(Mul(h, COEFF_FACTOR)) == Product(h)
  {
    hide NatOfWord, WordOfNat, Pow2;
    Pow2Values();
  }

  lemma CoeffRowValue(h: Bits64)
    ensures NatOfWord(CoeffRow(h)) == OddNat(Product(h))
  {
    hide NatOfWord, Product, Mul;
    ProductValue(h);
    NatOfSetLow(Mul(h, COEFF_FACTOR));
  }

  lemma XorConstant()
    ensures NatOfWord(WordOfNat(COEFF_XOR, 64)) == 0xc367_844a_6e52_731d
  {
    hide NatOfWord, WordOfNat, Pow2;
    Pow2Values();
    WordNat(COEFF_XOR, 64);
  }

  /** The 128-bit row: the product in the high half, and in the low half the product summed with
      the constant, made odd. */
  lemma CoeffRow128Value(h: Bits64)
    ensures NatOfWord(CoeffRow128(h))
         == OddNat(XorNat(Product(h), 0xc367_844a_6e52_731d)) + 0x1_0000_0000_0000_0000 * Product(h)
  {
    hide NatOfWord, WordOfNat, Pow2, XorNat, CoeffRow128, Product, Mul;
    var row, a, c := CoeffRow128(h), Mul(h, COEFF_FACTOR), WordOfNat(COEFF_XOR, 64);
    forall k | 0 <= k < 64 ensures row[..64][k] == SetLow(Xor(a, c))[k] {
      RowBits(h, k);
    }
    assert row[..64] == SetLow(Xor(a, c));
    CoeffRow128High(h);
    assert row[..64] + row[64..] == row;
    NatOfConcat(row[..64], row[64..]);
    NatOfSetLow(Xor(a, c));
    NatOfXor(a, c);
    XorConstant();
    ProductValue(h);
    Pow2Values();
  }

  lemma BytePowers()
    ensures Pow2(8) == 0x100 && Pow2(16) == 0x1_0000 && Pow2(24) == 0x100_0000
    ensures Pow2(32) == 0x1_0000_0000 && Pow2(40) == 0x100_0000_0000
    ensures Pow2(48) == 0x1_0000_0000_0000 && Pow2(56) == 0x100_0000_0000_0000
  {
    hide Pow2;
    Pow2Values();
    Pow2Of8();
    Pow2Add(8, 8);
    Pow2Add(16, 8);
    Pow2Add(32, 8);
    Pow2Add(40, 8);
    Pow2Add(48, 8);
  }

  /** The result row is the product's four high bytes, the highest first. */
  lemma ResultRowValue(h: Bits64)
    ensures var p := Product(h);
      NatOfWord(ResultRow(h)) == p / 0x100_0000_0000_0000 % 0x100 + 0x100 * (p / 0x1_0000_0000_0000 % 0x100)
        + 0x1_0000 * (p / 0x100_0000_0000 % 0x100) + 0x100_0000 * (p / 0x1_0000_0000 % 0x100)
  {
    hide NatOfWord, WordOfNat, Pow2, Product, Mul;
    var v: Bits64 := Mul(h, COEFF_FACTOR);
    ProductValue(h);
    BytePowers();
    NatOfSlice(v, 56, 64);
    NatOfSlice(v, 48, 56);
    NatOfSlice(v, 40, 48);
    NatOfSlice(v, 32, 40);
    NatOfConcat(v[40..48], v[32..40]);
    NatOfConcat(v[48..56], v[40..48] + v[32..40]);
    NatOfConcat(v[56..64], v[48..56] + (v[40..48] + v[32..40]));
    assert ResultRow(h) == v[56..64] + (v[48..56] + (v[40..48] + v[32..40]));
  }

  // ---------------------------------------------------------------- seeds

  /** The raw seed, bit by bit: the ordinal's product, with the high half of every byte summed
      into the low half. */
  lemma OrdinalToRawSeedBits(ordinal: Bits32, k: nat)
    requires k < 32
    ensures var p := NatOfWord(ordinal) * 0xc782_19a2_3eea_dd03;
      OrdinalToRawSeed(ordinal)[k] == if k % 8 >= 4 then Bit(p, k) else Bit(p, k) != Bit(p, k + 4)
  {
    hide NatOfWord, WordOfNat, Bit, MixNibbles;
    var p := NatOfWord(ordinal) * RAW_SEED_FACTOR;
    var v := Mul(Extend(ordinal, 64), RAW_SEED_FACTOR);
    NatOfPadded(ordinal, 32);
    assert v == WordOfNat(p, 64);
    WordOfNatBit(p, 64, k);
    WordOfNatBit(p, 64, k + 4);
    MixBit(v, k);
  }

  /** A number's bytes, each with its high half summed into its low half. */
  ghost function MixBytes(n: nat, count: nat): nat {
    if count == 0 then 0 else XorNat(n % 256, n % 256 / 16) + 256 * MixBytes(n / 256, count - 1)
  }

  lemma MixByte(v: Word)
    requires |v| == 8
    ensures NatOfWord(MixNibbles(v)) == XorNat(NatOfWord(v), NatOfWord(v) / 16)
  {
    hide NatOfWord, XorNat, MixNibbles;
    assert MixNibbles(v) == Xor(v, Shr(v, 4)) by {
      forall k | 0 <= k < 8 ensures MixNibbles(v)[k] == Xor(v, Shr(v, 4))[k] {
        MixBit(v, k);
      }
    }
    NatOfXor(v, Shr(v, 4));
    NatOfShr(v, 4);
    assert Pow2(4) == 16;
  }

  lemma MixSplit(v: Word)
    requires |v| >= 16 && |v| % 8 == 0
    ensures MixNibbles(v) == MixNibbles(v[..8]) + MixNibbles(v[8..])
  {
    hide MixNibbles;
    forall k | 0 <= k < |v| ensures MixNibbles(v)[k] == (MixNibbles(v[..8]) + MixNibbles(v[8..]))[k] {
      MixBit(v, k);
      if k < 8 {
        MixBit(v[..8], k);
      } else {
        MixBit(v[8..], k - 8);
        assert (k - 8) % 8 == k % 8;
      }
    }
  }

  lemma {:induction false} MixWord(v: Word, count: nat)
    requires |v| == 8 * count && count > 0
    ensures NatOfWord(MixNibbles(v)) == MixBytes(NatOfWord(v), count)
    decreases count
  {
    hide NatOfWord, XorNat, MixNibbles, Pow2;
    Pow2Of8();
    var lo, hi := v[..8], v[8..];
    MixByte(lo);
    NatOfPrefix(v, 8);
    NatOfSuffix(v, 8);
    if count == 1 {
      assert lo == v;
      assert NatOfWord(v) / 256 * 0 == 0;
    } else {
      MixWord(hi, count - 1);
      assert MixNibbles(v) == MixNibbles(lo) + MixNibbles(hi) by {
        MixSplit(v);
      }
      NatOfConcat(MixNibbles(lo), MixNibbles(hi));
    }
  }

  /** The same as a number, modulo two to the 32. */
  lemma OrdinalToRawSeedValue(ordinal: Bits32)
    ensures NatOfWord(OrdinalToRawSeed(ordinal))
         == MixBytes(NatOfWord(ordinal) * 0xc782_19a2_3eea_dd03 % 0x1_0000_0000, 4)
  {
    hide NatOfWord, WordOfNat, Pow2, MixNibbles, MixBytes;
    Pow2Values();
    MixPrefix(Mul(Extend(ordinal, 64), RAW_SEED_FACTOR));
    MulPrefix(ordinal, RAW_SEED_FACTOR);
    MixWord(Mul(ordinal, RAW_SEED_FACTOR), 4);
  }

  // ---------------------------------------------------------------- reference vectors

  lemma FirstShift()
    ensures Shifted(0xe994692e463d3180) == 0xe994692e32f70517
  {
    hide XorNat;
    XorNothing(0xe994692e);
    XorHex(0xe994692e, 0x0, 0xe994692e, 0x4, 0x7, 0x3);
    XorHex(0xe994692e4, 0x7, 0xe994692e3, 0x6, 0x4, 0x2);
    XorHex(0xe994692e46, 0x74, 0xe994692e32, 0x3, 0xc, 0xf);
    XorHex(0xe994692e463, 0x74c, 0xe994692e32f, 0xd, 0xa, 0x7);
    XorHex(0xe994692e463d, 0x74ca, 0xe994692e32f7, 0x3, 0x3, 0x0);
    XorHex(0xe994692e463d3, 0x74ca3, 0xe994692e32f70, 0x1, 0x4, 0x5);
    XorHex(0xe994692e463d31, 0x74ca34, 0xe994692e32f705, 0x8, 0x9, 0x1);
    XorHex(0xe994692e463d318, 0x74ca349, 0xe994692e32f7051, 0x0, 0x7, 0x7);
  }

  lemma SecondShift()
    ensures Shifted(0x161a18e9e23aa76b) == 0x161a18e9e937ab1f
  {
    hide XorNat;
    XorNothing(0x161a18e9);
    XorHex(0x161a18e9, 0x0, 0x161a18e9, 0xe, 0x0, 0xe);
    XorHex(0x161a18e9e, 0x0, 0x161a18e9e, 0x2, 0xb, 0x9);
    XorHex(0x161a18e9e2, 0xb, 0x161a18e9e9, 0x3, 0x0, 0x3);
    XorHex(0x161a18e9e23, 0xb0, 0x161a18e9e93, 0xa, 0xd, 0x7);
    XorHex(0x161a18e9e23a, 0xb0d, 0x161a18e9e937, 0xa, 0x0, 0xa);
    XorHex(0x161a18e9e23aa, 0xb0d0, 0x161a18e9e937a, 0x7, 0xc, 0xb);
    XorHex(0x161a18e9e23aa7, 0xb0d0c, 0x161a18e9e937ab, 0x6, 0x7, 0x1);
    XorHex(0x161a18e9e23aa76, 0xb0d0c7, 0x161a18e9e937ab1, 0xb, 0x4, 0xf);
  }

  lemma ThirdShift()
    ensures Shifted(0xfb7ab7e4fbe80f0d) == 0xfb7ab7e4865554ff
  {
    hide XorNat;
    XorNothing(0xfb7ab7e4);
    XorHex(0xfb7ab7e4, 0x0, 0xfb7ab7e4, 0xf, 0x7, 0x8);
    XorHex(0xfb7ab7e4f, 0x7, 0xfb7ab7e48, 0xb, 0xd, 0x6);
    XorHex(0xfb7ab7e4fb, 0x7d, 0xfb7ab7e486, 0xe, 0xb, 0x5);
    XorHex(0xfb7ab7e4fbe, 0x7db, 0xfb7ab7e4865, 0x8, 0xd, 0x5);
    XorHex(0xfb7ab7e4fbe8, 0x7dbd, 0xfb7ab7e48655, 0x0, 0x5, 0x5);
    XorHex(0xfb7ab7e4fbe80, 0x7dbd5, 0xfb7ab7e486555, 0xf, 0xb, 0x4);
    XorHex(0xfb7ab7e4fbe80f, 0x7dbd5b, 0xfb7ab7e4865554, 0x0, 0xf, 0xf);
    XorHex(0xfb7ab7e4fbe80f0, 0x7dbd5bf, 0xfb7ab7e4865554f, 0xd, 0x2, 0xf);
  }

  lemma KeyConstantHigh()
    ensures XorNat(0x4b2c0cc5, 0xc367844a) == 0x884b888f
  {
    hide XorNat;
    XorZero();
    XorHex(0x0, 0x0, 0x0, 0x4, 0xc, 0x8);
    XorHex(0x4, 0xc, 0x8, 0xb, 0x3, 0x8);
    XorHex(0x4b, 0xc3, 0x88, 0x2, 0x6, 0x4);
    XorHex(0x4b2, 0xc36, 0x884, 0xc, 0x7, 0xb);
    XorHex(0x4b2c, 0xc367, 0x884b, 0x0, 0x8, 0x8);
    XorHex(0x4b2c0, 0xc3678, 0x884b8, 0xc, 0x4, 0x8);
    XorHex(0x4b2c0c, 0xc36784, 0x884b88, 0xc, 0x4, 0x8);
    XorHex(0x4b2c0cc, 0xc367844, 0x884b888, 0x5, 0xa, 0xf);
  }

  lemma KeyConstant()
    ensures XorNat(0x4b2c0cc56541a513, 0xc367_844a_6e52_731d) == 0x884b888f0b13d60e
  {
    hide XorNat;
    KeyConstantHigh();
    XorHex(0x4b2c0cc5, 0xc367844a, 0x884b888f, 0x6, 0x6, 0x0);
    XorHex(0x4b2c0cc56, 0xc367844a6, 0x884b888f0, 0x5, 0xe, 0xb);
    XorHex(0x4b2c0cc565, 0xc367844a6e, 0x884b888f0b, 0x4, 0x5, 0x1);
    XorHex(0x4b2c0cc5654, 0xc367844a6e5, 0x884b888f0b1, 0x1, 0x2, 0x3);
    XorHex(0x4b2c0cc56541, 0xc367844a6e52, 0x884b888f0b13, 0xa, 0x7, 0xd);
    XorHex(0x4b2c0cc56541a, 0xc367844a6e527, 0x884b888f0b13d, 0x5, 0x3, 0x6);
    XorHex(0x4b2c0cc56541a5, 0xc367844a6e5273, 0x884b888f0b13d6, 0x1, 0x1, 0x0);
    XorHex(0x4b2c0cc56541a51, 0xc367844a6e52731, 0x884b888f0b13d60, 0x3, 0xd, 0xe);
  }

  lemma MixStep(n: nat, count: nat, mixed: nat, rest: nat)
    requires count > 0 && XorNat(n % 256, n % 256 / 16) == mixed && MixBytes(n / 256, count - 1) == rest
    ensures MixBytes(n, count) == mixed + 256 * rest
  {
  }

  lemma MixNone(n: nat)
    ensures MixBytes(n, 0) == 0
  {
  }

  lemma MixZero()
    ensures MixBytes(0, 4) == 0
  {
    hide XorNat, MixBytes;
    XorZero();
    MixNone(0);
    MixStep(0, 1, 0, 0);
    MixStep(0, 2, 0, 0);
    MixStep(0, 3, 0, 0);
    MixStep(0, 4, 0, 0);
  }

  lemma MixOne()
    ensures MixBytes(0x3eea_dd03, 4) == 0x3de4_d003
  {
    hide XorNat, MixBytes;
    XorNothing(0x0);
    XorHex(0x0, 0, 0x0, 0x3, 0x0, 0x3);
    XorNothing(0xd);
    XorHex(0xd, 0, 0xd, 0xd, 0xd, 0x0);
    XorNothing(0xe);
    XorHex(0xe, 0, 0xe, 0xa, 0xe, 0x4);
    XorNothing(0x3);
    XorHex(0x3, 0, 0x3, 0xe, 0x3, 0xd);
    MixNone(0);
    MixStep(0x3e, 1, 0x3d, 0x0);
    MixStep(0x3eea, 2, 0xe4, 0x3d);
    MixStep(0x3eeadd, 3, 0xd0, 0x3de4);
    MixStep(0x3eeadd03, 4, 0x3, 0x3de4d0);
  }

  /** The finalizer, one step after the other. */
  lemma Finalizer(key: Bits64, rawSeed: Bits64, a: nat, b: nat, c: nat, d: nat, e: nat, f: nat)
    requires (NatOfWord(key) + NatOfWord(rawSeed)) % 0x1_0000_0000_0000_0000 == a && Shifted(a) == b
    requires b * 0xff51_afd7_ed55_8ccd % 0x1_0000_0000_0000_0000 == c && Shifted(c) == d
    requires d * 0xc4ce_b9fe_1a85_ec53 % 0x1_0000_0000_0000_0000 == e && Shifted(e) == f
    ensures NatOfWord(RibbonHash(key, rawSeed)) == f
  {
    hide NatOfWord, Shifted, RibbonHash;
    RibbonHashValue(key, rawSeed);
  }

  /** The first vector of both files: the key and its hash. */
  lemma HashVector(key: Bits64, rawSeed: Bits64)
    requires NatOfWord(key) == 16831193354858213760 && NatOfWord(rawSeed) == 0
    ensures NatOfWord(RibbonHash(key, rawSeed)) == 18120998242812777727
  {
    hide NatOfWord, Shifted, RibbonHash;
    FirstShift();
    SecondShift();
    ThirdShift();
    Finalizer(key, rawSeed, 0xe994_692e_463d_3180, 0xe994_692e_32f7_0517, 0x161a_18e9_e23a_a76b,
              0x161a_18e9_e937_ab1f, 0xfb7a_b7e4_fbe8_0f0d, 0xfb7a_b7e4_8655_54ff);
  }

  /** The hash's starts, in the slots of each file. */
  lemma StartVector(h: Bits64)
    requires NatOfWord(h) == 18120998242812777727
    ensures Start(h, 10881) == 10688 && Start(h, 10369) == 10185
  {
    hide NatOfWord, Start;
    StartValue(h, 10881);
    StartValue(h, 10369);
  }

  lemma ProductVector(h: Bits64)
    requires NatOfWord(h) == 18120998242812777727
    ensures Product(h) == 0x4b2c_0cc5_6541_a513
  {
    hide NatOfWord;
  }

  /** The hash's rows in both families. */
  lemma RowVector(h: Bits64)
    requires NatOfWord(h) == 18120998242812777727
    ensures NatOfWord(CoeffRow(h)) == 5416718493766755603
    ensures NatOfWord(CoeffRow128(h)) == 0x1_0000_0000_0000_0000 * 5416718493766755603 + 9821093560359048719
  {
    hide NatOfWord, XorNat, CoeffRow, CoeffRow128, Product;
    ProductVector(h);
    CoeffRowValue(h);
    CoeffRow128Value(h);
    KeyConstant();
  }

  lemma ProductBytes()
    ensures var p := 0x4b2c_0cc5_6541_a513;
      && p / 0x100_0000_0000_0000 % 0x100 == 0x4b && p / 0x1_0000_0000_0000 % 0x100 == 0x2c
      && p / 0x100_0000_0000 % 0x100 == 0x0c && p / 0x1_0000_0000 % 0x100 == 0xc5
  {
  }

  /** The hash's result row. */
  lemma ResultVector(h: Bits64)
    requires NatOfWord(h) == 18120998242812777727
    ensures NatOfWord(ResultRow(h)) == 3305909323
  {
    hide NatOfWord, ResultRow, Product;
    ProductVector(h);
    ProductBytes();
    ResultRowValue(h);
  }

  /** The raw seeds of the first two ordinal seeds. */
  lemma SeedVectors(zero: Bits32, one: Bits32)
    requires NatOfWord(zero) == 0 && NatOfWord(one) == 1
    ensures NatOfWord(OrdinalToRawSeed(zero)) == 0
    ensures NatOfWord(OrdinalToRawSeed(one)) == 0x3de4_d003
  {
    hide NatOfWord, XorNat, OrdinalToRawSeed, MixBytes;
    OrdinalToRawSeedValue(zero);
    OrdinalToRawSeedValue(one);
    MixZero();
    MixOne();
  }
}
