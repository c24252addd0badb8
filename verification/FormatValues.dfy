/** The byte format as numbers: the checksum, where every field lies, and which error a buffer
    draws. */
module FormatValues {
  import opened Arith
  import opened Words
  import opened Numbers
  import opened Format
  import opened Codec
  import H = Homogeneous
  import S = Standard

  // ---------------------------------------------------------------- checksum

  /** One step: the byte is summed into the hash, and then the hash multiplied. */
  lemma FnvStepValue(h: Bits64, b: Byte)
    ensures NatOfWord(FnvStep(h, b))
         == XorNat(NatOfWord(h), NatOfWord(b)) * 0x100_0000_01b3 % 0x1_0000_0000_0000_0000
  {
    hide NatOfWord, WordOfNat, XorNat, Pow2, Xor;
    Pow2Values();
    NatOfPadded(b, 56);
    NatOfXor(h, b + Zeros(56));
  }

  lemma FnvEmptyValue()
    ensures NatOfWord(Fnv([])) == 0xcbf2_9ce4_8422_2325
  {
    hide NatOfWord, WordOfNat;
    SmallNat(0xcbf2_9ce4_8422_2325);
  }

  lemma LetterSum()
    ensures XorNat(0xcbf2_9ce4_8422_2325, 0x61) == 0xcbf2_9ce4_8422_2344
  {
    hide XorNat;
    XorNothing(0xcbf2_9ce4_8422_23);
    XorHex(0xcbf2_9ce4_8422_23, 0, 0xcbf2_9ce4_8422_23, 0x2, 0x6, 0x4);
    XorHex(0xcbf2_9ce4_8422_232, 0x6, 0xcbf2_9ce4_8422_234, 0x5, 0x1, 0x4);
  }

  /** The published checksum of the letter "a". */
  lemma FnvVector(b: Byte)
    requires NatOfWord(b) == 0x61
    ensures NatOfWord(Fnv([b])) == 0xaf63_dc4c_8601_ec8c
  {
    hide NatOfWord, XorNat, FnvStep;
    assert [b][..0] == [];
    assert Fnv([b]) == FnvStep(Fnv([]), b);
    FnvEmptyValue();
    FnvStepValue(Fnv([]), b);
    LetterSum();
  }

  // ---------------------------------------------------------------- byte order

  /** Byte `k` of a word written out is worth its bits from `8 * k` on. */
  lemma {:induction false} WordBytesAt(v: Word, k: nat)
    requires |v| % 8 == 0 && k < |v| / 8
    ensures WordBytes(v)[k] == v[8 * k..8 * k + 8]
  {
    if k > 0 {
      WordBytesAt(v[8..], k - 1);
      assert v[8..][8 * (k - 1)..8 * (k - 1) + 8] == v[8 * k..8 * k + 8];
    }
  }

  lemma WordBytesValue(v: Word, k: nat)
    requires |v| % 8 == 0 && k < |v| / 8
    ensures NatOfWord(WordBytes(v)[k]) == NatOfWord(v) / Pow2(8 * k) % 256
  {
    hide NatOfWord, WordBytes, Pow2;
    Pow2Of8();
    WordBytesAt(v, k);
    NatOfSlice(v, 8 * k, 8 * k + 8);
  }

  lemma ByteValue(n: nat)
    ensures NatOfWord(ByteOf(n)) == n % 256
  {
    hide NatOfWord, WordOfNat, Pow2;
    Pow2Of8();
    NatOfWordOfNat(n, 8);
  }

  lemma ByteIs(b: Byte, n: nat)
    requires n < 256
    ensures b == ByteOf(n) <==> NatOfWord(b) == n
  {
    hide NatOfWord, ByteOf;
    ByteValue(n);
    if NatOfWord(b) == n {
      NatInjective(b, ByteOf(n));
    }
  }

  lemma {:induction false} SegmentBytesLength(segs: seq<Word>, e: nat)
    requires forall t :: 0 <= t < |segs| ==> |segs[t]| == 8 * e
    ensures |SegmentBytes(segs)| == |segs| * e
  {
    hide WordBytes;
    if |segs| > 0 {
      SegmentBytesLength(segs[..|segs| - 1], e);
      Distribute(|segs| - 1, 1, e);
    }
  }

  lemma {:induction false} SegmentBytesAt(segs: seq<Word>, e: nat, s: nat, k: nat)
    requires s < |segs| && k < e && forall t :: 0 <= t < |segs| ==> |segs[t]| == 8 * e
    ensures |SegmentBytes(segs)| == |segs| * e && 0 <= s * e + k < |segs| * e
    ensures SegmentBytes(segs)[s * e + k] == WordBytes(segs[s])[k]
    decreases |segs|
  {
    hide WordBytes;
    var n := |segs| - 1;
    var init, last := segs[..n], segs[n];
    assert SegmentBytes(segs) == SegmentBytes(init) + WordBytes(last);
    SegmentBytesLength(segs, e);
    SegmentBytesLength(init, e);
    BlockIndex(s, |segs|, e, k);
    if s < n {
      BlockIndex(s, n, e, k);
      SegmentBytesAt(init, e, s, k);
    }
  }

  // ---------------------------------------------------------------- layout

  /** The header of 32 bytes: "PLT1", family, width, two zeros, and seed, number of starts and
      number of segments as eight bytes each, the lowest first. */
  lemma HeaderLayout(family: nat, r: nat, seed: Bits64, numStarts: nat, count: nat, k: nat)
    requires family < 256 && r < 256 && numStarts < TWO64 && count < TWO64 && k < 8
    ensures var h := WriteHeader(family, r, seed, numStarts, count);
      && |h| == 32
      && NatOfWord(h[0]) == 0x50 && NatOfWord(h[1]) == 0x4C && NatOfWord(h[2]) == 0x54 && NatOfWord(h[3]) == 0x31
      && NatOfWord(h[4]) == family && NatOfWord(h[5]) == r && NatOfWord(h[6]) == 0 && NatOfWord(h[7]) == 0
      && NatOfWord(h[8 + k]) == NatOfWord(seed) / Pow2(8 * k) % 256
      && NatOfWord(h[16 + k]) == numStarts / Pow2(8 * k) % 256
      && NatOfWord(h[24 + k]) == count / Pow2(8 * k) % 256
  {
    hide NatOfWord, WordBytes, ByteOf, WordOfNat, Pow2;
    var h := WriteHeader(family, r, seed, numStarts, count);
    ByteValue(0x50);
    ByteValue(0x4C);
    ByteValue(0x54);
    ByteValue(0x31);
    ByteValue(family);
    ByteValue(r);
    ByteValue(0);
    SmallNat(numStarts);
    SmallNat(count);
    WordBytesValue(seed, k);
    WordBytesValue(WordOfNat(numStarts, 64), k);
    WordBytesValue(WordOfNat(count, 64), k);
  }

  /** The whole buffer: the header, the segments, and the checksum of all that, the lowest byte
      first. */
  lemma EnvelopeLayout(family: nat, r: nat, seed: Bits64, numStarts: nat, segs: seq<Word>, e: nat)
    requires forall s :: 0 <= s < |segs| ==> |segs[s]| == 8 * e
    ensures var buf := Envelope(family, r, seed, numStarts, segs); var at := 32 + |segs| * e;
      && |buf| == at + 8
      && buf[..32] == WriteHeader(family, r, seed, numStarts, |segs|)
      && buf[32..at] == SegmentBytes(segs)
      && buf[at..] == WordBytes(Fnv(buf[..at]))
  {
    hide WordBytes, WriteHeader, SegmentBytes, Fnv;
    var buf, at := Envelope(family, r, seed, numStarts, segs), 32 + |segs| * e;
    var h, p := WriteHeader(family, r, seed, numStarts, |segs|), SegmentBytes(segs);
    SegmentBytesLength(segs, e);
    assert buf == h + p + WordBytes(Fnv(h + p));
    assert buf[..at] == h + p;
  }

  /** Byte `k` of segment `s`, the lowest first. */
  lemma PayloadLayout(family: nat, r: nat, seed: Bits64, numStarts: nat, segs: seq<Word>, e: nat, s: nat, k: nat)
    requires forall t :: 0 <= t < |segs| ==> |segs[t]| == 8 * e
    requires s < |segs| && k < e
    ensures var buf := Envelope(family, r, seed, numStarts, segs);
      && 0 <= s * e + k < |buf| - 40
      && NatOfWord(buf[32 + (s * e + k)]) == NatOfWord(segs[s]) / Pow2(8 * k) % 256
  {
    hide NatOfWord, WordBytes, Pow2, SegmentBytes, Envelope, WriteHeader, Fnv;
    EnvelopeLayout(family, r, seed, numStarts, segs, e);
    SegmentBytesAt(segs, e, s, k);
    WordBytesValue(segs[s], k);
    var buf, at, i := Envelope(family, r, seed, numStarts, segs), 32 + |segs| * e, s * e + k;
    assert buf[32..at][i] == buf[32 + i];
  }

  /** What tells the families apart: the family byte, and whose seed is stored. */
  lemma FamilyBytes(homog: H.Solution, std: S.Solution128, k: nat)
    requires homog.r < 256 && homog.numStarts < TWO64 && |homog.segments| < TWO64
    requires std.r < 256 && std.numStarts < TWO64 && |std.segments| < TWO64 && k < 8
    ensures |HomogBytes(homog)| >= 32 && |StdBytes(std)| >= 32
    ensures NatOfWord(HomogBytes(homog)[4]) == 0 && NatOfWord(StdBytes(std)[4]) == 1
    ensures NatOfWord(HomogBytes(homog)[8 + k]) == NatOfWord(homog.rawSeed) / Pow2(8 * k) % 256
    ensures NatOfWord(StdBytes(std)[8 + k]) == NatOfWord(std.ordinalSeed) / Pow2(8 * k) % 256
  {
    hide NatOfWord, Pow2, WriteHeader, SegmentBytes, Fnv;
    HeaderLayout(0, homog.r, homog.rawSeed, homog.numStarts, |homog.segments|, k);
    HeaderLayout(1, std.r, Hash128.Extend(std.ordinalSeed, 64), std.numStarts, |std.segments|, k);
    ExtendNat(std.ordinalSeed);
  }

  // ---------------------------------------------------------------- errors

  ghost predicate GoodMagic(bytes: seq<Byte>)
    requires |bytes| >= 40
  {
    && NatOfWord(bytes[0]) == 0x50 && NatOfWord(bytes[1]) == 0x4C
    && NatOfWord(bytes[2]) == 0x54 && NatOfWord(bytes[3]) == 0x31
  }

  ghost predicate GoodChecksum(bytes: seq<Byte>)
    requires |bytes| >= 40
  {
    WordBytes(Fnv(bytes[..|bytes| - 8])) == bytes[|bytes| - 8..]
  }

  /** The eight bytes from `at` on, as a number. */
  ghost function Number(bytes: seq<Byte>, at: nat): nat
    requires at + 8 <= |bytes|
  {
    NatOfWord(bytes[at]) + 0x100 * NatOfWord(bytes[at + 1])
    + 0x1_0000 * NatOfWord(bytes[at + 2]) + 0x100_0000 * NatOfWord(bytes[at + 3])
    + 0x1_0000_0000 * NatOfWord(bytes[at + 4]) + 0x100_0000_0000 * NatOfWord(bytes[at + 5])
    + 0x1_0000_0000_0000 * NatOfWord(bytes[at + 6]) + 0x100_0000_0000_0000 * NatOfWord(bytes[at + 7])
  }

  /** Whole blocks of slots, at least two, one segment for each block and column, and a buffer that
      fits in memory: what the decoder's overflow checks come to. */
  ghost predicate GoodGeometry(numStarts: nat, count: nat, r: nat, e: nat, w: nat, umax: nat)
    requires w > 0
  {
    var n := numStarts + w - 1;
    && numStarts > 0 && n % w == 0 && 2 * w <= n <= umax
    && count == n / w * r && 40 + count * e <= umax
  }

  lemma GeometryExact(numStarts: nat, count: nat, r: nat, e: nat, w: nat, umax: nat)
    requires w > 0 && e > 0 && umax < TWO64
    ensures Geometry(numStarts, count, r, e, w, umax)
         == if GoodGeometry(numStarts, count, r, e, w, umax) then Ok(count * e) else Err(BadGeometry)
  {
    MulMono(1, e, count);
    assert e * count == count * e;
  }

  lemma {:induction false} BytesWordValue(bs: seq<Byte>)
    ensures NatOfWord(BytesWord(bs)) == if |bs|
         == 0 then 0 else NatOfWord(bs[0]) + 0x100 * NatOfWord(BytesWord(bs[1..]))
  {
    hide NatOfWord, Pow2;
    if |bs| > 0 {
      Pow2Of8();
      NatOfConcat(bs[0], BytesWord(bs[1..]));
    } else {
      NatOfZeros(0);
      assert Zeros(0) == [];
    }
  }

  lemma NumberValue(bytes: seq<Byte>, at: nat)
    requires at + 8 <= |bytes|
    ensures NatOfWord(U64At(bytes, at)) == Number(bytes, at)
  {
    hide NatOfWord, BytesWord;
    var bs := bytes[at..at + 8];
    BytesWordValue(bs);
    BytesWordValue(bs[1..]);
    BytesWordValue(bs[1..][1..]);
    BytesWordValue(bs[1..][1..][1..]);
    BytesWordValue(bs[1..][1..][1..][1..]);
    BytesWordValue(bs[1..][1..][1..][1..][1..]);
    BytesWordValue(bs[1..][1..][1..][1..][1..][1..]);
    BytesWordValue(bs[1..][1..][1..][1..][1..][1..][1..]);
    BytesWordValue(bs[1..][1..][1..][1..][1..][1..][1..][1..]);
  }

  lemma MagicIs(bytes: seq<Byte>)
    requires |bytes| >= 40
    ensures bytes[0..4] == Magic() <==> GoodMagic(bytes)
  {
    hide NatOfWord, ByteOf;
    ByteIs(bytes[0], 0x50);
    ByteIs(bytes[1], 0x4C);
    ByteIs(bytes[2], 0x54);
    ByteIs(bytes[3], 0x31);
    var b := bytes[0..4];
    assert b == [b[0], b[1], b[2], b[3]];
  }

  lemma ChecksumIs(bytes: seq<Byte>)
    requires |bytes| >= 40
    ensures Fnv(bytes[..|bytes| - 8]) == U64At(bytes, |bytes| - 8) <==> GoodChecksum(bytes)
  {
    hide NatOfWord, WordBytes, BytesWord, Fnv;
    var at := |bytes| - 8;
    assert bytes[at..at + 8] == bytes[at..];
    WordOfBytes(bytes[at..]);
    BytesOfWord(Fnv(bytes[..at]));
  }

  lemma ReservedIs(bytes: seq<Byte>)
    requires |bytes| >= 40
    ensures bytes[6..8] == [ByteOf(0), ByteOf(0)] <==> NatOfWord(bytes[6]) == 0 && NatOfWord(bytes[7]) == 0
  {
    hide NatOfWord, ByteOf;
    ByteIs(bytes[6], 0);
    ByteIs(bytes[7], 0);
    var b := bytes[6..8];
    assert b == [b[0], b[1]];
  }

  /** Which buffers are accepted, and which error every other one draws: the first of its defects
      in this order. */
  lemma DecodeExact(bytes: seq<Byte>, family: nat, r: nat, e: nat, w: nat, umax: nat)
    requires w > 0 && e > 0 && umax < TWO64 && family < 256 && r < 256
    ensures var d := Decode(bytes, family, r, e, w, umax);
      if |bytes| < 40 then d == Err(TooShort)
      else if !GoodMagic(bytes) then d == Err(BadMagic)
      else if !GoodChecksum(bytes) then d == Err(BadChecksum)
      else if NatOfWord(bytes[4]) != family then d == Err(WrongFamily)
      else if NatOfWord(bytes[5]) != r then d == Err(WrongResultWidth)
      else if NatOfWord(bytes[6]) != 0 || NatOfWord(bytes[7]) != 0 then d == Err(NonZeroReserved)
      else if !GoodGeometry(Number(bytes, 16), Number(bytes, 24), r, e, w, umax) then d == Err(BadGeometry)
      else if |bytes| != 40 + Number(bytes, 24) * e then d == Err(LengthMismatch)
      else d.Ok? && NatOfWord(d.value.0.seed) == Number(bytes, 8) && d.value.0.numStarts == Number(bytes, 16)
           && d.value.1 == bytes[32..|bytes| - 8]
  {
    hide NatOfWord, ByteOf, Magic, Fnv, GoodMagic, GoodChecksum, GoodGeometry, Geometry, Number, U64At;
    if |bytes| >= 40 {
      MagicIs(bytes);
      ChecksumIs(bytes);
      ByteIs(bytes[4], family);
      ByteIs(bytes[5], r);
      ReservedIs(bytes);
      NumberValue(bytes, 8);
      NumberValue(bytes, 16);
      NumberValue(bytes, 24);
      GeometryExact(Number(bytes, 16), Number(bytes, 24), r, e, w, umax);
    }
  }

  /** The standard family refuses a seed of 64 or more, once everything else is in order. */
  lemma BadSeedExact(bytes: seq<Byte>, r: nat, umax: nat)
    requires umax < TWO64 && r < 256
    ensures FromBytes128(bytes, r, umax) == Err(BadSeed)
            <==> Decode(bytes, 1, r, 16, 128, umax).Ok? && Number(bytes, 8) >= 64
  {
    hide NatOfWord, Decode, Number, Chunks, Hash128.OrdinalToRawSeed;
    DecodeExact(bytes, 1, r, 16, 128, umax);
  }
}
