/**
 * The resolution mask and the decoding of one raw sample (read_raw_sample): two channel
 * values reassembled from a seven-byte register block with shifts, masks and OR, then cut
 * down to the configured resolution. The shifts are those the driver executes; where they
 * differ from the register layout the driver documents, the lemmas below say which bits
 * are lost.
 */
module SampleDecode {
  import opened Definitions

  /** Number of registers read for one sample. */
  const SAMPLE_BLOCK_LEN: nat := 7

  /** The registers read from C1DATAM on, taken by position. */
  type Block = b: seq<bv8> | |b| == SAMPLE_BLOCK_LEN witness [0, 0, 0, 0, 0, 0, 0]

  /** Bit k of x. */
  predicate Bit(x: bv32, k: nat)
    requires k < 32
  {
    (x >> k) & 1 == 1
  }

  /** The mask of valid sample bits at a resolution: its low ResolutionWidth(r) bits set. */
  function ResolutionMask(r: AdcResolution): (mask: bv32)
    ensures 0xFF <= mask < 0x4_0000
    ensures mask & (mask + 1) == 0
  {
    match r
    case Bits8 => 0xFF
    case Bits9 => 0x1FF
    case Bits10 => 0x3FF
    case Bits11 => 0x7FF
    case Bits12 => 0xFFF
    case Bits13 => 0x1FFF
    case Bits14 => 0x3FFF
    case Bits15 => 0x7FFF
    case Bits16 => 0xFFFF
    case Bits17 => 0x1_FFFF
    case Bits18 => 0x3_FFFF
  }

  /** set_adc_resolution computes the mask as `(1 << (8 + code)) - 1` in 32 bits. */
  lemma ResolutionMaskFormula(r: AdcResolution)
    ensures ((1 as bv32) << (8 + ResolutionCode(r) as bv32)) - 1 == ResolutionMask(r)
  {
  }

  /** The mask of a resolution has exactly its low ResolutionWidth(r) bits set. */
  lemma ResolutionMaskBits(r: AdcResolution)
    ensures forall k: nat :: k < 32 ==> (Bit(ResolutionMask(r), k) <==> k < ResolutionWidth(r))
  {
    ResolutionCodeIsWidthMinus8(r);
  }

  /** The ambient-light channel C1 before masking, from block bytes 0, 4 and 5. */
  function AmbientBits(b: Block): (c1: bv32)
    ensures c1 < 0x2_0000
  {
    AssembleAmbient(b[0], b[4], b[5])
  }

  /** C1 as the driver assembles it: `m << 3 | (h & 0x3F) << 11 | (l & 0x07)`. */
  function AssembleAmbient(m: bv8, h: bv8, l: bv8): (c1: bv32)
    ensures c1 < 0x2_0000
  {
    ((m as bv32) << 3)
      | (((h & 0x3F) as bv32) << 11)
      | ((l & 0x07) as bv32)
  }

  /** The reflectance channel C0 before masking, from block bytes 1, 2 and 6. */
  function ReflectanceBits(b: Block): (c0: bv32)
    ensures c0 & !0x30_FFFF == 0
  {
    AssembleReflectance(b[1], b[2], b[6])
  }

  /** C0 as the driver assembles it: `m << 8 | (h & 0x0F) << 4 | (l & 0x30) << 16 | (l & 0x0F)`. */
  function AssembleReflectance(m: bv8, h: bv8, l: bv8): (c0: bv32)
    ensures c0 & !0x30_FFFF == 0
  {
    ((m as bv32) << 8)
      | (((h & 0x0F) as bv32) << 4)
      | (((l & 0x30) as bv32) << 16)
      | ((l & 0x0F) as bv32)
  }

  /** The decoded sample `(c0, c1)`: reflectance and ambient light, cut to the mask. */
  function Decode(b: Block, mask: bv32): (s: (bv32, bv32))
    ensures s.0 <= mask && s.1 <= mask
    ensures s.0 & !mask == 0 && s.1 & !mask == 0
  {
    (ReflectanceBits(b) & mask, AmbientBits(b) & mask)
  }

  /**
   * The block the chip presents for channel values c0 and c1, following the register
   * layout the driver documents: C1[10:3] at 0, C0[15:8] at 1, C0[7:4] at 2, the PDRIVER
   * register at 3, C1[17:11] at 4, C1[2:0] at 5, C0[17:16] and C0[3:0] at 6.
   */
  function Layout(c0: bv32, c1: bv32, pdriver: bv8): (b: Block)
    ensures b[3] == pdriver
  {
    [ ((c1 >> 3) & 0xFF) as bv8,
      ((c0 >> 8) & 0xFF) as bv8,
      ((c0 >> 4) & 0x0F) as bv8,
      pdriver,
      ((c1 >> 11) & 0x7F) as bv8,
      (c1 & 0x07) as bv8,
      ((((c0 >> 16) & 0x03) << 4) | (c0 & 0x0F)) as bv8 ]
  }

  /**
   * Assembling the documented layout gives back C1[16:0] and C0[15:0], with C0[17:16]
   * landing at bits 21:20 instead of 17:16.
   */
  lemma AssembleLayout(c0: bv32, c1: bv32, pdriver: bv8)
    ensures AmbientBits(Layout(c0, c1, pdriver)) == c1 & 0x1_FFFF
    ensures ReflectanceBits(Layout(c0, c1, pdriver)) == (c0 & 0xFFFF) | ((c0 & 0x3_0000) << 4)
  {
  }

  /**
   * At every supported resolution, decoding the documented layout gives back C0[15:0] and
   * C1[16:0] cut to the mask: bits 17:16 of C0 and bit 17 of C1 never reach the result.
   */
  lemma DecodeLayout(c0: bv32, c1: bv32, pdriver: bv8, r: AdcResolution)
    ensures Decode(Layout(c0, c1, pdriver), ResolutionMask(r))
         == (c0 & 0xFFFF & ResolutionMask(r), c1 & 0x1_FFFF & ResolutionMask(r))
  {
    AssembleLayout(c0, c1, pdriver);
  }

  /** Up to 16 bits of resolution, decoding inverts the documented layout. */
  lemma DecodeLayoutUpTo16Bits(c0: bv32, c1: bv32, pdriver: bv8, r: AdcResolution)
    requires ResolutionWidth(r) <= 16
    ensures Decode(Layout(c0, c1, pdriver), ResolutionMask(r)) == (c0 & ResolutionMask(r), c1 & ResolutionMask(r))
  {
    DecodeLayout(c0, c1, pdriver, r);
    var m := ResolutionMask(r);
    ResolutionMaskBits(r);
    assert !Bit(m, 16) && !Bit(m, 17);
    assert m & 0xFFFF == m;
  }

  /** At 18-bit resolution a reflectance of 0x3_0000 reads back as 0. */
  lemma ReflectanceHighBitsLost()
    ensures Decode(Layout(0x3_0000, 0, 0), ResolutionMask(Bits18)).0 == 0
  {
    DecodeLayout(0x3_0000, 0, 0, Bits18);
  }

  /**
   * Under any mask of at most 18 bits, so under every resolution mask and the unset mask 0,
   * the reflectance is below 2^16 and the ambient light below 2^17.
   */
  lemma DecodedRanges(b: Block, mask: bv32)
    requires mask < 0x4_0000
    ensures Decode(b, mask).0 < 0x1_0000
    ensures Decode(b, mask).1 < 0x2_0000
  {
  }

  /** Before any resolution is applied the mask is 0, and every sample decodes to (0, 0). */
  lemma DecodeUnsetMask(b: Block)
    ensures Decode(b, 0) == (0, 0)
  {
  }

  /** Byte 3 of the block (the PDRIVER register) never affects the decoded sample. */
  lemma DecodeIgnoresByte3(b: Block, x: bv8, mask: bv32)
    ensures Decode(b[3 := x], mask) == Decode(b, mask)
  {
  }

  /**
   * Bits 5:4 of byte 6 never affect the reflectance under a mask of at most 18 bits, so
   * under none of the resolution masks: the driver shifts them to bits 21:20.
   */
  lemma ReflectanceIgnoresByte6Bits54(b: Block, x: bv8, mask: bv32)
    requires x & 0xCF == b[6] & 0xCF && mask < 0x4_0000
    ensures Decode(b[6 := x], mask).0 == Decode(b, mask).0
  {
  }

  /** Bits 7:6 of byte 4 never affect the ambient light, whatever the mask. */
  lemma AmbientIgnoresByte4Bits76(b: Block, x: bv8, mask: bv32)
    requires x & 0x3F == b[4] & 0x3F
    ensures Decode(b[4 := x], mask).1 == Decode(b, mask).1
  {
  }

  /** The bits of each block byte that can reach a decoded value under some resolution mask. */
  const LIVE_BITS: seq<bv8> := [0xFF, 0xFF, 0x0F, 0x00, 0x3F, 0x07, 0x0F]

  /** Blocks that agree on the live bits decode alike under every mask of at most 18 bits. */
  lemma DecodeSeesOnlyLiveBits(a: Block, b: Block, mask: bv32)
    requires forall i :: 0 <= i < SAMPLE_BLOCK_LEN ==> a[i] & LIVE_BITS[i] == b[i] & LIVE_BITS[i]
    requires mask < 0x4_0000
    ensures Decode(a, mask) == Decode(b, mask)
  {
    var live := LIVE_BITS;
    assert a[0] & live[0] == b[0] & live[0] && a[1] & live[1] == b[1] & live[1];
    assert a[2] & live[2] == b[2] & live[2] && a[4] & live[4] == b[4] & live[4];
    assert a[5] & live[5] == b[5] & live[5] && a[6] & live[6] == b[6] & live[6];
    DecodeAgreesOnLiveBytes(a, b, mask);
  }

  lemma DecodeAgreesOnLiveBytes(a: Block, b: Block, mask: bv32)
    requires a[0] & 0xFF == b[0] & 0xFF && a[4] & 0x3F == b[4] & 0x3F && a[5] & 0x07 == b[5] & 0x07
    requires a[1] & 0xFF == b[1] & 0xFF && a[2] & 0x0F == b[2] & 0x0F && a[6] & 0x0F == b[6] & 0x0F
    requires mask < 0x4_0000
    ensures Decode(a, mask) == Decode(b, mask)
  {
    AmbientAgrees(a, b);
    ReflectanceAgrees(a, b, mask);
  }

  lemma AmbientAgrees(a: Block, b: Block)
    requires a[0] & 0xFF == b[0] & 0xFF && a[4] & 0x3F == b[4] & 0x3F && a[5] & 0x07 == b[5] & 0x07
    ensures AmbientBits(a) == AmbientBits(b)
  {
    AmbientLiveBits(a[0], a[4], a[5], b[0], b[4], b[5]);
  }

  lemma ReflectanceAgrees(a: Block, b: Block, mask: bv32)
    requires a[1] & 0xFF == b[1] & 0xFF && a[2] & 0x0F == b[2] & 0x0F && a[6] & 0x0F == b[6] & 0x0F
    requires mask < 0x4_0000
    ensures ReflectanceBits(a) & mask == ReflectanceBits(b) & mask
  {
    ReflectanceLiveBits(a[1], a[2], a[6], b[1], b[2], b[6], mask);
  }

  lemma AmbientLiveBits(m: bv8, h: bv8, l: bv8, m': bv8, h': bv8, l': bv8)
    requires m & 0xFF == m' & 0xFF && h & 0x3F == h' & 0x3F && l & 0x07 == l' & 0x07
    ensures AssembleAmbient(m, h, l) == AssembleAmbient(m', h', l')
  {
  }

  lemma ReflectanceLiveBits(m: bv8, h: bv8, l: bv8, m': bv8, h': bv8, l': bv8, mask: bv32)
    requires m & 0xFF == m' & 0xFF && h & 0x0F == h' & 0x0F && l & 0x0F == l' & 0x0F
    requires mask < 0x4_0000
    ensures AssembleReflectance(m, h, l) & mask == AssembleReflectance(m', h', l') & mask
  {
  }

  /** Under the 18-bit mask, flipping any live bit changes the decoded sample. */
  lemma LiveBitsReachDecode(b: Block, i: nat, k: nat)
    requires i < SAMPLE_BLOCK_LEN && k < 8
    requires LIVE_BITS[i] & ((1 as bv8) << k) != 0
    ensures Decode(b[i := b[i] ^ ((1 as bv8) << k)], ResolutionMask(Bits18)) != Decode(b, ResolutionMask(Bits18))
  {
  }
}
