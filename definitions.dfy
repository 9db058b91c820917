/**
 * The HRS3300 register map: register addresses, the selectable ADC resolutions and the
 * bit fields of the control registers. Every value is the discriminant the device
 * datasheet assigns, so each enumeration is a datatype with a function giving its value.
 */
module Definitions {

  /** Selectable ADC resolutions, 8 to 18 bits. */
  datatype AdcResolution =
    | Bits8 | Bits9 | Bits10 | Bits11 | Bits12 | Bits13
    | Bits14 | Bits15 | Bits16 | Bits17 | Bits18

  /** The discriminant of a resolution: the value of the RES register's ALS_RES field. */
  function ResolutionCode(r: AdcResolution): (c: bv8)
    ensures c <= 10
    ensures c & ResFieldMask(ALS_RES) == c
  {
    match r
    case Bits8 => 0
    case Bits9 => 1
    case Bits10 => 2
    case Bits11 => 3
    case Bits12 => 4
    case Bits13 => 5
    case Bits14 => 6
    case Bits15 => 7
    case Bits16 => 8
    case Bits17 => 9
    case Bits18 => 10
  }

  /** The number of bits a resolution names (the N of BitsN). */
  function ResolutionWidth(r: AdcResolution): (n: nat)
    ensures 8 <= n <= 18
  {
    match r
    case Bits8 => 8
    case Bits9 => 9
    case Bits10 => 10
    case Bits11 => 11
    case Bits12 => 12
    case Bits13 => 13
    case Bits14 => 14
    case Bits15 => 15
    case Bits16 => 16
    case Bits17 => 17
    case Bits18 => 18
  }

  /** BitsN has code N - 8. */
  lemma ResolutionCodeIsWidthMinus8(r: AdcResolution)
    ensures ResolutionCode(r) as int == ResolutionWidth(r) - 8
  {
  }

  /** No two resolutions share a code. */
  lemma ResolutionCodeInjective(r: AdcResolution, s: AdcResolution)
    requires ResolutionCode(r) == ResolutionCode(s)
    ensures r == s
  {
  }

  /** Every code 0..10 belongs to some resolution: the codes are a contiguous range. */
  lemma ResolutionCodesContiguous(c: bv8)
    requires c <= 10
    ensures exists r :: ResolutionCode(r) == c
  {
    var all := [Bits8, Bits9, Bits10, Bits11, Bits12, Bits13, Bits14, Bits15, Bits16, Bits17, Bits18];
    assert ResolutionCode(all[c as int]) == c;
  }

  /** The registers described in the device datasheet. */
  datatype Register =
    | ID | ENABLE | C1DATAM | C0DATAM | C0DATAH | PDRIVER
    | C1DATAH | C1DATAL | C0DATAL | RES | HGAIN

  /** The one-byte bus address of a register. */
  function RegisterAddress(reg: Register): (a: bv8)
    ensures a <= 0x17
  {
    match reg
    case ID => 0x00
    case ENABLE => 0x01
    case C1DATAM => 0x08
    case C0DATAM => 0x09
    case C0DATAH => 0x0A
    case PDRIVER => 0x0C
    case C1DATAH => 0x0D
    case C1DATAL => 0x0E
    case C0DATAL => 0x0F
    case RES => 0x16
    case HGAIN => 0x17
  }

  /** Distinct registers have distinct addresses. */
  lemma RegisterAddressesDistinct(a: Register, b: Register)
    requires a != b
    ensures RegisterAddress(a) != RegisterAddress(b)
  {
  }

  /** Fields of the ENABLE register (0x01). */
  datatype EnableRegField =
    | HEN      // HRS sensor enable
    | HWT      // HRS wait time
    | PDRIVE1  // LED drive current, high bit

  function EnableFieldMask(f: EnableRegField): (m: bv8)
    ensures m != 0
  {
    match f
    case HEN => 1 << 7
    case HWT => 0x7 << 4
    case PDRIVE1 => 1 << 3
  }

  lemma EnableFieldsDisjoint(f: EnableRegField, g: EnableRegField)
    requires f != g
    ensures EnableFieldMask(f) & EnableFieldMask(g) == 0
  {
  }

  /** Fields of the LED driver register PDRIVER (0x0C). */
  datatype PDriverRegField =
    | PDRIVE0  // LED drive current, low bit
    | PON      // LED oscillator on

  function PDriverFieldMask(f: PDriverRegField): (m: bv8)
    ensures m != 0
  {
    match f
    case PDRIVE0 => 1 << 6
    case PON => 1 << 5
  }

  lemma PDriverFieldsDisjoint(f: PDriverRegField, g: PDriverRegField)
    requires f != g
    ensures PDriverFieldMask(f) & PDriverFieldMask(g) == 0
  {
  }

  /** Fields of the RES register (0x16). */
  datatype ResRegField = ALS_RES  // ADC resolution select

  function ResFieldMask(f: ResRegField): (m: bv8)
    ensures m != 0
  {
    match f
    case ALS_RES => 0xF
  }

  /** Fields of the HGAIN register (0x17). */
  datatype HgainRegField = HGAIN  // HRS gain

  function HgainFieldMask(f: HgainRegField): (m: bv8)
    ensures m != 0
  {
    match f
    case HGAIN => 0x7 << 2
  }
}
