# HRS3300 heart-rate sensor driver, modelled in Dafny

This project models the driver for the HRS3300 optical heart-rate / ambient-light sensor.
The driver talks to the chip over I2C. It owns a bus handle and a device address, and keeps
the selected ADC resolution together with the bit mask derived from it. It can:

- check the chip's identity;
- initialise the chip (identity check, then four register writes);
- switch the sensor on and off;
- change the ADC resolution;
- read one raw sample of two channels: reflectance C0 and ambient light C1.

Modules:

- `Wrappers` (`wrappers.dfy`): `Option` and `Result`.
- `Definitions` (`definitions.dfy`): the register map. It holds the resolution codes, the
  register addresses and the bit fields of ENABLE, PDRIVER, RES and HGAIN, with lemmas about
  their values.
- `SampleDecode` (`sample_decode.dfy`): the resolution mask and the decoding of the
  seven-byte sample block. Decoding is a pure function of the block and the mask. The lemmas
  say which input bits can and cannot reach the result.
- `I2c` (`i2c.dfy`): an abstract blocking I2C bus. It records every transaction in a ghost
  trace. Two oracle functions fixed at construction decide the outcome of the i-th
  transaction and the bytes it delivers.
- `DriverSpec` (`driver_spec.dfy`): the driver's constants, its `Error` type and the register
  values it writes. `InitOutcome` and `EnableOutcome` define the transactions and the result
  of `init` and `enable` as functions of the oracles, including the short-circuit on the
  first failing transfer.
- `Driver` (`driver.dfy`): the class `Hrs3300`, with the driver's fields and one method per
  driver operation. Each method is proved against the functions above.

Decoding follows the shifts the code executes, not the bit layout its comments describe.
These differ in two places:

- The code shifts C0DATAL bits 5:4 left by 16, so they land at bits 21:20 of C0. They were
  meant to be C0[17:16]. Every resolution mask is at most 18 bits wide, so these bits never
  reach the result (`ReflectanceIgnoresByte6Bits54`, `ReflectanceHighBitsLost`).
- The code keeps six bits of C1DATAH (`& 0x3F`), so C1 bit 17 is never assembled
  (`AssembleLayout`).

The `Layout` function places channel values in the block as the comments describe.
`DecodeLayout` states exactly what decoding gives back from that layout.
`DecodeLayoutUpTo16Bits` states that up to 16-bit resolution nothing is lost.

`enable` does not read the ENABLE and PDRIVER registers. It writes fixed values built from
the reserved-bit constants (src/lib.rs:97-111). `EnableRegValue` and `PDriverRegValue` are
therefore constants of `on`, and `EnableTrace` proves that `enable` issues only writes. One
consequence is `EnableOverwritesInitConfiguration`: `enable(true)` after `init` clears the
drive-current bits PDRIVE1 and PDRIVE0 that `init` set, and sets the wait time HWT to 0b110.

## Model

| member | source | states |
|---|---|---|
| Definitions.ResolutionCode | src/definitions.rs:3-15 | every resolution code is at most 10 and fits inside the ALS_RES nibble |
| Definitions.ResolutionWidth | src/definitions.rs:3-15 | the N of BitsN lies between 8 and 18 |
| Definitions.ResolutionCodeIsWidthMinus8 | src/definitions.rs:3-15 | BitsN has code N - 8 |
| Definitions.ResolutionCodeInjective | src/definitions.rs:3-15 | two resolutions with the same code are the same resolution |
| Definitions.ResolutionCodesContiguous | src/definitions.rs:3-15 | every code from 0 to 10 belongs to some resolution |
| Definitions.RegisterAddress | src/definitions.rs:20-32 | every register address fits in one byte, at most 0x17 |
| Definitions.RegisterAddressesDistinct | src/definitions.rs:20-32 | distinct registers have distinct addresses |
| Definitions.EnableFieldMask | src/definitions.rs:37-44 | each ENABLE field mask is non-zero |
| Definitions.EnableFieldsDisjoint | src/definitions.rs:37-44 | HEN, HWT and PDRIVE1 are pairwise disjoint |
| Definitions.PDriverFieldMask | src/definitions.rs:49-54 | each PDRIVER field mask is non-zero |
| Definitions.PDriverFieldsDisjoint | src/definitions.rs:49-54 | PDRIVE0 and PON are disjoint |
| Definitions.ResFieldMask | src/definitions.rs:60-63 | the ALS_RES mask is non-zero |
| Definitions.HgainFieldMask | src/definitions.rs:68-71 | the HGAIN mask is non-zero |
| DriverSpec.PDriverFieldsAvoidReserved | src/definitions.rs:49-54 | neither PDRIVER field overlaps the reserved PDRIVER bits 0x08 |
| DriverSpec.InitGainInsideField | src/definitions.rs:68-71 | the HGAIN mask is 0x1C, and the gain 0x10 that init writes lies inside it |
| SampleDecode.ResolutionMask | src/lib.rs:123 | every resolution mask is between 0xFF and 2^18 - 1 and has the form 2^k - 1 |
| SampleDecode.ResolutionMaskFormula | src/lib.rs:123 | the mask equals `(1 << (8 + code)) - 1` computed in 32 bits |
| SampleDecode.ResolutionMaskBits | src/lib.rs:123 | bit k of the mask is set exactly when k is below the resolution's bit count |
| SampleDecode.AssembleAmbient | src/lib.rs:159-161 | C1 assembled from its three bytes is below 2^17 |
| SampleDecode.AmbientBits | src/lib.rs:159-161 | C1 assembled from the block is below 2^17 |
| SampleDecode.AssembleReflectance | src/lib.rs:164-167 | C0 assembled from its three bytes has no bits outside 15:0 and 21:20 |
| SampleDecode.ReflectanceBits | src/lib.rs:164-167 | C0 assembled from the block has no bits outside 15:0 and 21:20 |
| SampleDecode.Decode | src/lib.rs:159-168 | both decoded values are at most the mask and have no bit outside it |
| SampleDecode.Layout | src/lib.rs:176-183 | the documented block layout carries the PDRIVER register at position 3 |
| SampleDecode.AssembleLayout | src/lib.rs:159-167 | from the documented layout the code assembles C1[16:0], and C0[15:0] with C0[17:16] moved to bits 21:20 |
| SampleDecode.DecodeLayout | src/lib.rs:159-168 | at every resolution, decoding the documented layout gives C0[15:0] and C1[16:0] under the mask |
| SampleDecode.DecodeLayoutUpTo16Bits | src/lib.rs:159-168 | up to 16-bit resolution, decoding the documented layout gives back both channels under the mask |
| SampleDecode.ReflectanceHighBitsLost | src/lib.rs:166 | at 18-bit resolution a reflectance of 0x3_0000 decodes to 0 |
| SampleDecode.DecodedRanges | src/lib.rs:159-168 | under any mask of at most 18 bits, the reflectance is below 2^16 and the ambient light below 2^17 |
| SampleDecode.DecodeUnsetMask | src/lib.rs:162-168 | under the unset mask 0, every block decodes to (0, 0) |
| SampleDecode.DecodeIgnoresByte3 | src/lib.rs:159-168 | byte 3 (PDRIVER) never affects the decoded sample |
| SampleDecode.ReflectanceIgnoresByte6Bits54 | src/lib.rs:166 | bits 5:4 of byte 6 never affect the reflectance under any mask of at most 18 bits |
| SampleDecode.AmbientIgnoresByte4Bits76 | src/lib.rs:160 | bits 7:6 of byte 4 never affect the ambient light |
| SampleDecode.DecodeSeesOnlyLiveBits | src/lib.rs:159-168 | two blocks that agree on the live bits decode alike under any mask of at most 18 bits |
| SampleDecode.LiveBitsReachDecode | src/lib.rs:159-168 | under the 18-bit mask, flipping any live bit changes the decoded sample |
| I2c.Bus.Write | src/lib.rs:199-200 | a write appends exactly one Write transaction to the trace and returns the oracle's outcome for it |
| I2c.Bus.WriteRead | src/lib.rs:206-207 | a write-read appends one WriteRead transaction and returns the oracle's outcome; on success the buffer holds the bytes the oracle delivers |
| DriverSpec.Transfer | src/lib.rs:199-201 | a bus result mapped through `map_err(Error::Comm)`: Ok exactly when the bus succeeded, otherwise Comm carrying the bus's error |
| DriverSpec.InitRegisterValues | src/lib.rs:83-91 | init writes PDRIVER 0x68 and ENABLE 0xE8 |
| DriverSpec.ResolutionRegValue | src/lib.rs:125 | the RES value holds the resolution code in ALS_RES and the reserved pattern 0x60 elsewhere |
| DriverSpec.EnableRegValue | src/lib.rs:97-102 | the ENABLE value enable writes has HEN set exactly when on, and the reserved pattern elsewhere |
| DriverSpec.PDriverRegValue | src/lib.rs:105-110 | the PDRIVER value enable writes has PON set exactly when on, and the reserved pattern elsewhere |
| DriverSpec.EnableValues | src/lib.rs:96-111 | enable writes ENABLE 0xE0 or 0x60 and PDRIVER 0x28 or 0x08 |
| DriverSpec.WriteChainIssuesPrefix | src/lib.rs:85-91 | a chain of `write_register(..)?` calls issues a prefix of its writes, in order, and never reads |
| DriverSpec.WriteChainSucceeds | src/lib.rs:85-93 | the chain returns Ok(()) exactly when the bus accepts every write, and it has then issued all of them |
| DriverSpec.WriteChainStopsAtFirstFailure | src/lib.rs:85-91 | when the k-th write is the first refused, the chain has issued writes 0..k and returns Comm of that write's error |
| DriverSpec.InitWrites | src/lib.rs:83-91 | init performs four register writes after the identity check |
| DriverSpec.InitOutcomeAfterIdentity | src/lib.rs:68-93 | once the identity matches, init is the ID read followed by its write chain |
| DriverSpec.InitOutcomeUnrolled | src/lib.rs:68-93 | after a matching identity, init's trace and result for each possible first failing write |
| DriverSpec.InitRejectsForeignDevice | src/lib.rs:70-73 | an identity other than 0x21 gives Err(DeviceId) after the ID read alone, with no register write |
| DriverSpec.InitSucceeds | src/lib.rs:68-93 | init succeeds exactly when the ID read succeeds and matches and all four writes succeed; it has then written [0x0C, 0x68], [0x16, code \| 0x60], [0x17, 0x10] and [0x01, 0xE8] in this order |
| DriverSpec.InitStopsAtFirstFailure | src/lib.rs:83-91 | when the k-th write of init is the first refused, init has issued the ID read and writes 0..k and returns that write's Comm error |
| DriverSpec.EnableOverwritesInitConfiguration | src/lib.rs:83-111 | enable(true) clears the PDRIVE1 and PDRIVE0 bits init set, and enable(on) always sets HWT to 0b110 |
| DriverSpec.EnableTrace | src/lib.rs:96-113 | enable only writes: [0x01, on ? 0xE0 : 0x60], then [0x0C, on ? 0x28 : 0x08] only if the first write succeeded; it succeeds exactly when both writes do |
| Driver.Hrs3300.New | src/lib.rs:51-58 | a new driver keeps the given bus, address and resolution, with mask 0 |
| Driver.Hrs3300.Default | src/lib.rs:60-66 | the default driver has address 0x44, resolution Bits14 and mask 0 |
| Driver.Hrs3300.Init | src/lib.rs:68-94 | the bus trace and result are those of InitOutcome; the resolution is unchanged; the mask is the resolution's mask once init has reached set_adc_resolution, and unchanged otherwise |
| Driver.Hrs3300.Enable | src/lib.rs:96-114 | the bus trace and result are those of EnableOutcome; the driver's fields are unchanged |
| Driver.Hrs3300.GetDeviceId | src/lib.rs:116-119 | one WriteRead of the ID register for 1 byte; on success, the byte read |
| Driver.Hrs3300.SetAdcResolution | src/lib.rs:121-127 | the resolution and its mask are stored whether or not the write succeeds; exactly one write [0x16, code \| 0x60] is issued; its result is returned through Comm. Both the mask and the write depend only on the argument, so two calls with the same resolution store the same mask and issue the same write |
| Driver.Hrs3300.SampleOne | src/lib.rs:135-139 | one WriteRead of 7 bytes from C1DATAM; Ok(None) whenever it succeeds, Comm otherwise |
| Driver.Hrs3300.ReadRawSample | src/lib.rs:146-173 | one WriteRead of 7 bytes from C1DATAM; on success, Decode of the delivered block under the stored mask, with the reflectance below 2^16, the ambient light below 2^17, and (0, 0) while the mask is unset; Comm otherwise |
| Driver.Hrs3300.ReadSampleBlock | src/lib.rs:184-190 | one WriteRead of 7 bytes from C1DATAM; on success, the seven bytes delivered, in order |
| Driver.Hrs3300.ReadRegister | src/lib.rs:192-196 | one WriteRead of 1 byte from the register; on success, the byte delivered |
| Driver.Hrs3300.WriteRegister | src/lib.rs:198-202 | one Write of [register address, value] to the device address; the result goes through Comm |
| Driver.Hrs3300.ReadRegisters | src/lib.rs:205-210 | one WriteRead of [start address] for buffer-length bytes; the buffer holds the delivered bytes on success |

`Hrs3300.Valid` includes the invariant that the mask is 0 or the mask of the stored
resolution. `New` and `Default` establish it, and `SetAdcResolution` and `Init` preserve it.
With it, `ReadRawSample` states its ranges for every successful read, and `Default` followed
by a successful `ReadRawSample` yields (0, 0).

## Left out

- The embedded-hal `Write` and `WriteRead` traits are foreign code. They are replaced by the abstract `I2c.Bus`: the outcome and data of each transaction come from oracle functions, and I2C timing and addressing on the wire are not modelled.
- Heart-rate estimation is not implemented in the driver. `sample_one` discards the sample and returns `None`, and so does the model.
- Whether the chip's register auto-increment skips 0x0B while reading the sample block is hardware behaviour. The block is treated positionally, as the code does.
- The board bring-up example (clock tree, pins, shared bus manager, logging, delays) is I/O plumbing with no driver logic.
- `Debug` derives, the `core::fmt::Debug` bound on the bus error and the trivial unit test carry no behaviour.
- Ownership of the bus handle (moved into the driver and never returned) is not modelled. The driver simply refers to a `Bus` object.
- `u8` and `u32` are modelled as `bv8` and `bv32`, so shifts and masks behave exactly as in the code. The final casts to `u32` in `read_raw_sample` are identities, and `HeartRateType` is `bv16`.
- I2c.Bus.WriteRead: the contents of the buffer after a failed transfer are left unspecified, as the bus interface promises nothing about them. Every caller discards the buffer on failure.
- SampleDecode.ResolutionMask: the mask is stated in 32-bit arithmetic (`ResolutionMaskFormula`) and bit by bit (`ResolutionMaskBits`), not as the integer 2^(8+code) - 1.
