/**
 * The HRS3300 driver object: it owns the bus and the device address and keeps the
 * selected ADC resolution with the mask derived from it.
 */
module Driver {
  import opened Wrappers
  import opened Definitions
  import opened I2c
  import opened SampleDecode
  import opened DriverSpec

  class Hrs3300<E> {
    const bus: Bus<E>
    const address: bv8
    var adcResolution: AdcResolution
    var resolutionMask: bv32

    /** The bus keeps its trace, and the mask is unset or the one the stored resolution implies. */
    ghost predicate Valid()
      reads this, bus
    {
      bus.Valid() && (resolutionMask == 0 || resolutionMask == ResolutionMask(adcResolution))
    }

    /** A driver for the device at `address`; the mask stays 0 until a resolution is applied. */
    constructor New(bus: Bus<E>, address: bv8, adcResolution: AdcResolution)
      requires bus.Valid()
      ensures Valid()
      ensures this.bus == bus && this.address == address
      ensures this.adcResolution == adcResolution && resolutionMask == 0
    {
      this.bus := bus;
      this.address := address;
      this.adcResolution := adcResolution;
      resolutionMask := 0;
    }

    /** A driver at the default address with 14-bit resolution. */
    static method Default(bus: Bus<E>) returns (d: Hrs3300<E>)
      requires bus.Valid()
      ensures fresh(d) && d.Valid()
      ensures d.bus == bus && d.address == DEFAULT_DEVICE_ADDRESS
      ensures d.adcResolution == Bits14 && d.resolutionMask == 0
    {
      d := new Hrs3300.New(bus, DEFAULT_DEVICE_ADDRESS, Bits14);
    }

    /** Check the identity, then write PDRIVER, RES, HGAIN and ENABLE, stopping at the first failure. */
    method Init() returns (r: Result<(), Error<E>>)
      requires Valid()
      modifies this, bus
      ensures Valid()
      ensures bus.trace == old(bus.trace) + InitOutcome(address, old(adcResolution), bus.reply, bus.incoming, old(bus.count)).trace
      ensures r == InitOutcome(address, old(adcResolution), bus.reply, bus.incoming, old(bus.count)).result
      ensures adcResolution == old(adcResolution)
      ensures resolutionMask ==
        if InitReachesResolution(bus.reply, bus.incoming, old(bus.count)) then ResolutionMask(adcResolution)
        else old(resolutionMask)
    {
      ghost var n := bus.count;
      ghost var pre := bus.trace;
      var id := GetDeviceId();
      if id.Err? {
        return Err(id.error);
      }
      if id.value != DEFAULT_DEVICE_ID {
        return Err(DeviceId);
      }
      InitOutcomeUnrolled(address, adcResolution, bus.reply, bus.incoming, n);
      ghost var t := WriteTxs(address, InitWrites(adcResolution));
      var w := WriteRegister(PDRIVER, INIT_PDRIVER_VALUE);
      assert bus.trace == pre + [ReadTx(address, ID, 1), t[0]];
      if w.Err? {
        return w;
      }
      w := SetAdcResolution(adcResolution);
      assert bus.trace == pre + [ReadTx(address, ID, 1), t[0], t[1]];
      if w.Err? {
        return w;
      }
      w := WriteRegister(Register.HGAIN, INIT_HGAIN);
      assert bus.trace == pre + [ReadTx(address, ID, 1), t[0], t[1], t[2]];
      if w.Err? {
        return w;
      }
      w := WriteRegister(ENABLE, INIT_ENABLE_VALUE);
      assert bus.trace == pre + [ReadTx(address, ID, 1), t[0], t[1], t[2], t[3]];
      if w.Err? {
        return w;
      }
      return Ok(());
    }

    /** Write fixed ENABLE and PDRIVER values with HEN and PON set or cleared; no register is read. */
    method Enable(on: bool) returns (r: Result<(), Error<E>>)
      requires Valid()
      modifies bus
      ensures Valid()
      ensures bus.trace == old(bus.trace) + EnableOutcome(address, on, bus.reply, old(bus.count)).trace
      ensures r == EnableOutcome(address, on, bus.reply, old(bus.count)).result
    {
      ghost var n := bus.count;
      ghost var ws := EnableWrites(on);
      var enableVal := RESERVED_ENABLE_BITS;
      enableVal := if on then enableVal | EnableFieldMask(HEN) else enableVal & !EnableFieldMask(HEN);
      var w := WriteRegister(ENABLE, enableVal);
      if w.Err? {
        WriteChainStopsAtFirstFailure(address, ws, bus.reply, n, 0);
        return w;
      }
      var pdriveVal := RESERVED_PDRIVE_BITS;
      pdriveVal := if on then pdriveVal | PDriverFieldMask(PON) else pdriveVal & !PDriverFieldMask(PON);
      w := WriteRegister(PDRIVER, pdriveVal);
      if w.Err? {
        WriteChainStopsAtFirstFailure(address, ws, bus.reply, n, 1);
        return w;
      }
      EnableTrace(address, on, bus.reply, n);
      WriteChainSucceeds(address, ws, bus.reply, n);
      return Ok(());
    }

    /** Read the ID register. */
    method GetDeviceId() returns (r: Result<bv8, Error<E>>)
      requires Valid()
      modifies bus
      ensures Valid()
      ensures bus.trace == old(bus.trace) + [ReadTx(address, ID, 1)]
      ensures r == Transfer(bus.reply(old(bus.count)), bus.incoming(old(bus.count), 0))
    {
      r := ReadRegister(ID);
    }

    /**
     * Store the resolution and its mask, then write RES; the stored state changes whether
     * or not the write succeeds.
     */
    method SetAdcResolution(resolution: AdcResolution) returns (r: Result<(), Error<E>>)
      requires Valid()
      modifies this, bus
      ensures Valid()
      ensures adcResolution == resolution && resolutionMask == ResolutionMask(resolution)
      ensures bus.trace == old(bus.trace) + [WriteTx(address, RegWrite(RES, ResolutionRegValue(resolution)))]
      ensures r == Transfer(bus.reply(old(bus.count)), ())
    {
      adcResolution := resolution;
      resolutionMask := ((1 as bv32) << (8 + ResolutionCode(adcResolution) as bv32)) - 1;
      ResolutionMaskFormula(resolution);
      var resolutionRegVal := ResolutionCode(adcResolution) | RESERVED_RESOLUTION_BITS;
      r := WriteRegister(RES, resolutionRegVal);
    }

    /** Read one raw sample; the heart-rate estimate is not implemented, so success yields None. */
    method SampleOne() returns (r: Result<Option<bv16>, Error<E>>)
      requires Valid()
      modifies bus
      ensures Valid()
      ensures bus.trace == old(bus.trace) + [ReadTx(address, C1DATAM, SAMPLE_BLOCK_LEN)]
      ensures r == Transfer(bus.reply(old(bus.count)), None)
    {
      var raw := ReadRawSample();
      if raw.Err? {
        return Err(raw.error);
      }
      return Ok(None);
    }

    /** Read the sample block and decode `(c0, c1)` under the stored mask. */
    method ReadRawSample() returns (r: Result<(bv32, bv32), Error<E>>)
      requires Valid()
      modifies bus
      ensures Valid()
      ensures bus.trace == old(bus.trace) + [ReadTx(address, C1DATAM, SAMPLE_BLOCK_LEN)]
      ensures r == Transfer(bus.reply(old(bus.count)), Decode(bus.Delivered(old(bus.count), SAMPLE_BLOCK_LEN), resolutionMask))
      ensures r.Ok? ==> r.value.0 < 0x1_0000 && r.value.1 < 0x2_0000
      ensures r.Ok? && resolutionMask == 0 ==> r.value == (0, 0)
    {
      var block := ReadSampleBlock();
      if block.Err? {
        return Err(block.error);
      }
      var b := block.value;
      DecodedRanges(b, resolutionMask);
      if resolutionMask == 0 {
        DecodeUnsetMask(b);
      }
      return Ok(Decode(b, resolutionMask));
    }

    /** Read the seven registers of one sample, starting at C1DATAM. */
    method ReadSampleBlock() returns (r: Result<Block, Error<E>>)
      requires Valid()
      modifies bus
      ensures Valid()
      ensures bus.trace == old(bus.trace) + [ReadTx(address, C1DATAM, SAMPLE_BLOCK_LEN)]
      ensures r == Transfer(bus.reply(old(bus.count)), bus.Delivered(old(bus.count), SAMPLE_BLOCK_LEN))
    {
      var buf := new bv8[SAMPLE_BLOCK_LEN](_ => 0);
      var res := ReadRegisters(C1DATAM, buf);
      if res.Err? {
        return Err(res.error);
      }
      return Ok(buf[..]);
    }

    /** Read one register. */
    method ReadRegister(register: Register) returns (r: Result<bv8, Error<E>>)
      requires Valid()
      modifies bus
      ensures Valid()
      ensures bus.trace == old(bus.trace) + [ReadTx(address, register, 1)]
      ensures r == Transfer(bus.reply(old(bus.count)), bus.incoming(old(bus.count), 0))
    {
      var data := new bv8[1](_ => 0);
      var res := ReadRegisters(register, data);
      if res.Err? {
        return Err(res.error);
      }
      return Ok(data[0]);
    }

    /** Write `value` to `register`: the payload is the register address, then the value. */
    method WriteRegister(register: Register, value: bv8) returns (r: Result<(), Error<E>>)
      requires Valid()
      modifies bus
      ensures Valid()
      ensures bus.trace == old(bus.trace) + [WriteTx(address, RegWrite(register, value))]
      ensures r == Transfer(bus.reply(old(bus.count)), ())
    {
      var res := bus.Write(address, [RegisterAddress(register), value]);
      r := if res.Err? then Err(Comm(res.error)) else Ok(());
    }

    /** Fill `buf` from consecutive registers beginning at `start`, in one transaction. */
    method ReadRegisters(start: Register, buf: array<bv8>) returns (r: Result<(), Error<E>>)
      requires Valid()
      modifies bus, buf
      ensures Valid()
      ensures bus.trace == old(bus.trace) + [ReadTx(address, start, buf.Length)]
      ensures r.Ok? ==> buf[..] == bus.Delivered(old(bus.count), buf.Length)
      ensures r == Transfer(bus.reply(old(bus.count)), ())
    {
      var res := bus.WriteRead(address, [RegisterAddress(start)], buf);
      if res.Err? {
        return Err(Comm(res.error));
      }
      return Ok(());
    }
  }
}
