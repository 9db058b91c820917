/**
 * What the HRS3300 driver sends and returns, as functions of the bus replies: the
 * register values it writes, the error taxonomy, and the transaction sequences of
 * init and enable with their short-circuit on the first failing transfer.
 */
module DriverSpec {
  import opened Wrappers
  import opened Definitions
  import opened I2c

  const DEFAULT_DEVICE_ADDRESS: bv8 := 0x44
  /** The identity byte an HRS3300 reports in its ID register. */
  const DEFAULT_DEVICE_ID: bv8 := 0x21

  /** Recommended values of the reserved bits of RES, ENABLE and PDRIVER. */
  const RESERVED_RESOLUTION_BITS: bv8 := 0x60
  const RESERVED_ENABLE_BITS: bv8 := 0x60
  const RESERVED_PDRIVE_BITS: bv8 := 0x08

  /** The recommended HGAIN value init writes. */
  const INIT_HGAIN: bv8 := 0x10

  /** A driver error: the bus failed (with the bus's own error), or the chip is not an HRS3300. */
  datatype Error<E> = Comm(cause: E) | DeviceId

  /**
   * The driver's result for a bus transfer with outcome `x` that yields `v` when it
   * succeeds: a bus failure becomes Comm.
   */
  function Transfer<T, E>(x: Result<(), E>, v: T): (r: Result<T, Error<E>>)
    ensures r.Ok? <==> x.Ok?
    ensures r.Ok? ==> r.value == v
    ensures r.Err? ==> r.error == Comm(x.error)
  {
    match x
    case Ok(_) => Ok(v)
    case Err(e) => Err(Comm(e))
  }

  /** The PDRIVER value init writes: PDRIVE0 | PON | reserved bits. */
  const INIT_PDRIVER_VALUE: bv8 := (PDriverFieldMask(PDRIVE0) | PDriverFieldMask(PON)) | RESERVED_PDRIVE_BITS

  /** The ENABLE value init writes: HEN | PDRIVE1 | reserved bits. */
  const INIT_ENABLE_VALUE: bv8 := (EnableFieldMask(HEN) | EnableFieldMask(PDRIVE1)) | RESERVED_ENABLE_BITS

  lemma InitRegisterValues()
    ensures INIT_PDRIVER_VALUE == 0x68 && INIT_ENABLE_VALUE == 0xE8
  {
  }

  /** Neither PDRIVER field overlaps the reserved PDRIVER bits. */
  lemma PDriverFieldsAvoidReserved(f: PDriverRegField)
    ensures PDriverFieldMask(f) & RESERVED_PDRIVE_BITS == 0
  {
  }

  /** The gain init writes lies inside the HGAIN field. */
  lemma InitGainInsideField()
    ensures HgainFieldMask(HgainRegField.HGAIN) == 0x1C
    ensures INIT_HGAIN & !HgainFieldMask(HgainRegField.HGAIN) == 0
  {
  }

  /** The RES value for a resolution: its code in ALS_RES, the reserved pattern elsewhere. */
  function ResolutionRegValue(r: AdcResolution): (v: bv8)
    ensures v & ResFieldMask(ALS_RES) == ResolutionCode(r)
    ensures v & !ResFieldMask(ALS_RES) == RESERVED_RESOLUTION_BITS
  {
    ResolutionCode(r) | RESERVED_RESOLUTION_BITS
  }

  /** The ENABLE value enable(on) writes: HEN set exactly when on, the reserved pattern elsewhere. */
  function EnableRegValue(on: bool): (v: bv8)
    ensures (v & EnableFieldMask(HEN) != 0) == on
    ensures v & !EnableFieldMask(HEN) == RESERVED_ENABLE_BITS
  {
    if on then RESERVED_ENABLE_BITS | EnableFieldMask(HEN)
    else RESERVED_ENABLE_BITS & !EnableFieldMask(HEN)
  }

  /** The PDRIVER value enable(on) writes: PON set exactly when on, the reserved pattern elsewhere. */
  function PDriverRegValue(on: bool): (v: bv8)
    ensures (v & PDriverFieldMask(PON) != 0) == on
    ensures v & !PDriverFieldMask(PON) == RESERVED_PDRIVE_BITS
  {
    if on then RESERVED_PDRIVE_BITS | PDriverFieldMask(PON)
    else RESERVED_PDRIVE_BITS & !PDriverFieldMask(PON)
  }

  lemma EnableValues()
    ensures EnableRegValue(true) == 0xE0 && EnableRegValue(false) == 0x60
    ensures PDriverRegValue(true) == 0x28 && PDriverRegValue(false) == 0x08
  {
  }

  /**
   * Because enable writes constants, enable(true) after init clears the drive-current bits
   * PDRIVE1 and PDRIVE0 that init set, and both enable(true) and enable(false) set the wait
   * time HWT to 0b110.
   */
  lemma EnableOverwritesInitConfiguration()
    ensures INIT_ENABLE_VALUE & EnableFieldMask(PDRIVE1) != 0
    ensures EnableRegValue(true) & EnableFieldMask(PDRIVE1) == 0
    ensures INIT_PDRIVER_VALUE & PDriverFieldMask(PDRIVE0) != 0
    ensures PDriverRegValue(true) & PDriverFieldMask(PDRIVE0) == 0
    ensures forall on: bool :: EnableRegValue(on) & EnableFieldMask(HWT) == 0x6 << 4
  {
  }

  /** One register write: the register and the value for it. */
  datatype RegWrite = RegWrite(reg: Register, value: bv8)

  /** The transaction write_register issues. */
  function WriteTx(addr: bv8, w: RegWrite): Transaction
  {
    Transaction.Write(addr, [RegisterAddress(w.reg), w.value])
  }

  /** The transaction read_registers issues to read `len` registers from `start`. */
  function ReadTx(addr: bv8, start: Register, len: nat): Transaction
  {
    Transaction.WriteRead(addr, [RegisterAddress(start)], len)
  }

  /** The transactions of a list of register writes, all issued. */
  function WriteTxs(addr: bv8, ws: seq<RegWrite>): seq<Transaction>
  {
    seq(|ws|, i requires 0 <= i < |ws| => WriteTx(addr, ws[i]))
  }

  /** What an operation did on the bus, and what it returned. */
  datatype Outcome<T, E> = Outcome(trace: seq<Transaction>, result: Result<T, Error<E>>)

  /**
   * A chain of `write_register(..)?` calls, the first issued as transaction n: each write
   * is issued in turn, and the first one the bus refuses ends the chain with its error.
   */
  function WriteChain<E>(addr: bv8, ws: seq<RegWrite>, reply: nat -> Result<(), E>, n: nat): (out: Outcome<(), E>)
    decreases |ws|
  {
    if ws == [] then Outcome([], Ok(()))
    else
      match reply(n)
      case Err(e) => Outcome([WriteTx(addr, ws[0])], Err(Comm(e)))
      case Ok(_) =>
        var rest := WriteChain(addr, ws[1..], reply, n + 1);
        Outcome([WriteTx(addr, ws[0])] + rest.trace, rest.result)
  }

  /** A chain issues a prefix of its writes, in order, and never reads. */
  lemma {:induction false} WriteChainIssuesPrefix<E>(addr: bv8, ws: seq<RegWrite>, reply: nat -> Result<(), E>, n: nat)
    ensures |WriteChain(addr, ws, reply, n).trace| <= |ws|
    ensures WriteChain(addr, ws, reply, n).trace == WriteTxs(addr, ws[..|WriteChain(addr, ws, reply, n).trace|])
    ensures forall t :: t in WriteChain(addr, ws, reply, n).trace ==> t.Write?
    decreases |ws|
  {
    if ws != [] && reply(n).Ok? {
      WriteChainIssuesPrefix(addr, ws[1..], reply, n + 1);
      var rest := WriteChain(addr, ws[1..], reply, n + 1);
      assert ws[1..][..|rest.trace|] == ws[1..|rest.trace| + 1];
    }
  }

  /** A chain succeeds exactly when the bus accepts every write, and then it has issued them all. */
  lemma {:induction false} WriteChainSucceeds<E>(addr: bv8, ws: seq<RegWrite>, reply: nat -> Result<(), E>, n: nat)
    ensures WriteChain(addr, ws, reply, n).result == Ok(()) <==> forall j :: n <= j < n + |ws| ==> reply(j).Ok?
    ensures WriteChain(addr, ws, reply, n).result.Ok? ==> WriteChain(addr, ws, reply, n).result == Ok(())
    ensures WriteChain(addr, ws, reply, n).result.Ok? ==> WriteChain(addr, ws, reply, n).trace == WriteTxs(addr, ws)
    decreases |ws|
  {
    if ws != [] {
      WriteChainSucceeds(addr, ws[1..], reply, n + 1);
      if reply(n).Ok? {
        var rest := WriteChain(addr, ws[1..], reply, n + 1);
        assert [WriteTx(addr, ws[0])] + WriteTxs(addr, ws[1..]) == WriteTxs(addr, ws);
      }
    }
  }

  /** A chain stops at the first write the bus refuses (the k-th) and returns that write's error. */
  lemma {:induction false} WriteChainStopsAtFirstFailure<E>(addr: bv8, ws: seq<RegWrite>, reply: nat -> Result<(), E>, n: nat, k: nat)
    requires k < |ws| && reply(n + k).Err?
    requires forall j :: n <= j < n + k ==> reply(j).Ok?
    ensures WriteChain(addr, ws, reply, n) == Outcome(WriteTxs(addr, ws[..k + 1]), Err(Comm(reply(n + k).error)))
    decreases k
  {
    if k > 0 {
      WriteChainStopsAtFirstFailure(addr, ws[1..], reply, n + 1, k - 1);
      assert [WriteTx(addr, ws[0])] + WriteTxs(addr, ws[1..][..k]) == WriteTxs(addr, ws[..k + 1]);
    } else {
      assert [WriteTx(addr, ws[0])] == WriteTxs(addr, ws[..1]);
    }
  }

  /** The writes init performs after the identity check, in order. */
  function InitWrites(r: AdcResolution): (ws: seq<RegWrite>)
    ensures |ws| == 4
  {
    [ RegWrite(PDRIVER, INIT_PDRIVER_VALUE),
      RegWrite(RES, ResolutionRegValue(r)),
      RegWrite(Register.HGAIN, INIT_HGAIN),
      RegWrite(ENABLE, INIT_ENABLE_VALUE) ]
  }

  /**
   * init, its first transaction numbered n: read the ID register; a refused read or an
   * identity other than DEFAULT_DEVICE_ID ends it; otherwise the chain of InitWrites.
   */
  function InitOutcome<E>(addr: bv8, r: AdcResolution, reply: nat -> Result<(), E>, incoming: (nat, nat) -> bv8, n: nat): Outcome<(), E>
  {
    var idRead := ReadTx(addr, ID, 1);
    match reply(n)
    case Err(e) => Outcome([idRead], Err(Comm(e)))
    case Ok(_) =>
      if incoming(n, 0) != DEFAULT_DEVICE_ID then Outcome([idRead], Err(DeviceId))
      else
        var w := WriteChain(addr, InitWrites(r), reply, n + 1);
        Outcome([idRead] + w.trace, w.result)
  }

  /** Once the identity check passes, init's outcome is that of its write chain after the ID read. */
  lemma InitOutcomeAfterIdentity<E>(addr: bv8, r: AdcResolution, reply: nat -> Result<(), E>, incoming: (nat, nat) -> bv8, n: nat)
    requires reply(n).Ok? && incoming(n, 0) == DEFAULT_DEVICE_ID
    ensures InitOutcome(addr, r, reply, incoming, n).trace == [ReadTx(addr, ID, 1)] + WriteChain(addr, InitWrites(r), reply, n + 1).trace
    ensures InitOutcome(addr, r, reply, incoming, n).result == WriteChain(addr, InitWrites(r), reply, n + 1).result
  {
  }

  /** One step of a write chain: its first write, then the rest of the chain if that write succeeds. */
  lemma WriteChainHead<E>(addr: bv8, ws: seq<RegWrite>, reply: nat -> Result<(), E>, n: nat)
    requires ws != []
    ensures reply(n).Err? ==> WriteChain(addr, ws, reply, n) == Outcome([WriteTx(addr, ws[0])], Err(Comm(reply(n).error)))
    ensures reply(n).Ok? ==>
      WriteChain(addr, ws, reply, n) ==
        Outcome([WriteTx(addr, ws[0])] + WriteChain(addr, ws[1..], reply, n + 1).trace, WriteChain(addr, ws[1..], reply, n + 1).result)
  {
  }

  /** init after a matching identity, written out step by step. */
  lemma InitOutcomeUnrolled<E>(addr: bv8, r: AdcResolution, reply: nat -> Result<(), E>, incoming: (nat, nat) -> bv8, n: nat)
    requires reply(n).Ok? && incoming(n, 0) == DEFAULT_DEVICE_ID
    ensures InitOutcome(addr, r, reply, incoming, n) ==
      var id, t := ReadTx(addr, ID, 1), WriteTxs(addr, InitWrites(r));
      if reply(n + 1).Err? then Outcome([id, t[0]], Err(Comm(reply(n + 1).error)))
      else if reply(n + 2).Err? then Outcome([id, t[0], t[1]], Err(Comm(reply(n + 2).error)))
      else if reply(n + 3).Err? then Outcome([id, t[0], t[1], t[2]], Err(Comm(reply(n + 3).error)))
      else if reply(n + 4).Err? then Outcome([id, t[0], t[1], t[2], t[3]], Err(Comm(reply(n + 4).error)))
      else Outcome([id, t[0], t[1], t[2], t[3]], Ok(()))
  {
    var ws := InitWrites(r);
    WriteChainHead(addr, ws, reply, n + 1);
    WriteChainHead(addr, ws[1..], reply, n + 2);
    WriteChainHead(addr, ws[2..], reply, n + 3);
    WriteChainHead(addr, ws[3..], reply, n + 4);
    assert ws[1..][1..] == ws[2..] && ws[2..][1..] == ws[3..] && ws[3..][1..] == [];
  }

  /** init reaches set_adc_resolution: the identity read succeeds and matches, and the PDRIVER write succeeds. */
  predicate InitReachesResolution<E>(reply: nat -> Result<(), E>, incoming: (nat, nat) -> bv8, n: nat)
  {
    reply(n).Ok? && incoming(n, 0) == DEFAULT_DEVICE_ID && reply(n + 1).Ok?
  }

  /** A chip that answers with a foreign identity gets Err(DeviceId) and no register write. */
  lemma InitRejectsForeignDevice<E>(addr: bv8, r: AdcResolution, reply: nat -> Result<(), E>, incoming: (nat, nat) -> bv8, n: nat)
    requires reply(n).Ok? && incoming(n, 0) != DEFAULT_DEVICE_ID
    ensures InitOutcome(addr, r, reply, incoming, n) == Outcome([ReadTx(addr, ID, 1)], Err(DeviceId))
  {
  }

  /**
   * init succeeds exactly when the identity read succeeds and matches and all four writes
   * succeed; it has then written PDRIVER, RES, HGAIN and ENABLE in that order.
   */
  lemma InitSucceeds<E>(addr: bv8, r: AdcResolution, reply: nat -> Result<(), E>, incoming: (nat, nat) -> bv8, n: nat)
    ensures InitOutcome(addr, r, reply, incoming, n).result.Ok?
        <==> reply(n).Ok? && incoming(n, 0) == DEFAULT_DEVICE_ID
             && reply(n + 1).Ok? && reply(n + 2).Ok? && reply(n + 3).Ok? && reply(n + 4).Ok?
    ensures InitOutcome(addr, r, reply, incoming, n).result.Ok? ==>
      InitOutcome(addr, r, reply, incoming, n).trace ==
        [ Transaction.WriteRead(addr, [0x00], 1),
          Transaction.Write(addr, [0x0C, 0x68]),
          Transaction.Write(addr, [0x16, ResolutionCode(r) | 0x60]),
          Transaction.Write(addr, [0x17, 0x10]),
          Transaction.Write(addr, [0x01, 0xE8]) ]
  {
    if reply(n).Ok? && incoming(n, 0) == DEFAULT_DEVICE_ID {
      InitOutcomeUnrolled(addr, r, reply, incoming, n);
      InitRegisterValues();
    }
  }

  /**
   * When the identity check passes and the k-th write of init is the first the bus refuses,
   * init has issued the ID read and the first k + 1 writes, and returns that write's error.
   */
  lemma InitStopsAtFirstFailure<E>(addr: bv8, r: AdcResolution, reply: nat -> Result<(), E>, incoming: (nat, nat) -> bv8, n: nat, k: nat)
    requires reply(n).Ok? && incoming(n, 0) == DEFAULT_DEVICE_ID
    requires k < 4 && reply(n + 1 + k).Err?
    requires forall j :: n < j <= n + k ==> reply(j).Ok?
    ensures InitOutcome(addr, r, reply, incoming, n)
         == Outcome([ReadTx(addr, ID, 1)] + WriteTxs(addr, InitWrites(r)[..k + 1]), Err(Comm(reply(n + 1 + k).error)))
  {
    WriteChainStopsAtFirstFailure(addr, InitWrites(r), reply, n + 1, k);
  }

  /** The writes enable(on) performs, in order. */
  function EnableWrites(on: bool): (ws: seq<RegWrite>)
    ensures |ws| == 2
  {
    [RegWrite(ENABLE, EnableRegValue(on)), RegWrite(PDRIVER, PDriverRegValue(on))]
  }

  /** enable(on), its first transaction numbered n. */
  function EnableOutcome<E>(addr: bv8, on: bool, reply: nat -> Result<(), E>, n: nat): Outcome<(), E>
  {
    WriteChain(addr, EnableWrites(on), reply, n)
  }

  /**
   * enable(on) writes ENABLE then PDRIVER with fixed values and reads nothing; a refused
   * first write skips the second.
   */
  lemma EnableTrace<E>(addr: bv8, on: bool, reply: nat -> Result<(), E>, n: nat)
    ensures forall t :: t in EnableOutcome(addr, on, reply, n).trace ==> t.Write?
    ensures reply(n).Err? ==>
      EnableOutcome(addr, on, reply, n) == Outcome([Transaction.Write(addr, [0x01, if on then 0xE0 else 0x60])], Err(Comm(reply(n).error)))
    ensures reply(n).Ok? ==>
      EnableOutcome(addr, on, reply, n).trace ==
        [ Transaction.Write(addr, [0x01, if on then 0xE0 else 0x60]),
          Transaction.Write(addr, [0x0C, if on then 0x28 else 0x08]) ]
    ensures EnableOutcome(addr, on, reply, n).result.Ok? <==> reply(n).Ok? && reply(n + 1).Ok?
  {
    WriteChainIssuesPrefix(addr, EnableWrites(on), reply, n);
    WriteChainSucceeds(addr, EnableWrites(on), reply, n);
    if reply(n).Ok? && reply(n + 1).Ok? {
      assert forall j :: n <= j < n + 2 ==> reply(j).Ok? by {
        forall j | n <= j < n + 2 ensures reply(j).Ok? {
          assert j == n || j == n + 1;
        }
      }
    }
  }
}
