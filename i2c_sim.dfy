/**
 * The simulated I2C peripheral of include/hal_i2c.c: the four 32-bit
 * registers of the `I2C1` block and the read-modify-write each HAL call
 * performs on them.
 *
 * `Registers` is the register block as a value, with one update function per
 * HAL call; `Peripheral` is the global block itself, updated in place.  The
 * simulation seen as an I2CHal `Device` (`Sim`) answers every query from the
 * registers obtained by replaying the calls made so far on an initial block.
 */
module I2CSim {
  import opened I2CHal

  /** Control register bits. */
  const CR_ENABLE: bv32 := 1
  const CR_START: bv32 := 2
  const CR_STOP: bv32 := 4
  const CR_ACK: bv32 := 8

  /** Status register bits. */
  const SR_BUSY: bv32 := 1
  const SR_TXE: bv32 := 2
  const SR_RXNE: bv32 := 4
  const SR_ADDR: bv32 := 8

  /** The fake sensor byte HAL_I2C_IsRxReady loads into DR. */
  const RX_DATA: bv8 := 0x33

  /** I2C_Registers_t; one update per HAL call. */
  datatype Registers = Registers(cr: bv32, sr: bv32, dr: bv32, ccr: bv32) {
    /** HAL_I2C_Enable */
    function AfterEnable(): Registers {
      this.(cr := cr | CR_ENABLE)
    }

    /** HAL_I2C_SetSpeed */
    function AfterSetSpeed(hz: bv32): Registers {
      this.(ccr := hz)
    }

    /** HAL_I2C_GenerateStart */
    function AfterStart(): Registers {
      this.(cr := (cr | CR_START) & !CR_STOP, sr := sr | SR_BUSY)
    }

    /** HAL_I2C_GenerateStop */
    function AfterStop(): Registers {
      this.(cr := (cr | CR_STOP) & !CR_START, sr := sr & !SR_BUSY)
    }

    /** HAL_I2C_SendACK */
    function AfterAck(): Registers {
      this.(cr := cr | CR_ACK)
    }

    /** HAL_I2C_SendNACK */
    function AfterNack(): Registers {
      this.(cr := cr & !CR_ACK)
    }

    /** HAL_I2C_SendAddress; the shift happens after promotion to int, so an
        address above 0x7F keeps its top bit, in bit 8. */
    function AfterAddress(addr: bv8, dir: Direction): Registers {
      this.(dr := ((addr as bv32) << 1) | (dir.Bit() & 1), sr := (sr | SR_ADDR) | SR_TXE)
    }

    /** HAL_I2C_SendData */
    function AfterSend(data: bv8): Registers {
      this.(dr := data as bv32, sr := sr | SR_TXE)
    }

    /** The side effect of HAL_I2C_IsRxReady. */
    function AfterRxPoll(): Registers {
      this.(sr := sr | SR_RXNE, dr := RX_DATA as bv32)
    }

    /** HAL_I2C_ReadData: the cast of DR to uint8_t. */
    function Data(): bv8 {
      (dr & 0xFF) as bv8
    }

    /** HAL_I2C_IsStartGenerated, IsAddressSent, IsTxComplete, IsRxReady:
        CR.START, SR.ADDR, SR.TXE, and always true. */
    function Answer(f: Flag): bool {
      match f
      case StartGenerated => cr & CR_START != 0
      case AddressSent => sr & SR_ADDR != 0
      case TxComplete => sr & SR_TXE != 0
      case RxReady => true
    }
  }

  // ---------------------------------------------------------------------------
  // What each HAL call does to the bits
  // ---------------------------------------------------------------------------

  /** Enable sets CR.ENABLE and nothing else. */
  lemma EnableBits(s: Registers)
    ensures var r := s.AfterEnable();
            && r.cr & CR_ENABLE != 0 && r.cr & !CR_ENABLE == s.cr & !CR_ENABLE
            && r.sr == s.sr && r.dr == s.dr && r.ccr == s.ccr
  {
  }

  /** SetSpeed writes the requested frequency into CCR and nothing else. */
  lemma SetSpeedBits(s: Registers, hz: bv32)
    ensures var r := s.AfterSetSpeed(hz);
            r.ccr == hz && r.cr == s.cr && r.sr == s.sr && r.dr == s.dr
  {
  }

  /** GenerateStart sets CR.START, clears CR.STOP and sets SR.BUSY; every
      other bit, DR and CCR are unchanged. */
  lemma StartBits(s: Registers)
    ensures var r := s.AfterStart();
            && r.cr & CR_START != 0 && r.cr & CR_STOP == 0
            && r.cr & !(CR_START | CR_STOP) == s.cr & !(CR_START | CR_STOP)
            && r.sr & SR_BUSY != 0 && r.sr & !SR_BUSY == s.sr & !SR_BUSY
            && r.dr == s.dr && r.ccr == s.ccr
  {
  }

  /** GenerateStop sets CR.STOP, clears CR.START and clears SR.BUSY; nothing
      else changes. */
  lemma StopBits(s: Registers)
    ensures var r := s.AfterStop();
            && r.cr & CR_STOP != 0 && r.cr & CR_START == 0
            && r.cr & !(CR_START | CR_STOP) == s.cr & !(CR_START | CR_STOP)
            && r.sr & SR_BUSY == 0 && r.sr & !SR_BUSY == s.sr & !SR_BUSY
            && r.dr == s.dr && r.ccr == s.ccr
  {
  }

  /** SendACK sets CR.ACK only. */
  lemma AckBits(s: Registers)
    ensures var r := s.AfterAck();
            && r.cr & CR_ACK != 0 && r.cr & !CR_ACK == s.cr & !CR_ACK
            && r.sr == s.sr && r.dr == s.dr && r.ccr == s.ccr
  {
  }

  /** SendNACK clears CR.ACK only. */
  lemma NackBits(s: Registers)
    ensures var r := s.AfterNack();
            && r.cr & CR_ACK == 0 && r.cr & !CR_ACK == s.cr & !CR_ACK
            && r.sr == s.sr && r.dr == s.dr && r.ccr == s.ccr
  {
  }

  /** SendAddress puts the R/W bit in DR bit 0 and the address above it, and
      sets SR.ADDR and SR.TXE; CR, CCR and the other SR bits are unchanged. */
  lemma AddressBits(s: Registers, addr: bv8, dir: Direction)
    ensures var r := s.AfterAddress(addr, dir);
            && r.dr & 1 == dir.Bit() && r.dr >> 1 == addr as bv32
            && r.sr & SR_ADDR != 0 && r.sr & SR_TXE != 0
            && r.sr & !(SR_ADDR | SR_TXE) == s.sr & !(SR_ADDR | SR_TXE)
            && r.cr == s.cr && r.ccr == s.ccr
  {
  }

  /** SendData puts the byte in DR and sets SR.TXE. */
  lemma SendBits(s: Registers, data: bv8)
    ensures var r := s.AfterSend(data);
            && r.dr == data as bv32
            && r.sr & SR_TXE != 0 && r.sr & !SR_TXE == s.sr & !SR_TXE
            && r.cr == s.cr && r.ccr == s.ccr
  {
  }

  /** IsRxReady sets SR.RXNE and loads 0x33 into DR. */
  lemma RxPollBits(s: Registers)
    ensures var r := s.AfterRxPoll();
            && r.dr == RX_DATA as bv32
            && r.sr & SR_RXNE != 0 && r.sr & !SR_RXNE == s.sr & !SR_RXNE
            && r.cr == s.cr && r.ccr == s.ccr
  {
  }

  /** ReadData returns DR modulo 256. */
  lemma DataIsLowByte(s: Registers)
    ensures s.Data() as bv32 == s.dr % 256
  {
  }

  /** The initial `I2C1` block: all zero. */
  const RESET := Registers(0, 0, 0, 0)

  /** The effect of one Register Interface call on the registers.  The clock
      and pin calls have empty bodies; of the queries only IsRxReady writes. */
  function Step(r: Registers, e: Event): Registers {
    match e
    case EnableClock => r
    case ConfigurePins => r
    case SetSpeed(hz) => r.AfterSetSpeed(hz)
    case Enable => r.AfterEnable()
    case Start => r.AfterStart()
    case Stop => r.AfterStop()
    case Ack => r.AfterAck()
    case Nack => r.AfterNack()
    case Address(addr, dir) => r.AfterAddress(addr, dir)
    case Send(data) => r.AfterSend(data)
    case Receive(_) => r
    case Poll(f, _) => if f == RxReady then r.AfterRxPoll() else r
  }

  /** The registers after the first `n` calls of `evs`, from `init`. */
  function RegsUpTo(init: Registers, evs: seq<Event>, n: nat): Registers
    requires n <= |evs|
  {
    if n == 0 then init else Step(RegsUpTo(init, evs, n - 1), evs[n - 1])
  }

  function Regs(init: Registers, evs: seq<Event>): Registers {
    RegsUpTo(init, evs, |evs|)
  }

  /** The simulation as a device: each answer is read off the registers as
      the calls so far have left them. */
  function Sim(init: Registers): Device {
    Device((f: Flag, h: seq<Event>) => Regs(init, h).Answer(f), (h: seq<Event>) => Regs(init, h).Data())
  }

  lemma {:induction false} RegsUpToExtend(init: Registers, h: seq<Event>, e: Event, n: nat)
    requires n <= |h|
    ensures RegsUpTo(init, h + [e], n) == RegsUpTo(init, h, n)
  {
    if n > 0 {
      RegsUpToExtend(init, h, e, n - 1);
      assert (h + [e])[n - 1] == h[n - 1];
    }
  }

  /** Replaying one more call applies its step to the registers so far. */
  lemma RegsSnoc(init: Registers, h: seq<Event>, e: Event)
    ensures Regs(init, h + [e]) == Step(Regs(init, h), e)
  {
    RegsUpToExtend(init, h, e, |h|);
    assert (h + [e])[|h|] == e;
  }

  /** Repeating IsRxReady leaves the registers as one call does. */
  lemma RxPollIdempotent(r: Registers)
    ensures r.AfterRxPoll().AfterRxPoll() == r.AfterRxPoll()
  {
    assert (r.sr | SR_RXNE) | SR_RXNE == r.sr | SR_RXNE;
  }

  /** The status queries other than IsRxReady leave the registers alone. */
  lemma QueriesAreReads(r: Registers, f: Flag, seen: bool)
    requires f != RxReady
    ensures Step(r, Poll(f, seen)) == r
  {
  }

  /** Address 0x48 with WRITE leaves 0x90 in DR; with READ, 0x91. */
  lemma AddressEncodingExample(r: Registers)
    ensures r.AfterAddress(0x48, Write).dr == 0x90
    ensures r.AfterAddress(0x48, Read).dr == 0x91
  {
  }

  /**
   * class Peripheral: the global `I2C1` block, which every HAL call
   * read-modify-writes in place.  Each method leaves the update of
   * `Registers` for its call, so a sequence of calls leaves what `Regs`
   * computes for the matching trace.
   */
  class Peripheral {
    var regs: Registers

    /** `I2C_Registers_t I2C1 = {0};` */
    constructor ()
      ensures regs == RESET
    {
      regs := RESET;
    }

    method Enable()
      modifies this
      ensures regs == old(regs).AfterEnable()
    {
      regs := regs.(cr := regs.cr | CR_ENABLE);
    }

    method SetSpeed(hz: bv32)
      modifies this
      ensures regs == old(regs).AfterSetSpeed(hz)
    {
      regs := regs.(ccr := hz);
    }

    method GenerateStart()
      modifies this
      ensures regs == old(regs).AfterStart()
    {
      regs := regs.(cr := regs.cr | CR_START);
      regs := regs.(cr := regs.cr & !CR_STOP);
      regs := regs.(sr := regs.sr | SR_BUSY);
    }

    method GenerateStop()
      modifies this
      ensures regs == old(regs).AfterStop()
    {
      regs := regs.(cr := regs.cr | CR_STOP);
      regs := regs.(cr := regs.cr & !CR_START);
      regs := regs.(sr := regs.sr & !SR_BUSY);
    }

    method SendAck()
      modifies this
      ensures regs == old(regs).AfterAck()
    {
      regs := regs.(cr := regs.cr | CR_ACK);
    }

    method SendNack()
      modifies this
      ensures regs == old(regs).AfterNack()
    {
      regs := regs.(cr := regs.cr & !CR_ACK);
    }

    method SendAddress(addr: bv8, dir: Direction)
      modifies this
      ensures regs == old(regs).AfterAddress(addr, dir)
    {
      regs := regs.(dr := ((addr as bv32) << 1) | (dir.Bit() & 1));
      regs := regs.(sr := regs.sr | SR_ADDR);
      regs := regs.(sr := regs.sr | SR_TXE);
    }

    method SendData(data: bv8)
      modifies this
      ensures regs == old(regs).AfterSend(data)
    {
      regs := regs.(dr := data as bv32);
      regs := regs.(sr := regs.sr | SR_TXE);
    }

    /** HAL_I2C_ReadData: the low byte of DR, with no side effect. */
    method ReadData() returns (data: bv8)
      ensures data == regs.Data()
    {
      data := (regs.dr & 0xFF) as bv8;
    }

    method IsStartGenerated() returns (seen: bool)
      ensures seen == regs.Answer(StartGenerated)
    {
      seen := regs.cr & CR_START != 0;
    }

    method IsAddressSent() returns (seen: bool)
      ensures seen == regs.Answer(AddressSent)
    {
      seen := regs.sr & SR_ADDR != 0;
    }

    method IsTxComplete() returns (seen: bool)
      ensures seen == regs.Answer(TxComplete)
    {
      seen := regs.sr & SR_TXE != 0;
    }

    /** HAL_I2C_IsRxReady: always true, and it loads the fake byte. */
    method IsRxReady() returns (seen: bool)
      modifies this
      ensures seen && regs == old(regs).AfterRxPoll()
    {
      regs := regs.(sr := regs.sr | SR_RXNE);
      regs := regs.(dr := RX_DATA as bv32);
      seen := true;
    }
  }
}
