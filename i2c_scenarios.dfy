/**
 * The transaction engine running against the register simulation: what the
 * four transactions do when the device is `Sim(init)`, and the two I2C unit
 * tests of tests/test_i2c_uart.c as methods whose postconditions are the
 * tests' assertions.
 *
 * The simulation answers IsRxReady with true, IsStartGenerated with true right
 * after a START, IsAddressSent with true right after an address and
 * IsTxComplete with true right after a data byte, whatever it started from; so
 * every transaction on it succeeds with no failed poll at all.
 */
module I2CScenarios {
  import opened I2CHal
  import opened I2C
  import opened I2CSim

  /** START and the address phase when both the waits succeed at once. */
  function OpeningTrace(addr: bv8, dir: Direction): seq<Event> {
    [Start, Poll(StartGenerated, true), Address(addr, dir), Poll(AddressSent, true)]
  }

  /** Each byte followed by the TXE poll that sees it accepted. */
  function PolledSends(bs: seq<bv8>): seq<Event>
    decreases |bs|
  {
    if bs == [] then [] else [Send(bs[0]), Poll(TxComplete, true)] + PolledSends(bs[1..])
  }

  /** Positions `i` to `len` - 1 of a read: the RXNE poll, the byte, its
      ACK or NACK. */
  function PolledReads(len: nat, i: nat): seq<Event>
    decreases len - i
  {
    if i >= len then []
    else [Poll(RxReady, true), Receive(RX_DATA), AckFor(i, len)] + PolledReads(len, i + 1)
  }

  function Repeat(b: bv8, n: nat): (bs: seq<bv8>)
    ensures |bs| == n && forall k :: 0 <= k < n ==> bs[k] == b
  {
    if n == 0 then [] else [b] + Repeat(b, n - 1)
  }

  /**
   * A device that answers every wait of the engine on its first poll and
   * presents 0x33 after each RXNE poll.
   */
  ghost predicate Responsive(dev: Device) {
    && (forall h: seq<Event> :: dev.flag(StartGenerated, h + [Start]))
    && (forall h: seq<Event>, a: bv8, d: Direction :: dev.flag(AddressSent, h + [Address(a, d)]))
    && (forall h: seq<Event>, b: bv8 :: dev.flag(TxComplete, h + [Send(b)]))
    && (forall h: seq<Event> :: dev.flag(RxReady, h))
    && (forall h: seq<Event> :: dev.data(h + [Poll(RxReady, true)]) == RX_DATA)
  }

  /** IsStartGenerated reads true right after GenerateStart. */
  lemma SimStartAnswered(init: Registers, h: seq<Event>)
    ensures Sim(init).flag(StartGenerated, h + [Start])
  {
    RegsSnoc(init, h, Start);
    StartBits(Regs(init, h));
  }

  /** IsAddressSent reads true right after SendAddress. */
  lemma SimAddressAnswered(init: Registers, h: seq<Event>, a: bv8, d: Direction)
    ensures Sim(init).flag(AddressSent, h + [Address(a, d)])
  {
    RegsSnoc(init, h, Address(a, d));
    AddressBits(Regs(init, h), a, d);
  }

  /** IsTxComplete reads true right after SendData. */
  lemma SimSendAnswered(init: Registers, h: seq<Event>, b: bv8)
    ensures Sim(init).flag(TxComplete, h + [Send(b)])
  {
    RegsSnoc(init, h, Send(b));
    SendBits(Regs(init, h), b);
  }

  /** ReadData returns 0x33 right after IsRxReady. */
  lemma SimDataAfterRxPoll(init: Registers, h: seq<Event>)
    ensures Sim(init).data(h + [Poll(RxReady, true)]) == RX_DATA
  {
    RegsSnoc(init, h, Poll(RxReady, true));
    RxPollBits(Regs(init, h));
  }

  /** The register simulation is responsive from any initial block. */
  lemma SimIsResponsive(init: Registers)
    ensures Responsive(Sim(init))
  {
    forall h: seq<Event> ensures Sim(init).flag(StartGenerated, h + [Start]) {
      SimStartAnswered(init, h);
    }
    forall h: seq<Event>, a: bv8, d: Direction ensures Sim(init).flag(AddressSent, h + [Address(a, d)]) {
      SimAddressAnswered(init, h, a, d);
    }
    forall h: seq<Event>, b: bv8 ensures Sim(init).flag(TxComplete, h + [Send(b)]) {
      SimSendAnswered(init, h, b);
    }
    forall h: seq<Event> ensures Sim(init).data(h + [Poll(RxReady, true)]) == RX_DATA {
      SimDataAfterRxPoll(init, h);
    }
  }

  // ---------------------------------------------------------------------------
  // The phases on a responsive device
  // ---------------------------------------------------------------------------

  /** Both the opening waits succeed on their first poll. */
  lemma ResponsiveOpening(dev: Device, h: seq<Event>, addr: bv8, dir: Direction, t: nat)
    requires Responsive(dev)
    ensures Opening(dev, h, addr, dir, t) == Run(Ok, h + OpeningTrace(addr, dir))
  {
    WaitImmediate(dev, StartGenerated, h + [Start], t);
    var s := h + [Start] + [Poll(StartGenerated, true)];
    WaitImmediate(dev, AddressSent, s + [Address(addr, dir)], t);
    assert s + [Address(addr, dir)] + [Poll(AddressSent, true)] == h + OpeningTrace(addr, dir);
  }

  /** Every byte is accepted on the first TXE poll. */
  lemma {:induction false} ResponsiveWritePhase(dev: Device, h: seq<Event>, bs: seq<bv8>, t: nat)
    requires Responsive(dev)
    ensures WritePhase(dev, h, bs, t) == Run(Ok, h + PolledSends(bs))
    decreases |bs|
  {
    if bs == [] {
      assert h + [] == h;
    } else {
      WaitImmediate(dev, TxComplete, h + [Send(bs[0])], t);
      var w := h + [Send(bs[0])] + [Poll(TxComplete, true)];
      ResponsiveWritePhase(dev, w, bs[1..], t);
      assert w + PolledSends(bs[1..]) == h + PolledSends(bs);
    }
  }

  /** Every position of a read gets 0x33 on the first poll. */
  lemma {:induction false} ResponsiveReadPhase(dev: Device, h: seq<Event>, len: nat, i: nat, t: nat)
    requires Responsive(dev)
    ensures ReadPhase(dev, h, len, i, t) == Run(Ok, h + PolledReads(len, i))
    decreases len - i
  {
    if i >= len {
      assert h + [] == h;
    } else {
      WaitImmediate(dev, RxReady, h, t);
      var n := h + [Poll(RxReady, true)] + [Receive(RX_DATA)] + [AckFor(i, len)];
      ResponsiveReadPhase(dev, n, len, i + 1, t);
      assert n + PolledReads(len, i + 1) == h + PolledReads(len, i);
    }
  }

  /** The reads of positions `i` on receive 0x33 each. */
  lemma {:induction false} PolledReadsReceive(len: nat, i: nat)
    requires i <= len
    ensures Received(PolledReads(len, i)) == Repeat(RX_DATA, len - i)
    decreases len - i
  {
    if i < len {
      var p := [Poll(RxReady, true)];
      var pr := p + [Receive(RX_DATA)];
      var head := pr + [AckFor(i, len)];
      assert head == [Poll(RxReady, true), Receive(RX_DATA), AckFor(i, len)];
      PolledReadsReceive(len, i + 1);
      ReceivedAppend(head, PolledReads(len, i + 1));
      SnocPoll([], RxReady, true);
      assert [] + p == p;
      Snoc(p, Receive(RX_DATA));
      SnocAction(pr, AckFor(i, len));
      assert Received(head) == [RX_DATA];
    }
  }

  /** The opening and its acknowledgements receive nothing. */
  lemma OpeningReceivesNothing(h: seq<Event>, addr: bv8, dir: Direction)
    ensures Received(h + OpeningTrace(addr, dir)) == Received(h)
  {
    var s1 := h + [Start];
    var s2 := s1 + [Poll(StartGenerated, true)];
    var s3 := s2 + [Address(addr, dir)];
    SnocAction(h, Start);
    SnocPoll(s1, StartGenerated, true);
    SnocAction(s2, Address(addr, dir));
    SnocPoll(s3, AddressSent, true);
    assert s3 + [Poll(AddressSent, true)] == h + OpeningTrace(addr, dir);
  }

  // ---------------------------------------------------------------------------
  // Whole transactions on a responsive device
  // ---------------------------------------------------------------------------

  /** A write of any buffer succeeds, sending every byte and then STOP. */
  lemma ResponsiveWriteBuffer(dev: Device, h: seq<Event>, addr: bv8, buf: seq<bv8>, t: nat)
    requires Responsive(dev)
    ensures WriteBufferRun(dev, h, addr, buf, t)
         == Run(Ok, h + OpeningTrace(addr, Write) + PolledSends(buf) + [Stop])
  {
    ResponsiveOpening(dev, h, addr, Write, t);
    ResponsiveWritePhase(dev, h + OpeningTrace(addr, Write), buf, t);
  }

  /** A read of any length succeeds and receives `len` copies of 0x33. */
  lemma ResponsiveReadBuffer(dev: Device, h: seq<Event>, addr: bv8, len: nat, t: nat)
    requires Responsive(dev)
    ensures var r := ReadBufferRun(dev, h, addr, len, t);
            && r == Run(Ok, h + OpeningTrace(addr, Read) + PolledReads(len, 0) + [Stop])
            && ReceivedSince(h, r.trace) == Repeat(RX_DATA, len)
  {
    var o := h + OpeningTrace(addr, Read);
    ResponsiveOpening(dev, h, addr, Read, t);
    ResponsiveReadPhase(dev, o, len, 0, t);
    OpeningReceivesNothing(h, addr, Read);
    PolledReadsReceive(len, 0);
    ReceivedAppend(o, PolledReads(len, 0));
    SnocAction(o + PolledReads(len, 0), Stop);
    ReceivedSinceOf(h, o + PolledReads(len, 0) + [Stop], Repeat(RX_DATA, len));
  }

  /** A single-byte read succeeds with 0x33, sending neither ACK nor NACK. */
  lemma ResponsiveReadByte(dev: Device, h: seq<Event>, addr: bv8, t: nat)
    requires Responsive(dev)
    ensures var r := ReadByteRun(dev, h, addr, t);
            && r == Run(Ok, h + OpeningTrace(addr, Read) + [Poll(RxReady, true), Receive(RX_DATA), Stop])
            && Received(r.trace) == Received(h) + [RX_DATA]
  {
    var o := h + OpeningTrace(addr, Read);
    ResponsiveOpening(dev, h, addr, Read, t);
    WaitImmediate(dev, RxReady, o, t);
    var w := o + [Poll(RxReady, true)];
    OpeningReceivesNothing(h, addr, Read);
    SnocPoll(o, RxReady, true);
    Snoc(w, Receive(RX_DATA));
    SnocAction(w + [Receive(RX_DATA)], Stop);
    assert w + [Receive(RX_DATA)] + [Stop] == o + [Poll(RxReady, true), Receive(RX_DATA), Stop];
  }

  /**
   * A data byte, its TXE poll and STOP leave the byte in DR and release the
   * bus: CR.STOP set, CR.START and SR.BUSY clear.
   */
  lemma SendThenStopRegisters(init: Registers, o: seq<Event>, data: bv8)
    ensures var r := Regs(init, o + [Send(data), Poll(TxComplete, true), Stop]);
            && r.dr == data as bv32
            && r.cr & CR_STOP != 0 && r.cr & CR_START == 0 && r.sr & SR_BUSY == 0
  {
    var s1 := o + [Send(data)];
    var s2 := s1 + [Poll(TxComplete, true)];
    assert s2 + [Stop] == o + [Send(data), Poll(TxComplete, true), Stop];
    RegsSnoc(init, o, Send(data));
    RegsSnoc(init, s1, Poll(TxComplete, true));
    RegsSnoc(init, s2, Stop);
    StopBits(Regs(init, s2));
  }

  /** After a single-byte write the simulated block holds the byte in DR with
      the bus released. */
  lemma SimWriteByteRegisters(init: Registers, h: seq<Event>, addr: bv8, data: bv8, t: nat)
    ensures var r := Regs(init, WriteBufferRun(Sim(init), h, addr, [data], t).trace);
            && r.dr == data as bv32
            && r.cr & CR_STOP != 0 && r.cr & CR_START == 0 && r.sr & SR_BUSY == 0
  {
    SimIsResponsive(init);
    ResponsiveWriteBuffer(Sim(init), h, addr, [data], t);
    var o := h + OpeningTrace(addr, Write);
    assert PolledSends([data]) == [Send(data), Poll(TxComplete, true)] by {
      assert [data][1..] == [];
    }
    assert o + PolledSends([data]) + [Stop] == o + [Send(data), Poll(TxComplete, true), Stop];
    SendThenStopRegisters(init, o, data);
  }

  // ---------------------------------------------------------------------------
  // The unit tests of tests/test_i2c_uart.c
  // ---------------------------------------------------------------------------

  /** The registers reset_i2c leaves, with the extra status bits a test sets. */
  function TestBlock(extraSr: bv32, dr: bv32): Registers {
    Registers(0, SR_TXE | extraSr, dr, 0)
  }

  /**
   * test_i2c_write: with SR.ADDR preset, Init for standard mode and a write
   * of 0x55 to address 0x48 return OK.
   */
  method TestI2CWrite() returns (status: Status, regs: Registers)
    ensures status == Ok
    ensures regs.dr == 0x55 && regs.cr & CR_STOP != 0 && regs.sr & SR_BUSY == 0
  {
    var init := TestBlock(SR_ADDR, 0);
    var bus := new Bus(Sim(init));
    var driver := new Driver(bus);
    driver.Init(Config(Standard, SevenBit));
    ghost var h := bus.trace;
    status := driver.WriteByte(0x48, 0x55);
    regs := Regs(init, bus.trace);
    SimIsResponsive(init);
    ResponsiveWriteBuffer(bus.device, h, 0x48, [0x55], I2C_TIMEOUT);
    SimWriteByteRegisters(init, h, 0x48, 0x55, I2C_TIMEOUT);
  }

  /**
   * test_i2c_read: with SR.ADDR and SR.RXNE preset and 0x33 in DR, Init and a
   * single-byte read from 0x48 return OK and the byte 0x33.
   */
  method TestI2CRead() returns (status: Status, value: bv8)
    ensures status == Ok && value == 0x33
  {
    var init := TestBlock(SR_ADDR | SR_RXNE, 0x33);
    var bus := new Bus(Sim(init));
    var driver := new Driver(bus);
    driver.Init(Config(Standard, SevenBit));
    ghost var h := bus.trace;
    status, value := driver.ReadByte(0x48, 0);
    SimIsResponsive(init);
    ResponsiveReadByte(bus.device, h, 0x48, I2C_TIMEOUT);
    assert (Received(h) + [value])[|Received(h)|] == value;
  }
}
