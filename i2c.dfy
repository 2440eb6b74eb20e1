/**
 * The blocking I2C master transaction engine of drivers/i2c.c.
 *
 * Every transaction generates a START condition, sends the 7-bit address with
 * the R/W bit, runs its data phase and generates a STOP condition (sections
 * 3.1.4, 3.1.6 and 3.1.10 of the NXP I2C-bus specification, UM10204).  Each
 * step that needs the peripheral's cooperation is a bounded poll-wait; a wait
 * that runs out of budget ends the transaction at once, without a STOP.
 *
 * The methods of `Driver` are the C code.  Each is specified by a pure run
 * function (`Wait`, `Opening`, `WritePhase`, `ReadPhase`, ...) that gives the
 * status and the whole bus trace after the call; the lemmas below state what
 * those runs guarantee for every device, every prior history and every poll
 * budget.
 */
module I2C {
  import opened I2CHal

  /** I2C_TIMEOUT: the poll budget of every wait point. */
  const I2C_TIMEOUT := 50000

  /** I2C_Speed_t; the enumerators' values are the bus frequency in Hz. */
  datatype Speed = Standard | Fast {
    function Hz(): bv32 {
      match this
      case Standard => 100000
      case Fast => 400000
    }
  }

  /** I2C_AddressMode_t; stored at Init but never used on the wire. */
  datatype AddressMode = SevenBit | TenBit

  /** I2C_Config_t */
  datatype Config = Config(speed: Speed, addressingMode: AddressMode)

  /** I2C_Status_t */
  datatype Status = Ok | Timeout | AddrNack | DataNack | Error

  /** What a piece of the engine returns, and the bus trace once it is done. */
  datatype Run = Run(status: Status, trace: seq<Event>)

  // ---------------------------------------------------------------------------
  // Specification of the engine, as functions of the device, the trace before
  // the call and the poll budget
  // ---------------------------------------------------------------------------

  /**
   * I2C_WaitForFlag: poll `f` until it reads true.  A false reading with no
   * budget left ends the wait with Timeout; otherwise it spends one unit.
   */
  function Wait(dev: Device, f: Flag, h: seq<Event>, budget: nat): Run
    decreases budget
  {
    if dev.flag(f, h) then Run(Ok, h + [Poll(f, true)])
    else if budget == 0 then Run(Timeout, h + [Poll(f, false)])
    else Wait(dev, f, h + [Poll(f, false)], budget - 1)
  }

  /** START and the address phase, shared by all four transactions. */
  function Opening(dev: Device, h: seq<Event>, addr: bv8, dir: Direction, t: nat): Run {
    var started := Wait(dev, StartGenerated, h + [Start], t);
    if started.status != Ok then Run(Timeout, started.trace)
    else
      var acked := Wait(dev, AddressSent, started.trace + [Address(addr, dir)], t);
      Run(if acked.status == Ok then Ok else AddrNack, acked.trace)
  }

  /** The data loop of I2C_WriteBuffer over the bytes `bs` still to send. */
  function WritePhase(dev: Device, h: seq<Event>, bs: seq<bv8>, t: nat): Run
    decreases |bs|
  {
    if bs == [] then Run(Ok, h)
    else
      var w := Wait(dev, TxComplete, h + [Send(bs[0])], t);
      if w.status != Ok then Run(Timeout, w.trace)
      else WritePhase(dev, w.trace, bs[1..], t)
  }

  /** The answer to the byte at position `i` of a `len`-byte read. */
  function AckFor(i: nat, len: nat): Event {
    if i + 1 == len then Nack else Ack
  }

  /** The data loop of I2C_ReadBuffer from position `i` of `len` on. */
  function ReadPhase(dev: Device, h: seq<Event>, len: nat, i: nat, t: nat): Run
    decreases len - i
  {
    if i >= len then Run(Ok, h)
    else
      var w := Wait(dev, RxReady, h, t);
      if w.status != Ok then Run(Timeout, w.trace)
      else ReadPhase(dev, w.trace + [Receive(dev.data(w.trace))] + [AckFor(i, len)], len, i + 1, t)
  }

  /** The data phase of I2C_ReadByte: wait for a byte, read it. */
  function ReadOne(dev: Device, h: seq<Event>, t: nat): Run {
    var w := Wait(dev, RxReady, h, t);
    if w.status != Ok then Run(Timeout, w.trace)
    else Run(Ok, w.trace + [Receive(dev.data(w.trace))])
  }

  /** The end of a transaction whose opening succeeded: STOP only if the data
      phase succeeded too. */
  function Finish(data: Run): Run {
    if data.status != Ok then data else Run(Ok, data.trace + [Stop])
  }

  function WriteBufferRun(dev: Device, h: seq<Event>, addr: bv8, buf: seq<bv8>, t: nat): Run {
    var o := Opening(dev, h, addr, Write, t);
    if o.status != Ok then o else Finish(WritePhase(dev, o.trace, buf, t))
  }

  function ReadBufferRun(dev: Device, h: seq<Event>, addr: bv8, len: nat, t: nat): Run {
    var o := Opening(dev, h, addr, Read, t);
    if o.status != Ok then o else Finish(ReadPhase(dev, o.trace, len, 0, t))
  }

  function ReadByteRun(dev: Device, h: seq<Event>, addr: bv8, t: nat): Run {
    var o := Opening(dev, h, addr, Read, t);
    if o.status != Ok then o else Finish(ReadOne(dev, o.trace, t))
  }

  /** One Send per byte, in index order. */
  function Sends(bs: seq<bv8>): (evs: seq<Event>)
    ensures |evs| == |bs|
  {
    if bs == [] then [] else [Send(bs[0])] + Sends(bs[1..])
  }

  /**
   * The read handshake: each received byte, at position `first`, `first`+1,
   * ... of a `len`-byte read, followed by NACK at the last position and by
   * ACK before it.
   */
  function Handshake(bs: seq<bv8>, first: nat, len: nat): (evs: seq<Event>)
    ensures |evs| == 2 * |bs|
  {
    if bs == [] then []
    else [Receive(bs[0]), AckFor(first, len)] + Handshake(bs[1..], first + 1, len)
  }

  // ---------------------------------------------------------------------------
  // The driver
  // ---------------------------------------------------------------------------

  class Driver {
    /** i2c_handle.speed, as the raw I2C_Speed_t value (0 before Init). */
    var speed: bv32
    /** i2c_handle.addressing_mode */
    var addressingMode: AddressMode
    /** The Register Interface the driver talks to. */
    const bus: Bus

    /** The statically allocated, zero-initialised handle. */
    constructor (bus: Bus)
      ensures this.bus == bus && speed == 0 && addressingMode == SevenBit
    {
      this.bus := bus;
      speed := 0;
      addressingMode := SevenBit;
    }

    /** I2C_Init: record the configuration, then clock, pins, speed, enable. */
    method Init(config: Config)
      modifies this, bus
      ensures speed == config.speed.Hz() && addressingMode == config.addressingMode
      ensures bus.trace == old(bus.trace) + [EnableClock, ConfigurePins, SetSpeed(config.speed.Hz()), Enable]
    {
      speed := config.speed.Hz();
      addressingMode := config.addressingMode;
      bus.EnableClock();
      bus.ConfigurePins();
      bus.SetSpeed(config.speed.Hz());
      bus.Enable();
    }

    /** I2C_WaitForFlag */
    method WaitForFlag(f: Flag, timeout: nat) returns (status: Status)
      modifies bus
      ensures Wait(bus.device, f, old(bus.trace), timeout) == Run(status, bus.trace)
    {
      var budget := timeout;
      while true
        invariant Wait(bus.device, f, old(bus.trace), timeout) == Wait(bus.device, f, bus.trace, budget)
        decreases budget
      {
        var seen := bus.Query(f);
        if seen {
          return Ok;
        }
        if budget == 0 {
          return Timeout;
        }
        budget := budget - 1;
      }
    }

    /** START and address phase as the four transactions write it out. */
    method Open(addr: bv8, dir: Direction) returns (status: Status)
      modifies bus
      ensures Opening(bus.device, old(bus.trace), addr, dir, I2C_TIMEOUT) == Run(status, bus.trace)
    {
      bus.GenerateStart();
      var s := WaitForFlag(StartGenerated, I2C_TIMEOUT);
      if s != Ok {
        return Timeout;
      }
      bus.SendAddress(addr, dir);
      s := WaitForFlag(AddressSent, I2C_TIMEOUT);
      if s != Ok {
        return AddrNack;
      }
      return Ok;
    }

    /** I2C_WriteByte: the one-byte case of I2C_WriteBuffer. */
    method WriteByte(addr: bv8, data: bv8) returns (status: Status)
      modifies bus
      ensures WriteBufferRun(bus.device, old(bus.trace), addr, [data], I2C_TIMEOUT) == Run(status, bus.trace)
    {
      status := Open(addr, Write);
      if status != Ok {
        return;
      }
      ghost var hD := bus.trace;
      bus.SendData(data);
      var s := WaitForFlag(TxComplete, I2C_TIMEOUT);
      WritePhaseOfOne(bus.device, hD, data, I2C_TIMEOUT);
      if s != Ok {
        return Timeout;
      }
      bus.GenerateStop();
      return Ok;
    }

    /** I2C_WriteBuffer */
    method WriteBuffer(addr: bv8, buffer: seq<bv8>) returns (status: Status)
      modifies bus
      ensures WriteBufferRun(bus.device, old(bus.trace), addr, buffer, I2C_TIMEOUT) == Run(status, bus.trace)
    {
      status := Open(addr, Write);
      if status != Ok {
        return;
      }
      ghost var hD := bus.trace;
      var i := 0;
      while i < |buffer|
        invariant i <= |buffer|
        invariant WritePhase(bus.device, hD, buffer, I2C_TIMEOUT)
               == WritePhase(bus.device, bus.trace, buffer[i..], I2C_TIMEOUT)
      {
        assert buffer[i..][0] == buffer[i] && buffer[i..][1..] == buffer[i + 1..];
        bus.SendData(buffer[i]);
        var s := WaitForFlag(TxComplete, I2C_TIMEOUT);
        if s != Ok {
          return Timeout;
        }
        i := i + 1;
      }
      assert buffer[i..] == [];
      bus.GenerateStop();
      return Ok;
    }

    /**
     * I2C_ReadByte: no ACK or NACK is issued before the STOP.  `prev` is what
     * the caller's output variable holds before the call; a failed read
     * leaves it as it was.
     */
    method ReadByte(addr: bv8, prev: bv8) returns (status: Status, data: bv8)
      modifies bus
      ensures ReadByteRun(bus.device, old(bus.trace), addr, I2C_TIMEOUT) == Run(status, bus.trace)
      ensures status == Ok ==> Received(bus.trace) == Received(old(bus.trace)) + [data]
      ensures status != Ok ==> data == prev
    {
      data := prev;
      status := Open(addr, Read);
      if status != Ok {
        return;
      }
      var s := WaitForFlag(RxReady, I2C_TIMEOUT);
      if s != Ok {
        return Timeout, data;
      }
      data := bus.ReadData();
      bus.GenerateStop();
      ReadByteReceives(bus.device, old(bus.trace), addr, I2C_TIMEOUT);
      return Ok, data;
    }

    /** I2C_ReadBuffer: buffer[i] receives the i-th byte read. */
    method ReadBuffer(addr: bv8, buffer: array<bv8>, len: nat) returns (status: Status)
      requires len <= buffer.Length
      modifies bus, buffer
      ensures ReadBufferRun(bus.device, old(bus.trace), addr, len, I2C_TIMEOUT) == Run(status, bus.trace)
      ensures var got := ReceivedSince(old(bus.trace), bus.trace);
              && |got| <= len
              && Received(bus.trace) == Received(old(bus.trace)) + got
              && buffer[..|got|] == got
              && buffer[|got|..] == old(buffer[|got|..])
    {
      ghost var h := bus.trace;
      status := Open(addr, Read);
      OpeningSilent(bus.device, h, addr, Read, I2C_TIMEOUT);
      if status != Ok {
        assert Received(h) + buffer[..0] == Received(h);
        ReceivedSinceOf(h, bus.trace, buffer[..0]);
        return;
      }
      ghost var hD := bus.trace;
      var i := 0;
      while i < len
        invariant i <= len
        invariant ReadPhase(bus.device, hD, len, 0, I2C_TIMEOUT)
               == ReadPhase(bus.device, bus.trace, len, i, I2C_TIMEOUT)
        invariant Received(bus.trace) == Received(h) + buffer[..i]
        invariant buffer[i..] == old(buffer[i..])
      {
        ghost var before := bus.trace;
        var s := WaitForFlag(RxReady, I2C_TIMEOUT);
        WaitSilent(bus.device, RxReady, before, I2C_TIMEOUT);
        if s != Ok {
          ReceivedSinceOf(h, bus.trace, buffer[..i]);
          return Timeout;
        }
        ghost var waited := bus.trace;
        ghost var prev := buffer[..i];
        ghost var untouched := buffer[i + 1..];
        assert untouched == old(buffer[i..])[1..];
        var b := bus.ReadData();
        buffer[i] := b;
        assert buffer[i + 1..] == untouched;
        if i + 1 == len {
          bus.SendNack();
        } else {
          bus.SendAck();
        }
        assert bus.trace == waited + [Receive(b)] + [AckFor(i, len)];
        ReadStepReceives(waited, b, AckFor(i, len), h, prev);
        assert buffer[..i + 1] == prev + [b];
        i := i + 1;
      }
      bus.GenerateStop();
      SnocAction(bus.trace[..|bus.trace| - 1], Stop);
      assert bus.trace[..|bus.trace| - 1] + [Stop] == bus.trace;
      ReceivedSinceOf(h, bus.trace, buffer[..i]);
      return Ok;
    }
  }

  // ---------------------------------------------------------------------------
  // Steps the driver's proofs need
  // ---------------------------------------------------------------------------

  lemma WritePhaseOfOne(dev: Device, h: seq<Event>, data: bv8, t: nat)
    ensures var w := Wait(dev, TxComplete, h + [Send(data)], t);
            WritePhase(dev, h, [data], t) == Run(if w.status == Ok then Ok else Timeout, w.trace)
  {
    WaitSilent(dev, TxComplete, h + [Send(data)], t);
    assert [data][1..] == [];
  }

  /** The received bytes after one iteration of the read loop. */
  lemma ReadStepReceives(w: seq<Event>, b: bv8, e: Event, h: seq<Event>, got: seq<bv8>)
    requires !e.Poll? && !e.Receive?
    requires Received(w) == Received(h) + got
    ensures Received(w + [Receive(b)] + [e]) == Received(h) + (got + [b])
  {
    Snoc(w, Receive(b));
    SnocAction(w + [Receive(b)], e);
  }

  lemma ReadByteReceives(dev: Device, h: seq<Event>, addr: bv8, t: nat)
    requires ReadByteRun(dev, h, addr, t).status == Ok
    ensures var o := Opening(dev, h, addr, Read, t);
            var w := Wait(dev, RxReady, o.trace, t);
            Received(ReadByteRun(dev, h, addr, t).trace) == Received(h) + [dev.data(w.trace)]
  {
    var o := Opening(dev, h, addr, Read, t);
    var w := Wait(dev, RxReady, o.trace, t);
    OpeningSilent(dev, h, addr, Read, t);
    WaitSilent(dev, RxReady, o.trace, t);
    var b := dev.data(w.trace);
    Snoc(w.trace, Receive(b));
    SnocAction(w.trace + [Receive(b)], Stop);
  }

  // ---------------------------------------------------------------------------
  // Properties of the engine, for every device, history and budget
  // ---------------------------------------------------------------------------

  /** What every caller of a wait relies on: it ends Ok or Timeout and adds
      neither an action nor a received byte. */
  lemma {:induction false} WaitSilent(dev: Device, f: Flag, h: seq<Event>, budget: nat)
    ensures var r := Wait(dev, f, h, budget);
            && (r.status == Ok || r.status == Timeout)
            && Actions(r.trace) == Actions(h) && Received(r.trace) == Received(h)
    decreases budget
  {
    SnocPoll(h, f, dev.flag(f, h));
    if !dev.flag(f, h) && budget > 0 {
      WaitSilent(dev, f, h + [Poll(f, false)], budget - 1);
    }
  }

  /**
   * A wait appends polls of its flag and nothing else; each reading is what
   * the device answers for the trace up to it.  It returns Ok exactly when its
   * last reading is true, every earlier reading is false, and it returns
   * Timeout only after budget + 1 false readings.
   */
  lemma {:induction false} WaitFacts(dev: Device, f: Flag, h: seq<Event>, budget: nat)
    ensures var r := Wait(dev, f, h, budget);
            && |h| < |r.trace| <= |h| + budget + 1
            && r.trace[..|h|] == h
            && (forall k :: |h| <= k < |r.trace| ==> r.trace[k] == Poll(f, dev.flag(f, r.trace[..k])))
            && (r.status == Ok <==> dev.flag(f, r.trace[..|r.trace| - 1]))
            && (forall k :: |h| <= k < |r.trace| - 1 ==> !dev.flag(f, r.trace[..k]))
            && (r.status == Timeout ==> |r.trace| == |h| + budget + 1)
    decreases budget
  {
    var r := Wait(dev, f, h, budget);
    var p := Poll(f, dev.flag(f, h));
    var h1 := h + [p];
    assert h1[..|h|] == h && h1[|h|] == p;
    if !dev.flag(f, h) && budget > 0 {
      WaitFacts(dev, f, h1, budget - 1);
      assert r == Wait(dev, f, h1, budget - 1);
      assert r.trace[..|h1|] == h1;
      assert r.trace[..|h|] == h1[..|h|];
      forall k | |h| <= k < |r.trace|
        ensures r.trace[k] == Poll(f, dev.flag(f, r.trace[..k]))
      {
        if k == |h| {
          assert r.trace[k] == h1[k];
          assert r.trace[..k] == h;
        }
      }
      forall k | |h| <= k < |r.trace| - 1
        ensures !dev.flag(f, r.trace[..k])
      {
        if k == |h| {
          assert r.trace[..k] == h;
        }
      }
    } else {
      assert r.trace == h1;
      assert r.trace[..|h|] == h;
    }
  }

  /** A flag that is already true costs one reading and no budget. */
  lemma WaitImmediate(dev: Device, f: Flag, h: seq<Event>, budget: nat)
    requires dev.flag(f, h)
    ensures Wait(dev, f, h, budget) == Run(Ok, h + [Poll(f, true)])
  {
  }

  /** A wait keeps the history, adds only readings, and ends on a reading
      that is true exactly when it returns Ok. */
  lemma WaitEnds(dev: Device, f: Flag, h: seq<Event>, budget: nat)
    ensures var r := Wait(dev, f, h, budget);
            && |h| < |r.trace| && r.trace[..|h|] == h
            && Last(r.trace) == Poll(f, r.status == Ok)
            && NothingAfterFailure(h, r.trace)
  {
    var r := Wait(dev, f, h, budget);
    WaitFacts(dev, f, h, budget);
    assert r.trace[|r.trace| - 1] == Poll(f, dev.flag(f, r.trace[..|r.trace| - 1]));
  }

  /**
   * The opening keeps the history and ends on the reading that decided it:
   * a false START reading for Timeout, a false address reading for
   * AddrNack, a true address reading for Ok; no action follows a false
   * reading.
   */
  lemma OpeningEnds(dev: Device, h: seq<Event>, addr: bv8, dir: Direction, t: nat)
    ensures var o := Opening(dev, h, addr, dir, t);
            && |h| < |o.trace| && o.trace[..|h|] == h
            && NothingAfterFailure(h, o.trace)
            && (o.status == Ok || o.status == Timeout || o.status == AddrNack)
            && (o.status == Timeout <==> Last(o.trace) == Poll(StartGenerated, false))
            && (o.status == AddrNack <==> Last(o.trace) == Poll(AddressSent, false))
            && (o.status == Ok <==> Last(o.trace) == Poll(AddressSent, true))
  {
    var s := h + [Start];
    var started := Wait(dev, StartGenerated, s, t);
    WaitEnds(dev, StartGenerated, s, t);
    assert NothingAfterFailure(h, s);
    NothingAfterFailureChain(h, s, started.trace);
    assert started.trace[..|h|] == started.trace[..|s|][..|h|];
    if started.status == Ok {
      var a := started.trace + [Address(addr, dir)];
      var acked := Wait(dev, AddressSent, a, t);
      WaitEnds(dev, AddressSent, a, t);
      assert a[..|started.trace|] == started.trace;
      NothingAfterFailureChain(h, started.trace, a);
      NothingAfterFailureChain(h, a, acked.trace);
      assert acked.trace[..|h|] == acked.trace[..|a|][..|h|];
      assert a[..|h|] == a[..|started.trace|][..|h|];
    }
  }

  /** The opening receives nothing and ends Ok, Timeout or AddrNack. */
  lemma OpeningSilent(dev: Device, h: seq<Event>, addr: bv8, dir: Direction, t: nat)
    ensures var o := Opening(dev, h, addr, dir, t);
            && Received(o.trace) == Received(h)
            && (o.status == Ok || o.status == Timeout || o.status == AddrNack)
  {
    var started := Wait(dev, StartGenerated, h + [Start], t);
    SnocAction(h, Start);
    WaitSilent(dev, StartGenerated, h + [Start], t);
    if started.status == Ok {
      SnocAction(started.trace, Address(addr, dir));
      WaitSilent(dev, AddressSent, started.trace + [Address(addr, dir)], t);
    }
  }

  /**
   * START comes first.  A timed-out start wait ends the transaction with
   * Timeout before any address; a failed address wait yields AddrNack, never
   * Timeout.  The opening ends on the reading that decided it, and no action
   * follows a false reading.
   */
  lemma OpeningFacts(dev: Device, h: seq<Event>, addr: bv8, dir: Direction, t: nat)
    ensures var o := Opening(dev, h, addr, dir, t);
            var started := Wait(dev, StartGenerated, h + [Start], t);
            && Received(o.trace) == Received(h)
            && (o.status == Ok || o.status == Timeout || o.status == AddrNack)
            && (started.status != Ok ==> o.status == Timeout && Actions(o.trace) == Actions(h) + [Start])
            && (started.status == Ok ==>
                  o.status != Timeout && Actions(o.trace) == Actions(h) + [Start, Address(addr, dir)])
            && |h| < |o.trace| && o.trace[..|h|] == h
            && NothingAfterFailure(h, o.trace)
            && (o.status == Timeout <==> Last(o.trace) == Poll(StartGenerated, false))
            && (o.status == AddrNack <==> Last(o.trace) == Poll(AddressSent, false))
            && (o.status == Ok <==> Last(o.trace) == Poll(AddressSent, true))
  {
    var started := Wait(dev, StartGenerated, h + [Start], t);
    OpeningEnds(dev, h, addr, dir, t);
    OpeningSilent(dev, h, addr, dir, t);
    SnocAction(h, Start);
    WaitSilent(dev, StartGenerated, h + [Start], t);
    if started.status == Ok {
      SnocAction(started.trace, Address(addr, dir));
      WaitSilent(dev, AddressSent, started.trace + [Address(addr, dir)], t);
      assert Actions(h) + [Start] + [Address(addr, dir)] == Actions(h) + [Start, Address(addr, dir)];
    }
  }

  /** STOP after a data phase that succeeded without ending on a false
      reading keeps the trace free of actions after failures. */
  lemma FinishEnds(h: seq<Event>, d: Run)
    requires |h| < |d.trace| && d.trace[..|h|] == h && NothingAfterFailure(h, d.trace)
    requires d.status == Ok ==> !FailedPoll(Last(d.trace))
    ensures var r := Finish(d);
            && |h| < |r.trace| && r.trace[..|h|] == h && NothingAfterFailure(h, r.trace)
            && (d.status != Ok ==> r == d)
            && (d.status == Ok ==> r.status == Ok && Last(r.trace) == Stop)
  {
    if d.status == Ok {
      var r := d.trace + [Stop];
      assert r[..|d.trace|] == d.trace;
      assert r[..|h|] == r[..|d.trace|][..|h|];
      assert NothingAfterFailure(d.trace, r);
      NothingAfterFailureChain(h, d.trace, r);
    }
  }

  lemma SendsPrefix(bs: seq<bv8>, k: nat)
    requires 0 < k <= |bs|
    ensures Sends(bs[..k]) == [Send(bs[0])] + Sends(bs[1..][..k - 1])
  {
    assert bs[..k][0] == bs[0];
    assert bs[..k][1..] == bs[1..][..k - 1];
  }

  /** The write data loop ends Ok or Timeout and receives nothing. */
  lemma {:induction false} WritePhaseSilent(dev: Device, h: seq<Event>, bs: seq<bv8>, t: nat)
    ensures var r := WritePhase(dev, h, bs, t);
            && Received(r.trace) == Received(h)
            && (r.status == Ok || r.status == Timeout)
    decreases |bs|
  {
    if bs != [] {
      var e := Send(bs[0]);
      var w := Wait(dev, TxComplete, h + [e], t);
      SnocAction(h, e);
      WaitSilent(dev, TxComplete, h + [e], t);
      if w.status == Ok {
        WritePhaseSilent(dev, w.trace, bs[1..], t);
      }
    }
  }

  /**
   * The write data loop keeps the history and stops at the first false
   * TxComplete reading: it returns Timeout exactly when its trace ends on
   * one, and otherwise ends on a true reading, or adds nothing when no byte
   * was left to send.
   */
  lemma {:induction false} WritePhaseEnds(dev: Device, h: seq<Event>, bs: seq<bv8>, t: nat)
    ensures var r := WritePhase(dev, h, bs, t);
            && |h| <= |r.trace| && r.trace[..|h|] == h
            && NothingAfterFailure(h, r.trace)
            && (r.status == Ok || r.status == Timeout)
            && (r.status == Timeout <==> |r.trace| > |h| && Last(r.trace) == Poll(TxComplete, false))
            && (r.status == Ok ==>
                  if bs != [] then |h| < |r.trace| && Last(r.trace) == Poll(TxComplete, true) else r.trace == h)
    decreases |bs|
  {
    if bs != [] {
      var s := h + [Send(bs[0])];
      var w := Wait(dev, TxComplete, s, t);
      WaitEnds(dev, TxComplete, s, t);
      assert NothingAfterFailure(h, s);
      NothingAfterFailureChain(h, s, w.trace);
      assert w.trace[..|h|] == w.trace[..|s|][..|h|];
      if w.status == Ok {
        var rest := WritePhase(dev, w.trace, bs[1..], t);
        WritePhaseEnds(dev, w.trace, bs[1..], t);
        NothingAfterFailureChain(h, w.trace, rest.trace);
        assert rest.trace[..|h|] == rest.trace[..|w.trace|][..|h|];
      }
    }
  }

  /** The write data loop sends the bytes in order; a timeout leaves a
      non-empty prefix of them sent, the last one unacknowledged. */
  lemma {:induction false} WritePhaseFacts(dev: Device, h: seq<Event>, bs: seq<bv8>, t: nat)
    ensures var r := WritePhase(dev, h, bs, t);
            var n := |Actions(r.trace)| - |Actions(h)|;
            && Received(r.trace) == Received(h)
            && (r.status == Ok || r.status == Timeout)
            && (r.status == Ok ==> Actions(r.trace) == Actions(h) + Sends(bs))
            && (r.status == Timeout ==> 0 < n <= |bs| && Actions(r.trace) == Actions(h) + Sends(bs[..n]))
            && NothingAfterFailure(h, r.trace)
            && (r.status == Timeout <==> |r.trace| > |h| && Last(r.trace) == Poll(TxComplete, false))
    decreases |bs|
  {
    WritePhaseSilent(dev, h, bs, t);
    WritePhaseEnds(dev, h, bs, t);
    if bs == [] {
      assert Actions(h) + [] == Actions(h);
    } else {
      var e := Send(bs[0]);
      var w := Wait(dev, TxComplete, h + [e], t);
      SnocAction(h, e);
      WaitSilent(dev, TxComplete, h + [e], t);
      if w.status != Ok {
        SendsPrefix(bs, 1);
        assert Sends(bs[1..][..0]) == [];
      } else {
        var rest := WritePhase(dev, w.trace, bs[1..], t);
        WritePhaseFacts(dev, w.trace, bs[1..], t);
        assert WritePhase(dev, h, bs, t) == rest;
        WriteStep(Actions(h), Actions(w.trace), rest.status, Actions(rest.trace), bs);
      }
    }
  }

  /** The inductive step of WritePhaseFacts, on the actions alone: `a`
      before the first byte, `w` once it is acknowledged, `r` at the end. */
  lemma WriteStep(a: seq<Event>, w: seq<Event>, status: Status, r: seq<Event>, bs: seq<bv8>)
    requires bs != [] && w == a + [Send(bs[0])]
    requires status == Ok ==> r == w + Sends(bs[1..])
    requires status == Timeout ==> 0 < |r| - |w| <= |bs| - 1 && r == w + Sends(bs[1..][..|r| - |w|])
    ensures status == Ok ==> r == a + Sends(bs)
    ensures status == Timeout ==> 0 < |r| - |a| <= |bs| && r == a + Sends(bs[..|r| - |a|])
  {
    if status == Ok {
      assert bs[1..][..|bs| - 1] == bs[1..] && bs[..|bs|] == bs;
      SendsExtend(a, w, r, bs, |bs| - 1);
    } else if status == Timeout {
      SendsExtend(a, w, r, bs, |r| - |w|);
    }
  }

  /** Sending the first byte, then a prefix of the rest, sends a prefix. */
  lemma SendsExtend(a: seq<Event>, w: seq<Event>, r: seq<Event>, bs: seq<bv8>, m: nat)
    requires m + 1 <= |bs| && w == a + [Send(bs[0])] && r == w + Sends(bs[1..][..m])
    ensures r == a + Sends(bs[..m + 1]) && |r| - |a| == m + 1
  {
    SendsPrefix(bs, m + 1);
  }

  lemma {:induction false} SendsHaveNoStop(bs: seq<bv8>)
    ensures Stop !in Sends(bs)
  {
    if bs != [] {
      SendsHaveNoStop(bs[1..]);
    }
  }

  /**
   * A write ends on the reading or the STOP that decided it: a false address
   * reading for AddrNack, a false START or TxComplete reading for Timeout,
   * STOP for Ok; no action follows a false reading.
   */
  lemma WriteBufferEnds(dev: Device, h: seq<Event>, addr: bv8, buf: seq<bv8>, t: nat)
    ensures var r := WriteBufferRun(dev, h, addr, buf, t);
            && |h| < |r.trace| && r.trace[..|h|] == h
            && NothingAfterFailure(h, r.trace)
            && (r.status == AddrNack <==> Last(r.trace) == Poll(AddressSent, false))
            && (r.status == Timeout <==>
                  Last(r.trace) == Poll(StartGenerated, false) || Last(r.trace) == Poll(TxComplete, false))
            && (r.status == Ok <==> Last(r.trace) == Stop)
  {
    var o := Opening(dev, h, addr, Write, t);
    OpeningEnds(dev, h, addr, Write, t);
    if o.status == Ok {
      var d := WritePhase(dev, o.trace, buf, t);
      WritePhaseEnds(dev, o.trace, buf, t);
      NothingAfterFailureChain(h, o.trace, d.trace);
      assert d.trace[..|h|] == d.trace[..|o.trace|][..|h|];
      FinishEnds(h, d);
    }
  }

  /**
   * I2C_WriteBuffer (and I2C_WriteByte, its one-byte case): success is
   * exactly START, address with WRITE, the bytes in order, one STOP; an
   * opening failure is passed on unchanged; a data timeout returns Timeout
   * after a non-empty prefix of the bytes and no STOP; nothing is received,
   * and DataNack and Error never occur.
   */
  lemma WriteBufferFacts(dev: Device, h: seq<Event>, addr: bv8, buf: seq<bv8>, t: nat)
    ensures var r := WriteBufferRun(dev, h, addr, buf, t);
            var o := Opening(dev, h, addr, Write, t);
            var n := |Actions(r.trace)| - |Actions(h)| - 2;
            && Received(r.trace) == Received(h)
            && (r.status == Ok || r.status == Timeout || r.status == AddrNack)
            && (o.status != Ok ==> r == o)
            && (r.status == Ok ==>
                  Actions(r.trace) == Actions(h) + [Start, Address(addr, Write)] + Sends(buf) + [Stop])
            && (o.status == Ok && r.status != Ok ==>
                  r.status == Timeout && 0 < n <= |buf|
                  && Actions(r.trace) == Actions(h) + [Start, Address(addr, Write)] + Sends(buf[..n]))
            && |h| < |r.trace| && r.trace[..|h|] == h
            && NothingAfterFailure(h, r.trace)
            && (r.status == AddrNack <==> Last(r.trace) == Poll(AddressSent, false))
            && (r.status == Timeout <==>
                  Last(r.trace) == Poll(StartGenerated, false) || Last(r.trace) == Poll(TxComplete, false))
  {
    var o := Opening(dev, h, addr, Write, t);
    WriteBufferEnds(dev, h, addr, buf, t);
    OpeningFacts(dev, h, addr, Write, t);
    if o.status == Ok {
      var d := WritePhase(dev, o.trace, buf, t);
      WritePhaseFacts(dev, o.trace, buf, t);
      if d.status == Ok {
        SnocAction(d.trace, Stop);
      }
    }
  }

  /** A write generates STOP exactly when it succeeds: no failure path
      generates one. */
  lemma WriteStopsOnlyOnSuccess(dev: Device, h: seq<Event>, addr: bv8, buf: seq<bv8>, t: nat)
    ensures var r := WriteBufferRun(dev, h, addr, buf, t);
            Stop in ActionsSince(h, r.trace) <==> r.status == Ok
  {
    var r := WriteBufferRun(dev, h, addr, buf, t);
    var o := Opening(dev, h, addr, Write, t);
    WriteBufferFacts(dev, h, addr, buf, t);
    OpeningFacts(dev, h, addr, Write, t);
    if r.status == Ok {
      ActionsSinceOf(h, r.trace, [Start, Address(addr, Write)] + Sends(buf) + [Stop]);
    } else if o.status != Ok {
      var started := Wait(dev, StartGenerated, h + [Start], t);
      if started.status != Ok {
        ActionsSinceOf(h, r.trace, [Start]);
      } else {
        ActionsSinceOf(h, r.trace, [Start, Address(addr, Write)]);
      }
    } else {
      var n := |Actions(r.trace)| - |Actions(h)| - 2;
      ActionsSinceOf(h, r.trace, [Start, Address(addr, Write)] + Sends(buf[..n]));
      SendsHaveNoStop(buf[..n]);
    }
  }

  lemma {:induction false} HandshakeNoStop(bs: seq<bv8>, first: nat, len: nat)
    ensures Stop !in Handshake(bs, first, len)
  {
    if bs != [] {
      HandshakeNoStop(bs[1..], first + 1, len);
    }
  }

  /** ACK after every byte but the last of the read, NACK after the last;
      each only once its byte has been received. */
  lemma {:induction false} HandshakeAt(bs: seq<bv8>, first: nat, len: nat, j: nat)
    requires j < |bs|
    ensures Handshake(bs, first, len)[2 * j] == Receive(bs[j])
    ensures Handshake(bs, first, len)[2 * j + 1] == if first + j + 1 == len then Nack else Ack
  {
    if j > 0 {
      HandshakeAt(bs[1..], first + 1, len, j - 1);
    }
  }

  /** One iteration of the read loop adds no action right after a failed
      reading when the wait before it succeeded. */
  lemma ReadStepEnds(h: seq<Event>, w: seq<Event>, b: bv8, e: Event)
    requires |h| < |w| && w[..|h|] == h && NothingAfterFailure(h, w) && !FailedPoll(Last(w))
    ensures var h2 := w + [Receive(b)] + [e];
            && h2[..|w|] == w && h2[..|h|] == h && NothingAfterFailure(h, h2)
  {
    var h2 := w + [Receive(b)] + [e];
    assert h2[..|w|] == w;
    assert h2[..|h|] == h2[..|w|][..|h|];
    assert h2[|w|] == Receive(b);
    assert NothingAfterFailure(w, h2);
    NothingAfterFailureChain(h, w, h2);
  }

  /**
   * The read data loop keeps the history and stops at the first false
   * RxReady reading: it returns Timeout exactly when its trace ends on one,
   * and otherwise ends on the final NACK, or adds nothing when no byte was
   * left to read.
   */
  lemma {:induction false} ReadPhaseEnds(dev: Device, h: seq<Event>, len: nat, i: nat, t: nat)
    ensures var r := ReadPhase(dev, h, len, i, t);
            && |h| <= |r.trace| && r.trace[..|h|] == h
            && NothingAfterFailure(h, r.trace)
            && (r.status == Ok || r.status == Timeout)
            && (r.status == Timeout <==> |r.trace| > |h| && Last(r.trace) == Poll(RxReady, false))
            && (r.status == Ok ==>
                  if i < len then |h| < |r.trace| && Last(r.trace) == Nack else r.trace == h)
    decreases len - i
  {
    if i < len {
      var w := Wait(dev, RxReady, h, t);
      WaitEnds(dev, RxReady, h, t);
      if w.status == Ok {
        var h2 := w.trace + [Receive(dev.data(w.trace))] + [AckFor(i, len)];
        ReadStepEnds(h, w.trace, dev.data(w.trace), AckFor(i, len));
        var rest := ReadPhase(dev, h2, len, i + 1, t);
        ReadPhaseEnds(dev, h2, len, i + 1, t);
        NothingAfterFailureChain(h, h2, rest.trace);
        assert rest.trace[..|h|] == rest.trace[..|h2|][..|h|];
        if rest.status == Ok && i + 1 == len {
          assert Last(h2) == Nack;
        }
      }
    }
  }

  /** The read data loop: the handshake over the bytes received, all of the
      remaining `len` - `i` if it succeeds, fewer if a wait times out. */
  lemma {:induction false} ReadPhaseFacts(dev: Device, h: seq<Event>, len: nat, i: nat, t: nat)
    requires i <= len
    ensures var r := ReadPhase(dev, h, len, i, t);
            var got := ReceivedSince(h, r.trace);
            && |got| <= len - i
            && Received(r.trace) == Received(h) + got
            && Actions(r.trace) == Actions(h) + Handshake(got, i, len)
            && (r.status == Ok || r.status == Timeout)
            && (r.status == Ok <==> |got| == len - i)
            && NothingAfterFailure(h, r.trace)
            && (r.status == Timeout <==> |r.trace| > |h| && Last(r.trace) == Poll(RxReady, false))
    decreases len - i
  {
    var r := ReadPhase(dev, h, len, i, t);
    ReadPhaseEnds(dev, h, len, i, t);
    var w := Wait(dev, RxReady, h, t);
    if i < len {
      WaitSilent(dev, RxReady, h, t);
    }
    if i == len || w.status != Ok {
      assert Received(h) + [] == Received(h) && Actions(h) + [] == Actions(h);
      ReceivedSinceOf(h, r.trace, []);
    } else {
      var b := dev.data(w.trace);
      var h2 := w.trace + [Receive(b)] + [AckFor(i, len)];
      Snoc(w.trace, Receive(b));
      SnocAction(w.trace + [Receive(b)], AckFor(i, len));
      var rest := ReadPhase(dev, h2, len, i + 1, t);
      ReadPhaseFacts(dev, h2, len, i + 1, t);
      assert r == rest;
      var got2 := ReceivedSince(h2, rest.trace);
      ReadStep(Actions(h), Received(h), Actions(rest.trace), Received(rest.trace), b, got2, i, len);
      ReceivedSinceOf(h, r.trace, [b] + got2);
    }
  }

  /** The inductive step of ReadPhaseFacts, on the actions and received bytes
      alone: `a`, `g` before the byte at position `i`, `ra`, `rg` at the end. */
  lemma ReadStep(a: seq<Event>, g: seq<bv8>, ra: seq<Event>, rg: seq<bv8>, b: bv8, got2: seq<bv8>, i: nat, len: nat)
    requires rg == g + [b] + got2
    requires ra == a + [Receive(b)] + [AckFor(i, len)] + Handshake(got2, i + 1, len)
    ensures rg == g + ([b] + got2)
    ensures ra == a + Handshake([b] + got2, i, len)
  {
    var got := [b] + got2;
    assert got[0] == b && got[1..] == got2;
    assert a + [Receive(b)] + [AckFor(i, len)] == a + [Receive(b), AckFor(i, len)];
  }

  /**
   * A buffered read ends on the reading or the STOP that decided it: a false
   * address reading for AddrNack, a false START or RxReady reading for
   * Timeout, STOP for Ok; no action follows a false reading.
   */
  lemma ReadBufferEnds(dev: Device, h: seq<Event>, addr: bv8, len: nat, t: nat)
    ensures var r := ReadBufferRun(dev, h, addr, len, t);
            && |h| < |r.trace| && r.trace[..|h|] == h
            && NothingAfterFailure(h, r.trace)
            && (r.status == AddrNack <==> Last(r.trace) == Poll(AddressSent, false))
            && (r.status == Timeout <==>
                  Last(r.trace) == Poll(StartGenerated, false) || Last(r.trace) == Poll(RxReady, false))
            && (r.status == Ok <==> Last(r.trace) == Stop)
  {
    var o := Opening(dev, h, addr, Read, t);
    OpeningEnds(dev, h, addr, Read, t);
    if o.status == Ok {
      var d := ReadPhase(dev, o.trace, len, 0, t);
      ReadPhaseEnds(dev, o.trace, len, 0, t);
      NothingAfterFailureChain(h, o.trace, d.trace);
      assert d.trace[..|h|] == d.trace[..|o.trace|][..|h|];
      FinishEnds(h, d);
    }
  }

  /**
   * I2C_ReadBuffer: success is exactly START, address with READ, the
   * handshake over `len` received bytes (ACK after each but the last, NACK
   * after the last), one STOP; a data timeout leaves fewer bytes and no STOP.
   */
  lemma ReadBufferFacts(dev: Device, h: seq<Event>, addr: bv8, len: nat, t: nat)
    ensures var r := ReadBufferRun(dev, h, addr, len, t);
            var o := Opening(dev, h, addr, Read, t);
            var got := ReceivedSince(h, r.trace);
            && Received(r.trace) == Received(h) + got
            && (r.status == Ok || r.status == Timeout || r.status == AddrNack)
            && (o.status != Ok ==> r == o && got == [])
            && (r.status == Ok ==>
                  |got| == len
                  && Actions(r.trace) == Actions(h) + [Start, Address(addr, Read)] + Handshake(got, 0, len) + [Stop])
            && (o.status == Ok && r.status != Ok ==>
                  r.status == Timeout && |got| < len
                  && Actions(r.trace) == Actions(h) + [Start, Address(addr, Read)] + Handshake(got, 0, len))
            && |h| < |r.trace| && r.trace[..|h|] == h
            && NothingAfterFailure(h, r.trace)
            && (r.status == AddrNack <==> Last(r.trace) == Poll(AddressSent, false))
            && (r.status == Timeout <==>
                  Last(r.trace) == Poll(StartGenerated, false) || Last(r.trace) == Poll(RxReady, false))
  {
    var o := Opening(dev, h, addr, Read, t);
    ReadBufferEnds(dev, h, addr, len, t);
    OpeningFacts(dev, h, addr, Read, t);
    if o.status == Ok {
      var d := ReadPhase(dev, o.trace, len, 0, t);
      ReadPhaseFacts(dev, o.trace, len, 0, t);
      if d.status == Ok {
        SnocAction(d.trace, Stop);
      }
    } else {
      assert Received(h) + [] == Received(h);
      ReceivedSinceOf(h, o.trace, []);
    }
  }

  /** The one-byte data phase reads only after a true RxReady reading, and
      returns Timeout exactly when it ends on a false one. */
  lemma ReadOneEnds(dev: Device, h: seq<Event>, t: nat)
    ensures var r := ReadOne(dev, h, t);
            && |h| < |r.trace| && r.trace[..|h|] == h
            && NothingAfterFailure(h, r.trace)
            && (r.status == Ok || r.status == Timeout)
            && (r.status == Timeout <==> Last(r.trace) == Poll(RxReady, false))
            && (r.status == Ok ==> Last(r.trace).Receive?)
  {
    var w := Wait(dev, RxReady, h, t);
    WaitEnds(dev, RxReady, h, t);
    if w.status == Ok {
      var r := w.trace + [Receive(dev.data(w.trace))];
      assert r[..|w.trace|] == w.trace;
      assert r[..|h|] == r[..|w.trace|][..|h|];
      assert NothingAfterFailure(w.trace, r);
      NothingAfterFailureChain(h, w.trace, r);
    }
  }

  /**
   * A single-byte read ends on the reading or the STOP that decided it: a
   * false address reading for AddrNack, a false START or RxReady reading for
   * Timeout, STOP for Ok; no action follows a false reading.
   */
  lemma ReadByteEnds(dev: Device, h: seq<Event>, addr: bv8, t: nat)
    ensures var r := ReadByteRun(dev, h, addr, t);
            && |h| < |r.trace| && r.trace[..|h|] == h
            && NothingAfterFailure(h, r.trace)
            && (r.status == AddrNack <==> Last(r.trace) == Poll(AddressSent, false))
            && (r.status == Timeout <==>
                  Last(r.trace) == Poll(StartGenerated, false) || Last(r.trace) == Poll(RxReady, false))
            && (r.status == Ok <==> Last(r.trace) == Stop)
  {
    var o := Opening(dev, h, addr, Read, t);
    OpeningEnds(dev, h, addr, Read, t);
    if o.status == Ok {
      var d := ReadOne(dev, o.trace, t);
      ReadOneEnds(dev, o.trace, t);
      NothingAfterFailureChain(h, o.trace, d.trace);
      assert d.trace[..|h|] == d.trace[..|o.trace|][..|h|];
      FinishEnds(h, d);
    }
  }

  /**
   * I2C_ReadByte: success is exactly START, address with READ, one received
   * byte, STOP -- with neither ACK nor NACK, unlike a one-byte
   * I2C_ReadBuffer.
   */
  lemma ReadByteFacts(dev: Device, h: seq<Event>, addr: bv8, t: nat)
    ensures var r := ReadByteRun(dev, h, addr, t);
            var o := Opening(dev, h, addr, Read, t);
            && (r.status == Ok || r.status == Timeout || r.status == AddrNack)
            && (o.status != Ok ==> r == o)
            && (r.status == Ok ==> exists b: bv8 {:trigger Receive(b)} ::
                  && Received(r.trace) == Received(h) + [b]
                  && Actions(r.trace) == Actions(h) + [Start, Address(addr, Read), Receive(b), Stop])
            && (o.status == Ok && r.status != Ok ==>
                  r.status == Timeout && Received(r.trace) == Received(h)
                  && Actions(r.trace) == Actions(h) + [Start, Address(addr, Read)])
            && |h| < |r.trace| && r.trace[..|h|] == h
            && NothingAfterFailure(h, r.trace)
            && (r.status == AddrNack <==> Last(r.trace) == Poll(AddressSent, false))
            && (r.status == Timeout <==>
                  Last(r.trace) == Poll(StartGenerated, false) || Last(r.trace) == Poll(RxReady, false))
  {
    var o := Opening(dev, h, addr, Read, t);
    ReadByteEnds(dev, h, addr, t);
    OpeningFacts(dev, h, addr, Read, t);
    if o.status == Ok {
      var w := Wait(dev, RxReady, o.trace, t);
      WaitSilent(dev, RxReady, o.trace, t);
      if w.status == Ok {
        var b := dev.data(w.trace);
        Snoc(w.trace, Receive(b));
        SnocAction(w.trace + [Receive(b)], Stop);
        assert Actions(h) + [Start, Address(addr, Read)] + [Receive(b)] + [Stop]
            == Actions(h) + [Start, Address(addr, Read), Receive(b), Stop];
        assert Receive(b) == Receive(b);
      }
    }
  }

  /** A one-byte ReadBuffer that succeeds NACKs its byte... */
  lemma ReadBufferOfOneNacks(dev: Device, h: seq<Event>, addr: bv8, t: nat)
    ensures var r := ReadBufferRun(dev, h, addr, 1, t);
            r.status == Ok ==> Nack in ActionsSince(h, r.trace)
  {
    var r := ReadBufferRun(dev, h, addr, 1, t);
    ReadBufferFacts(dev, h, addr, 1, t);
    if r.status == Ok {
      var got := ReceivedSince(h, r.trace);
      HandshakeAt(got, 0, 1, 0);
      ActionsSinceOf(h, r.trace, [Start, Address(addr, Read)] + Handshake(got, 0, 1) + [Stop]);
      assert ActionsSince(h, r.trace)[3] == Nack;
    }
  }

  /** ... while ReadByte never sends ACK or NACK, on any path. */
  lemma ReadByteNeverAcks(dev: Device, h: seq<Event>, addr: bv8, t: nat)
    ensures var r := ReadByteRun(dev, h, addr, t);
            Ack !in ActionsSince(h, r.trace) && Nack !in ActionsSince(h, r.trace)
  {
    var r := ReadByteRun(dev, h, addr, t);
    var o := Opening(dev, h, addr, Read, t);
    ReadByteFacts(dev, h, addr, t);
    OpeningFacts(dev, h, addr, Read, t);
    if r.status == Ok {
      var b: bv8 :| Actions(r.trace) == Actions(h) + [Start, Address(addr, Read), Receive(b), Stop];
      ActionsSinceOf(h, r.trace, [Start, Address(addr, Read), Receive(b), Stop]);
    } else if o.status != Ok {
      var started := Wait(dev, StartGenerated, h + [Start], t);
      if started.status != Ok {
        ActionsSinceOf(h, r.trace, [Start]);
      } else {
        ActionsSinceOf(h, r.trace, [Start, Address(addr, Read)]);
      }
    } else {
      ActionsSinceOf(h, r.trace, [Start, Address(addr, Read)]);
    }
  }
}
