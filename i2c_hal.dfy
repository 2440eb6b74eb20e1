/**
 * The I2C Register Interface that the transaction engine consumes: the
 * actions and flag queries of hal_i2c.h, seen from the driver's side.
 *
 * A `Bus` records every call it receives, in order, in `trace`.  What the
 * peripheral answers is given by a `Device`: the value of a polled flag and
 * the byte returned by ReadData, each as a function of everything the bus has
 * been told so far.  Real hardware, the register simulation of hal_i2c.c, or a
 * scripted environment that stalls at any chosen phase are all devices.
 */
module I2CHal {

  /** The four status queries the engine polls (the `flag_func` argument of
      I2C_WaitForFlag). */
  datatype Flag = StartGenerated | AddressSent | TxComplete | RxReady

  /** I2C_Direction_t: the R/W bit sent after the 7-bit address. */
  datatype Direction = Write | Read {
    function Bit(): bv32 {
      match this
      case Write => 0
      case Read => 1
    }
  }

  /** One call into the Register Interface. */
  datatype Event =
    | EnableClock
    | ConfigurePins
    | SetSpeed(hz: bv32)
    | Enable
    | Start
    | Stop
    | Ack
    | Nack
    | Address(addr: bv8, dir: Direction)
    | Send(data: bv8)
    | Receive(data: bv8)           // ReadData returned `data`
    | Poll(flag: Flag, seen: bool)  // a status query answered `seen`

  /** The peripheral's behaviour as a function of the history of calls. */
  datatype Device = Device(flag: (Flag, seq<Event>) -> bool, data: seq<Event> -> bv8)

  /** The calls among the first `n` of a trace that act on the bus, i.e.
      all of them but the polls. */
  function ActionsUpTo(evs: seq<Event>, n: nat): seq<Event>
    requires n <= |evs|
  {
    if n == 0 then []
    else ActionsUpTo(evs, n - 1) + (if evs[n - 1].Poll? then [] else [evs[n - 1]])
  }

  /** The bytes ReadData returned among the first `n` calls, in order. */
  function ReceivedUpTo(evs: seq<Event>, n: nat): seq<bv8>
    requires n <= |evs|
  {
    if n == 0 then []
    else ReceivedUpTo(evs, n - 1) + (if evs[n - 1].Receive? then [evs[n - 1].data] else [])
  }

  function Actions(evs: seq<Event>): seq<Event> {
    ActionsUpTo(evs, |evs|)
  }

  function Received(evs: seq<Event>): seq<bv8> {
    ReceivedUpTo(evs, |evs|)
  }

  /** The actions a trace `full` adds to its prefix `h`. */
  function ActionsSince(h: seq<Event>, full: seq<Event>): seq<Event> {
    var a := Actions(h);
    var b := Actions(full);
    if |a| <= |b| then b[|a|..] else []
  }

  /** The bytes a trace `full` receives after its prefix `h`. */
  function ReceivedSince(h: seq<Event>, full: seq<Event>): seq<bv8> {
    var a := Received(h);
    var b := Received(full);
    if |a| <= |b| then b[|a|..] else []
  }

  /** The last call of a non-empty trace. */
  function Last(tr: seq<Event>): Event
    requires tr != []
  {
    tr[|tr| - 1]
  }

  /** A status query that read false. */
  predicate FailedPoll(e: Event) {
    e.Poll? && !e.seen
  }

  /**
   * In what `tr` adds to its prefix `h`, a false reading is followed only by
   * another reading or by nothing: no bus action comes right after a failed
   * poll.
   */
  predicate NothingAfterFailure(h: seq<Event>, tr: seq<Event>) {
    forall k :: |h| <= k < |tr| - 1 && FailedPoll(tr[k]) ==> tr[k + 1].Poll?
  }

  /** Two stretches with that property, joined where the first does not end
      on a false reading, have it together. */
  lemma NothingAfterFailureChain(h: seq<Event>, m: seq<Event>, tr: seq<Event>)
    requires |h| <= |m| <= |tr| && tr[..|m|] == m
    requires NothingAfterFailure(h, m) && NothingAfterFailure(m, tr)
    requires |m| > |h| ==> !FailedPoll(Last(m))
    ensures NothingAfterFailure(h, tr)
  {
    forall k | |h| <= k < |tr| - 1 && FailedPoll(tr[k])
      ensures tr[k + 1].Poll?
    {
      if k < |m| {
        assert tr[k] == m[k];
        assert k != |m| - 1;
        assert tr[k + 1] == m[k + 1];
      }
    }
  }

  lemma ActionsSinceOf(h: seq<Event>, full: seq<Event>, acts: seq<Event>)
    requires Actions(full) == Actions(h) + acts
    ensures ActionsSince(h, full) == acts
  {
    assert (Actions(h) + acts)[|Actions(h)|..] == acts;
  }

  lemma ReceivedSinceOf(h: seq<Event>, full: seq<Event>, got: seq<bv8>)
    requires Received(full) == Received(h) + got
    ensures ReceivedSince(h, full) == got
  {
    assert (Received(h) + got)[|Received(h)|..] == got;
  }

  /** Calls made later do not change what happened among the first `n`. */
  lemma {:induction false} UpToExtend(h: seq<Event>, e: Event, n: nat)
    requires n <= |h|
    ensures ActionsUpTo(h + [e], n) == ActionsUpTo(h, n)
    ensures ReceivedUpTo(h + [e], n) == ReceivedUpTo(h, n)
  {
    if n > 0 {
      UpToExtend(h, e, n - 1);
      assert (h + [e])[n - 1] == h[n - 1];
    }
  }

  /** Appending one call: an action is kept, a received byte is recorded. */
  lemma Snoc(h: seq<Event>, e: Event)
    ensures Actions(h + [e]) == Actions(h) + (if e.Poll? then [] else [e])
    ensures Received(h + [e]) == Received(h) + (if e.Receive? then [e.data] else [])
  {
    UpToExtend(h, e, |h|);
    assert (h + [e])[|h|] == e;
  }

  /** A poll neither acts nor receives. */
  lemma SnocPoll(h: seq<Event>, f: Flag, seen: bool)
    ensures Actions(h + [Poll(f, seen)]) == Actions(h)
    ensures Received(h + [Poll(f, seen)]) == Received(h)
  {
    Snoc(h, Poll(f, seen));
    assert Actions(h) + [] == Actions(h);
    assert Received(h) + [] == Received(h);
  }

  /** An action other than ReadData is kept and receives nothing. */
  lemma SnocAction(h: seq<Event>, e: Event)
    requires !e.Poll? && !e.Receive?
    ensures Actions(h + [e]) == Actions(h) + [e]
    ensures Received(h + [e]) == Received(h)
  {
    Snoc(h, e);
    assert Received(h) + [] == Received(h);
  }

  lemma {:induction false} ActionsAppend(a: seq<Event>, b: seq<Event>)
    ensures Actions(a + b) == Actions(a) + Actions(b)
    decreases |b|
  {
    if b == [] {
      assert a + b == a;
      assert Actions(a) + [] == Actions(a);
    } else {
      var c := b[..|b| - 1];
      var e := b[|b| - 1];
      assert b == c + [e];
      assert a + b == (a + c) + [e];
      Snoc(a + c, e);
      Snoc(c, e);
      ActionsAppend(a, c);
      var k := if e.Poll? then [] else [e];
      assert Actions(a) + Actions(c) + k == Actions(a) + (Actions(c) + k);
    }
  }

  lemma {:induction false} ReceivedAppend(a: seq<Event>, b: seq<Event>)
    ensures Received(a + b) == Received(a) + Received(b)
    decreases |b|
  {
    if b == [] {
      assert a + b == a;
      assert Received(a) + [] == Received(a);
    } else {
      var c := b[..|b| - 1];
      var e := b[|b| - 1];
      assert b == c + [e];
      assert a + b == (a + c) + [e];
      Snoc(a + c, e);
      Snoc(c, e);
      ReceivedAppend(a, c);
      var k := if e.Receive? then [e.data] else [];
      assert Received(a) + Received(c) + k == Received(a) + (Received(c) + k);
    }
  }

  /**
   * The Register Interface.  Every action appends its event; every query
   * appends the answer the device gives for the history so far.
   */
  class Bus {
    const device: Device
    var trace: seq<Event>

    constructor (device: Device)
      ensures this.device == device && trace == []
    {
      this.device := device;
      trace := [];
    }

    method EnableClock()
      modifies this
      ensures trace == old(trace) + [Event.EnableClock]
    {
      trace := trace + [Event.EnableClock];
    }

    method ConfigurePins()
      modifies this
      ensures trace == old(trace) + [Event.ConfigurePins]
    {
      trace := trace + [Event.ConfigurePins];
    }

    method SetSpeed(hz: bv32)
      modifies this
      ensures trace == old(trace) + [Event.SetSpeed(hz)]
    {
      trace := trace + [Event.SetSpeed(hz)];
    }

    method Enable()
      modifies this
      ensures trace == old(trace) + [Event.Enable]
    {
      trace := trace + [Event.Enable];
    }

    method GenerateStart()
      modifies this
      ensures trace == old(trace) + [Start]
    {
      trace := trace + [Start];
    }

    method GenerateStop()
      modifies this
      ensures trace == old(trace) + [Stop]
    {
      trace := trace + [Stop];
    }

    method SendAck()
      modifies this
      ensures trace == old(trace) + [Ack]
    {
      trace := trace + [Ack];
    }

    method SendNack()
      modifies this
      ensures trace == old(trace) + [Nack]
    {
      trace := trace + [Nack];
    }

    method SendAddress(addr: bv8, dir: Direction)
      modifies this
      ensures trace == old(trace) + [Address(addr, dir)]
    {
      trace := trace + [Address(addr, dir)];
    }

    method SendData(data: bv8)
      modifies this
      ensures trace == old(trace) + [Send(data)]
    {
      trace := trace + [Send(data)];
    }

    /** HAL_I2C_ReadData: the byte the device presents now. */
    method ReadData() returns (data: bv8)
      modifies this
      ensures data == device.data(old(trace))
      ensures trace == old(trace) + [Receive(data)]
    {
      data := device.data(trace);
      trace := trace + [Receive(data)];
    }

    /** HAL_I2C_IsStartGenerated, IsAddressSent, IsTxComplete, IsRxReady. */
    method Query(f: Flag) returns (seen: bool)
      modifies this
      ensures seen == device.flag(f, old(trace))
      ensures trace == old(trace) + [Poll(f, seen)]
    {
      seen := device.flag(f, trace);
      trace := trace + [Poll(f, seen)];
    }
  }
}
