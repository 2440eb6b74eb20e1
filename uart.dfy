/**
 * The UART line driver of drivers/uart.c over the simulated UART of UartHal.
 *
 * `UartDriver` is the static `uart_handle` together with the peripheral it
 * drives; its methods are the C functions.  What they put on the line is
 * given by pure encoders (`CString`, `HexString`, `DecString`), and the
 * lemmas state what those encoders promise: the exact characters, their
 * number, and that parsing them back gives the value written.
 */
module Uart {
  import opened UartHal

  /** UART_Parity_t, with its raw enum value. */
  datatype Parity = ParityNone | ParityEven | ParityOdd {
    function Raw(): u32 {
      match this
      case ParityNone => 0
      case ParityEven => 1
      case ParityOdd => 2
    }
  }

  /** UART_StopBits_t, with its raw enum value. */
  datatype StopBits = StopBits1 | StopBits2 {
    function Raw(): u32 {
      match this
      case StopBits1 => 0
      case StopBits2 => 1
    }

    /** The number of stop bits, which is what HAL_UART_SetStopBits tests
        for. */
    function Count(): u32 {
      match this
      case StopBits1 => 1
      case StopBits2 => 2
    }
  }

  /** UART_Config_t */
  datatype UartConfig = UartConfig(baudrate: u32, stopBits: StopBits, parity: Parity)

  // ---------------------------------------------------------------------------
  // Configuration
  // ---------------------------------------------------------------------------

  /** The registers after UART_Init: SetBaudrate, SetStopBits and SetParity
      with the raw enum values, then Enable. */
  function Configured(r: UartRegisters, config: UartConfig): UartRegisters {
    r.AfterSetBaudrate(config.baudrate)
     .AfterSetStopBits(config.stopBits.Raw())
     .AfterSetParity(config.parity.Raw())
     .AfterEnable()
  }

  /** Init with SetStopBits given the number of stop bits instead. */
  function IntendedConfigured(r: UartRegisters, config: UartConfig): UartRegisters {
    r.AfterSetBaudrate(config.baudrate)
     .AfterSetStopBits(config.stopBits.Count())
     .AfterSetParity(config.parity.Raw())
     .AfterEnable()
  }

  /**
   * Init stores the baud rate, enables the UART, selects EVEN parity exactly
   * for UART_PARITY_EVEN and ODD exactly for UART_PARITY_ODD, and leaves
   * STATUS and DATA alone.
   */
  lemma InitRegisters(r: UartRegisters, config: UartConfig)
    ensures var q := Configured(r, config);
            && q.baud == config.baudrate
            && q.ctrl & CTRL_ENABLE != 0
            && (q.ctrl & CTRL_PARITY_EVEN != 0 <==> config.parity == ParityEven)
            && (q.ctrl & CTRL_PARITY_ODD != 0 <==> config.parity == ParityOdd)
            && q.status == r.status && q.data == r.data
  {
    var s1 := r.AfterSetBaudrate(config.baudrate);
    var s2 := s1.AfterSetStopBits(config.stopBits.Raw());
    var s3 := s2.AfterSetParity(config.parity.Raw());
    SetParityBits(s2, config.parity.Raw());
    EnableParityKept(s3);
  }

  /** Enable keeps the parity bits. */
  lemma EnableParityKept(s: UartRegisters)
    ensures var r := s.AfterEnable();
            && (r.ctrl & CTRL_PARITY_EVEN != 0 <==> s.ctrl & CTRL_PARITY_EVEN != 0)
            && (r.ctrl & CTRL_PARITY_ODD != 0 <==> s.ctrl & CTRL_PARITY_ODD != 0)
            && r.ctrl & CTRL_ENABLE != 0
  {
  }

  /** Enable and SetParity keep STOP_2. */
  lemma LaterStepsKeepStop2(s: UartRegisters, parity: u32)
    ensures var r := s.AfterSetParity(parity).AfterEnable();
            r.ctrl & CTRL_STOP_2 == s.ctrl & CTRL_STOP_2
  {
    var p := s.AfterSetParity(parity);
    assert p.ctrl & CTRL_STOP_2 == s.ctrl & CTRL_STOP_2;
  }

  /**
   * Init never selects two stop bits: SetStopBits sets STOP_2 only for the
   * value 2, and the raw values of UART_StopBits_t are 0 and 1, so even
   * UART_STOPBITS_2 clears it.
   */
  lemma InitNeverSetsStop2(r: UartRegisters, config: UartConfig)
    ensures Configured(r, config).ctrl & CTRL_STOP_2 == 0
  {
    var s2 := r.AfterSetBaudrate(config.baudrate).AfterSetStopBits(config.stopBits.Raw());
    SetStopBitsBits(r.AfterSetBaudrate(config.baudrate), config.stopBits.Raw());
    LaterStepsKeepStop2(s2, config.parity.Raw());
  }

  /** Passing the number of stop bits selects STOP_2 exactly for
      UART_STOPBITS_2. */
  lemma IntendedInitSetsStop2(r: UartRegisters, config: UartConfig)
    ensures IntendedConfigured(r, config).ctrl & CTRL_STOP_2 != 0 <==> config.stopBits == StopBits2
  {
    var s2 := r.AfterSetBaudrate(config.baudrate).AfterSetStopBits(config.stopBits.Count());
    SetStopBitsBits(r.AfterSetBaudrate(config.baudrate), config.stopBits.Count());
    LaterStepsKeepStop2(s2, config.parity.Raw());
  }

  // ---------------------------------------------------------------------------
  // Sending bytes
  // ---------------------------------------------------------------------------

  /** The registers after HAL_UART_SendByte of each byte of `bs`, in order. */
  function SendAll(r: UartRegisters, bs: seq<byte>): UartRegisters
    decreases |bs|
  {
    if bs == [] then r else SendAll(r, bs[..|bs| - 1]).AfterSendByte(bs[|bs| - 1])
  }

  lemma SendAllSnoc(r: UartRegisters, bs: seq<byte>, b: byte)
    ensures SendAll(r, bs + [b]) == SendAll(r, bs).AfterSendByte(b)
  {
    assert (bs + [b])[..|bs|] == bs;
  }

  /** One more byte sent: the line and the registers both move on by it. */
  lemma Emit(sent: seq<byte>, regs: UartRegisters, sent': seq<byte>, regs': UartRegisters,
             sent0: seq<byte>, regs0: UartRegisters, out: seq<byte>, b: byte)
    requires sent == sent0 + out && regs == SendAll(regs0, out)
    requires sent' == sent + [b] && regs' == regs.AfterSendByte(b)
    ensures sent' == sent0 + (out + [b]) && regs' == SendAll(regs0, out + [b])
  {
    SendAllSnoc(regs0, out, b);
  }

  /**
   * After a run of sends DATA holds the last byte and TX is ready; RX_READY,
   * CTRL and BAUD are as before.  No send leaves everything as it was.
   */
  lemma {:induction false} SendAllFacts(r: UartRegisters, bs: seq<byte>)
    ensures var q := SendAll(r, bs);
            && (bs == [] ==> q == r)
            && (bs != [] ==> q.data == bs[|bs| - 1] as u32 && q.Received() == bs[|bs| - 1] && q.TxReady())
            && q.status & !STATUS_TX_READY == r.status & !STATUS_TX_READY
            && q.ctrl == r.ctrl && q.baud == r.baud
    decreases |bs|
  {
    if bs != [] {
      var init := bs[..|bs| - 1];
      SendAllFacts(r, init);
      SendByteBits(SendAll(r, init), bs[|bs| - 1]);
    }
  }

  /** The characters of a C string: everything before the first NUL. */
  function CString(s: seq<byte>): (c: seq<byte>)
    requires 0 in s
    ensures |c| < |s|
  {
    if s[0] == 0 then [] else [s[0]] + CString(s[1..])
  }

  /** CString(s) holds no NUL and is followed by one in `s`. */
  lemma {:induction false} CStringFacts(s: seq<byte>)
    requires 0 in s
    ensures var c := CString(s);
            && 0 !in c && s[..|c|] == c && s[|c|] == 0
  {
    if s[0] != 0 {
      assert 0 in s[1..] by {
        var k :| 0 <= k < |s| && s[k] == 0;
        assert s[1..][k - 1] == 0;
      }
      CStringFacts(s[1..]);
      var c := CString(s[1..]);
      assert s[..|c| + 1] == [s[0]] + s[1..][..|c|];
    }
  }

  /** The string of any NUL-free text followed by NUL is that text. */
  lemma {:induction false} CStringOf(t: seq<byte>, rest: seq<byte>)
    requires 0 !in t
    ensures CString(t + [0] + rest) == t
    decreases |t|
  {
    if t == [] {
      assert (t + [0] + rest)[0] == 0;
    } else {
      assert (t + [0] + rest)[1..] == t[1..] + [0] + rest;
      CStringOf(t[1..], rest);
      assert [t[0]] + t[1..] == t;
    }
  }

  // ---------------------------------------------------------------------------
  // Hexadecimal
  // ---------------------------------------------------------------------------

  /** "0123456789ABCDEF" */
  const HEX_SYMBOLS: seq<byte> := [48, 49, 50, 51, 52, 53, 54, 55, 56, 57, 65, 66, 67, 68, 69, 70]

  function Pow2(n: nat): (p: nat)
    ensures p > 0
  {
    if n == 0 then 1 else 2 * Pow2(n - 1)
  }

  function Pow16(k: nat): (p: nat)
    ensures p > 0
  {
    if k == 0 then 1 else 16 * Pow16(k - 1)
  }

  /** Shifting right by four bits is dividing by sixteen. */
  lemma {:induction false} Pow2Nibbles(k: nat)
    ensures Pow2(4 * k) == Pow16(k)
  {
    if k > 0 {
      Pow2Nibbles(k - 1);
      assert Pow2(4 * k) == 16 * Pow2(4 * (k - 1)) by {
        assert Pow2(4 * k) == 2 * Pow2(4 * k - 1);
        assert Pow2(4 * k - 1) == 2 * Pow2(4 * k - 2);
        assert Pow2(4 * k - 2) == 2 * Pow2(4 * k - 3);
        assert Pow2(4 * k - 3) == 2 * Pow2(4 * (k - 1));
      }
    }
  }

  /** The low `n` hex digits of `v`, most significant first. */
  function HexDigits(v: nat, n: nat): (s: seq<byte>)
    ensures |s| == n
  {
    if n == 0 then [] else [HEX_SYMBOLS[(v / Pow16(n - 1)) % 16]] + HexDigits(v, n - 1)
  }

  /** What UART_WriteHex sends: the eight hex digits of a 32-bit value. */
  function HexString(v: nat): seq<byte> {
    HexDigits(v, 8)
  }

  /** The value of a hex digit character. */
  function HexValue(c: byte): nat {
    if 48 <= c <= 57 then (c - 48) as nat
    else if 65 <= c <= 70 then (c - 55) as nat
    else 0
  }

  /** A string of hex digits read as a number, most significant first. */
  function ParseHex(s: seq<byte>): nat {
    if s == [] then 0 else HexValue(s[0]) * Pow16(|s| - 1) + ParseHex(s[1..])
  }

  lemma HexValueOfSymbol(d: nat)
    requires d < 16
    ensures HexValue(HEX_SYMBOLS[d]) == d
  {
  }

  /** Character `j` of the low `n` hex digits is the nibble at position
      n - 1 - j. */
  lemma {:induction false} HexDigitsAt(v: nat, n: nat, j: nat)
    requires j < n
    ensures HexDigits(v, n)[j] == HEX_SYMBOLS[(v / Pow16(n - 1 - j)) % 16]
  {
    if j > 0 {
      assert HexDigits(v, n)[j] == HexDigits(v, n - 1)[j - 1];
      HexDigitsAt(v, n - 1, j - 1);
    }
  }

  /** Every character of a hex string is one of the sixteen symbols. */
  lemma {:induction false} HexDigitsAreSymbols(v: nat, n: nat)
    ensures forall k :: 0 <= k < n ==> HexDigits(v, n)[k] in HEX_SYMBOLS
  {
    if n > 0 {
      HexDigitsAreSymbols(v, n - 1);
      var s := HexDigits(v, n);
      assert s[1..] == HexDigits(v, n - 1);
      forall k | 0 <= k < n
        ensures s[k] in HEX_SYMBOLS
      {
        if k > 0 {
          assert s[k] == HexDigits(v, n - 1)[k - 1];
        }
      }
    }
  }

  lemma MulAtLeast(x: int, d: int)
    requires x >= 1 && d >= 0
    ensures x * d >= d
  {
    assert x * d == (x - 1) * d + d;
    assert (x - 1) * d >= 0;
  }

  /** Division with remainder has one answer. */
  lemma DivModUnique(v: nat, d: nat, q: nat, r: nat)
    requires d > 0 && r < d && v == q * d + r
    ensures v / d == q && v % d == r
  {
    var q' := v / d;
    var r' := v % d;
    assert v == q' * d + r';
    assert (q - q') * d == r' - r;
    if q' > q {
      MulAtLeast(q' - q, d);
    } else if q' < q {
      MulAtLeast(q - q', d);
    }
  }

  lemma SplitProduct(q: int, a: int, b: int, m: int)
    requires q == 16 * a + b
    ensures q * m == a * (16 * m) + b * m
  {
    calc {
      q * m;
      (16 * a + b) * m;
      (16 * a) * m + b * m;
      a * (16 * m) + b * m;
    }
  }

  lemma MulBelow(b: int, m: int)
    requires 0 <= b <= 15 && m > 0
    ensures b * m <= 15 * m
  {
    assert 15 * m - b * m == (15 - b) * m;
    if b < 15 {
      MulAtLeast(15 - b, m);
    }
  }

  /** The value below position 16·m splits into the digit at m and the value
      below m. */
  lemma ModSplit(v: nat, m: nat)
    requires m > 0
    ensures v % (16 * m) == ((v / m) % 16) * m + v % m
  {
    var q := v / m;
    var r := v % m;
    var b := q % 16;
    var a := q / 16;
    assert v == q * m + r;
    SplitProduct(q, a, b, m);
    MulBelow(b, m);
    DivModUnique(v, 16 * m, a, b * m + r);
  }

  /** Parsing the low `n` hex digits of `v` gives `v` modulo 16^n. */
  lemma {:induction false} HexDigitsParse(v: nat, n: nat)
    ensures ParseHex(HexDigits(v, n)) == v % Pow16(n)
  {
    if n > 0 {
      var m := Pow16(n - 1);
      var s := HexDigits(v, n);
      assert s[1..] == HexDigits(v, n - 1);
      HexDigitsParse(v, n - 1);
      HexValueOfSymbol((v / m) % 16);
      assert ParseHex(s) == ((v / m) % 16) * m + v % m;
      ModSplit(v, m);
    }
  }

  /**
   * UART_WriteHex's output is exactly eight characters from
   * "0123456789ABCDEF", and reading them back as base 16 gives the value.
   */
  lemma HexRoundTrip(v: nat)
    requires v < 0x1_0000_0000
    ensures |HexString(v)| == 8
    ensures forall k :: 0 <= k < 8 ==> HexString(v)[k] in HEX_SYMBOLS
    ensures ParseHex(HexString(v)) == v
  {
    HexDigitsAreSymbols(v, 8);
    HexDigitsParse(v, 8);
    assert Pow16(8) == 0x1_0000_0000;
    DivModUnique(v, 0x1_0000_0000, 0, v);
  }

  // ---------------------------------------------------------------------------
  // Decimal
  // ---------------------------------------------------------------------------

  const CHAR_0: byte := 48
  const CHAR_MINUS: byte := 45

  /** '0' + d */
  function Digit(d: nat): byte
    requires d < 10
  {
    (48 + d) as byte
  }

  /** The decimal digits of `n`, most significant first; none for 0. */
  function Digits(n: nat): seq<byte>
    decreases n
  {
    if n == 0 then [] else Digits(n / 10) + [Digit(n % 10)]
  }

  /** What UART_WriteDec sends. */
  function DecString(v: int): seq<byte> {
    if v == 0 then [CHAR_0]
    else if v < 0 then [CHAR_MINUS] + Digits(-v)
    else Digits(v)
  }

  /** A string of decimal digits read as a number. */
  function ParseDigits(s: seq<byte>): int
    decreases |s|
  {
    if s == [] then 0 else 10 * ParseDigits(s[..|s| - 1]) + (s[|s| - 1] as int - 48)
  }

  /** An optional minus sign followed by decimal digits, read as a number. */
  function ParseDec(s: seq<byte>): int {
    if s != [] && s[0] == CHAR_MINUS then -ParseDigits(s[1..]) else ParseDigits(s)
  }

  function Pow10(k: nat): (p: nat)
    ensures p > 0
  {
    if k == 0 then 1 else 10 * Pow10(k - 1)
  }

  lemma {:induction false} DigitsParse(n: nat)
    ensures ParseDigits(Digits(n)) == n
    decreases n
  {
    if n > 0 {
      DigitsParse(n / 10);
      var s := Digits(n);
      assert s[..|s| - 1] == Digits(n / 10);
    }
  }

  /** Every character is a decimal digit. */
  lemma {:induction false} DigitsAreDigits(n: nat)
    ensures forall k :: 0 <= k < |Digits(n)| ==> CHAR_0 <= Digits(n)[k] <= CHAR_0 + 9
    decreases n
  {
    if n > 0 {
      DigitsAreDigits(n / 10);
    }
  }

  /** A positive number has a first digit, and it is not '0'. */
  lemma {:induction false} DigitsNoLeadingZero(n: nat)
    requires n > 0
    ensures |Digits(n)| > 0 && Digits(n)[0] != CHAR_0
    decreases n
  {
    if n / 10 > 0 {
      DigitsNoLeadingZero(n / 10);
    }
  }

  /** `n` has at most `k` digits exactly when it is below 10^k. */
  lemma {:induction false} DigitsLength(n: nat, k: nat)
    ensures |Digits(n)| <= k <==> n < Pow10(k)
    decreases k
  {
    if k > 0 && n > 0 {
      DigitsLength(n / 10, k - 1);
    }
  }

  /**
   * UART_WriteDec's output for a value other than INT_MIN: "0" for zero, a
   * minus sign before the digits of the magnitude for a negative value, and
   * at most ten digits with no leading zero; parsing it back gives the value.
   */
  lemma DecRoundTrip(v: int)
    requires -0x8000_0000 < v < 0x8000_0000
    ensures v == 0 ==> DecString(v) == [CHAR_0]
    ensures v != 0 ==> var m := if v < 0 then -v else v;
                       && |Digits(m)| <= 10 && Digits(m)[0] != CHAR_0
                       && DecString(v) == (if v < 0 then [CHAR_MINUS] else []) + Digits(m)
    ensures ParseDec(DecString(v)) == v
  {
    var m := if v < 0 then -v else v;
    DigitsParse(m);
    if v != 0 {
      DigitsNoLeadingZero(m);
      DigitsLength(m, 10);
      DigitsAreDigits(m);
      assert Pow10(10) == 10_000_000_000;
      if v < 0 {
        assert ([CHAR_MINUS] + Digits(m))[1..] == Digits(m);
      } else {
        assert CHAR_0 <= Digits(m)[0];
      }
    }
  }

  /** s reversed. */
  function Rev(s: seq<byte>): (r: seq<byte>)
    ensures |r| == |s|
  {
    if s == [] then [] else Rev(s[1..]) + [s[0]]
  }

  lemma {:induction false} RevSnoc(s: seq<byte>, b: byte)
    ensures Rev(s + [b]) == [b] + Rev(s)
    decreases |s|
  {
    if s == [] {
      assert Rev([b]) == Rev([]) + [b];
    } else {
      assert (s + [b])[1..] == s[1..] + [b];
      RevSnoc(s[1..], b);
    }
  }

  // ---------------------------------------------------------------------------
  // The driver
  // ---------------------------------------------------------------------------

  class UartDriver {
    /** The peripheral the driver talks to. */
    const hw: Uart
    /** uart_handle */
    var baudrate: u32
    var stopBits: StopBits
    var parity: Parity

    /** The handle before UART_Init: zero-initialised static storage. */
    constructor (hw: Uart)
      ensures this.hw == hw && baudrate == 0 && stopBits == StopBits1 && parity == ParityNone
    {
      this.hw := hw;
      baudrate := 0;
      stopBits := StopBits1;
      parity := ParityNone;
    }

    /** UART_Init: record the configuration, then program the peripheral. */
    method Init(config: UartConfig)
      modifies this, hw
      ensures baudrate == config.baudrate && stopBits == config.stopBits && parity == config.parity
      ensures hw.regs == Configured(old(hw.regs), config) && hw.sent == old(hw.sent)
    {
      baudrate := config.baudrate;
      stopBits := config.stopBits;
      parity := config.parity;
      hw.SetBaudrate(config.baudrate);
      hw.SetStopBits(config.stopBits.Raw());
      hw.SetParity(config.parity.Raw());
      hw.Enable();
    }

    /** UART_WriteChar: once TX is ready, send the byte. */
    method WriteChar(c: byte)
      requires hw.regs.TxReady()
      modifies hw
      ensures hw.regs == old(hw.regs).AfterSendByte(c) && hw.sent == old(hw.sent) + [c]
      ensures hw.regs.TxReady()
    {
      var ready := hw.IsTxReady();
      assert ready;  // the wait ends at its first poll
      hw.SendByte(c);
      SendByteBits(old(hw.regs), c);
    }

    /** UART_ReadChar: once RX is ready, read the byte; RX is then not ready. */
    method ReadChar() returns (c: byte)
      requires hw.regs.RxReady()
      modifies hw
      ensures c == old(hw.regs).Received()
      ensures hw.regs == old(hw.regs).AfterReadByte() && hw.sent == old(hw.sent)
      ensures !hw.regs.RxReady()
    {
      var ready := hw.IsRxReady();
      assert ready;  // the wait ends at its first poll
      c := hw.ReadByte();
      ReadByteBits(old(hw.regs));
    }

    /** UART_WriteString: send each character before the terminating NUL. */
    method WriteString(s: seq<byte>)
      requires 0 in s && hw.regs.TxReady()
      modifies hw
      ensures hw.sent == old(hw.sent) + CString(s) && hw.regs == SendAll(old(hw.regs), CString(s))
    {
      CStringFacts(s);
      ghost var text := CString(s);
      assert forall j :: 0 <= j < |text| ==> s[j] != 0 by {
        forall j | 0 <= j < |text|
          ensures s[j] != 0
        {
          assert s[j] == text[j];
        }
      }
      var k := 0;
      while s[k] != 0
        invariant 0 <= k <= |text|
        invariant hw.sent == old(hw.sent) + s[..k] && hw.regs == SendAll(old(hw.regs), s[..k])
        invariant hw.regs.TxReady()
        decreases |text| - k
      {
        ghost var sent, regs := hw.sent, hw.regs;
        WriteChar(s[k]);
        Emit(sent, regs, hw.sent, hw.regs, old(hw.sent), old(hw.regs), s[..k], s[k]);
        assert s[..k + 1] == s[..k] + [s[k]];
        k := k + 1;
      }
    }

    /** UART_WriteHex: the nibbles of `value` from bits 31..28 down to 3..0. */
    method WriteHex(value: nat)
      requires value < 0x1_0000_0000 && hw.regs.TxReady()
      modifies hw
      ensures hw.sent == old(hw.sent) + HexString(value) && hw.regs == SendAll(old(hw.regs), HexString(value))
    {
      ghost var out: seq<byte> := [];
      ghost var n: nat := 8;
      var i: int := 28;
      while i >= 0
        invariant 0 <= n <= 8 && i == 4 * n - 4
        invariant out == HexString(value)[..8 - n]
        invariant hw.sent == old(hw.sent) + out && hw.regs == SendAll(old(hw.regs), out)
        invariant hw.regs.TxReady()
        decreases i + 4
      {
        var nibble := HEX_SYMBOLS[(value / Pow2(i)) % 16];
        ghost var sent, regs := hw.sent, hw.regs;
        WriteChar(nibble);
        Emit(sent, regs, hw.sent, hw.regs, old(hw.sent), old(hw.regs), out, nibble);
        HexStep(out, nibble, value, i, n - 1);
        out := out + [nibble];
        n := n - 1;
        i := i - 4;
      }
      assert out == HexString(value);
    }

    /** UART_WriteDec for any value but INT_MIN. */
    method WriteDec(value: int)
      requires -0x8000_0000 < value < 0x8000_0000 && hw.regs.TxReady()
      modifies hw
      ensures hw.sent == old(hw.sent) + DecString(value) && hw.regs == SendAll(old(hw.regs), DecString(value))
    {
      var buffer := new byte[12];
      var index := 0;
      if value == 0 {
        WriteChar(CHAR_0);
        SendAllSnoc(old(hw.regs), [], CHAR_0);
        return;
      }
      ghost var out: seq<byte> := [];
      var v := value;
      if v < 0 {
        WriteChar(CHAR_MINUS);
        SendAllSnoc(old(hw.regs), [], CHAR_MINUS);
        out := [CHAR_MINUS];
        v := -v;
      }
      ghost var sign := out;
      index := StoreDigits(buffer, v);
      ghost var digits := buffer[..index];
      var i := index - 1;
      while i >= 0
        invariant -1 <= i < index
        invariant out == sign + Rev(digits[i + 1..])
        invariant hw.sent == old(hw.sent) + out && hw.regs == SendAll(old(hw.regs), out)
        invariant hw.regs.TxReady()
        modifies hw
        decreases i + 1
      {
        assert buffer[i] == digits[i];
        ghost var sent, regs := hw.sent, hw.regs;
        WriteChar(buffer[i]);
        Emit(sent, regs, hw.sent, hw.regs, old(hw.sent), old(hw.regs), out, digits[i]);
        RevStep(out, sign, digits, i);
        out := out + [digits[i]];
        i := i - 1;
      }
      assert digits[0..] == digits;
      assert out == sign + Digits(v);
      DecSign(value, sign, v);
    }
  }

  /**
   * UART_WriteDec's first loop: the decimal digits of `v`, least significant
   * first, into the front of `buffer`.
   */
  method StoreDigits(buffer: array<byte>, v: nat) returns (count: nat)
    requires v < 0x8000_0000 && buffer.Length == 12
    modifies buffer
    ensures count <= buffer.Length && Rev(buffer[..count]) == Digits(v)
  {
    DecWidth(v);
    count := 0;
    var rest := v;
    while rest > 0
      invariant 0 <= rest <= v && 0 <= count <= |Digits(v)|
      invariant Digits(v) == Digits(rest) + Rev(buffer[..count])
      invariant |Digits(rest)| + count == |Digits(v)|
      decreases rest
    {
      ghost var done := buffer[..count];
      DigitStep(v, rest, done);
      buffer[count] := Digit(rest % 10);
      assert buffer[..count + 1] == done + [Digit(rest % 10)];
      count := count + 1;
      rest := rest / 10;
    }
  }

  /** A magnitude below 2^31 has at most 10 digits, so WriteDec's 12-byte
      buffer is large enough. */
  lemma DecWidth(m: nat)
    requires m < 0x8000_0000
    ensures |Digits(m)| <= 10
  {
    DigitsLength(m, 10);
    assert Pow10(10) == 10_000_000_000;
  }

  /** One step of WriteDec's digit loop: the least significant digit of `v`
      moves from the unwritten part to the buffer. */
  lemma DigitStep(magnitude: nat, v: nat, done: seq<byte>)
    requires v > 0
    requires Digits(magnitude) == Digits(v) + Rev(done) && |Digits(v)| + |done| == |Digits(magnitude)|
    ensures Digits(magnitude) == Digits(v / 10) + Rev(done + [Digit(v % 10)])
    ensures |Digits(v / 10)| + |done| + 1 == |Digits(magnitude)|
    ensures |done| < |Digits(magnitude)|
  {
    var d := Digit(v % 10);
    RevSnoc(done, d);
    assert Digits(v) == Digits(v / 10) + [d];
    Regroup(Digits(magnitude), Digits(v / 10), d, Rev(done));
  }

  lemma Regroup(whole: seq<byte>, upper: seq<byte>, d: byte, lower: seq<byte>)
    requires whole == (upper + [d]) + lower
    ensures whole == upper + ([d] + lower) && |lower| < |whole|
  {
  }

  /** WriteDec's sign and magnitude make up the decimal string. */
  lemma DecSign(value: int, sign: seq<byte>, magnitude: nat)
    requires value != 0
    requires sign == (if value < 0 then [CHAR_MINUS] else [])
    requires magnitude == (if value < 0 then -value else value)
    ensures sign + Digits(magnitude) == DecString(value)
  {
    if value > 0 {
      assert [] + Digits(magnitude) == Digits(magnitude);
    }
  }

  /** One step of WriteDec's output loop: sending digit `i` extends the
      reversed tail of the buffer. */
  lemma RevStep(out: seq<byte>, sign: seq<byte>, digits: seq<byte>, i: nat)
    requires i < |digits| && out == sign + Rev(digits[i + 1..])
    ensures out + [digits[i]] == sign + Rev(digits[i..])
  {
    assert digits[i..][1..] == digits[i + 1..];
  }

  /** One step of WriteHex: the next nibble continues the hex string. */
  lemma HexStep(out: seq<byte>, nibble: byte, value: nat, i: nat, k: nat)
    requires i == 4 * k && k < 8 && out == HexString(value)[..7 - k]
    requires nibble == HEX_SYMBOLS[(value / Pow2(i)) % 16]
    ensures out + [nibble] == HexString(value)[..8 - k]
  {
    Pow2Nibbles(k);
    HexDigitsAt(value, 8, 7 - k);
    var full := HexString(value);
    assert full[..8 - k] == full[..7 - k] + [full[7 - k]];
  }

  // ---------------------------------------------------------------------------
  // The UART unit test of tests/test_i2c_uart.c
  // ---------------------------------------------------------------------------

  /**
   * test_uart_write_read: after Init at 9600 baud with one stop bit and no
   * parity, a byte 'A' presented with RX_READY is what ReadChar returns, and
   * WriteChar('Z') leaves 'Z' in DATA.
   */
  method TestUartWriteRead() returns (received: byte, data: u32)
    ensures received == 'A' as byte && data == 'Z' as u32
  {
    var hw := new Uart();
    hw.regs := UartRegisters(STATUS_TX_READY, 0, 0, 0);
    var driver := new UartDriver(hw);
    driver.Init(UartConfig(9600, StopBits1, ParityNone));
    InitRegisters(UartRegisters(STATUS_TX_READY, 0, 0, 0), UartConfig(9600, StopBits1, ParityNone));
    hw.regs := hw.regs.(status := hw.regs.status | STATUS_RX_READY);
    hw.regs := hw.regs.(data := 'A' as u32);
    received := driver.ReadChar();
    assert hw.regs.status == 1;
    driver.WriteChar('Z' as byte);
    data := hw.regs.data;
  }
}
