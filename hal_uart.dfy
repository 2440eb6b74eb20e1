/**
 * The simulated UART peripheral of hal/hal_uart.c: the four 32-bit registers
 * of the `UART1` block, the read-modify-write each HAL call performs on them,
 * and the byte stream that HAL_UART_SendByte puts on the host's standard
 * output.
 *
 * `UartRegisters` is the block as a value, with one update function per HAL
 * call; the lemmas say what each update does to the bits.  `Uart` is the
 * global block itself, updated in place.
 */
module UartHal {

  /** uint8_t, and the C `char` the driver sends and receives. */
  newtype byte = x: int | 0 <= x < 256

  /** uint32_t where the code only stores, compares and truncates it. */
  newtype u32 = x: int | 0 <= x < 0x1_0000_0000

  /** STATUS bits. */
  const STATUS_TX_READY: bv32 := 1
  const STATUS_RX_READY: bv32 := 2

  /** CTRL bits. */
  const CTRL_ENABLE: bv32 := 1
  const CTRL_PARITY_EVEN: bv32 := 2
  const CTRL_PARITY_ODD: bv32 := 4
  const CTRL_STOP_2: bv32 := 8

  /** UART_Registers_t; one update per HAL call. */
  datatype UartRegisters = UartRegisters(status: bv32, data: u32, ctrl: bv32, baud: u32) {
    /** HAL_UART_Enable */
    function AfterEnable(): UartRegisters {
      this.(ctrl := ctrl | CTRL_ENABLE)
    }

    /** HAL_UART_SetBaudrate */
    function AfterSetBaudrate(baudrate: u32): UartRegisters {
      this.(baud := baudrate)
    }

    /** HAL_UART_SetParity: clear both parity bits, then set EVEN for 1 and
        ODD for 2. */
    function AfterSetParity(parity: u32): UartRegisters {
      this.(ctrl := (ctrl & !(CTRL_PARITY_EVEN | CTRL_PARITY_ODD)) | ParityBit(parity))
    }

    /** HAL_UART_SetStopBits: STOP_2 for the value 2, cleared for any other. */
    function AfterSetStopBits(stopBits: u32): UartRegisters {
      this.(ctrl := if stopBits == 2 then ctrl | CTRL_STOP_2 else ctrl & !CTRL_STOP_2)
    }

    /** HAL_UART_SendByte */
    function AfterSendByte(b: byte): UartRegisters {
      this.(data := b as u32, status := status | STATUS_TX_READY)
    }

    /** HAL_UART_ReadByte's side effect. */
    function AfterReadByte(): UartRegisters {
      this.(status := status & !STATUS_RX_READY)
    }

    /** HAL_UART_ReadByte's result, the cast of DATA to uint8_t. */
    function Received(): byte {
      (data as int % 256) as byte
    }

    /** HAL_UART_IsTxReady */
    predicate TxReady() {
      status & STATUS_TX_READY != 0
    }

    /** HAL_UART_IsRxReady */
    predicate RxReady() {
      status & STATUS_RX_READY != 0
    }
  }

  /** The CTRL bit SetParity sets for a raw parity value: EVEN for 1, ODD for
      2, none otherwise. */
  function ParityBit(parity: u32): bv32 {
    if parity == 1 then CTRL_PARITY_EVEN else if parity == 2 then CTRL_PARITY_ODD else 0
  }

  /** The initial `UART1` block: TX ready, 115200 baud, everything else 0. */
  const UART_RESET := UartRegisters(STATUS_TX_READY, 0, 0, 115200)

  // ---------------------------------------------------------------------------
  // What each HAL call does to the bits
  // ---------------------------------------------------------------------------

  /** Enable sets CTRL.ENABLE and nothing else. */
  lemma EnableBits(s: UartRegisters)
    ensures var r := s.AfterEnable();
            && r.ctrl & CTRL_ENABLE != 0 && r.ctrl & !CTRL_ENABLE == s.ctrl & !CTRL_ENABLE
            && r.status == s.status && r.data == s.data && r.baud == s.baud
  {
  }

  /** SetBaudrate stores the rate in BAUD and nothing else. */
  lemma SetBaudrateBits(s: UartRegisters, baudrate: u32)
    ensures var r := s.AfterSetBaudrate(baudrate);
            r.baud == baudrate && r.status == s.status && r.data == s.data && r.ctrl == s.ctrl
  {
  }

  /**
   * SetParity sets EVEN exactly for 1 and ODD exactly for 2, so never both,
   * and leaves the other CTRL bits and the other registers alone.
   */
  lemma SetParityBits(s: UartRegisters, parity: u32)
    ensures var r := s.AfterSetParity(parity);
            && (r.ctrl & CTRL_PARITY_EVEN != 0 <==> parity == 1)
            && (r.ctrl & CTRL_PARITY_ODD != 0 <==> parity == 2)
            && r.ctrl & !(CTRL_PARITY_EVEN | CTRL_PARITY_ODD) == s.ctrl & !(CTRL_PARITY_EVEN | CTRL_PARITY_ODD)
            && r.status == s.status && r.data == s.data && r.baud == s.baud
  {
  }

  /** Setting the same parity twice is the same as setting it once. */
  lemma SetParityIdempotent(s: UartRegisters, parity: u32)
    ensures s.AfterSetParity(parity).AfterSetParity(parity) == s.AfterSetParity(parity)
  {
  }

  /** SetStopBits sets STOP_2 exactly for 2 and leaves every other bit. */
  lemma SetStopBitsBits(s: UartRegisters, stopBits: u32)
    ensures var r := s.AfterSetStopBits(stopBits);
            && (r.ctrl & CTRL_STOP_2 != 0 <==> stopBits == 2)
            && r.ctrl & !CTRL_STOP_2 == s.ctrl & !CTRL_STOP_2
            && r.status == s.status && r.data == s.data && r.baud == s.baud
  {
  }

  /** SendByte leaves the byte in DATA and TX ready; RX_READY, CTRL and BAUD
      are unchanged. */
  lemma SendByteBits(s: UartRegisters, b: byte)
    ensures var r := s.AfterSendByte(b);
            && r.data == b as u32 && r.Received() == b && r.TxReady()
            && r.status & !STATUS_TX_READY == s.status & !STATUS_TX_READY
            && r.ctrl == s.ctrl && r.baud == s.baud
  {
  }

  /** ReadByte clears RX_READY only, so a second IsRxReady reads false while
      TX_READY is kept. */
  lemma ReadByteBits(s: UartRegisters)
    ensures var r := s.AfterReadByte();
            && !r.RxReady() && (r.TxReady() <==> s.TxReady())
            && r.status & !STATUS_RX_READY == s.status & !STATUS_RX_READY
            && r.data == s.data && r.ctrl == s.ctrl && r.baud == s.baud
  {
  }

  /** ReadByte returns the low byte of DATA. */
  lemma ReceivedIsLowByte(s: UartRegisters)
    ensures s.Received() as int == s.data as int % 256
  {
  }

  /**
   * class Uart: the global `UART1` block, and `sent`, every byte
   * HAL_UART_SendByte has written to standard output, in order.
   */
  class Uart {
    var regs: UartRegisters
    var sent: seq<byte>

    constructor ()
      ensures regs == UART_RESET && sent == []
    {
      regs := UART_RESET;
      sent := [];
    }

    method Enable()
      modifies this
      ensures regs == old(regs).AfterEnable() && sent == old(sent)
    {
      regs := regs.(ctrl := regs.ctrl | CTRL_ENABLE);
    }

    method SetBaudrate(baudrate: u32)
      modifies this
      ensures regs == old(regs).AfterSetBaudrate(baudrate) && sent == old(sent)
    {
      regs := regs.(baud := baudrate);
    }

    method SetParity(parity: u32)
      modifies this
      ensures regs == old(regs).AfterSetParity(parity) && sent == old(sent)
    {
      regs := regs.(ctrl := regs.ctrl & !(CTRL_PARITY_EVEN | CTRL_PARITY_ODD));
      regs := regs.(ctrl := regs.ctrl | ParityBit(parity));
    }

    method SetStopBits(stopBits: u32)
      modifies this
      ensures regs == old(regs).AfterSetStopBits(stopBits) && sent == old(sent)
    {
      if stopBits == 2 {
        regs := regs.(ctrl := regs.ctrl | CTRL_STOP_2);
      } else {
        regs := regs.(ctrl := regs.ctrl & !CTRL_STOP_2);
      }
    }

    method SendByte(b: byte)
      modifies this
      ensures regs == old(regs).AfterSendByte(b) && sent == old(sent) + [b]
    {
      regs := regs.(data := b as u32);
      sent := sent + [b];
      regs := regs.(status := regs.status | STATUS_TX_READY);
    }

    method ReadByte() returns (b: byte)
      modifies this
      ensures b == old(regs).Received()
      ensures regs == old(regs).AfterReadByte() && sent == old(sent)
    {
      b := (regs.data as int % 256) as byte;
      regs := regs.(status := regs.status & !STATUS_RX_READY);
    }

    method IsTxReady() returns (ready: bool)
      ensures ready == regs.TxReady()
    {
      ready := regs.status & STATUS_TX_READY != 0;
    }

    method IsRxReady() returns (ready: bool)
      ensures ready == regs.RxReady()
    {
      ready := regs.status & STATUS_RX_READY != 0;
    }
  }
}
