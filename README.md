# I2C and UART drivers of a bare-metal sensor board, in Dafny

This project models the two communication drivers of a small embedded C code
base, together with the register-level peripherals they are simulated against
on the host.

* **The I2C master transaction engine** (`drivers/i2c.c`). `I2C_Init` records
  the configuration in the driver handle and brings up the peripheral. Four
  blocking transactions follow the same shape: START, the 7-bit address with
  the R/W bit, a data phase, STOP. That is the framing of the NXP I2C-bus
  specification UM10204: START and STOP in section 3.1.4, ACK and NACK in
  section 3.1.6, the 7-bit address and the R/W bit in section 3.1.10. Every
  step that needs the peripheral is a bounded poll-wait (`I2C_WaitForFlag`).
  A wait that runs out of budget ends the transaction at once, with TIMEOUT, or
  with ADDR_NACK for the address-phase wait, and without a STOP.
* **The simulated I2C peripheral** (`include/hal_i2c.c`). This is the `I2C1`
  block of four 32-bit registers, CR, SR, DR and CCR. Every HAL call does a
  read-modify-write of particular bits.
* **The UART line driver** (`drivers/uart.c`): configuration, character I/O,
  C strings, and 32-bit values written as eight hex digits or as signed
  decimal.
* **The simulated UART** (`hal/hal_uart.c`). This is the `UART1` block,
  STATUS, DATA, CTRL and BAUD, plus the bytes `HAL_UART_SendByte` puts on
  standard output.

## Structure

| file | module | contents |
|---|---|---|
| `i2c_hal.dfy` | `I2CHal` | The Register Interface the engine consumes. The class `Bus` records every call in a trace of `Event`s. A `Device` oracle supplies each flag reading and each byte read, as a function of the calls made so far. |
| `i2c.dfy` | `I2C` | The class `Driver`: the `i2c_handle` fields and the C functions as methods. Each method is specified by a pure run function (`Wait`, `Opening`, `WritePhase`, `ReadPhase`, `WriteBufferRun`, ...) giving its status and trace. The lemmas prove, for every device, prior history and poll budget, what those runs promise. |
| `i2c_sim.dfy` | `I2CSim` | The register block as a datatype with one update per HAL call, and lemmas on the bits each call touches. The class `Peripheral` is the block updated in place. `Sim` is the block seen as a `Device`. |
| `i2c_scenarios.dfy` | `I2CScenarios` | The engine composed with the simulation: every wait succeeds at its first poll. It also holds the two I2C host tests, as methods whose postconditions are the tests' assertions. |
| `hal_uart.dfy` | `UartHal` | The UART register block, the bit lemmas of its HAL calls, and the class `Uart`, which is the block updated in place together with the bytes sent. |
| `uart.dfy` | `Uart` | The class `UartDriver`: the `uart_handle` fields and the C functions. It also defines the pure encoders `CString`, `HexString` and `DecString`, with parsers and round-trip lemmas, and the UART host test. |

The engine never touches registers directly, so its proofs hold for any
peripheral: a stalled one, a NACKing one, or the simulation. The end-to-end
facts that the host tests check are derived by instantiating the device with
`Sim`. `Responsive` is the property of a device that answers every wait
at its first poll. `I2CScenarios.SimIsResponsive` proves the simulation has
it.

`I2CHal.NothingAfterFailure` says that no bus action comes right after a
false flag reading. The lemmas whose names end in `Ends` prove this for every
wait, phase and transaction. They also prove that the returned status is
determined by the event that ends the trace. A transaction therefore stops
at its first failed wait and reports that wait.

## Model

| member | source | states |
|---|---|---|
| I2CHal.Bus.constructor | include/hal_i2c.h:63-89 | a Register Interface over the given device, with no call recorded yet |
| I2CHal.Bus.EnableClock | include/hal_i2c.c:30-33 | the clock call is recorded once, after all earlier calls; nothing else changes |
| I2CHal.Bus.ConfigurePins | include/hal_i2c.c:35-38 | the pin call is recorded once, after all earlier calls |
| I2CHal.Bus.Enable | include/hal_i2c.c:44-47 | the enable call is recorded once, after all earlier calls |
| I2CHal.Bus.SetSpeed | include/hal_i2c.c:49-53 | the speed call is recorded with the requested frequency |
| I2CHal.Bus.GenerateStart | include/hal_i2c.c:59-64 | a START is recorded after all earlier calls |
| I2CHal.Bus.GenerateStop | include/hal_i2c.c:66-71 | a STOP is recorded after all earlier calls |
| I2CHal.Bus.SendAck | include/hal_i2c.c:73-76 | an ACK is recorded after all earlier calls |
| I2CHal.Bus.SendNack | include/hal_i2c.c:78-81 | a NACK is recorded after all earlier calls |
| I2CHal.Bus.SendAddress | include/hal_i2c.c:87-95 | the address is recorded with its R/W direction |
| I2CHal.Bus.SendData | include/hal_i2c.c:97-101 | the data byte is recorded |
| I2CHal.Bus.ReadData | include/hal_i2c.c:103-107 | returns the byte the peripheral presents after the calls so far, and records it as received |
| I2CHal.Bus.Query | include/hal_i2c.c:113-134 | a status query returns the peripheral's reading of that flag after the calls so far, and records the reading |
| I2CHal.SnocPoll | include/hal_i2c.c:113-134 | a status query is neither a bus action nor a received byte |
| I2C.Driver.constructor | drivers/i2c.c:20 | the static handle starts zeroed: speed 0, 7-bit addressing |
| I2C.Driver.Init | drivers/i2c.c:40-50 | the handle holds the configured speed, in Hz, and addressing mode; the bus sees exactly EnableClock, ConfigurePins, SetSpeed(speed), Enable, in that order |
| I2C.Driver.WaitForFlag | drivers/i2c.c:26-34 | status and trace are those of the bounded wait `Wait`, whose behaviour WaitFacts pins down |
| I2C.Driver.Open | drivers/i2c.c:54-62 | status and trace of START and the address phase are those of `Opening`, whose behaviour OpeningFacts pins down |
| I2C.Driver.WriteByte | drivers/i2c.c:52-71 | status and trace are exactly those of a WriteBuffer of the one byte |
| I2C.Driver.WriteBuffer | drivers/i2c.c:73-95 | status and trace are those of `WriteBufferRun`, whose behaviour WriteBufferFacts pins down |
| I2C.Driver.ReadByte | drivers/i2c.c:97-116 | status and trace are those of `ReadByteRun`; on OK the byte returned is the one byte received; on any failure the output keeps the value it had before the call |
| I2C.Driver.ReadBuffer | drivers/i2c.c:118-145 | status and trace are those of `ReadBufferRun`; the n bytes received, at most len, are stored in order at buffer[0..n); the rest of the buffer is untouched |
| I2C.WritePhaseOfOne | drivers/i2c.c:64-67 | the one-byte data phase returns OK when its TXE wait succeeds and TIMEOUT otherwise |
| I2C.ReadByteReceives | drivers/i2c.c:109-112 | a successful ReadByte receives exactly the byte the peripheral presents after the RXNE wait |
| I2C.WaitSilent | drivers/i2c.c:26-34 | a wait ends OK or TIMEOUT, takes no bus action and receives nothing |
| I2C.WaitEnds | drivers/i2c.c:26-34 | a wait keeps the history, adds only readings, and its last reading is true exactly when it returns OK, false exactly when it returns TIMEOUT |
| I2C.WaitFacts | drivers/i2c.c:26-34 | a wait appends only polls of its flag, each the peripheral's reading at that point, and at most budget+1 of them; it returns OK exactly when the last reading is true, every earlier reading is false, and TIMEOUT comes only after budget+1 false readings |
| I2C.WaitImmediate | drivers/i2c.c:28 | a flag that is already set costs one reading and no budget, and the wait returns OK |
| I2C.OpeningSilent | drivers/i2c.c:54-62 | the opening receives nothing and ends OK, TIMEOUT or ADDR_NACK |
| I2C.OpeningEnds | drivers/i2c.c:54-62 | the opening keeps the history; no bus action follows a false reading; it returns TIMEOUT exactly when it ends on a false START reading, ADDR_NACK exactly when it ends on a false address reading, OK exactly when it ends on a true address reading |
| I2C.OpeningFacts | drivers/i2c.c:54-62 | START comes first; a failed START wait returns TIMEOUT with no address sent; the status is ADDR_NACK exactly when the address wait ends on a false reading, never TIMEOUT once START succeeded; no bus action follows a false reading; success sends exactly START and the address with its direction |
| I2C.WritePhaseSilent | drivers/i2c.c:85-91 | the write data loop ends OK or TIMEOUT and receives nothing |
| I2C.WritePhaseEnds | drivers/i2c.c:85-91 | the write data loop keeps the history; no bus action follows a false TXE reading; it returns TIMEOUT exactly when it ends on one; on OK it ends on a true TXE reading, or adds nothing for an empty buffer |
| I2C.WritePhaseFacts | drivers/i2c.c:85-91 | on OK the data loop sends every byte, in index order; on TIMEOUT it has sent a non-empty prefix of them; it returns TIMEOUT exactly when its trace ends on a false TXE reading, and no byte is sent after a false reading |
| I2C.SendsHaveNoStop | drivers/i2c.c:85-91 | the sends of a data loop contain no STOP |
| I2C.WriteBufferEnds | drivers/i2c.c:73-95 | a write keeps the history; no bus action follows a false reading; it returns ADDR_NACK exactly when it ends on a false address reading, TIMEOUT exactly when it ends on a false START or TXE reading, OK exactly when it ends on STOP |
| I2C.WriteBufferFacts | drivers/i2c.c:73-95 | never DATA_NACK or ERROR; an opening failure is the whole result; success is exactly START, address with WRITE, every byte in order, one STOP; a data timeout at byte i returns TIMEOUT after bytes 0..i, without STOP; TIMEOUT exactly when the trace ends on a false START or TXE reading, ADDR_NACK exactly when it ends on a false address reading, and nothing is done after a false reading |
| I2C.WriteStopsOnlyOnSuccess | drivers/i2c.c:73-95 | a write generates a STOP if and only if it returns OK |
| I2C.HandshakeNoStop | drivers/i2c.c:130-141 | the read handshake contains no STOP |
| I2C.HandshakeAt | drivers/i2c.c:135-140 | each received byte is followed by its answer: NACK after the last byte of the read, ACK after every other byte |
| I2C.ReadPhaseEnds | drivers/i2c.c:130-141 | the read loop keeps the history; no bus action follows a false RXNE reading; it returns TIMEOUT exactly when it ends on one; on OK it ends on the final NACK, or adds nothing for a zero length |
| I2C.ReadPhaseFacts | drivers/i2c.c:130-141 | the read loop performs the handshake over the bytes it receives; it is OK exactly when all remaining bytes arrive, TIMEOUT otherwise; TIMEOUT exactly when its trace ends on a false RXNE reading, and no byte is read after a false reading |
| I2C.ReadBufferEnds | drivers/i2c.c:118-145 | a buffered read keeps the history; no bus action follows a false reading; it returns ADDR_NACK exactly when it ends on a false address reading, TIMEOUT exactly when it ends on a false START or RXNE reading, OK exactly when it ends on STOP |
| I2C.ReadBufferFacts | drivers/i2c.c:118-145 | never DATA_NACK or ERROR; an opening failure receives nothing; success is exactly START, address with READ, the handshake over len bytes, one STOP; a data timeout receives fewer than len bytes and sends no STOP; TIMEOUT exactly when the trace ends on a false START or RXNE reading, ADDR_NACK exactly when it ends on a false address reading, and nothing is done after a false reading |
| I2C.ReadOneEnds | drivers/i2c.c:109-112 | the single-byte data phase reads only after a true RXNE reading and returns TIMEOUT exactly when it ends on a false one |
| I2C.ReadByteEnds | drivers/i2c.c:97-116 | a single-byte read keeps the history; no bus action follows a false reading; it returns ADDR_NACK exactly when it ends on a false address reading, TIMEOUT exactly when it ends on a false START or RXNE reading, OK exactly when it ends on STOP |
| I2C.ReadByteFacts | drivers/i2c.c:97-116 | never DATA_NACK or ERROR; success is exactly START, address with READ, one received byte, STOP; an RXNE timeout receives nothing and sends no STOP; TIMEOUT exactly when the trace ends on a false START or RXNE reading, ADDR_NACK exactly when it ends on a false address reading, and nothing is done after a false reading |
| I2C.ReadBufferOfOneNacks | drivers/i2c.c:137-138 | a successful one-byte ReadBuffer sends a NACK |
| I2C.ReadByteNeverAcks | drivers/i2c.c:97-116 | ReadByte sends neither ACK nor NACK, on any path |
| I2CSim.EnableBits | include/hal_i2c.c:44-47 | Enable sets CR.ENABLE and changes no other bit or register |
| I2CSim.SetSpeedBits | include/hal_i2c.c:49-53 | SetSpeed writes the frequency into CCR and changes nothing else |
| I2CSim.StartBits | include/hal_i2c.c:59-64 | GenerateStart sets CR.START, clears CR.STOP and sets SR.BUSY; every other bit, DR and CCR are unchanged |
| I2CSim.StopBits | include/hal_i2c.c:66-71 | GenerateStop sets CR.STOP, clears CR.START and clears SR.BUSY; nothing else changes |
| I2CSim.AckBits | include/hal_i2c.c:73-76 | SendACK sets CR.ACK and nothing else |
| I2CSim.NackBits | include/hal_i2c.c:78-81 | SendNACK clears CR.ACK and nothing else |
| I2CSim.AddressBits | include/hal_i2c.c:87-95 | SendAddress puts the R/W bit in DR bit 0 with the address above it, and sets SR.ADDR and SR.TXE; CR, CCR and the other SR bits are unchanged |
| I2CSim.SendBits | include/hal_i2c.c:97-101 | SendData puts the byte in DR and sets SR.TXE, leaving the other bits |
| I2CSim.RxPollBits | include/hal_i2c.c:128-134 | IsRxReady sets SR.RXNE and loads 0x33 into DR, leaving CR and CCR |
| I2CSim.DataIsLowByte | include/hal_i2c.c:103-107 | ReadData returns DR modulo 256 |
| I2CSim.RxPollIdempotent | include/hal_i2c.c:128-134 | calling IsRxReady twice leaves the registers as one call does |
| I2CSim.QueriesAreReads | include/hal_i2c.c:113-126 | IsStartGenerated, IsAddressSent and IsTxComplete change no register |
| I2CSim.AddressEncodingExample | include/hal_i2c.c:87-95 | address 0x48 leaves DR = 0x90 with WRITE and 0x91 with READ |
| I2CSim.Peripheral.constructor | include/hal_i2c.c:24 | the block starts with every register zero |
| I2CSim.Peripheral.Enable | include/hal_i2c.c:44-47 | the block after the call is Enable's update of the block before |
| I2CSim.Peripheral.SetSpeed | include/hal_i2c.c:49-53 | the block after the call is SetSpeed's update |
| I2CSim.Peripheral.GenerateStart | include/hal_i2c.c:59-64 | the three read-modify-writes together are GenerateStart's update |
| I2CSim.Peripheral.GenerateStop | include/hal_i2c.c:66-71 | the three read-modify-writes together are GenerateStop's update |
| I2CSim.Peripheral.SendAck | include/hal_i2c.c:73-76 | the block after the call is SendACK's update |
| I2CSim.Peripheral.SendNack | include/hal_i2c.c:78-81 | the block after the call is SendNACK's update |
| I2CSim.Peripheral.SendAddress | include/hal_i2c.c:87-95 | the three writes together are SendAddress's update |
| I2CSim.Peripheral.SendData | include/hal_i2c.c:97-101 | the two writes together are SendData's update |
| I2CSim.Peripheral.ReadData | include/hal_i2c.c:103-107 | returns the low byte of DR and changes nothing |
| I2CSim.Peripheral.IsStartGenerated | include/hal_i2c.c:113-116 | returns CR.START and changes nothing |
| I2CSim.Peripheral.IsAddressSent | include/hal_i2c.c:118-121 | returns SR.ADDR and changes nothing |
| I2CSim.Peripheral.IsTxComplete | include/hal_i2c.c:123-126 | returns SR.TXE and changes nothing |
| I2CSim.Peripheral.IsRxReady | include/hal_i2c.c:128-134 | always returns true, and sets SR.RXNE and DR = 0x33 |
| I2CScenarios.SimStartAnswered | include/hal_i2c.c:59-64 | on the simulation, IsStartGenerated reads true right after GenerateStart, whatever came before |
| I2CScenarios.SimAddressAnswered | include/hal_i2c.c:87-95 | on the simulation, IsAddressSent reads true right after SendAddress |
| I2CScenarios.SimSendAnswered | include/hal_i2c.c:97-101 | on the simulation, IsTxComplete reads true right after SendData |
| I2CScenarios.SimDataAfterRxPoll | include/hal_i2c.c:128-134 | on the simulation, ReadData returns 0x33 right after IsRxReady |
| I2CScenarios.SimIsResponsive | include/hal_i2c.c:59-134 | from any initial block, the simulation answers every wait of the engine at its first poll and presents 0x33 after each RXNE poll |
| I2CScenarios.ResponsiveOpening | drivers/i2c.c:54-62 | on a responsive peripheral the opening returns OK with one successful poll per wait |
| I2CScenarios.ResponsiveWritePhase | drivers/i2c.c:85-91 | on a responsive peripheral every byte is accepted at its first TXE poll |
| I2CScenarios.ResponsiveReadPhase | drivers/i2c.c:130-141 | on a responsive peripheral every position receives 0x33 at its first RXNE poll, followed by its ACK or NACK |
| I2CScenarios.PolledReadsReceive | drivers/i2c.c:130-141 | the read loop on the simulation receives one 0x33 per remaining position |
| I2CScenarios.OpeningReceivesNothing | drivers/i2c.c:54-62 | START, the address and their polls receive no byte |
| I2CScenarios.ResponsiveWriteBuffer | drivers/i2c.c:73-95 | on a responsive peripheral a write of any buffer returns OK, sending every byte and then STOP |
| I2CScenarios.ResponsiveReadBuffer | drivers/i2c.c:118-145 | on a responsive peripheral a read of any length returns OK, receiving len copies of 0x33 |
| I2CScenarios.ResponsiveReadByte | drivers/i2c.c:97-116 | on a responsive peripheral a single-byte read returns OK with 0x33, sending neither ACK nor NACK |
| I2CScenarios.SendThenStopRegisters | include/hal_i2c.c:66-101 | a data byte, its TXE poll and STOP leave the byte in DR, CR.STOP set, and CR.START and SR.BUSY clear |
| I2CScenarios.SimWriteByteRegisters | drivers/i2c.c:52-71 | after WriteByte on the simulation, DR holds the data byte, CR.STOP is set and CR.START and SR.BUSY are clear |
| I2CScenarios.TestI2CWrite | tests/test_i2c_uart.c:83-101 | with SR.ADDR preset, Init and WriteByte(0x48, 0x55) return OK; DR = 0x55, CR.STOP set, SR.BUSY clear |
| I2CScenarios.TestI2CRead | tests/test_i2c_uart.c:103-126 | with SR.ADDR, SR.RXNE and DR = 0x33 preset, Init and ReadByte(0x48) return OK and the byte 0x33 |
| UartHal.EnableBits | hal/hal_uart.c:49-52 | Enable sets CTRL.ENABLE and nothing else |
| UartHal.SetBaudrateBits | hal/hal_uart.c:54-57 | SetBaudrate writes BAUD and nothing else |
| UartHal.SetParityBits | hal/hal_uart.c:59-67 | EVEN is set exactly for parity 1 and ODD exactly for parity 2, so never both; other CTRL bits and registers are untouched |
| UartHal.SetParityIdempotent | hal/hal_uart.c:59-67 | setting the same parity twice is the same as setting it once |
| UartHal.SetStopBitsBits | hal/hal_uart.c:69-75 | STOP_2 is set exactly for the value 2 and cleared otherwise; every other bit is untouched |
| UartHal.SendByteBits | hal/hal_uart.c:81-87 | SendByte leaves the byte in DATA and TX_READY set; RX_READY, CTRL and BAUD are unchanged |
| UartHal.ReadByteBits | hal/hal_uart.c:89-93 | ReadByte clears RX_READY only, so IsRxReady then reads false while TX_READY is kept |
| UartHal.ReceivedIsLowByte | hal/hal_uart.c:92 | ReadByte returns DATA modulo 256 |
| UartHal.Uart.constructor | hal/hal_uart.c:24-29 | initial block STATUS = TX_READY, DATA = 0, CTRL = 0, BAUD = 115200, and nothing sent |
| UartHal.Uart.Enable | hal/hal_uart.c:49-52 | the block after the call is Enable's update; nothing is sent |
| UartHal.Uart.SetBaudrate | hal/hal_uart.c:54-57 | the block after the call is SetBaudrate's update |
| UartHal.Uart.SetParity | hal/hal_uart.c:59-67 | the clear and the conditional set together are SetParity's update |
| UartHal.Uart.SetStopBits | hal/hal_uart.c:69-75 | both branches are SetStopBits' update |
| UartHal.Uart.SendByte | hal/hal_uart.c:81-87 | the block after the call is SendByte's update, and the byte is appended to what has been sent |
| UartHal.Uart.ReadByte | hal/hal_uart.c:89-93 | returns the low byte of DATA as it was; the block after the call has RX_READY cleared |
| UartHal.Uart.IsTxReady | hal/hal_uart.c:99-103 | returns STATUS.TX_READY and changes nothing |
| UartHal.Uart.IsRxReady | hal/hal_uart.c:105-109 | returns STATUS.RX_READY and changes nothing |
| Uart.InitRegisters | drivers/uart.c:26-41 | after Init: BAUD is the configured rate, CTRL.ENABLE is set, EVEN exactly for UART_PARITY_EVEN and ODD exactly for UART_PARITY_ODD, STATUS and DATA untouched |
| Uart.EnableParityKept | hal/hal_uart.c:49-52 | Enable keeps both parity bits |
| Uart.LaterStepsKeepStop2 | drivers/uart.c:38-40 | SetParity followed by Enable keeps STOP_2 |
| Uart.InitNeverSetsStop2 | drivers/uart.c:37 | Init as written never sets STOP_2, whatever the configuration |
| Uart.IntendedInitSetsStop2 | drivers/uart.c:37 | passing the number of stop bits sets STOP_2 exactly for UART_STOPBITS_2 |
| Uart.SendAllFacts | hal/hal_uart.c:81-87 | after a run of sends DATA holds the last byte and TX is ready; RX_READY, CTRL and BAUD are as before; no sends leave the block as it was |
| Uart.CStringFacts | drivers/uart.c:52-58 | the text contains no NUL, is a prefix of the storage, and is followed there by a NUL |
| Uart.CStringOf | drivers/uart.c:52-58 | any NUL-free text followed by a NUL is read back as exactly that text |
| Uart.Pow2Nibbles | drivers/uart.c:75 | shifting right by 4·k bits is dividing by 16^k |
| Uart.HexDigitsAt | drivers/uart.c:75 | character j of the low n hex digits is the symbol of nibble n-1-j |
| Uart.HexValueOfSymbol | drivers/uart.c:71 | each of "0123456789ABCDEF" reads back as its position |
| Uart.HexDigitsAreSymbols | drivers/uart.c:71-77 | every character of the hex digits is one of "0123456789ABCDEF" |
| Uart.HexDigitsParse | drivers/uart.c:73-77 | parsing the low n hex digits gives the value modulo 16^n |
| Uart.HexRoundTrip | drivers/uart.c:69-78 | WriteHex sends exactly 8 characters from "0123456789ABCDEF", and parsing them as base 16 gives the value back |
| Uart.DigitsParse | drivers/uart.c:97-101 | parsing the decimal digits of n gives n |
| Uart.DigitsAreDigits | drivers/uart.c:99 | every character of the decimal digits is between '0' and '9' |
| Uart.DigitsNoLeadingZero | drivers/uart.c:97-101 | a positive number has a first digit, and it is not '0' |
| Uart.DigitsLength | drivers/uart.c:82 | n has at most k digits if and only if n < 10^k |
| Uart.DecRoundTrip | drivers/uart.c:80-107 | WriteDec sends "0" for zero, '-' before the digits of the magnitude for a negative value, at most ten digits with no leading zero, and parsing the output gives the value back |
| Uart.RevSnoc | drivers/uart.c:103-106 | reversing s followed by b gives b followed by the reverse of s |
| Uart.DecWidth | drivers/uart.c:82 | a magnitude below 2^31 has at most 10 digits, so the 12-byte buffer is large enough |
| Uart.DigitStep | drivers/uart.c:97-101 | one iteration of the digit loop moves the least significant remaining digit into the buffer, keeping the reversed buffer a suffix of the digits |
| Uart.DecSign | drivers/uart.c:91-95 | the sign written first and the digits of the magnitude together make the decimal string |
| Uart.RevStep | drivers/uart.c:103-106 | sending buffer[i] extends the reversed tail of the buffer by one digit |
| Uart.HexStep | drivers/uart.c:73-77 | the nibble at bit i continues the hex string by one character |
| Uart.StoreDigits | drivers/uart.c:97-101 | the first loop stores the decimal digits of the magnitude, least significant first, in at most 12 positions of the buffer |
| Uart.UartDriver.constructor | drivers/uart.c:20 | the static handle starts zeroed |
| Uart.UartDriver.Init | drivers/uart.c:26-41 | the handle holds the configuration; the registers are SetBaudrate, SetStopBits and SetParity with the raw enum values, then Enable, applied to the block before; nothing is sent |
| Uart.UartDriver.WriteChar | drivers/uart.c:43-50 | once TX is ready, exactly the character is sent and the block is SendByte's update; TX stays ready |
| Uart.UartDriver.ReadChar | drivers/uart.c:60-67 | once RX is ready, returns the low byte of DATA; RX is then not ready and nothing is sent |
| Uart.UartDriver.WriteString | drivers/uart.c:52-58 | sends exactly the characters before the first NUL, in order, one WriteChar each |
| Uart.UartDriver.WriteHex | drivers/uart.c:69-78 | sends exactly HexString(value), the eight hex digits from bits 31..28 down to 3..0 |
| Uart.UartDriver.WriteDec | drivers/uart.c:80-107 | sends exactly DecString(value) for any value but INT_MIN |
| Uart.TestUartWriteRead | tests/test_i2c_uart.c:52-77 | after Init at 9600 baud, a presented 'A' is what ReadChar returns, and WriteChar('Z') leaves 'Z' in DATA |

## Left out

- 10-bit addressing: `I2C_ADDR_10BIT` is stored in the handle by `I2C_Init` but never changes what goes on the wire, so the model stores it and the proofs ignore it.
- `putchar`/`fflush` in `HAL_UART_SendByte` and `printf` in the tests are standard-output I/O. The bytes written are modelled as the sequence `Uart.sent`; the output stream itself is not modelled.
- `src/main.c` is a demonstration loop that only prints; it is not part of this model.
- `include/board.h` holds board constants only and is not part of this model.
- The empty bodies of `HAL_UART_EnableClock`, `HAL_UART_ConfigurePins` (hal/hal_uart.c:35-43), `HAL_I2C_EnableClock` and `HAL_I2C_ConfigurePins` (include/hal_i2c.c:30-38) change no register. The UART driver's calls to them are omitted. The I2C calls are kept in the bus trace, and `I2CSim.Step` leaves the registers alone for them.
- `volatile`, real hardware timing and concurrent register changes are not modelled. A register changes only through a HAL call or an explicit write in a test.
- Uart.UartDriver.WriteChar and Uart.UartDriver.ReadChar: the unbounded spin-waits on TX_READY and RX_READY are modelled as a precondition that the flag is already set, so the wait ends at its first poll. Nothing is proved about a peripheral that never becomes ready.
- Uart.UartDriver.WriteDec: excludes INT_MIN by precondition, because `value = -value` overflows for it in C.
- Uart.UartDriver.WriteHex: `value >> i` and `& 0xF` are written as division by 2^i and remainder by 16 on a natural number below 2^32. These agree with the C operators for unsigned values.
- I2C.Driver.ReadByte: follows the code, which issues no ACK or NACK before the STOP. A single-byte master read that NACKs its byte, as `I2C_ReadBuffer` with length 1 does, is not what this function does.
- I2C.Driver.WaitForFlag: follows the code's post-decrement test. A timeout happens only after timeout+1 false readings, not after timeout of them.
- I2C.Driver.Open: the START-and-address sequence repeated in all four transactions is factored into one method. Its specification `Opening` is the same code path for each of them.
- Uart.StoreDigits: the first loop of `UART_WriteDec` is a separate method over the local buffer, with the same iterations; the buffer is still a 12-byte array.
- UartHal.Uart.ReadByte: reads DATA before clearing RX_READY. The C code clears first. The two orders leave the same state and return the same byte, since clearing STATUS does not touch DATA.
- UartHal.Uart.SetParity: the if/else-if of the C code is written as OR-ing in the bit `ParityBit(parity)`, which is EVEN for 1, ODD for 2 and no bit otherwise.
- DATA and BAUD are 32-bit unsigned integers that the code only stores, compares and truncates, so they are the `u32` integer type. The C `char` of the UART driver is the unsigned `byte` type; a negative `char` is sent as the same byte.
- `I2CHal.Bus` is an abstract recorder of Register Interface calls whose answers come from a `Device` oracle. The concrete register block is `I2CSim.Peripheral`, and `I2CSim.Sim` connects the two. The engine's methods are not run against `Peripheral` objects directly.
- The duplicate definitions of `I2C1` and `UART1` in the test file are a linking concern. The I2C tests start from the register values the test's reset function writes, and the UART test overwrites the reset block the same way.

## Findings

| source | as written | input that shows it | evidently intended | confidence | as-written member | corrected member |
|---|---|---|---|---|---|---|
| drivers/uart.c:37 | `UART_Init` passes the raw `UART_StopBits_t` value to `HAL_UART_SetStopBits`. That value is 0 or 1 (drivers/uart.h:26-30), but the HAL selects two stop bits only for the value 2 (hal/hal_uart.c:69-75), so STOP_2 is never set | `stop_bits = UART_STOPBITS_2` | CTRL.STOP_2 set exactly when two stop bits are configured | not executed | Uart.InitNeverSetsStop2 | Uart.IntendedInitSetsStop2 |

`Uart.UartDriver.Init` keeps the code as written. `Uart.IntendedConfigured` is the corrected configuration: it passes the number of stop bits.
