# Serial-bus drivers: SPI EEPROM, I2C motion sensor, UART

A Dafny model of a small microcontroller hardware-abstraction layer with three
serial-bus drivers:

- **SPI, 25LC256 EEPROM** (`spi_eeprom.dfy`, module `SpiEeprom`). The SPI
  transport is a `Bus` class. It records every chip-select edge and every byte
  clocked out in a `trace`, and answers each transfer from a `responses`
  script. `EEPROM_WriteByte` is modelled as three transactions: write enable,
  write (address high byte first), then the status poll. The poll is a loop
  proved against the state machine `Poll`. `EEPROM_ReadByte` is one
  transaction, and the byte received on its dummy transfer is the result.
  Chip-select discipline is the function `ChipSelect`; `Balanced` says that
  chip-select alternates, starts low and ends high, with every transfer made
  while the device is selected.
- **A reference 25LC256** (`fake_eeprom.dfy`, module `FakeEeprom`). An
  interpreter of SPI traces. It latches WREN, stores on a complete WRITE,
  answers READ from its cells and RDSR from its status register. Against it,
  the driver's write followed by a read of the same address returns the
  written byte. This is the comparison in the demonstration of
  `spi_comm_device.c`.
- **I2C, MPU6050** (`i2c_mpu6050.dfy`, module `I2cMpu6050`). The I2C transport
  is a `Bus` class. It records the Start, repeated Start, Stop, address and
  byte events of each transaction, in the order the comments on `I2C_Write`
  and `I2C_Read` give. `I2C_Read` fills a caller's array in place. The sample
  decoder rebuilds six signed 16-bit channels from the 14-byte block.
  - The channels are sent high byte first.
  - The temperature pair at bytes 6 and 7 is skipped.
  - Each value is reinterpreted as two's complement.
- **UART** (`uart.dfy`, module `Uart`). The registers DR, IBRD, FBRD, LCRH and
  CTL are fields of a `Port` class, and `log` records every register access.
  The flag register and the received data are scripts. Initialisation is an
  ordered series of register writes. The baud divisor and the bit fields are
  proved against their definitions. Transmit and receive wait on the flag
  register. Print sends a NUL-terminated string.

`bytes.dfy` (module `Bytes`) holds the byte types and the script operations
`At`, `Drop` and `Take`. An exhausted script reads as 0. That is the value the
stubbed SPI transfer returns, and a flag register that reads 0 shows "transmit
FIFO not full" and "receive FIFO not empty".

The model follows the code throughout, with one deliberate strengthening: the
EEPROM status poll at spi_comm_device.c:53-58 loops without limit, and the
model gives it an attempt budget and a Ready/Timeout result, so that the poll
provably ends (see "Left out").

## Model

| member | source | states |
|---|---|---|
| SpiEeprom.Bus.constructor | spi_comm_device.c:23-29 | a fresh bus has an empty trace and the given reply script |
| SpiEeprom.Bus.ChipSelectLow | spi_comm_device.c:28 | `CS_Low` appends one CSLow event and consumes no reply |
| SpiEeprom.Bus.ChipSelectHigh | spi_comm_device.c:29 | `CS_High` appends one CSHigh event and consumes no reply |
| SpiEeprom.Bus.Transfer | spi_comm_device.c:23-26 | `SPI_Transfer` logs the byte sent and returns the next scripted reply (0 once the script is exhausted), consuming exactly one |
| SpiEeprom.Join | spi_comm_device.c:46-47 | the device reassembles an address whose high and low bytes are exactly the two bytes sent |
| SpiEeprom.AddressHigh | spi_comm_device.c:46 | the definition of `(uint8_t)(address >> 8)` (also line 68); its result is the block of 256 addresses the address lies in |
| SpiEeprom.AddressLow | spi_comm_device.c:47 | the definition of `(uint8_t)(address & 0xFF)` (also line 69); its result differs from the address by a multiple of 256 |
| SpiEeprom.AddressRoundTrip | spi_comm_device.c:46-47 | for every 16-bit address, `(addr >> 8) * 256 + (addr & 0xFF) == addr`, and both halves are bytes |
| SpiEeprom.TransactionsAreFramed | spi_comm_device.c:39-71 | the write-enable, write, status and read transactions are each CSLow, then the bytes WREN / WRITE hi lo data / RDSR 0xFF / READ hi lo 0xFF, then CSHigh |
| SpiEeprom.WriteEnableTxn | spi_comm_device.c:39-41 | the definition of the write-enable transaction: CSLow, WREN, CSHigh |
| SpiEeprom.WriteTxn | spi_comm_device.c:44-49 | the definition of the write transaction: CSLow, WRITE, address high byte, address low byte, data, CSHigh |
| SpiEeprom.StatusTxn | spi_comm_device.c:54-57 | the definition of one poll attempt: CSLow, RDSR, 0xFF, CSHigh |
| SpiEeprom.ReadTxn | spi_comm_device.c:66-71 | the definition of the read transaction: CSLow, READ, address high byte, address low byte, 0xFF, CSHigh |
| SpiEeprom.ChipSelectAppend | spi_comm_device.c:39-71 | the chip-select state after a concatenation is that of the second part, started from the first part's state |
| SpiEeprom.BalancedConcat | spi_comm_device.c:39-58 | transactions issued one after another keep chip-select balanced |
| SpiEeprom.XfersKeepSelected | spi_comm_device.c:45-48 | transfers never move chip-select |
| SpiEeprom.TransactionFramedOnce | spi_comm_device.c:39-71 | a transaction of any length is balanced, with exactly one CSLow and one CSHigh |
| SpiEeprom.PollsFramed | spi_comm_device.c:53-58 | n poll attempts are balanced, with n CSLow and n CSHigh |
| SpiEeprom.WriteByteFramed | spi_comm_device.c:37-59 | all of `EEPROM_WriteByte` is balanced, with one CSLow/CSHigh pair per transaction (attempts + 2) |
| SpiEeprom.ReadByteFramed | spi_comm_device.c:64-73 | `EEPROM_ReadByte` is one balanced transaction |
| SpiEeprom.BalancedEnds | spi_comm_device.c:39-71 | a non-empty balanced trace starts with CSLow and ends with CSHigh |
| SpiEeprom.Poll | spi_comm_device.c:52-58 | the poll state machine never makes more attempts than its budget |
| SpiEeprom.WriteInProgress | spi_comm_device.c:58 | `status & 0x01`, computed on the byte's bits; it holds exactly when the status is odd |
| SpiEeprom.PollMeaning | spi_comm_device.c:52-58 | a poll makes at least one attempt; every status before the last had bit 0 set; Ready exactly when the last status read had bit 0 clear; Timeout only after the whole budget |
| SpiEeprom.NeverReadyTimesOut | spi_comm_device.c:53-58 | with a budget of N and a status that never clears, exactly N attempts, then Timeout |
| SpiEeprom.FirstClearIsReady | spi_comm_device.c:53-58 | if the first clear status is at attempt k, the poll is Ready after k + 1 attempts |
| SpiEeprom.ReadStatus | spi_comm_device.c:54-57 | one poll attempt is the transaction RDSR, 0xFF; the reply to the 0xFF is the status |
| SpiEeprom.PollStatus | spi_comm_device.c:52-58 | the do-while poll loop gives the result, the trace of attempts and the replies consumed that `Poll` gives over the bus's replies |
| SpiEeprom.WriteEnable | spi_comm_device.c:39-41 | step 1 emits exactly `[CSLow, Xfer(0x06), CSHigh]` |
| SpiEeprom.SendWrite | spi_comm_device.c:44-49 | step 2 emits exactly `[CSLow, Xfer(0x02), Xfer(hi), Xfer(lo), Xfer(data), CSHigh]` |
| SpiEeprom.WriteByte | spi_comm_device.c:37-59 | the trace is write enable, write, then the poll's attempts; the poll reads the replies left after the first five transfers |
| SpiEeprom.ReadByte | spi_comm_device.c:64-73 | emits `[CSLow, Xfer(0x03), Xfer(hi), Xfer(lo), Xfer(0xFF), CSHigh]` and returns the reply to the 0xFF transfer |
| FakeEeprom.RunAppend | spi_comm_device.c:37-73 | the device's state and replies over two traces in sequence compose |
| FakeEeprom.XfersCollect | spi_comm_device.c:23-26 | while selected, the device only collects the bytes it receives |
| FakeEeprom.XfersReply | spi_comm_device.c:23-26 | each reply depends only on the bytes received before it |
| FakeEeprom.TransactionRun | spi_comm_device.c:39-71 | a framed transaction runs its command on release and answers each byte from the bytes before it |
| FakeEeprom.WriteStores | spi_comm_device.c:37-49 | write enable followed by a write stores the byte at the address and leaves every other cell alone |
| FakeEeprom.PollsKeepCells | spi_comm_device.c:52-58 | status reads change no cell |
| FakeEeprom.ReadAnswers | spi_comm_device.c:64-73 | a read transaction answers the addressed cell on the dummy transfer |
| FakeEeprom.WriteThenReadBack | spi_comm_device.c:84-93 | after `EEPROM_WriteByte(a, v)`, however many poll attempts it made, `EEPROM_ReadByte(a)` receives v |
| FakeEeprom.StatusNeverBusy | spi_comm_device.c:52-58 | this device always answers a status read with bit 0 clear |
| FakeEeprom.WriteReplies | spi_comm_device.c:37-49 | the first two transactions get five replies and leave the device released |
| FakeEeprom.DeviceIsReadyAtOnce | spi_comm_device.c:52-58 | against this device the poll is Ready after one attempt, whatever the budget |
| FakeEeprom.ReadBackReplies | spi_comm_device.c:84-93 | over the write and the read-back, the device's seventh reply is a clear status and its last reply is the byte written |
| FakeEeprom.WriteReadBack | spi_comm_device.c:84-93 | writing a byte, reading it back from the same address and comparing succeeds against this device |
| I2cMpu6050.AddressByte | i2c_sensor_read.c:26 | the address byte carries the 7-bit address in its upper bits and the read/write bit (1 for read) in bit 0 |
| I2cMpu6050.SensorAddressBytes | i2c_sensor_read.c:13 | the MPU6050 at 0x68 is addressed on the wire as 0xD0 for a write and 0xD1 for a read |
| I2cMpu6050.WriteFrame | i2c_sensor_read.c:26 | the definition of the write frame: Start, Addr(W), register, data, Stop |
| I2cMpu6050.ReadFrame | i2c_sensor_read.c:30 | the definition of the read frame: Start, Addr(W), register, repeated Start, Addr(R), the bytes, Stop |
| I2cMpu6050.WriteFrameShape | i2c_sensor_read.c:26 | a register write is Start, Addr(W), register, data, Stop: one transaction, one address with write intent, no repeated Start |
| I2cMpu6050.ReadFrameShape | i2c_sensor_read.c:30 | a register read is Start, Addr(W), register, repeated Start, Addr(R), the N bytes in order, Stop: one transaction with exactly one repeated Start |
| I2cMpu6050.Bus.constructor | i2c_sensor_read.c:25-31 | a fresh bus has an empty trace and the given reply script |
| I2cMpu6050.Bus.Write | i2c_sensor_read.c:25-27 | `I2C_Write` appends exactly the write frame |
| I2cMpu6050.Bus.Read | i2c_sensor_read.c:29-31 | `I2C_Read` fills the first `size` array cells with the next replies, leaves the other cells alone, and logs the read frame carrying them |
| I2cMpu6050.Combine | i2c_sensor_read.c:57 | the cast of `hi << 8` OR `lo` to `int16_t` lies in [-32768, 32767], agrees with `hi*256 + lo` modulo 2^16, and is negative exactly when bit 7 of hi is set |
| I2cMpu6050.CombineSplit | i2c_sensor_read.c:57-63 | every int16 value comes from a byte pair: combining its split gives it back |
| I2cMpu6050.SplitCombine | i2c_sensor_read.c:57-63 | splitting a combined value gives back the bytes, so the combination is a bijection |
| I2cMpu6050.CombineExamples | i2c_sensor_read.c:57 | `[0x12, 0x34]` gives 4660, `[0xFF, 0xFF]` gives -1, `[0x80, 0x00]` gives -32768 |
| I2cMpu6050.ChannelOffset | i2c_sensor_read.c:57-63 | every channel's high byte has an even offset with its low byte inside the block, and none starts at the temperature pair |
| I2cMpu6050.Decode | i2c_sensor_read.c:57-63 | the six channels come from byte pairs (0,1), (2,3), (4,5), (8,9), (10,11), (12,13) |
| I2cMpu6050.DecodeEncode | i2c_sensor_read.c:57-63 | decoding a block the sensor sent recovers all six channels |
| I2cMpu6050.EncodeDecode | i2c_sensor_read.c:57-63 | decoding loses only the temperature pair |
| I2cMpu6050.TemperatureIgnored | i2c_sensor_read.c:57-63 | two blocks that differ only in bytes 6 and 7 decode identically |
| I2cMpu6050.RegisterMapConsistent | i2c_sensor_read.c:13-18 | `GYRO_XOUT_H - ACCEL_XOUT_H == 8` matches the gyroscope offset used, and 0x68 is a non-zero 7-bit address |
| I2cMpu6050.Init | i2c_sensor_read.c:39-43 | `MPU6050_Init` issues exactly one write, to device 0x68, register 0x6B, data 0 |
| I2cMpu6050.ReadData | i2c_sensor_read.c:48-63 | `MPU6050_Read_Data` reads 14 bytes from 0x3B in one read frame and decodes them |
| Uart.InitOrder | uart_tx_rx.c:28-39 | `UART_Init` writes CTL = 0 first and the enable value to CTL last, with only IBRD, FBRD and LCRH written in between |
| Uart.LineControlFields | uart_tx_rx.c:35-36 | LCRH = 0x70: word length 3 (8 bits), FIFOs on, no break, parity or second stop bit |
| Uart.ControlFields | uart_tx_rx.c:38-39 | CTL = 0x301: UART, transmit and receive enabled and no other bit |
| Uart.InitWrites | uart_tx_rx.c:28-39 | the definition of `UART_Init`'s five register writes, in source order |
| Uart.BaudDivisor | uart_tx_rx.c:30-33 | the divisor in 64ths is within half a 64th of clock / (16 * baud), and the fraction fits the 6-bit field |
| Uart.NearestIsUnique | uart_tx_rx.c:30-33 | only one count of 64ths is that close to the quotient |
| Uart.InitDivisor | uart_tx_rx.c:30-33 | for 16 MHz and 9600 baud the divisor is exactly IBRD = 104, FBRD = 11 |
| Uart.ZeroIsClear | uart_tx_rx.c:20-21 | a flag register reading 0 shows neither FIFO full nor empty |
| Uart.FlagSet | uart_tx_rx.c:46 | the definition of the busy-wait condition `UART_FR & mask` being non-zero (also line 63) |
| Uart.Spins | uart_tx_rx.c:46 | a busy-wait reads the flag register at least once and at most once past its script |
| Uart.SpinsMeaning | uart_tx_rx.c:46 | a busy-wait stops at the first read with the flag clear, and every earlier read had it set |
| Uart.SpinsUnique | uart_tx_rx.c:46 | a read count with that property is the busy-wait's |
| Uart.TransmitWaitsForRoom | uart_tx_rx.c:45-48 | `UART_Transmit` writes DR once, as its last access, right after a read showing TXFF clear; all earlier reads showed it set |
| Uart.TransmitSendsOne | uart_tx_rx.c:45-48 | one transmit puts exactly its character on the line |
| Uart.TransmitAccesses | uart_tx_rx.c:45-48 | the definition of `UART_Transmit`'s accesses: the busy-wait's flag reads, then one DR write |
| Uart.DataWritesAppend | uart_tx_rx.c:45-57 | the characters sent by two access runs in sequence are the first run's, then the second's |
| Uart.NoDataWritesInFlagReads | uart_tx_rx.c:46 | waiting sends nothing |
| Uart.Strlen | uart_tx_rx.c:54 | the length is the index of the first NUL |
| Uart.PrintAccesses | uart_tx_rx.c:53-57 | the definition of `UART_Print`'s accesses: one transmit per character up to the first NUL |
| Uart.PrintSendsPrefix | uart_tx_rx.c:53-57 | `UART_Print` sends exactly the characters before the first NUL, in order, one DR write each, and nothing for an empty string |
| Uart.Char | uart_tx_rx.c:47 | the definition of the value `UART_DR = c` stores: the character zero-extended to 32 bits |
| Uart.LowByte | uart_tx_rx.c:64 | the definition of `(char)(UART_DR & 0xFF)` |
| Uart.LowByteMasks | uart_tx_rx.c:64 | the received character is `DR & 0xFF`, always in 0..255 |
| Uart.LowByteOfChar | uart_tx_rx.c:47-64 | a character written to DR comes back unchanged through the receive mask |
| Uart.Port.constructor | uart_tx_rx.c:12-18 | a fresh port has cleared registers, an empty log and the given flag and receive scripts |
| Uart.Port.Init | uart_tx_rx.c:26-40 | `UART_Init` logs exactly its five writes in order and leaves IBRD = 104, FBRD = 11, LCRH = 0x70, CTL = 0x301 |
| Uart.Port.ReadFlags | uart_tx_rx.c:46 | one flag-register read consumes and logs one flag value |
| Uart.Port.WaitClear | uart_tx_rx.c:46 | `while (UART_FR & mask);` reads the flags exactly `Spins` times and changes no register |
| Uart.Port.Transmit | uart_tx_rx.c:45-48 | `UART_Transmit` logs the wait and then the DR write, leaving the character in DR |
| Uart.Port.Print | uart_tx_rx.c:53-57 | `UART_Print` logs one transmit per character before the first NUL, and DR holds the last character sent |
| Uart.Port.Receive | uart_tx_rx.c:62-65 | `UART_Receive` waits until RXFE is clear, then reads DR once and returns its low byte |
| Uart.ReceiveWaitsForData | uart_tx_rx.c:62-64 | DR is read only after a flag read showing RXFE clear; every earlier read showed it set |

## Left out

- SpiEeprom.PollStatus: the poll takes an attempt budget `maxAttempts > 0` and returns Ready or Timeout. The loop at spi_comm_device.c:53-58 has no limit and returns nothing. This is a deliberate strengthening: it makes termination provable and a write that never completes observable. The model matches the code for every run that ends within the budget.
- SpiEeprom.WriteByte: returns the poll's Ready/Timeout, where `EEPROM_WriteByte` returns nothing. The budget is as in PollStatus.
- The stub `SPI_Transfer` always returns 0 (spi_comm_device.c:25). The model answers from a reply script and returns 0 only once the script is used up, so the poll and the read-back have something to observe.
- I2cMpu6050.Bus.Read: the stub `I2C_Read` (i2c_sensor_read.c:29-31) writes nothing into the buffer, so `data[14]` stays uninitialised in the code. The model fills the buffer from a reply script.
- ACK/NACK, arbitration and bus faults on I2C and SPI: the stubs give no signal for them, so the model has no fault path.
- `SPI_Init` and `I2C_Init` are left out: their bodies are empty. Clock mode, bit order and bus speed are not modelled.
- The `main` functions of all three files are left out, except the EEPROM write, read back and compare (spi_comm_device.c:84-93), which `FakeEeprom.WriteReadBack` models. The outer loops never end and have no result to check.
- `Delay_ms` and the counting delay loops are left out: they are timing only.
- `sprintf` message formatting, and the `UART_Print` calls used to report results, are left out: they produce human-readable output only.
- Memory-mapped register addresses and `volatile` access (uart_tx_rx.c:12-18): the registers are fields of `Uart.Port`. The flag register and the received data are scripts, not hardware.
- The hardware FIFOs and the real timing of the TXFF and RXFE flags: the flags are a script. A script that is used up reads 0, so every busy-wait in the model ends.
- Uart.Char: characters are unsigned bytes (`bv8`) and are zero-extended into DR. On a target where `char` is signed, `UART_DR = c` sign-extends characters at or above 0x80. The model does not capture that.
- FakeEeprom: the device completes a write cycle at once, so it never reports a write in progress. The write-cycle time of the part is not modelled. `FakeEeprom.WriteThenReadBack` holds for any number of poll attempts.
