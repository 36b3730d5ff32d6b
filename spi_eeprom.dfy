/**
 * The SPI transport and the 25LC256 EEPROM driver of spi_comm_device.c.
 *
 * The transport is a bus object that records every chip-select edge and every
 * byte clocked out, and answers each transfer from a script of bytes. The two
 * driver operations build chip-select framed transactions on it; the write
 * polls the status register until the write-in-progress bit clears or an
 * attempt budget runs out.
 */
module SpiEeprom {
  import opened Bytes

  // 25LC256 instruction set
  const READ: uint8 := 0x03
  const WRITE: uint8 := 0x02
  const WREN: uint8 := 0x06
  const RDSR: uint8 := 0x05

  /** Clocked out when the driver only wants to clock a byte in. */
  const DUMMY: uint8 := 0xFF

  /** One observable action on the SPI lines. */
  datatype Event = CSLow | CSHigh | Xfer(out: uint8)

  /** Outcome of the status poll that ends a write. */
  datatype PollResult = Ready | Timeout

  /** SPI master with chip-select, as seen by the driver. */
  class Bus {
    /** Every chip-select edge and transferred byte, oldest first. */
    var trace: seq<Event>
    /** Bytes the device will send back on the coming transfers. */
    var responses: seq<uint8>

    constructor (script: seq<uint8>)
      ensures trace == [] && responses == script
    {
      trace := [];
      responses := script;
    }

    /** CS_Low: select the device. */
    method ChipSelectLow()
      modifies this
      ensures trace == old(trace) + [CSLow] && responses == old(responses)
    {
      trace := trace + [CSLow];
    }

    /** CS_High: release the device. */
    method ChipSelectHigh()
      modifies this
      ensures trace == old(trace) + [CSHigh] && responses == old(responses)
    {
      trace := trace + [CSHigh];
    }

    /** SPI_Transfer: clock `b` out and return the byte clocked in at the same time. */
    method Transfer(b: uint8) returns (r: uint8)
      modifies this
      ensures r == At(old(responses), 0, 0)
      ensures trace == old(trace) + [Xfer(b)]
      ensures responses == Drop(old(responses), 1)
    {
      r := At(responses, 0, 0);
      trace := trace + [Xfer(b)];
      responses := Drop(responses, 1);
    }
  }

  // ---------------------------------------------------------------------------
  // Address bytes

  /**
   * `(uint8_t)(address >> 8)`: on an unsigned 16-bit value, a right shift by 8
   * divides by 256; the result is the block of 256 addresses `address` lies in.
   */
  function AddressHigh(address: uint16): (hi: uint8)
    ensures hi * 0x100 <= address < hi * 0x100 + 0x100
  {
    address / 0x100
  }

  /**
   * `(uint8_t)(address & 0xFF)`: keeping the low 8 bits is the remainder
   * modulo 256, a byte that differs from `address` by a multiple of 256.
   */
  function AddressLow(address: uint16): (lo: uint8)
    ensures (address - lo) % 0x100 == 0
  {
    address % 0x100
  }

  /** How the device puts the two address bytes back together, high byte first. */
  function Join(hi: uint8, lo: uint8): (address: uint16)
    ensures address / 0x100 == hi && address % 0x100 == lo
  {
    hi * 0x100 + lo
  }

  /** Splitting an address high byte first and joining the halves gives it back. */
  lemma AddressRoundTrip(address: uint16)
    ensures AddressHigh(address) * 0x100 + AddressLow(address) == address
    ensures Join(AddressHigh(address), AddressLow(address)) == address
  {
  }

  // ---------------------------------------------------------------------------
  // Transactions

  /** Transfers of `bytes` in order, chip-select untouched. */
  function Xfers(bytes: seq<uint8>): (t: seq<Event>)
    ensures |t| == |bytes|
    ensures forall i :: 0 <= i < |t| ==> t[i] == Xfer(bytes[i])
  {
    seq(|bytes|, i requires 0 <= i < |bytes| => Xfer(bytes[i]))
  }

  /** One transaction: select the device, transfer `bytes`, release the device. */
  function Transaction(bytes: seq<uint8>): seq<Event>
  {
    [CSLow] + Xfers(bytes) + [CSHigh]
  }

  /** Step 1 of EEPROM_WriteByte: set the write-enable latch. */
  function WriteEnableTxn(): seq<Event>
  {
    [CSLow, Xfer(WREN), CSHigh]
  }

  /** Step 2 of EEPROM_WriteByte: WRITE, address high byte, address low byte, data. */
  function WriteTxn(address: uint16, data: uint8): seq<Event>
  {
    [CSLow, Xfer(WRITE), Xfer(AddressHigh(address)), Xfer(AddressLow(address)), Xfer(data), CSHigh]
  }

  /** One poll attempt: RDSR, then a dummy byte whose reply is the status register. */
  function StatusTxn(): seq<Event>
  {
    [CSLow, Xfer(RDSR), Xfer(DUMMY), CSHigh]
  }

  /** EEPROM_ReadByte: READ, address high byte, address low byte, then a dummy byte whose reply is the data. */
  function ReadTxn(address: uint16): seq<Event>
  {
    [CSLow, Xfer(READ), Xfer(AddressHigh(address)), Xfer(AddressLow(address)), Xfer(DUMMY), CSHigh]
  }

  /** `n` poll attempts. */
  function Polls(n: nat): seq<Event>
  {
    if n == 0 then [] else Polls(n - 1) + StatusTxn()
  }

  /** Everything EEPROM_WriteByte puts on the bus when its poll makes `attempts` attempts. */
  function WriteByteTrace(address: uint16, data: uint8, attempts: nat): seq<Event>
  {
    WriteEnableTxn() + WriteTxn(address, data) + Polls(attempts)
  }

  /** Each of the driver's transactions is one framed transaction over the bytes it names. */
  lemma TransactionsAreFramed(address: uint16, data: uint8)
    ensures WriteEnableTxn() == Transaction([WREN])
    ensures WriteTxn(address, data) == Transaction([WRITE, AddressHigh(address), AddressLow(address), data])
    ensures StatusTxn() == Transaction([RDSR, DUMMY])
    ensures ReadTxn(address) == Transaction([READ, AddressHigh(address), AddressLow(address), DUMMY])
  {
  }

  // ---------------------------------------------------------------------------
  // Chip-select discipline

  /**
   * The level of chip-select after `t`, starting from `selected` (true: the
   * line is low and the device selected); None when `t` drives the line to the
   * level it already has, or transfers a byte while the device is released.
   */
  function ChipSelect(t: seq<Event>, selected: bool): Option<bool>
  {
    if t == [] then Some(selected)
    else match t[0]
      case CSLow => if selected then None else ChipSelect(t[1..], true)
      case CSHigh => if selected then ChipSelect(t[1..], false) else None
      case Xfer(_) => if selected then ChipSelect(t[1..], true) else None
  }

  /**
   * Chip-select strictly alternates, starting low and ending high, and every
   * transfer happens while it is low.
   */
  predicate Balanced(t: seq<Event>)
  {
    ChipSelect(t, false) == Some(false)
  }

  /** Running chip-select over `a + b` is running it over `a`, then over `b`. */
  lemma {:induction false} ChipSelectAppend(a: seq<Event>, b: seq<Event>, selected: bool)
    ensures ChipSelect(a + b, selected) ==
      match ChipSelect(a, selected)
      case None => None
      case Some(mid) => ChipSelect(b, mid)
  {
    if a != [] {
      assert (a + b)[0] == a[0];
      assert (a + b)[1..] == a[1..] + b;
      match a[0]
      case CSLow => if !selected { ChipSelectAppend(a[1..], b, true); }
      case CSHigh => if selected { ChipSelectAppend(a[1..], b, false); }
      case Xfer(_) => if selected { ChipSelectAppend(a[1..], b, true); }
    } else {
      assert a + b == b;
    }
  }

  /** Balanced traces stay balanced when put one after the other. */
  lemma BalancedConcat(a: seq<Event>, b: seq<Event>)
    requires Balanced(a) && Balanced(b)
    ensures Balanced(a + b)
  {
    ChipSelectAppend(a, b, false);
  }

  /** Transfers alone never move chip-select. */
  lemma {:induction false} XfersKeepSelected(bytes: seq<uint8>)
    ensures ChipSelect(Xfers(bytes), true) == Some(true)
  {
    if bytes != [] {
      assert Xfers(bytes)[1..] == Xfers(bytes[1..]);
      XfersKeepSelected(bytes[1..]);
    }
  }

  /**
   * A transaction is balanced and asserts and releases chip-select exactly
   * once, however many bytes it transfers.
   */
  lemma TransactionFramedOnce(bytes: seq<uint8>)
    ensures Balanced(Transaction(bytes))
    ensures multiset(Transaction(bytes))[CSLow] == 1
    ensures multiset(Transaction(bytes))[CSHigh] == 1
  {
    XfersKeepSelected(bytes);
    ChipSelectAppend([CSLow], Xfers(bytes) + [CSHigh], false);
    ChipSelectAppend(Xfers(bytes), [CSHigh], true);
    assert Transaction(bytes) == [CSLow] + (Xfers(bytes) + [CSHigh]);
    assert CSLow !in Xfers(bytes) && CSHigh !in Xfers(bytes);
    assert CSLow !in multiset(Xfers(bytes)) && CSHigh !in multiset(Xfers(bytes));
  }

  /** `n` poll attempts are balanced and assert and release chip-select `n` times. */
  lemma {:induction false} PollsFramed(n: nat)
    ensures Balanced(Polls(n))
    ensures multiset(Polls(n))[CSLow] == n && multiset(Polls(n))[CSHigh] == n
  {
    if n > 0 {
      PollsFramed(n - 1);
      TransactionsAreFramed(0, 0);
      TransactionFramedOnce([RDSR, DUMMY]);
      BalancedConcat(Polls(n - 1), StatusTxn());
    }
  }

  /**
   * The whole of EEPROM_WriteByte keeps chip-select balanced, with one
   * assertion and one release per transaction: write enable, write, and each
   * poll attempt.
   */
  lemma WriteByteFramed(address: uint16, data: uint8, attempts: nat)
    ensures Balanced(WriteByteTrace(address, data, attempts))
    ensures multiset(WriteByteTrace(address, data, attempts))[CSLow] == attempts + 2
    ensures multiset(WriteByteTrace(address, data, attempts))[CSHigh] == attempts + 2
  {
    TransactionsAreFramed(address, data);
    TransactionFramedOnce([WREN]);
    TransactionFramedOnce([WRITE, AddressHigh(address), AddressLow(address), data]);
    PollsFramed(attempts);
    BalancedConcat(WriteEnableTxn(), WriteTxn(address, data));
    BalancedConcat(WriteEnableTxn() + WriteTxn(address, data), Polls(attempts));
  }

  /** EEPROM_ReadByte is one balanced transaction. */
  lemma ReadByteFramed(address: uint16)
    ensures Balanced(ReadTxn(address))
    ensures multiset(ReadTxn(address))[CSLow] == 1 && multiset(ReadTxn(address))[CSHigh] == 1
  {
    TransactionsAreFramed(address, 0);
    TransactionFramedOnce([READ, AddressHigh(address), AddressLow(address), DUMMY]);
  }

  /** A non-empty balanced trace starts by selecting the device and ends by releasing it. */
  lemma BalancedEnds(t: seq<Event>)
    requires Balanced(t) && t != []
    ensures t[0] == CSLow && t[|t| - 1] == CSHigh
  {
    EndsReleased(t, false);
  }

  lemma {:induction false} EndsReleased(t: seq<Event>, selected: bool)
    requires t != [] && ChipSelect(t, selected) == Some(false)
    ensures t[|t| - 1] == CSHigh
    ensures !selected ==> t[0] == CSLow
  {
    if |t| > 1 {
      var next := if t[0].CSLow? then true else if t[0].CSHigh? then false else selected;
      assert ChipSelect(t[1..], next) == Some(false);
      EndsReleased(t[1..], next);
    }
  }

  // ---------------------------------------------------------------------------
  // Status poll

  /** Bit 0 of the status register, `status & 0x01`: a write cycle is still running; the bit is set exactly when the status is odd. */
  predicate WriteInProgress(status: uint8)
    ensures WriteInProgress(status) <==> status % 2 == 1
  {
    (status as bv8) & 0x01 != 0
  }

  /**
   * The status byte seen on poll attempt `j` (from 0) of a bus answering from
   * `script`: every attempt makes two transfers and the second one's reply is
   * the status register.
   */
  function StatusReply(script: seq<uint8>, j: nat): uint8
  {
    At(script, 2 * j + 1, 0)
  }

  /** How many attempts a poll made and how it ended. */
  datatype PollRun = PollRun(attempts: nat, result: PollResult)

  /**
   * The status poll as a state machine over the replies in `script`, allowed
   * at most `budget` attempts: each attempt reads the status afresh, stops
   * with Ready when the write-in-progress bit is clear and otherwise retries,
   * ending with Timeout when the budget is spent.
   */
  function Poll(script: seq<uint8>, budget: nat): (run: PollRun)
    ensures run.attempts <= budget
  {
    if budget == 0 then PollRun(0, Timeout)
    else if !WriteInProgress(StatusReply(script, 0)) then PollRun(1, Ready)
    else
      var rest := Poll(Drop(script, 2), budget - 1);
      PollRun(rest.attempts + 1, rest.result)
  }

  /** After two transfers, attempt `j` sees what attempt `j + 1` would have seen. */
  lemma StatusReplyDrop(script: seq<uint8>, j: nat)
    ensures StatusReply(Drop(script, 2), j) == StatusReply(script, j + 1)
  {
    AtDrop(script, 2, 2 * j + 1, 0);
  }

  /**
   * The poll stops at the first status byte whose write-in-progress bit is
   * clear, so its attempts are that byte's index plus one; it is Ready exactly
   * when the last status it read was clear, and when it times out it has used
   * the whole budget.
   */
  lemma {:induction false} PollMeaning(script: seq<uint8>, budget: nat)
    ensures var run := Poll(script, budget);
      && (budget > 0 ==> run.attempts > 0)
      && (forall j :: 0 <= j < run.attempts - 1 ==> WriteInProgress(StatusReply(script, j)))
      && (run.result == Ready <==> run.attempts > 0 && !WriteInProgress(StatusReply(script, run.attempts - 1)))
      && (run.result == Timeout ==> run.attempts == budget)
  {
    if budget > 0 && WriteInProgress(StatusReply(script, 0)) {
      var rest := Poll(Drop(script, 2), budget - 1);
      PollMeaning(Drop(script, 2), budget - 1);
      forall j | 0 <= j < rest.attempts
        ensures WriteInProgress(StatusReply(script, j))
      {
        if j > 0 {
          StatusReplyDrop(script, j - 1);
        }
      }
      if rest.attempts > 0 {
        StatusReplyDrop(script, rest.attempts - 1);
      }
    }
  }

  /** With a budget of N and a status that never clears, exactly N attempts are made, then Timeout. */
  lemma NeverReadyTimesOut(script: seq<uint8>, budget: nat)
    requires forall j :: 0 <= j < budget ==> WriteInProgress(StatusReply(script, j))
    ensures Poll(script, budget) == PollRun(budget, Timeout)
  {
    PollMeaning(script, budget);
  }

  /** When attempt `k` is the first to see the bit clear, the poll is Ready after `k + 1` attempts. */
  lemma {:induction false} FirstClearIsReady(script: seq<uint8>, budget: nat, k: nat)
    requires k < budget
    requires forall j :: 0 <= j < k ==> WriteInProgress(StatusReply(script, j))
    requires !WriteInProgress(StatusReply(script, k))
    ensures Poll(script, budget) == PollRun(k + 1, Ready)
    decreases k
  {
    if k > 0 {
      forall j | 0 <= j < k - 1
        ensures WriteInProgress(StatusReply(Drop(script, 2), j))
      {
        StatusReplyDrop(script, j);
      }
      StatusReplyDrop(script, k - 1);
      FirstClearIsReady(Drop(script, 2), budget - 1, k - 1);
    }
  }

  // ---------------------------------------------------------------------------
  // Driver operations

  /** One poll attempt: RDSR, then a dummy byte; the reply to the dummy byte is the status register. */
  method ReadStatus(bus: Bus) returns (status: uint8)
    modifies bus
    ensures status == At(old(bus.responses), 1, 0)
    ensures bus.trace == old(bus.trace) + StatusTxn()
    ensures bus.responses == Drop(old(bus.responses), 2)
  {
    bus.ChipSelectLow();
    var _ := bus.Transfer(RDSR);
    status := bus.Transfer(DUMMY);
    bus.ChipSelectHigh();
    AtDrop(old(bus.responses), 1, 0, 0);
    DropDrop(old(bus.responses), 1, 1);
  }

  /**
   * The do-while loop that ends EEPROM_WriteByte: read the status register
   * (RDSR, then a dummy byte whose reply is the status) until its
   * write-in-progress bit is clear, making at most `maxAttempts` attempts.
   * The attempts made, the replies consumed and the result are those of
   * `Poll` over the bus's replies.
   */
  method PollStatus(bus: Bus, maxAttempts: nat) returns (result: PollResult)
    requires maxAttempts > 0
    modifies bus
    ensures var run := Poll(old(bus.responses), maxAttempts);
      && result == run.result
      && bus.trace == old(bus.trace) + Polls(run.attempts)
      && bus.responses == Drop(old(bus.responses), 2 * run.attempts)
  {
    ghost var script := bus.responses;
    var attempts := 0;
    var busy := true;
    while busy && attempts < maxAttempts
      invariant attempts <= maxAttempts
      invariant bus.trace == old(bus.trace) + Polls(attempts)
      invariant bus.responses == Drop(script, 2 * attempts)
      invariant forall j :: 0 <= j < attempts - 1 ==> WriteInProgress(StatusReply(script, j))
      invariant attempts > 0 ==> (busy <==> WriteInProgress(StatusReply(script, attempts - 1)))
      invariant attempts == 0 ==> busy
      decreases maxAttempts - attempts
    {
      var status := ReadStatus(bus);
      AtDrop(script, 2 * attempts, 1, 0);
      DropDrop(script, 2 * attempts, 2);
      attempts := attempts + 1;
      busy := WriteInProgress(status);
    }
    if busy {
      NeverReadyTimesOut(script, maxAttempts);
      result := Timeout;
    } else {
      FirstClearIsReady(script, maxAttempts, attempts - 1);
      result := Ready;
    }
  }

  /** Step 1 of EEPROM_WriteByte: the write-enable transaction. */
  method WriteEnable(bus: Bus)
    modifies bus
    ensures bus.trace == old(bus.trace) + WriteEnableTxn()
    ensures bus.responses == Drop(old(bus.responses), 1)
  {
    bus.ChipSelectLow();
    var _ := bus.Transfer(WREN);
    bus.ChipSelectHigh();
  }

  /** Step 2 of EEPROM_WriteByte: WRITE, the address high byte first, then the data byte. */
  method SendWrite(bus: Bus, address: uint16, data: uint8)
    modifies bus
    ensures bus.trace == old(bus.trace) + WriteTxn(address, data)
    ensures bus.responses == Drop(old(bus.responses), 4)
  {
    bus.ChipSelectLow();
    var _ := bus.Transfer(WRITE);
    var _ := bus.Transfer(AddressHigh(address));
    var _ := bus.Transfer(AddressLow(address));
    var _ := bus.Transfer(data);
    bus.ChipSelectHigh();
    DropDrop(old(bus.responses), 1, 1);
    DropDrop(old(bus.responses), 2, 1);
    DropDrop(old(bus.responses), 3, 1);
  }

  /**
   * EEPROM_WriteByte: write enable, write, then the status poll, which reads
   * the replies left after the five bytes of the first two transactions.
   */
  method WriteByte(bus: Bus, address: uint16, data: uint8, maxAttempts: nat) returns (result: PollResult)
    requires maxAttempts > 0
    modifies bus
    ensures var run := Poll(Drop(old(bus.responses), 5), maxAttempts);
      && result == run.result
      && bus.trace == old(bus.trace) + WriteByteTrace(address, data, run.attempts)
      && bus.responses == Drop(old(bus.responses), 5 + 2 * run.attempts)
  {
    ghost var start := bus.trace;
    ghost var replies := bus.responses;
    WriteEnable(bus);
    SendWrite(bus, address, data);
    assert bus.trace == start + (WriteEnableTxn() + WriteTxn(address, data));
    DropDrop(replies, 1, 4);
    ghost var script := bus.responses;
    ghost var prefix := bus.trace;
    result := PollStatus(bus, maxAttempts);
    ghost var run := Poll(script, maxAttempts);
    assert bus.trace == prefix + Polls(run.attempts);
    DropDrop(replies, 5, 2 * run.attempts);
  }

  /**
   * EEPROM_ReadByte: READ with the address high byte first, then a dummy
   * byte; the byte received during the dummy transfer is the result.
   */
  method ReadByte(bus: Bus, address: uint16) returns (data: uint8)
    modifies bus
    ensures data == At(old(bus.responses), 3, 0)
    ensures bus.trace == old(bus.trace) + ReadTxn(address)
    ensures bus.responses == Drop(old(bus.responses), 4)
  {
    bus.ChipSelectLow();
    var _ := bus.Transfer(READ);
    var _ := bus.Transfer(AddressHigh(address));
    var _ := bus.Transfer(AddressLow(address));
    data := bus.Transfer(DUMMY);
    bus.ChipSelectHigh();
    DropDrop(old(bus.responses), 1, 1);
    DropDrop(old(bus.responses), 2, 1);
    AtDrop(old(bus.responses), 3, 0, 0);
    DropDrop(old(bus.responses), 3, 1);
  }
}
