/**
 * An in-memory 25LC256 that interprets the SPI traces the driver produces:
 * it stores on WRITE (once write-enabled) and answers READ from its cells.
 * It is the reference against which the driver's write-then-read-back
 * behaviour (the check in spi_comm_device.c's demonstration) is proved.
 */
module FakeEeprom {
  import opened Bytes
  import opened SpiEeprom

  /**
   * The device: its cells, the write-enable latch, whether chip-select is
   * asserted, and the bytes received since it was.
   */
  datatype Device = Device(cells: map<uint16, uint8>, writeEnabled: bool, selected: bool, command: seq<uint8>)

  /** A cell never written reads as erased, 0xFF. */
  function Cell(cells: map<uint16, uint8>, address: uint16): uint8
  {
    if address in cells then cells[address] else 0xFF
  }

  /**
   * The byte the device shifts out while it receives the next one. After
   * READ and both address bytes it sends the addressed cell; after RDSR it
   * sends its status register, whose write-in-progress bit is never set since
   * writes complete at once, and whose bit 1 shows the write-enable latch.
   */
  function Reply(d: Device): uint8
  {
    if d.selected && |d.command| == 3 && d.command[0] == READ then Cell(d.cells, Join(d.command[1], d.command[2]))
    else if d.selected && |d.command| == 1 && d.command[0] == RDSR then (if d.writeEnabled then 0x02 else 0x00)
    else 0
  }

  /**
   * The command received, run when chip-select is released: WREN sets the
   * latch; a complete WRITE with the latch set stores its byte and clears the
   * latch; anything else changes nothing.
   */
  function Execute(d: Device): Device
  {
    if d.command == [WREN] then d.(writeEnabled := true)
    else if |d.command| == 4 && d.command[0] == WRITE && d.writeEnabled then
      d.(cells := d.cells[Join(d.command[1], d.command[2]) := d.command[3]], writeEnabled := false)
    else d
  }

  /** Effect of one bus event on the device. */
  function Step(d: Device, e: Event): Device
  {
    match e
    case CSLow => d.(selected := true, command := [])
    case Xfer(b) => if d.selected then d.(command := d.command + [b]) else d
    case CSHigh => if d.selected then Execute(d).(selected := false, command := []) else d
  }

  /** The device after a whole trace. */
  function Run(d: Device, t: seq<Event>): Device
    decreases |t|
  {
    if t == [] then d else Run(Step(d, t[0]), t[1..])
  }

  /** The bytes the device sends back, one per transfer in `t`. */
  function Replies(d: Device, t: seq<Event>): seq<uint8>
    decreases |t|
  {
    if t == [] then []
    else (if t[0].Xfer? then [Reply(d)] else []) + Replies(Step(d, t[0]), t[1..])
  }

  /** A trace split in two runs as its halves one after the other. */
  lemma {:induction false} RunAppend(d: Device, a: seq<Event>, b: seq<Event>)
    ensures Run(d, a + b) == Run(Run(d, a), b)
    ensures Replies(d, a + b) == Replies(d, a) + Replies(Run(d, a), b)
    decreases |a|
  {
    if a == [] {
      assert a + b == b;
    } else {
      assert (a + b)[0] == a[0];
      assert (a + b)[1..] == a[1..] + b;
      RunAppend(Step(d, a[0]), a[1..], b);
    }
  }

  /** While selected, transfers only collect the bytes. */
  lemma {:induction false} XfersCollect(d: Device, bytes: seq<uint8>)
    requires d.selected
    ensures Run(d, Xfers(bytes)) == d.(command := d.command + bytes)
    decreases |bytes|
  {
    if bytes == [] {
      assert d.command + bytes == d.command;
    } else {
      var next := d.(command := d.command + [bytes[0]]);
      assert Xfers(bytes)[0] == Xfer(bytes[0]);
      assert Xfers(bytes)[1..] == Xfers(bytes[1..]);
      assert Step(d, Xfer(bytes[0])) == next;
      XfersCollect(next, bytes[1..]);
      assert next.command + bytes[1..] == d.command + bytes;
    }
  }

  /** While selected, each transfer's reply depends only on the bytes collected before it. */
  lemma {:induction false} XfersReply(d: Device, bytes: seq<uint8>)
    requires d.selected
    ensures |Replies(d, Xfers(bytes))| == |bytes|
    ensures forall i :: 0 <= i < |bytes| ==>
      Replies(d, Xfers(bytes))[i] == Reply(d.(command := d.command + bytes[..i]))
    decreases |bytes|
  {
    if bytes != [] {
      var next := d.(command := d.command + [bytes[0]]);
      var rest := Xfers(bytes[1..]);
      assert Xfers(bytes)[0] == Xfer(bytes[0]);
      assert Xfers(bytes)[1..] == rest;
      assert Step(d, Xfer(bytes[0])) == next;
      XfersReply(next, bytes[1..]);
      var replies := Replies(d, Xfers(bytes));
      assert replies == [Reply(d)] + Replies(next, rest);
      forall i | 0 <= i < |bytes|
        ensures replies[i] == Reply(d.(command := d.command + bytes[..i]))
      {
        if i == 0 {
          assert d.command + bytes[..0] == d.command;
          assert d.(command := d.command) == d;
        } else {
          assert bytes[..i] == [bytes[0]] + bytes[1..][..i - 1];
          assert next.command + bytes[1..][..i - 1] == d.command + bytes[..i];
        }
      }
    }
  }

  /**
   * A framed transaction from a released device: the device collects the
   * bytes, runs the command when released, and replies to each byte knowing
   * only the bytes before it.
   */
  lemma TransactionRun(d: Device, bytes: seq<uint8>)
    requires !d.selected
    ensures Run(d, Transaction(bytes)) == Execute(d.(selected := true, command := bytes)).(selected := false, command := [])
    ensures |Replies(d, Transaction(bytes))| == |bytes|
    ensures forall i :: 0 <= i < |bytes| ==>
      Replies(d, Transaction(bytes))[i] == Reply(d.(selected := true, command := bytes[..i]))
  {
    var live := d.(selected := true, command := []);
    RunAppend(d, [CSLow], Xfers(bytes) + [CSHigh]);
    RunAppend(live, Xfers(bytes), [CSHigh]);
    XfersCollect(live, bytes);
    XfersReply(live, bytes);
    assert Transaction(bytes) == [CSLow] + (Xfers(bytes) + [CSHigh]);
    assert Run(d, [CSLow]) == live;
    assert Replies(d, [CSLow]) == [];
    var collected := Run(live, Xfers(bytes));
    assert collected == live.(command := [] + bytes);
    assert Replies(collected, [CSHigh]) == [];
    assert Replies(d, Transaction(bytes)) == Replies(live, Xfers(bytes));
    forall i | 0 <= i < |bytes|
      ensures live.(command := live.command + bytes[..i]) == d.(selected := true, command := bytes[..i])
    {
      assert [] + bytes[..i] == bytes[..i];
    }
  }

  /** Write enable followed by a write stores the byte at the address and touches no other cell. */
  lemma WriteStores(d: Device, address: uint16, data: uint8)
    requires !d.selected
    ensures var after := Run(d, WriteEnableTxn() + WriteTxn(address, data));
      && !after.selected
      && Cell(after.cells, address) == data
      && forall other: uint16 :: other != address ==> Cell(after.cells, other) == Cell(d.cells, other)
  {
    var command := [WRITE, AddressHigh(address), AddressLow(address), data];
    TransactionsAreFramed(address, data);
    RunAppend(d, WriteEnableTxn(), WriteTxn(address, data));
    TransactionRun(d, [WREN]);
    var enabled := Run(d, WriteEnableTxn());
    assert enabled == d.(writeEnabled := true, selected := false, command := []);
    TransactionRun(enabled, command);
    AddressRoundTrip(address);
  }

  /** Status reads change no cell and leave the device released. */
  lemma {:induction false} PollsKeepCells(d: Device, n: nat)
    requires !d.selected
    ensures Run(d, Polls(n)).cells == d.cells && !Run(d, Polls(n)).selected
  {
    if n > 0 {
      PollsKeepCells(d, n - 1);
      RunAppend(d, Polls(n - 1), StatusTxn());
      TransactionsAreFramed(0, 0);
      TransactionRun(Run(d, Polls(n - 1)), [RDSR, DUMMY]);
    }
  }

  /** Reading an address answers the stored cell on the dummy transfer, and 0 before it. */
  lemma ReadAnswers(d: Device, address: uint16)
    requires !d.selected
    ensures Replies(d, ReadTxn(address)) == [0, 0, 0, Cell(d.cells, address)]
  {
    var command := [READ, AddressHigh(address), AddressLow(address), DUMMY];
    TransactionsAreFramed(address, 0);
    TransactionRun(d, command);
    assert command[..3] == [READ, AddressHigh(address), AddressLow(address)];
    AddressRoundTrip(address);
  }

  /**
   * Against this device, EEPROM_WriteByte(a, v), however many poll attempts
   * it made, followed by EEPROM_ReadByte(a), reads back v.
   */
  lemma WriteThenReadBack(d: Device, address: uint16, data: uint8, attempts: nat)
    requires !d.selected
    ensures Replies(Run(d, WriteByteTrace(address, data, attempts)), ReadTxn(address)) == [0, 0, 0, data]
  {
    var written := Run(d, WriteEnableTxn() + WriteTxn(address, data));
    WriteStores(d, address, data);
    PollsKeepCells(written, attempts);
    RunAppend(d, WriteEnableTxn() + WriteTxn(address, data), Polls(attempts));
    ReadAnswers(Run(d, WriteByteTrace(address, data, attempts)), address);
  }

  /** A released device answers a status read with the write-in-progress bit clear. */
  lemma StatusNeverBusy(d: Device)
    requires !d.selected
    ensures |Replies(d, StatusTxn())| == 2 && !WriteInProgress(Replies(d, StatusTxn())[1])
  {
    TransactionsAreFramed(0, 0);
    TransactionRun(d, [RDSR, DUMMY]);
    assert [RDSR, DUMMY][..1] == [RDSR];
  }

  /** The write enable and write transactions get five replies and leave the device released. */
  lemma WriteReplies(d: Device, address: uint16, data: uint8)
    requires !d.selected
    ensures |Replies(d, WriteEnableTxn() + WriteTxn(address, data))| == 5
    ensures !Run(d, WriteEnableTxn() + WriteTxn(address, data)).selected
  {
    TransactionsAreFramed(address, data);
    RunAppend(d, WriteEnableTxn(), WriteTxn(address, data));
    TransactionRun(d, [WREN]);
    TransactionRun(Run(d, WriteEnableTxn()), [WRITE, AddressHigh(address), AddressLow(address), data]);
  }

  /**
   * A bus that answers EEPROM_WriteByte with this device's replies makes the
   * poll report Ready on its first attempt: the device never reports a write
   * in progress.
   */
  lemma DeviceIsReadyAtOnce(d: Device, address: uint16, data: uint8, maxAttempts: nat)
    requires !d.selected && maxAttempts > 0
    ensures Poll(Drop(Replies(d, WriteByteTrace(address, data, 1)), 5), maxAttempts) == PollRun(1, Ready)
  {
    var writes := WriteEnableTxn() + WriteTxn(address, data);
    WriteReplies(d, address, data);
    RunAppend(d, writes, Polls(1));
    assert Polls(1) == StatusTxn();
    var status := Replies(Run(d, writes), StatusTxn());
    StatusNeverBusy(Run(d, writes));
    assert Replies(d, WriteByteTrace(address, data, 1)) == Replies(d, writes) + status;
    assert Drop(Replies(d, WriteByteTrace(address, data, 1)), 5) == status;
    FirstClearIsReady(status, maxAttempts, 0);
  }

  /**
   * What the device sends back over the demonstration's write and read-back:
   * eleven replies, the status reply (the seventh) shows no write in
   * progress, and the last reply is the byte written.
   */
  lemma ReadBackReplies(d: Device, address: uint16, data: uint8)
    requires !d.selected
    ensures var script := Replies(d, WriteByteTrace(address, data, 1) + ReadTxn(address));
      && |script| == 11
      && !WriteInProgress(script[6])
      && script[10] == data
  {
    var writes := WriteEnableTxn() + WriteTxn(address, data);
    var written := Run(d, writes);
    WriteReplies(d, address, data);
    RunAppend(d, writes, Polls(1));
    assert Polls(1) == StatusTxn();
    StatusNeverBusy(written);
    RunAppend(d, WriteByteTrace(address, data, 1), ReadTxn(address));
    WriteThenReadBack(d, address, data, 1);
  }

  /**
   * The demonstration in spi_comm_device.c: write a byte, read it back from
   * the same address, and compare. Against this device the poll is Ready
   * after one attempt and the comparison succeeds.
   */
  method WriteReadBack(bus: Bus, d: Device, address: uint16, data: uint8, maxAttempts: nat) returns (success: bool)
    requires !d.selected && maxAttempts > 0
    requires bus.responses == Replies(d, WriteByteTrace(address, data, 1) + ReadTxn(address))
    modifies bus
    ensures success
    ensures bus.trace == old(bus.trace) + WriteByteTrace(address, data, 1) + ReadTxn(address)
  {
    ghost var script := bus.responses;
    ReadBackReplies(d, address, data);
    AtDrop(script, 5, 1, 0);
    FirstClearIsReady(Drop(script, 5), maxAttempts, 0);
    var result := WriteByte(bus, address, data, maxAttempts);
    assert result == Ready;
    var readBack := ReadByte(bus, address);
    AtDrop(script, 7, 3, 0);
    success := readBack == data;
  }
}
