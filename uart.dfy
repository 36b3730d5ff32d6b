/**
 * The UART driver of uart_tx_rx.c: initialisation by an ordered series of
 * register writes, byte transmit and receive that wait on the flag register,
 * and NUL-terminated string output.
 *
 * The memory-mapped registers become fields of a port object that also logs
 * every register access in order. What the hardware shows in the flag and
 * data registers is a script: the flag register reads as 0 (transmit FIFO not
 * full, receive FIFO not empty) once its script runs out, so every busy-wait
 * ends.
 */
module Uart {
  import opened Bytes

  /** The registers the driver uses (DR, FR, IBRD, FBRD, LCRH, CTL). */
  datatype Register = DR | FR | IBRD | FBRD | LCRH | CTL

  /** One access to a register and the value written or read. */
  datatype Access = Write(reg: Register, value: bv32) | Read(reg: Register, value: bv32)

  /** The writable registers' contents. */
  datatype Registers = Registers(dr: bv32, ibrd: bv32, fbrd: bv32, lcrh: bv32, ctl: bv32)

  // Flag register bits
  const FR_TXFF: bv32 := 1 << 5  // transmit FIFO full
  const FR_RXFE: bv32 := 1 << 4  // receive FIFO empty

  // Line control bits
  const LCRH_BRK: bv32 := 1 << 0
  const LCRH_PEN: bv32 := 1 << 1
  const LCRH_EPS: bv32 := 1 << 2
  const LCRH_STP2: bv32 := 1 << 3
  const LCRH_FEN: bv32 := 1 << 4
  const LCRH_SPS: bv32 := 1 << 7

  // Control bits
  const CTL_UARTEN: bv32 := 1 << 0
  const CTL_TXE: bv32 := 1 << 8
  const CTL_RXE: bv32 := 1 << 9

  /** Reference clock and line rate the initialisation assumes. */
  const CLOCK_HZ: nat := 16_000_000
  const BAUD: nat := 9600

  /** The values UART_Init programs, as the source writes them. */
  const IBRD_INIT: bv32 := 104
  const FBRD_INIT: bv32 := 11
  const LCRH_INIT: bv32 := (0x3 << 5) | (1 << 4)
  const CTL_INIT: bv32 := (1 << 0) | (1 << 8) | (1 << 9)

  /** The register writes of UART_Init, in order. */
  function InitWrites(): seq<Access>
  {
    [Write(CTL, 0), Write(IBRD, IBRD_INIT), Write(FBRD, FBRD_INIT), Write(LCRH, LCRH_INIT), Write(CTL, CTL_INIT)]
  }

  /**
   * UART_Init disables the UART before anything else and enables it only
   * with its last write; the divisor and line-control writes come in between.
   */
  lemma InitOrder()
    ensures |InitWrites()| == 5
    ensures InitWrites()[0] == Write(CTL, 0)
    ensures InitWrites()[4] == Write(CTL, CTL_INIT)
    ensures forall i :: 0 < i < 4 ==> InitWrites()[i].reg in {IBRD, FBRD, LCRH}
  {
  }

  // ---------------------------------------------------------------------------
  // Register fields

  /**
   * Line control for 8N1 with FIFOs: 0x70, word length field (bits 6..5) 3
   * for 8 data bits, FIFOs enabled, and no break, parity or second stop bit.
   */
  lemma LineControlFields()
    ensures LCRH_INIT == 0x70
    ensures (LCRH_INIT >> 5) & 0x3 == 0x3
    ensures LCRH_INIT & LCRH_FEN == LCRH_FEN
    ensures LCRH_INIT & (LCRH_BRK | LCRH_PEN | LCRH_EPS | LCRH_STP2 | LCRH_SPS) == 0
  {
  }

  /** The enable value is 0x301: the UART, its transmitter and its receiver on, and nothing else. */
  lemma ControlFields()
    ensures CTL_INIT == 0x301
    ensures CTL_INIT == CTL_UARTEN | CTL_TXE | CTL_RXE
    ensures CTL_INIT & !(CTL_UARTEN | CTL_TXE | CTL_RXE) == 0
  {
  }

  // ---------------------------------------------------------------------------
  // Baud-rate divisor

  /** A baud-rate divisor: integer part and fractional part in 64ths. */
  datatype Divisor = Divisor(integer: nat, fraction: nat)

  /**
   * The divisor for `clock` and `baud`: BRD = clock / (16 * baud) with the
   * fraction rounded to the nearest 64th (not truncated). In 64ths the
   * divisor is within half a 64th of the exact quotient, rounding halves up.
   */
  function BaudDivisor(clock: nat, baud: nat): (d: Divisor)
    requires baud > 0
    ensures d.fraction < 64
    ensures var scaled := 64 * d.integer + d.fraction;
      -(baud as int) < 2 * baud * scaled - 8 * clock <= baud
  {
    var scaled := (8 * clock + baud) / (2 * baud);
    assert 2 * baud * scaled <= 8 * clock + baud < 2 * baud * scaled + 2 * baud;
    Divisor(scaled / 64, scaled % 64)
  }

  /** Only one count of 64ths lies within half a 64th of the exact quotient. */
  lemma NearestIsUnique(clock: nat, baud: nat, n: int)
    requires baud > 0
    requires -(baud as int) < 2 * baud * n - 8 * clock <= baud
    ensures n == 64 * BaudDivisor(clock, baud).integer + BaudDivisor(clock, baud).fraction
  {
    var d := BaudDivisor(clock, baud);
    var m := 64 * d.integer + d.fraction;
    var k := n - m;
    assert 2 * baud * k == (2 * baud * n - 8 * clock) - (2 * baud * m - 8 * clock);
    MultipleBound(2 * baud, k);
  }

  /** A multiple `b * k` of a positive `b` strictly between `-b` and `b` is zero. */
  lemma MultipleBound(b: int, k: int)
    requires b > 0
    ensures k >= 1 ==> b * k >= b
    ensures k <= -1 ==> b * k <= -b
  {
    if k >= 1 {
      assert b * k == b * (k - 1) + b;
    } else if k <= -1 {
      assert b * k == b * (k + 1) - b;
    }
  }

  /**
   * The values UART_Init writes are the divisor for a 16 MHz clock and 9600
   * baud: 16,000,000 / (16 * 9600) = 104.17, integer part 104, fraction
   * 0.17 * 64 = 10.67, rounded to 11.
   */
  lemma InitDivisor()
    ensures BaudDivisor(CLOCK_HZ, BAUD) == Divisor(IBRD_INIT as nat, FBRD_INIT as nat)
    ensures CLOCK_HZ / (16 * BAUD) == 104
  {
    var d := BaudDivisor(CLOCK_HZ, BAUD);
    NearestIsUnique(CLOCK_HZ, BAUD, 6667);
  }

  // ---------------------------------------------------------------------------
  // Busy-waits on the flag register

  /** `v & mask` is non-zero: the flag selected by `mask` is raised in `v`. */
  predicate FlagSet(v: bv32, mask: bv32)
  {
    v & mask != 0
  }

  /** An exhausted flag script reads 0, which shows every flag clear. */
  lemma ZeroIsClear(mask: bv32)
    ensures !FlagSet(0, mask)
  {
  }

  /**
   * How many times `while (UART_FR & mask);` reads the flag register when it
   * will show `flags`: up to and including the first value with `mask` clear.
   */
  function Spins(flags: seq<bv32>, mask: bv32): (n: nat)
    ensures 1 <= n <= |flags| + 1
  {
    if flags == [] || !FlagSet(flags[0], mask) then 1 else 1 + Spins(flags[1..], mask)
  }

  /** The flag-register reads of a busy-wait that reads `n` times. */
  function FlagReads(flags: seq<bv32>, n: nat): (accesses: seq<Access>)
    ensures |accesses| == n
    ensures forall i :: 0 <= i < n ==> accesses[i] == Read(FR, At(flags, i, 0))
  {
    seq(n, i requires 0 <= i < n => Read(FR, At(flags, i, 0)))
  }

  /** One more read of the flag register appends it to the reads so far. */
  lemma FlagReadsNext(flags: seq<bv32>, n: nat)
    ensures FlagReads(flags, n + 1) == FlagReads(flags, n) + [Read(FR, At(flags, n, 0))]
  {
  }

  /** A busy-wait stops at the first read with the flag clear and not before. */
  lemma {:induction false} SpinsMeaning(flags: seq<bv32>, mask: bv32)
    ensures !FlagSet(At(flags, Spins(flags, mask) - 1, 0), mask)
    ensures forall i :: 0 <= i < Spins(flags, mask) - 1 ==> FlagSet(At(flags, i, 0), mask)
    decreases |flags|
  {
    if flags != [] && FlagSet(flags[0], mask) {
      SpinsMeaning(flags[1..], mask);
      forall i | 1 <= i < Spins(flags, mask)
        ensures At(flags, i, 0) == At(flags[1..], i - 1, 0)
      {
      }
    }
  }

  /** A read count with that property is the busy-wait's. */
  lemma {:induction false} SpinsUnique(flags: seq<bv32>, mask: bv32, n: nat)
    requires 1 <= n
    requires !FlagSet(At(flags, n - 1, 0), mask)
    requires forall i :: 0 <= i < n - 1 ==> FlagSet(At(flags, i, 0), mask)
    ensures Spins(flags, mask) == n
    decreases n
  {
    if n > 1 {
      assert flags != [] && FlagSet(flags[0], mask) by {
        assert FlagSet(At(flags, 0, 0), mask);
      }
      forall i | 0 <= i < n - 2
        ensures FlagSet(At(flags[1..], i, 0), mask)
      {
        assert At(flags[1..], i, 0) == At(flags, i + 1, 0);
      }
      assert At(flags[1..], n - 2, 0) == At(flags, n - 1, 0);
      SpinsUnique(flags[1..], mask, n - 1);
    } else {
      assert !FlagSet(At(flags, 0, 0), mask);
    }
  }

  // ---------------------------------------------------------------------------
  // Transmit, print, receive: what they put in the access log

  /** UART_Transmit's accesses: wait until the transmit FIFO has room, then write the byte to DR. */
  function TransmitAccesses(flags: seq<bv32>, c: bv8): seq<Access>
  {
    FlagReads(flags, Spins(flags, FR_TXFF)) + [Write(DR, Char(c))]
  }

  /**
   * Transmit writes DR exactly once, as its last access, straight after a
   * flag read showing room in the transmit FIFO; every flag read before that
   * showed it full.
   */
  lemma TransmitWaitsForRoom(flags: seq<bv32>, c: bv8)
    ensures var t := TransmitAccesses(flags, c);
      && |t| >= 2
      && t[|t| - 1] == Write(DR, Char(c))
      && t[|t| - 2].Read? && t[|t| - 2].reg == FR && !FlagSet(t[|t| - 2].value, FR_TXFF)
      && (forall i :: 0 <= i < |t| - 2 ==> t[i].Read? && t[i].reg == FR && FlagSet(t[i].value, FR_TXFF))
      && |DataWrites(t)| == 1
  {
    SpinsMeaning(flags, FR_TXFF);
    TransmitSendsOne(flags, c);
  }

  /** The values written to DR, in order: what went out on the line. */
  function DataWrites(log: seq<Access>): seq<bv32>
  {
    if log == [] then []
    else DataWrite(log[0]) + DataWrites(log[1..])
  }

  /** The value an access puts on the line: the value of a DR write, nothing otherwise. */
  function DataWrite(a: Access): seq<bv32>
  {
    if a.Write? && a.reg == DR then [a.value] else []
  }

  lemma {:induction false} DataWritesAppend(a: seq<Access>, b: seq<Access>)
    ensures DataWrites(a + b) == DataWrites(a) + DataWrites(b)
  {
    if a == [] {
      assert a + b == b;
    } else {
      assert (a + b)[0] == a[0];
      assert (a + b)[1..] == a[1..] + b;
      DataWritesAppend(a[1..], b);
      assert DataWrites(a + b) == DataWrite(a[0]) + (DataWrites(a[1..]) + DataWrites(b));
    }
  }

  lemma {:induction false} NoDataWritesInFlagReads(flags: seq<bv32>, n: nat)
    ensures DataWrites(FlagReads(flags, n)) == []
  {
    if n > 0 {
      assert FlagReads(flags, n) == FlagReads(flags, n - 1) + [Read(FR, At(flags, n - 1, 0))];
      DataWritesAppend(FlagReads(flags, n - 1), [Read(FR, At(flags, n - 1, 0))]);
      NoDataWritesInFlagReads(flags, n - 1);
    }
  }

  /** Length of a NUL-terminated string: the index of its first NUL. */
  function Strlen(s: seq<bv8>): (n: nat)
    requires 0 in s
    ensures n < |s| && s[n] == 0
    ensures forall i :: 0 <= i < n ==> s[i] != 0
  {
    if s[0] == 0 then 0 else 1 + Strlen(s[1..])
  }

  /** UART_Print's accesses: one transmit per character before the first NUL. */
  function PrintAccesses(flags: seq<bv32>, s: seq<bv8>): seq<Access>
    decreases |s|
  {
    if s == [] || s[0] == 0 then []
    else TransmitAccesses(flags, s[0]) + PrintAccesses(Drop(flags, Spins(flags, FR_TXFF)), s[1..])
  }

  /** The flag-register script left after UART_Print. */
  function FlagsAfterPrint(flags: seq<bv32>, s: seq<bv8>): seq<bv32>
    decreases |s|
  {
    if s == [] || s[0] == 0 then flags
    else FlagsAfterPrint(Drop(flags, Spins(flags, FR_TXFF)), s[1..])
  }

  /** Printing from a character that is not NUL transmits it, then prints the rest. */
  lemma PrintStep(flags: seq<bv32>, s: seq<bv8>, i: nat)
    requires i < |s| && s[i] != 0
    ensures PrintAccesses(flags, s[i..]) ==
      TransmitAccesses(flags, s[i]) + PrintAccesses(Drop(flags, Spins(flags, FR_TXFF)), s[i + 1..])
    ensures FlagsAfterPrint(flags, s[i..]) == FlagsAfterPrint(Drop(flags, Spins(flags, FR_TXFF)), s[i + 1..])
  {
    assert s[i..][1..] == s[i + 1..];
  }

  /** Printing from a NUL accesses nothing and leaves the flag script as it is. */
  lemma PrintStops(flags: seq<bv32>, s: seq<bv8>, i: nat)
    requires i < |s| && s[i] == 0
    ensures PrintAccesses(flags, s[i..]) == [] && FlagsAfterPrint(flags, s[i..]) == flags
  {
  }

  /**
   * The log a print will have produced, `whole`, is what is logged so far
   * plus the accesses of the rest of the string; one transmit keeps it so.
   */
  lemma PrintLogStep(whole: seq<Access>, before: seq<Access>, after: seq<Access>, flags: seq<bv32>, s: seq<bv8>, i: nat)
    requires i < |s| && s[i] != 0
    requires whole == before + PrintAccesses(flags, s[i..])
    requires after == before + TransmitAccesses(flags, s[i])
    ensures whole == after + PrintAccesses(Drop(flags, Spins(flags, FR_TXFF)), s[i + 1..])
  {
    PrintStep(flags, s, i);
    Regroup(whole, before, after, TransmitAccesses(flags, s[i]), PrintAccesses(Drop(flags, Spins(flags, FR_TXFF)), s[i + 1..]));
  }

  /** A character as the value written to the data register. */
  function Char(c: bv8): bv32
  {
    c as bv32
  }

  /** A byte string as the register values that carry it. */
  function Widen(bytes: seq<bv8>): (vs: seq<bv32>)
    ensures |vs| == |bytes|
    ensures forall i :: 0 <= i < |bytes| ==> vs[i] == Char(bytes[i])
  {
    seq(|bytes|, i requires 0 <= i < |bytes| => Char(bytes[i]))
  }

  /**
   * UART_Print sends exactly the characters before the first NUL, in order,
   * with one DR write per character, and nothing for the empty string.
   */
  lemma {:induction false} PrintSendsPrefix(flags: seq<bv32>, s: seq<bv8>)
    requires 0 in s
    ensures DataWrites(PrintAccesses(flags, s)) == Widen(s[..Strlen(s)])
    ensures s[0] == 0 ==> PrintAccesses(flags, s) == []
    decreases |s|
  {
    if s[0] != 0 {
      var rest := Drop(flags, Spins(flags, FR_TXFF));
      assert 0 in s[1..];
      PrintSendsPrefix(rest, s[1..]);
      TransmitSendsOne(flags, s[0]);
      DataWritesAppend(TransmitAccesses(flags, s[0]), PrintAccesses(rest, s[1..]));
      var sent := Widen(s[1..][..Strlen(s[1..])]);
      assert DataWrites(PrintAccesses(flags, s)) == [Char(s[0])] + sent;
      var n := Strlen(s);
      assert n == 1 + Strlen(s[1..]);
      forall i | 0 <= i < n
        ensures Widen(s[..n])[i] == ([Char(s[0])] + sent)[i]
      {
        if i > 0 {
          assert sent[i - 1] == Char(s[1..][i - 1]);
          assert s[1..][i - 1] == s[i];
        }
      }
      assert Widen(s[..n]) == [Char(s[0])] + sent;
    } else {
      assert s[..Strlen(s)] == [];
    }
  }

  /** One transmit writes DR once, with the byte. */
  lemma TransmitSendsOne(flags: seq<bv32>, c: bv8)
    ensures DataWrites(TransmitAccesses(flags, c)) == [Char(c)]
  {
    var n := Spins(flags, FR_TXFF);
    DataWritesAppend(FlagReads(flags, n), [Write(DR, Char(c))]);
    NoDataWritesInFlagReads(flags, n);
  }

  /** The low byte of a register value, `(char)(UART_DR & 0xFF)`. */
  function LowByte(v: bv32): bv8
  {
    (v & 0xFF) as bv8
  }

  /** Receiving keeps exactly the low eight bits of DR: widening the byte back gives `DR & 0xFF`. */
  lemma LowByteMasks(v: bv32)
    ensures Char(LowByte(v)) == v & 0xFF
  {
  }

  /** A character written to DR reads back unchanged through the receive mask, as an echo relies on. */
  lemma LowByteOfChar(c: bv8)
    ensures LowByte(Char(c)) == c
  {
  }

  // ---------------------------------------------------------------------------
  // The port

  /** The UART's registers, the log of the driver's accesses, and what the hardware will show. */
  class Port {
    var regs: Registers
    /** Every register access, oldest first. */
    var log: seq<Access>
    /** Successive values of the flag register; 0 once exhausted. */
    var flags: seq<bv32>
    /** Successive received values the data register shows; 0 once exhausted. */
    var received: seq<bv32>

    constructor (flags: seq<bv32>, received: seq<bv32>)
      ensures regs == Registers(0, 0, 0, 0, 0) && log == []
      ensures this.flags == flags && this.received == received
    {
      regs := Registers(0, 0, 0, 0, 0);
      log := [];
      this.flags := flags;
      this.received := received;
    }

    /** UART_Init: disable, program the baud divisor and line control, then enable with TX and RX. */
    method Init()
      modifies this
      ensures log == old(log) + InitWrites()
      ensures regs == old(regs).(ibrd := IBRD_INIT, fbrd := FBRD_INIT, lcrh := LCRH_INIT, ctl := CTL_INIT)
      ensures flags == old(flags) && received == old(received)
    {
      // 1. disable
      regs := regs.(ctl := 0);
      log := log + [Write(CTL, 0)];
      // 2. baud rate: 16 MHz clock, 9600 baud
      regs := regs.(ibrd := IBRD_INIT);
      log := log + [Write(IBRD, IBRD_INIT)];
      regs := regs.(fbrd := FBRD_INIT);
      log := log + [Write(FBRD, FBRD_INIT)];
      // 3. 8 data bits, no parity, one stop bit, FIFOs on
      regs := regs.(lcrh := LCRH_INIT);
      log := log + [Write(LCRH, LCRH_INIT)];
      // 4. enable UART, transmitter and receiver
      regs := regs.(ctl := CTL_INIT);
      log := log + [Write(CTL, CTL_INIT)];
    }

    /** Read the flag register once. */
    method ReadFlags() returns (f: bv32)
      modifies this
      ensures f == At(old(flags), 0, 0)
      ensures flags == Drop(old(flags), 1) && log == old(log) + [Read(FR, f)]
      ensures regs == old(regs) && received == old(received)
    {
      f := At(flags, 0, 0);
      flags := Drop(flags, 1);
      log := log + [Read(FR, f)];
    }

    /** `while (UART_FR & mask);`: read the flag register until `mask` is clear. */
    method WaitClear(mask: bv32)
      modifies this
      ensures log == old(log) + FlagReads(old(flags), Spins(old(flags), mask))
      ensures flags == Drop(old(flags), Spins(old(flags), mask))
      ensures regs == old(regs) && received == old(received)
    {
      ghost var start := flags;
      var f := ReadFlags();
      ghost var n := 1;
      while FlagSet(f, mask)
        invariant 1 <= n <= |start| + 1
        invariant f == At(start, n - 1, 0)
        invariant forall i :: 0 <= i < n - 1 ==> FlagSet(At(start, i, 0), mask)
        invariant flags == Drop(start, n)
        invariant log == old(log) + FlagReads(start, n)
        invariant regs == old(regs) && received == old(received)
        decreases |start| + 1 - n
      {
        ZeroIsClear(mask);
        assert n - 1 < |start|;
        AtDrop(start, n, 0, 0);
        DropDrop(start, n, 1);
        FlagReadsNext(start, n);
        f := ReadFlags();
        n := n + 1;
      }
      SpinsUnique(start, mask, n);
    }

    /** UART_Transmit: wait while the transmit FIFO is full, then write the byte to DR. */
    method Transmit(c: bv8)
      modifies this
      ensures log == old(log) + TransmitAccesses(old(flags), c)
      ensures flags == Drop(old(flags), Spins(old(flags), FR_TXFF))
      ensures regs == old(regs).(dr := Char(c)) && received == old(received)
    {
      WaitClear(FR_TXFF);
      regs := regs.(dr := Char(c));
      log := log + [Write(DR, Char(c))];
    }

    /** UART_Print: transmit each character of a NUL-terminated string, up to the NUL. */
    method Print(s: seq<bv8>)
      requires 0 in s
      modifies this
      ensures log == old(log) + PrintAccesses(old(flags), s)
      ensures flags == FlagsAfterPrint(old(flags), s)
      ensures regs == if s[0] == 0 then old(regs) else old(regs).(dr := Char(s[Strlen(s) - 1]))
      ensures received == old(received)
    {
      var i := 0;
      while s[i] != 0
        invariant i <= Strlen(s)
        invariant old(log) + PrintAccesses(old(flags), s) == log + PrintAccesses(flags, s[i..])
        invariant FlagsAfterPrint(old(flags), s) == FlagsAfterPrint(flags, s[i..])
        invariant i == 0 ==> regs == old(regs)
        invariant i > 0 ==> regs == old(regs).(dr := Char(s[i - 1]))
        invariant received == old(received)
        decreases Strlen(s) - i
      {
        ghost var logged := log;
        ghost var waiting := flags;
        PrintStep(waiting, s, i);
        Transmit(s[i]);
        PrintLogStep(old(log) + PrintAccesses(old(flags), s), logged, log, waiting, s, i);
        i := i + 1;
      }
      PrintStops(flags, s, i);
      assert i == Strlen(s);
    }

    /** UART_Receive: wait while the receive FIFO is empty, then return the low byte of DR. */
    method Receive() returns (c: bv8)
      modifies this
      ensures c == LowByte(At(old(received), 0, 0))
      ensures log == old(log) + FlagReads(old(flags), Spins(old(flags), FR_RXFE)) + [Read(DR, At(old(received), 0, 0))]
      ensures flags == Drop(old(flags), Spins(old(flags), FR_RXFE))
      ensures received == Drop(old(received), 1) && regs == old(regs)
    {
      WaitClear(FR_RXFE);
      var v := At(received, 0, 0);
      received := Drop(received, 1);
      log := log + [Read(DR, v)];
      c := LowByte(v);
    }
  }

  /**
   * UART_Receive takes DR only after a flag read showing the receive FIFO
   * not empty; every flag read before that showed it empty.
   */
  lemma ReceiveWaitsForData(flags: seq<bv32>)
    ensures var waits := FlagReads(flags, Spins(flags, FR_RXFE));
      && !FlagSet(waits[|waits| - 1].value, FR_RXFE)
      && forall i :: 0 <= i < |waits| - 1 ==> FlagSet(waits[i].value, FR_RXFE)
  {
    SpinsMeaning(flags, FR_RXFE);
  }
}
