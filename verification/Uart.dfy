/**
 The UART driver of kernel/drivers/pc16550.c against the emulated 16550 of
 vboard/devices/p16550.go: a state machine in which every register access of the interrupt
 handler, every access of the transmit start and every move of the device loop is one step.
 */
module Uart {
  import opened Options
  import opened RingBuffer

  const QUEUE_SZ: nat := 16
  const RX_FIFO_TRIG: nat := 14
  const TX_FIFO_SZ: nat := 16
  const RING_CAPACITY: nat := 511     // RINGBUF_SIZE - 1

  // ----- The device

  datatype Device = Device(
    rx: seq<bv8>, tx: seq<bv8>, overrun: bool,
    ier: bv8, fcr: bv8, lcr: bv8, mcr: bv8, msr: bv8, dlsb: bv8, dmsb: bv8)

  const RESET: Device := Device([], [], false, 0, 0, 0, 0, 0, 0, 0)

  predicate Dlab(d: Device) { d.lcr & 0x80 == 0x80 }

  function TriggerLevel(fcr: bv8): nat {
    var level := (fcr & 0xC0) >> 6;
    if level == 0 then 1 else if level == 1 then 4 else if level == 2 then 8 else 14
  }

  /** interruptIdentificationRegister; timedOut is the comparison of clocks. */
  function Iir(d: Device, timedOut: bool): bv8 {
    var r: bv8 := if d.fcr & 1 == 1 then 0xC0 else 0;
    if d.ier & 1 == 1 && |d.rx| >= TriggerLevel(d.fcr) then r | 0x04
    else if d.ier & 4 == 4 && |d.rx| > 0 && timedOut then r | 0x0C
    else if d.overrun then r | 0x06
    else if d.ier & 2 == 2 && |d.tx| == 0 then r | 0x02
    else 0x01
  }

  /** lineStatusRegister. */
  function Lsr(d: Device): (Device, bv8) {
    if |d.rx| > 0 then (d, 0x01)
    else if |d.tx| == 0 then (d, 0x60)
    else if d.overrun then (d.(overrun := false), 0x02)
    else (d, 0x00)
  }

  /** Read of register 0: the divisor, a received byte, or 0 when there is none. */
  function ReadData(d: Device): (Device, bv8) {
    if Dlab(d) then (d, d.dlsb)
    else if |d.rx| > 0 then (d.(rx := d.rx[1..]), d.rx[0])
    else (d, 0)
  }

  function ReadIer(d: Device): bv8 { if Dlab(d) then d.dmsb else d.ier }

  /** Write of register 0: the divisor, or a byte to send, dropped when the queue is full. */
  function WriteData(d: Device, data: bv8): Device {
    if Dlab(d) then d.(dlsb := data)
    else if |d.tx| < QUEUE_SZ then d.(tx := d.tx + [data])
    else d
  }

  function WriteIer(d: Device, data: bv8): Device { if Dlab(d) then d.(dmsb := data) else d.(ier := data) }

  // ----- The driver

  /** Where the interrupt handler is. */
  datatype Handler =
    | Out                                  // not running
    | ReadIsr
    | RxLoop(i: nat) | RxQueue(i: nat, data: bv8)
    | PollLsr | PollRead | PollQueue(data: bv8)
    | LineStatus
    | TxCheck | TxLoop(i: nat) | TxWrite(i: nat, data: bv8)
    | TxOffRead | TxOffWrite(ier: bv8)
    | Modem

  /** Where uart_start_xmit is. */
  datatype Xmit = NoXmit | XmitRead | XmitWrite(ier: bv8)

  /**
   The whole system. The logs: `queued` is what the console put into the TX ring and `taken` what
   the handler took out; `accepted` is the input the device took and `delivered` what the handler put
   into the RX ring; `stdout` is what the device wrote, with `writing` the byte on its way there.
   */
  datatype System = System(
    dev: Device, handler: Handler, xmit: Xmit,
    txRing: seq<bv8>, rxRing: seq<bv8>,
    queued: seq<bv8>, taken: seq<bv8>, accepted: seq<bv8>, delivered: seq<bv8>,
    stdout: seq<bv8>, writing: Option<bv8>, txLost: bool)

  /** ISR_INT_ID and the switch of uart_handler. */
  function Dispatch(isr: bv8): Handler {
    if isr & 1 == 1 then Out
    else
      var id := (isr >> 1) & 7;
      if id == 2 then RxLoop(0)
      else if id == 6 then PollLsr
      else if id == 3 then LineStatus
      else if id == 1 then TxCheck
      else if id == 0 then Modem
      else ReadIsr
  }

  /** One step of the handler. */
  function HandlerStep(s: System, timedOut: bool): System {
    match s.handler
    case Out => s.(handler := ReadIsr)
    case ReadIsr => s.(handler := Dispatch(Iir(s.dev, timedOut)))
    case RxLoop(i) =>
      if i < RX_FIFO_TRIG then
        var (d, data) := ReadData(s.dev);
        s.(dev := d, handler := RxQueue(i, data))
      else s.(handler := ReadIsr)
    case RxQueue(i, data) => Deliver(s, data).(handler := RxLoop(i + 1))
    case PollLsr =>
      var (d, status) := Lsr(s.dev);
      s.(dev := d, handler := if status & 1 == 1 then PollRead else ReadIsr)
    case PollRead =>
      var (d, data) := ReadData(s.dev);
      s.(dev := d, handler := PollQueue(data))
    case PollQueue(data) => Deliver(s, data).(handler := PollLsr)
    case LineStatus => s.(dev := Lsr(s.dev).0, handler := ReadIsr)
    case TxCheck => s.(handler := if s.txRing != [] then TxLoop(0) else TxOffRead)
    case TxLoop(i) =>
      if i < TX_FIFO_SZ && s.txRing != [] then
        s.(txRing := s.txRing[1..], taken := s.taken + [s.txRing[0]], handler := TxWrite(i, s.txRing[0]))
      else s.(handler := ReadIsr)
    case TxWrite(i, data) => s.(dev := WriteData(s.dev, data), handler := TxLoop(i + 1))
    case TxOffRead => s.(handler := TxOffWrite(ReadIer(s.dev) & 0xFD))
    case TxOffWrite(ier) => s.(dev := WriteIer(s.dev, ier), handler := ReadIsr)
    case Modem => s.(handler := ReadIsr)
  }

  /** ring_buffer_queue on the RX ring. */
  function Deliver(s: System, data: bv8): System {
    s.(rxRing := LastN(s.rxRing + [data], RING_CAPACITY), delivered := s.delivered + [data])
  }

  /** One step of uart_start_xmit, which runs only while the handler does not. */
  function XmitStep(s: System): System {
    if s.handler != Out then s
    else
      match s.xmit
      case NoXmit => s.(xmit := XmitRead)
      case XmitRead => s.(xmit := XmitWrite(ReadIer(s.dev) | 2))
      case XmitWrite(ier) => s.(dev := WriteIer(s.dev, ier), xmit := NoXmit)
  }

  /** The console queues a byte; the ring drops its oldest byte when it is full. */
  function ConsoleStep(s: System, c: bv8): System {
    if s.handler != Out then s
    else
      s.(txRing := LastN(s.txRing + [c], RING_CAPACITY), queued := s.queued + [c],
         txLost := s.txLost || |s.txRing| == RING_CAPACITY)
  }

  /** The device loop: take a byte to send, write it out, accept an input byte. */
  datatype Move =
    | HandlerMove(timedOut: bool)
    | XmitMove
    | ConsoleMove(c: bv8)
    | DeviceTakes
    | DeviceWrites
    | DeviceInput(c: bv8)

  function Next(s: System, m: Move): System {
    match m
    case HandlerMove(timedOut) => HandlerStep(s, timedOut)
    case XmitMove => XmitStep(s)
    case ConsoleMove(c) => ConsoleStep(s, c)
    case DeviceTakes =>
      if s.writing.None? && s.dev.tx != [] then
        s.(writing := Some(s.dev.tx[0]), dev := s.dev.(tx := s.dev.tx[1..]))
      else s
    case DeviceWrites =>
      if s.writing.Some? then s.(stdout := s.stdout + [s.writing.value], writing := None) else s
    case DeviceInput(c) =>
      if |s.dev.rx| < QUEUE_SZ then s.(dev := s.dev.(rx := s.dev.rx + [c]), accepted := s.accepted + [c])
      else s.(dev := s.dev.(overrun := true))
  }

  function Run(s: System, moves: seq<Move>): System
    decreases |moves|
  {
    if moves == [] then s else Run(Next(s, moves[0]), moves[1..])
  }

  // ----- Initialisation

  /** The register writes of uart_initialize with the divisor bytes lsb and msb. */
  function Initialize(d: Device, lsb: bv8, msb: bv8): Device {
    var d1 := d.(fcr := 0xC7);
    var d2 := d1.(lcr := 0x03);
    var d3 := WriteIer(d2, 0x05);
    var lcr := d3.lcr | 0x80;
    var d4 := d3.(lcr := lcr);
    var d5 := WriteData(d4, lsb);
    var d6 := WriteIer(d5, msb);
    var d7 := d6.(lcr := lcr & 0x7F);
    d7.(mcr := 0x02)
  }

  /** The system when interrupts are enabled: a fresh device, what the console queued before, no input lost. */
  function Start(lsb: bv8, msb: bv8, boot: seq<bv8>): System {
    System(Initialize(RESET, lsb, msb), Out, NoXmit, LastN(boot, RING_CAPACITY), [], boot, [], [], [], [], None,
           |boot| > RING_CAPACITY)
  }

  // ----- Invariant

  function InFlightTx(s: System): seq<bv8> {
    (if s.writing.Some? then [s.writing.value] else []) + s.dev.tx
    + (if s.handler.TxWrite? then [s.handler.data] else [])
  }

  function InFlightRx(s: System): seq<bv8> {
    (if s.handler.RxQueue? || s.handler.PollQueue? then [s.handler.data] else []) + s.dev.rx
  }

  /** The device is set up: data registers are not hidden by the divisor latch, trigger at 14 bytes. */
  predicate SetUp(d: Device) { !Dlab(d) && TriggerLevel(d.fcr) == RX_FIFO_TRIG && d.fcr & 1 == 1 }

  /** An interrupt enable value that leaves the receive and line status interrupts on. */
  predicate Receives(ier: bv8) { ier & 0xFD == 0x05 }

  /** What the position of the handler says about the queues. */
  predicate Positioned(s: System) {
    && |s.dev.rx| <= QUEUE_SZ && |s.dev.tx| <= QUEUE_SZ
    && match s.handler {
         case RxLoop(i) => i <= RX_FIFO_TRIG && |s.dev.rx| >= RX_FIFO_TRIG - i
         case RxQueue(i, _) => i < RX_FIFO_TRIG && |s.dev.rx| >= RX_FIFO_TRIG - i - 1
         case PollRead => |s.dev.rx| > 0
         case TxCheck => |s.dev.tx| == 0
         case TxLoop(i) => i <= TX_FIFO_SZ && |s.dev.tx| <= i
         case TxWrite(i, _) => i < TX_FIFO_SZ && |s.dev.tx| <= i
         case TxOffWrite(ier) => ier == 0x05
         case _ => true
       }
  }

  predicate Inv(s: System) {
    && SetUp(s.dev) && Positioned(s)
    && Receives(s.dev.ier) && (s.xmit.XmitWrite? ==> s.xmit.ier == 0x07)
    && s.rxRing == LastN(s.delivered, RING_CAPACITY)
    && s.taken == s.stdout + InFlightTx(s)
    && s.accepted == s.delivered + InFlightRx(s)
    && |s.txRing| <= RING_CAPACITY && (!s.txLost ==> s.queued == s.taken + s.txRing)
  }

  lemma InitializeSetsUp(d: Device, lsb: bv8, msb: bv8)
    ensures SetUp(Initialize(d, lsb, msb))
    ensures Initialize(d, lsb, msb).ier == 0x05
    ensures Initialize(d, lsb, msb).dlsb == lsb && Initialize(d, lsb, msb).dmsb == msb
    ensures Initialize(d, lsb, msb).rx == d.rx && Initialize(d, lsb, msb).tx == d.tx
  {}

  lemma StartIsGood(lsb: bv8, msb: bv8, boot: seq<bv8>)
    ensures Inv(Start(lsb, msb, boot))
  {
    InitializeSetsUp(RESET, lsb, msb);
  }

  /**
   The switch takes the branch the device means: full receive queue, stale bytes in it, overrun, empty
   transmit queue with its interrupt on, in this order of urgency, or nothing to do.
   */
  lemma DispatchIsRight(d: Device, timedOut: bool)
    requires SetUp(d) && Receives(d.ier)
    ensures Dispatch(Iir(d, timedOut)) ==
      if |d.rx| >= 14 then RxLoop(0)
      else if |d.rx| > 0 && timedOut then PollLsr
      else if d.overrun then LineStatus
      else if |d.tx| == 0 && d.ier == 0x07 then TxCheck
      else Out
  {
    IerCases(d.ier);
  }

  lemma IerCases(ier: bv8)
    requires Receives(ier)
    ensures ier & 1 == 1 && ier & 4 == 4 && (ier & 2 == 2 <==> ier == 0x07) && (ier == 0x05 || ier == 0x07)
    ensures ier & 0xFD == 0x05 && ier | 2 == 0x07
  {}

  /** uart_start_xmit turns the transmit interrupt on, and the handler turns it off when it has nothing to send. */
  lemma {:induction false} TransmitInterrupt(s: System, timedOut: bool)
    requires Inv(s)
    ensures s.handler == Out && s.xmit.XmitWrite? ==> XmitStep(s).dev.ier == 0x07
    ensures s.handler.TxOffWrite? ==> HandlerStep(s, timedOut).dev.ier == 0x05
    ensures s.handler == TxCheck ==> HandlerStep(s, timedOut).handler == if s.txRing == [] then TxOffRead else TxLoop(0)
  {}

  /** One interrupt moves up to 16 bytes out, the oldest of the ring first, and 14 bytes in. */
  lemma {:induction false} BurstSizes(s: System, timedOut: bool)
    requires Inv(s)
    ensures s.handler.TxLoop? ==>
      HandlerStep(s, timedOut).handler
      == if s.handler.i < 16 && s.txRing != [] then TxWrite(s.handler.i, s.txRing[0]) else ReadIsr
    ensures s.handler.RxLoop? && s.handler.i >= 14 ==> HandlerStep(s, timedOut).handler == ReadIsr
    ensures s.handler.RxLoop? && s.handler.i < 14 ==>
      s.dev.rx != [] && HandlerStep(s, timedOut).handler == RxQueue(s.handler.i, s.dev.rx[0])
  {
    SameSetUp(s.dev, s.dev);
    hide LastN, SetUp, Dlab, InFlightRx, InFlightTx;
  }

  lemma IerValues()
    ensures Receives(0x05) && Receives(0x07)
  {}

  lemma SameSetUp(d: Device, e: Device)
    requires SetUp(d) && e.lcr == d.lcr && e.fcr == d.fcr
    ensures SetUp(e) && !Dlab(d) && !Dlab(e)
  {}

  /** What the line status register leaves. */
  lemma LsrKeeps(d: Device)
    ensures Lsr(d).0 == d.(overrun := Lsr(d).0.overrun) && (Lsr(d).1 & 1 == 1 <==> |d.rx| > 0)
  {}

  /** The handler's steps that touch neither queue nor log. */
  lemma QuietKeepsInv(s: System, timedOut: bool)
    requires Inv(s) && s.handler in {Out, PollLsr, LineStatus, TxCheck, Modem}
    ensures Inv(HandlerStep(s, timedOut))
  {
    LsrKeeps(s.dev);
    SameSetUp(s.dev, Lsr(s.dev).0);
    hide SetUp, Receives, LastN, Lsr;
  }

  lemma IsrKeepsInv(s: System, timedOut: bool)
    requires Inv(s) && s.handler == ReadIsr
    ensures Inv(HandlerStep(s, timedOut))
  {
    DispatchIsRight(s.dev, timedOut);
    hide SetUp, Receives, LastN, Dispatch, Iir;
  }

  /** The steps that turn the transmit interrupt off. */
  lemma TxOffKeepsInv(s: System, timedOut: bool)
    requires Inv(s) && (s.handler == TxOffRead || s.handler.TxOffWrite?)
    ensures Inv(HandlerStep(s, timedOut))
  {
    IerCases(s.dev.ier);
    IerValues();
    SameSetUp(s.dev, s.dev.(ier := 0x05));
    hide SetUp, Receives, LastN, Dlab;
  }

  lemma ReceiveKeepsInv(s: System, timedOut: bool)
    requires Inv(s) && (s.handler.RxLoop? || s.handler == PollRead)
    ensures Inv(HandlerStep(s, timedOut))
  {
    var r := HandlerStep(s, timedOut);
    SameSetUp(s.dev, r.dev);
    hide SetUp, Receives, LastN, Dlab;
    if r.dev != s.dev { assert InFlightRx(r) == InFlightRx(s); }
  }

  lemma DeliverKeepsInv(s: System, timedOut: bool)
    requires Inv(s) && (s.handler.RxQueue? || s.handler.PollQueue?)
    ensures Inv(HandlerStep(s, timedOut))
  {
    var r := HandlerStep(s, timedOut);
    assert s.delivered + InFlightRx(s) == r.delivered + InFlightRx(r);
    LastNAppend(s.delivered, [s.handler.data], RING_CAPACITY);
  }

  lemma TakeKeepsInv(s: System, timedOut: bool)
    requires Inv(s) && s.handler.TxLoop?
    ensures Inv(HandlerStep(s, timedOut))
  {
    if s.handler.i < TX_FIFO_SZ && s.txRing != [] {
      var r := HandlerStep(s, timedOut);
      assert InFlightTx(r) == InFlightTx(s) + [s.txRing[0]];
      assert s.taken + s.txRing == r.taken + r.txRing;
    }
  }

  lemma SendKeepsInv(s: System, timedOut: bool)
    requires Inv(s) && s.handler.TxWrite?
    ensures Inv(HandlerStep(s, timedOut))
  {
    var r := HandlerStep(s, timedOut);
    assert InFlightTx(r) == InFlightTx(s);
  }

  lemma HandlerKeepsInv(s: System, timedOut: bool)
    requires Inv(s)
    ensures Inv(HandlerStep(s, timedOut))
  {
    match s.handler {
      case RxLoop(_) => ReceiveKeepsInv(s, timedOut);
      case PollRead => ReceiveKeepsInv(s, timedOut);
      case RxQueue(_, _) => DeliverKeepsInv(s, timedOut);
      case PollQueue(_) => DeliverKeepsInv(s, timedOut);
      case TxLoop(_) => TakeKeepsInv(s, timedOut);
      case TxWrite(_, _) => SendKeepsInv(s, timedOut);
      case ReadIsr => IsrKeepsInv(s, timedOut);
      case TxOffRead => TxOffKeepsInv(s, timedOut);
      case TxOffWrite(_) => TxOffKeepsInv(s, timedOut);
      case _ => QuietKeepsInv(s, timedOut);
    }
  }

  lemma ConsoleKeepsInv(s: System, c: bv8)
    requires Inv(s)
    ensures Inv(ConsoleStep(s, c))
  {
    assert s.taken + s.txRing + [c] == s.taken + (s.txRing + [c]);
  }

  lemma DeviceTakesKeepsInv(s: System)
    requires Inv(s)
    ensures Inv(Next(s, DeviceTakes))
  {
    var r := Next(s, DeviceTakes);
    assert InFlightTx(r) == InFlightTx(s);
  }

  lemma DeviceWritesKeepsInv(s: System)
    requires Inv(s)
    ensures Inv(Next(s, DeviceWrites))
  {
    var r := Next(s, DeviceWrites);
    assert s.stdout + InFlightTx(s) == r.stdout + InFlightTx(r);
  }

  lemma DeviceInputKeepsInv(s: System, c: bv8)
    requires Inv(s)
    ensures Inv(Next(s, DeviceInput(c)))
  {
    var r := Next(s, DeviceInput(c));
    if |s.dev.rx| < QUEUE_SZ { assert InFlightRx(r) == InFlightRx(s) + [c]; }
  }

  lemma XmitKeepsInv(s: System)
    requires Inv(s)
    ensures Inv(XmitStep(s))
  {
    IerCases(s.dev.ier);
    IerValues();
    SameSetUp(s.dev, s.dev.(ier := 0x07));
    hide SetUp, Receives, LastN, Dlab;
  }

  lemma NextKeepsInv(s: System, m: Move)
    requires Inv(s)
    ensures Inv(Next(s, m))
  {
    match m {
      case HandlerMove(timedOut) => HandlerKeepsInv(s, timedOut);
      case XmitMove => XmitKeepsInv(s);
      case ConsoleMove(c) => ConsoleKeepsInv(s, c);
      case DeviceTakes => DeviceTakesKeepsInv(s);
      case DeviceWrites => DeviceWritesKeepsInv(s);
      case DeviceInput(c) => DeviceInputKeepsInv(s, c);
    }
  }

  lemma {:induction false} RunKeepsInv(s: System, moves: seq<Move>)
    requires Inv(s)
    ensures Inv(Run(s, moves))
    decreases |moves|
  {
    if moves != [] {
      NextKeepsInv(s, moves[0]);
      RunKeepsInv(Next(s, moves[0]), moves[1..]);
    }
  }

  // ----- What every interleaving guarantees

  /**
   Whatever the interleaving, the bytes taken from the TX ring are those on stdout, then the one on
   its way, then the queue; the bytes put into the RX ring, then the queue, are the accepted input, and
   the ring holds the last 511 of those put into it. As long as the TX ring has not overflowed, nothing
   the console queued is lost, repeated or reordered.
   */
  lemma {:induction false} EveryInterleavingIsFaithful(lsb: bv8, msb: bv8, boot: seq<bv8>, moves: seq<Move>)
    ensures var s := Run(Start(lsb, msb, boot), moves);
            && s.taken == s.stdout + InFlightTx(s)
            && s.accepted == s.delivered + InFlightRx(s)
            && s.rxRing == LastN(s.delivered, 511)
            && (!s.txLost ==> s.queued == s.stdout + InFlightTx(s) + s.txRing)
  {
    StartIsGood(lsb, msb, boot);
    RunKeepsInv(Start(lsb, msb, boot), moves);
  }

  /** Up to 511 bytes of input are all there: in the RX ring, in the handler's hands or in the device. */
  lemma {:induction false} InputIsAllThere(lsb: bv8, msb: bv8, boot: seq<bv8>, moves: seq<Move>)
    ensures var s := Run(Start(lsb, msb, boot), moves);
            |s.accepted| <= 511 ==> s.accepted == s.rxRing + InFlightRx(s)
  {
    EveryInterleavingIsFaithful(lsb, msb, boot, moves);
  }

  /** What the console queues during the moves: the handler keeps it out while it runs. */
  function Typed(s: System, moves: seq<Move>): seq<bv8>
    decreases |moves|
  {
    if moves == [] then []
    else (if moves[0].ConsoleMove? && s.handler == Out then [moves[0].c] else []) + Typed(Next(s, moves[0]), moves[1..])
  }

  /** What comes in during the moves and finds room in the device. */
  function Heard(s: System, moves: seq<Move>): seq<bv8>
    decreases |moves|
  {
    if moves == [] then []
    else (if moves[0].DeviceInput? && |s.dev.rx| < 16 then [moves[0].c] else []) + Heard(Next(s, moves[0]), moves[1..])
  }

  /** The logs of both ends are the bytes of the moves. */
  lemma {:induction false} LogsAreTheInput(s: System, moves: seq<Move>)
    ensures Run(s, moves).queued == s.queued + Typed(s, moves)
    ensures Run(s, moves).accepted == s.accepted + Heard(s, moves)
  {
    QueuedIsTyped(s, moves);
    AcceptedIsHeard(s, moves);
  }

  lemma {:induction false} QueuedIsTyped(s: System, moves: seq<Move>)
    ensures Run(s, moves).queued == s.queued + Typed(s, moves)
    decreases |moves|
  {
    hide Next;
    if moves != [] {
      LogStep(s, moves[0]);
      QueuedIsTyped(Next(s, moves[0]), moves[1..]);
    }
  }

  lemma {:induction false} AcceptedIsHeard(s: System, moves: seq<Move>)
    ensures Run(s, moves).accepted == s.accepted + Heard(s, moves)
    decreases |moves|
  {
    hide Next;
    if moves != [] {
      LogStep(s, moves[0]);
      AcceptedIsHeard(Next(s, moves[0]), moves[1..]);
    }
  }

  lemma {:induction false} LogStep(s: System, m: Move)
    ensures Next(s, m).queued == s.queued + if m.ConsoleMove? && s.handler == Out then [m.c] else []
    ensures Next(s, m).accepted == s.accepted + if m.DeviceInput? && |s.dev.rx| < 16 then [m.c] else []
  {
    if m.HandlerMove? { HandlerLogs(s, m.timedOut); }
    hide HandlerStep, LastN, ReadIer, WriteIer;
  }

  /** The handler writes to neither log. */
  lemma {:induction false} HandlerLogs(s: System, timedOut: bool)
    ensures HandlerStep(s, timedOut).queued == s.queued && HandlerStep(s, timedOut).accepted == s.accepted
  {
    hide Iir, Dispatch, Lsr, ReadData, WriteData, ReadIer, WriteIer, LastN;
  }

  /** Everything the console typed comes out, once the system is quiet, if its ring never overflowed. */
  lemma {:induction false} TypedIsWritten(lsb: bv8, msb: bv8, boot: seq<bv8>, moves: seq<Move>)
    ensures var start := Start(lsb, msb, boot);
            var s := Run(start, moves);
            s.handler == Out && s.dev.tx == [] && s.writing.None? && s.txRing == [] && !s.txLost ==>
              s.stdout == boot + Typed(start, moves)
  {
    QuietMeansWritten(lsb, msb, boot, moves);
    LogsAreTheInput(Start(lsb, msb, boot), moves);
  }

  /** The device never drops a byte the handler sends, and the handler never reads an empty queue. */
  lemma {:induction false} NoDropNoPhantom(lsb: bv8, msb: bv8, boot: seq<bv8>, moves: seq<Move>)
    ensures var s := Run(Start(lsb, msb, boot), moves);
            && !Dlab(s.dev)
            && (s.handler.TxWrite? ==> WriteData(s.dev, s.handler.data).tx == s.dev.tx + [s.handler.data])
            && (s.handler.PollRead? || (s.handler.RxLoop? && s.handler.i < RX_FIFO_TRIG) ==>
                  |s.dev.rx| > 0 && ReadData(s.dev).1 == s.dev.rx[0])
  {
    StartIsGood(lsb, msb, boot);
    RunKeepsInv(Start(lsb, msb, boot), moves);
  }

  /** Once the handler is out and the device idle, everything taken is on stdout. */
  lemma {:induction false} QuietMeansWritten(lsb: bv8, msb: bv8, boot: seq<bv8>, moves: seq<Move>)
    ensures var s := Run(Start(lsb, msb, boot), moves);
            s.handler == Out && s.dev.tx == [] && s.writing.None? && s.txRing == [] && !s.txLost ==>
              s.stdout == s.queued
  {
    EveryInterleavingIsFaithful(lsb, msb, boot, moves);
  }
}
