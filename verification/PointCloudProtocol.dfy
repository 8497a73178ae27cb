/**
 * The point-cloud path as a system of atomic steps: one producer pushing packets into the ring queues of the
 * lidars, one consumer that waits on a semaphore, scans all lidars and drains their queues. Each step reads or
 * writes one shared variable; steps of the two threads interleave freely.
 */
module PointCloudProtocol {
  import opened Bytes
  import opened Ring

  /** Points are opaque here: their bytes. */
  type Packet = StoragePacket<Text>

  /** A slot is torn from before its first write until it is written, and while it is being overwritten. */
  datatype Cell = Torn | Whole(packet: Packet)

  /** A queue as shared memory, with the histories of what was pushed into and popped from it. */
  datatype Queue = Queue(hasStorage: bool, slots: seq<Cell>, rd: uint32, wr: uint32, size: uint32, mask: uint32,
                         pushed: seq<Packet>, popped: seq<Packet>, dropped: seq<Packet>)

  /** Where the producer is: the lidar it serves and, before the push, the packet it holds. */
  datatype Producer =
    | Idle
    | TestStorage(lidar: nat, packet: Packet)
    | InitStorage(lidar: nat, packet: Packet)
    | InitRead(lidar: nat, packet: Packet)
    | InitWrite(lidar: nat, packet: Packet)
    | InitSize(lidar: nat, packet: Packet)
    | InitMask(lidar: nat, packet: Packet)
    | TestFull(lidar: nat, packet: Packet)
    | BeginWrite(lidar: nat, packet: Packet)
    | EndWrite(lidar: nat, packet: Packet)
    | Advance(lidar: nat, packet: Packet)
    | TestEmpty(lidar: nat)
    | TestCount(lidar: nat)
    | Signal(lidar: nat)

  /** Where the consumer is: the lidar it looks at and, between copy and index update, the packet it holds. */
  datatype Consumer =
    | Wait
    | Scan(lidar: nat)
    | TestStored(lidar: nat)
    | TestOuter(lidar: nat)
    | TestInner(lidar: nat)
    | TestPop(lidar: nat)
    | Read(lidar: nat)
    | PopUpdate(lidar: nat, cell: Cell)

  datatype State = State(queues: seq<Queue>, sampling: seq<bool>, bufferSize: uint32, count: int,
                         producer: Producer, consumer: Consumer)

  const FRESH_QUEUE := Queue(false, [], 0, 0, 0, 0, [], [], [])

  /** Connect states and the buffer size, which InitQueue derives from the publish frequency, stay fixed. */
  predicate Init(s: State) {
    && |s.queues| == |s.sampling| && IsSize(s.bufferSize) && s.count == 0 && s.producer.Idle? && s.consumer.Wait?
    && forall j | 0 <= j < |s.queues| :: s.queues[j] == FRESH_QUEUE
  }

  predicate InRange(s: State) {
    && |s.queues| == |s.sampling| && IsSize(s.bufferSize)
    && (!s.producer.Idle? ==> s.producer.lidar < |s.queues|)
    && (!s.consumer.Wait? ==> s.consumer.lidar <= |s.queues|)
    && (!s.consumer.Wait? && !s.consumer.Scan? ==> s.consumer.lidar < |s.queues|)
  }

  /** What a thread may do to one queue. */
  function WithQueue(s: State, j: nat, q: Queue, p: Producer): State
    requires j < |s.queues|
  {
    s.(queues := s.queues[j := q], producer := p)
  }

  /** One step of PushLidarData; from Idle it is called with the next packet for some lidar. */
  function Produce(s: State, lidar: nat, packet: Packet): State
    requires InRange(s) && lidar < |s.queues|
  {
    var pc := s.producer;
    if pc.Idle? then s.(producer := TestStorage(lidar, packet))
    else
      var j := pc.lidar;
      var q := s.queues[j];
      match pc
      case TestStorage(_, p) => s.(producer := if q.hasStorage then TestFull(j, p) else InitStorage(j, p))
      case InitStorage(_, p) => WithQueue(s, j, q.(hasStorage := true, slots := seq(s.bufferSize, _ => Torn)), InitRead(j, p))
      case InitRead(_, p) => WithQueue(s, j, q.(rd := 0), InitWrite(j, p))
      case InitWrite(_, p) => WithQueue(s, j, q.(wr := 0), InitSize(j, p))
      case InitSize(_, p) => WithQueue(s, j, q.(size := s.bufferSize), InitMask(j, p))
      case InitMask(_, p) => WithQueue(s, j, q.(mask := s.bufferSize - 1), TestFull(j, p))
      case TestFull(_, p) =>
        if IsFull(q.rd, q.wr, q.mask) then WithQueue(s, j, q.(dropped := q.dropped + [p]), TestCount(j))
        else s.(producer := BeginWrite(j, p))
      case BeginWrite(_, p) => WithQueue(s, j, Store(q, Torn), EndWrite(j, p))
      case EndWrite(_, p) => WithQueue(s, j, Store(q, Whole(p)), Advance(j, p))
      case Advance(_, p) => WithQueue(s, j, q.(wr := Next(q.wr), pushed := q.pushed + [p]), TestEmpty(j))
      case TestEmpty(_) => s.(producer := if q.rd == q.wr then Idle else TestCount(j))
      case TestCount(_) => s.(producer := if s.count <= 0 then Signal(j) else Idle)
      case Signal(_) => s.(count := s.count + 1, producer := Idle)
  }

  function Store(q: Queue, cell: Cell): Queue {
    var i := Slot(q.wr, q.mask);
    if i < |q.slots| then q.(slots := q.slots[i := cell]) else q
  }

  function Load(q: Queue): Cell {
    var i := Slot(q.rd, q.mask);
    if i < |q.slots| then q.slots[i] else Torn
  }

  /** One step of the polling loop; waiting at a count of zero is a step that changes nothing. */
  function Consume(s: State): State
    requires InRange(s)
  {
    match s.consumer
    case Wait => if s.count > 0 then s.(count := s.count - 1, consumer := Scan(0)) else s
    case Scan(j) =>
      if j == |s.queues| then s.(consumer := Wait)
      else s.(consumer := if s.sampling[j] then TestStored(j) else Scan(j + 1))
    case TestStored(j) => s.(consumer := if s.queues[j].hasStorage then TestOuter(j) else Scan(j + 1))
    case TestOuter(j) => s.(consumer := if s.queues[j].rd == s.queues[j].wr then Scan(j + 1) else TestInner(j))
    case TestInner(j) => s.(consumer := if s.queues[j].rd == s.queues[j].wr then TestOuter(j) else TestPop(j))
    case TestPop(j) => s.(consumer := if s.queues[j].rd == s.queues[j].wr then TestInner(j) else Read(j))
    case Read(j) => s.(consumer := PopUpdate(j, Load(s.queues[j])))
    case PopUpdate(j, cell) =>
      var q := s.queues[j];
      var popped := if cell.Whole? then q.popped + [cell.packet] else q.popped;
      s.(queues := s.queues[j := q.(rd := Next(q.rd), popped := popped)], consumer := TestInner(j))
  }

  ghost predicate ProducerStep(s: State, t: State)
    requires InRange(s)
  {
    exists lidar: nat, packet: Packet | lidar < |s.queues| :: t == Produce(s, lidar, packet)
  }

  ghost predicate Step(s: State, t: State)
    requires InRange(s)
  {
    ProducerStep(s, t) || t == Consume(s)
  }

  // ----------------------------------------------------------- invariant

  predicate Configured(q: Queue, size: uint32) {
    q.hasStorage && |q.slots| == size && q.size == size && q.mask == size - 1
  }

  function Pending(q: Queue): int {
    |q.pushed| - |q.popped|
  }

  /** The queue is a bounded FIFO: indices count pushes and pops, and the packets between them sit in their places. */
  predicate Queued(q: Queue, size: uint32)
    requires IsSize(size)
  {
    && 0 <= Pending(q) <= size && q.popped == q.pushed[..|q.popped|]
    && q.rd == |q.popped| % TWO_32 && q.wr == |q.pushed| % TWO_32
    && (|q.pushed| > 0 ==> Configured(q, size))
    && (Configured(q, size) ==> InPlace(q, size))
  }

  predicate InPlace(q: Queue, size: uint32)
    requires IsSize(size) && |q.slots| == size
  {
    forall n: nat | |q.popped| <= n < |q.pushed| :: q.slots[Place(n, size)] == Whole(q.pushed[n])
  }

  /** The producer is initialising the storage of queue j. */
  predicate Initialising(pc: Producer, j: nat) {
    (pc.InitRead? || pc.InitWrite? || pc.InitSize? || pc.InitMask?) && pc.lidar == j
  }

  /** What the producer has established about the queue it works on. */
  predicate ProducerKnows(s: State)
    requires InRange(s)
  {
    var pc := s.producer;
    !pc.Idle? ==>
      var q := s.queues[pc.lidar];
      match pc
      case TestStorage(_, _) => true
      case InitStorage(_, _) => !q.hasStorage
      case InitMask(_, _) => q.hasStorage && |q.slots| == s.bufferSize && |q.pushed| == 0 && q.size == s.bufferSize
      case InitRead(_, _) => q.hasStorage && |q.slots| == s.bufferSize && |q.pushed| == 0
      case InitWrite(_, _) => q.hasStorage && |q.slots| == s.bufferSize && |q.pushed| == 0
      case InitSize(_, _) => q.hasStorage && |q.slots| == s.bufferSize && |q.pushed| == 0
      case TestFull(_, _) => Configured(q, s.bufferSize)
      case BeginWrite(_, _) => Configured(q, s.bufferSize) && Pending(q) < s.bufferSize
      case EndWrite(_, _) => Configured(q, s.bufferSize) && Pending(q) < s.bufferSize
      case Advance(_, p) => && Configured(q, s.bufferSize) && Pending(q) < s.bufferSize
                            && q.slots[Place(|q.pushed|, s.bufferSize)] == Whole(p)
      case TestEmpty(_) => true
      case TestCount(_) => true
      case Signal(_) => s.count == 0
  }

  /** What the consumer has established about the queue it drains. */
  predicate ConsumerKnows(s: State)
    requires InRange(s)
  {
    var pc := s.consumer;
    && (pc.TestPop? || pc.Read? || pc.PopUpdate? ==> Pending(s.queues[pc.lidar]) > 0)
    && (pc.PopUpdate? ==>
          var q := s.queues[pc.lidar];
          pc.cell == Whole(q.pushed[|q.popped|]))
  }

  /** The producer is between its push into queue j and the end of its signal test. */
  predicate WillTest(pc: Producer, j: nat) {
    (pc.TestEmpty? || pc.TestCount? || pc.Signal?) && pc.lidar == j
  }

  /** The consumer will look at queue j before it waits again. */
  predicate WillVisit(pc: Consumer, j: nat) {
    !pc.Wait? && pc.lidar <= j
  }

  /** Somebody is bound to take care of queue j. */
  predicate Attended(s: State, j: nat)
    requires InRange(s) && j < |s.queues|
  {
    s.sampling[j] && Pending(s.queues[j]) > 0 ==>
      s.count == 1 || WillTest(s.producer, j) || WillVisit(s.consumer, j)
  }

  /** What holds of each queue. */
  predicate QueueInv(s: State, j: nat)
    requires InRange(s) && j < |s.queues|
  {
    && Queued(s.queues[j], s.bufferSize)
    && (s.queues[j].hasStorage && !Initialising(s.producer, j) ==> Configured(s.queues[j], s.bufferSize))
    && Attended(s, j)
  }

  predicate Inv(s: State) {
    && InRange(s) && 0 <= s.count <= 1 && (forall j | 0 <= j < |s.queues| :: QueueInv(s, j))
    && ProducerKnows(s) && ConsumerKnows(s)
  }

  lemma InitHolds(s: State)
    requires Init(s)
    ensures Inv(s)
  {
  }

  // ------------------------------------------------------- single queues

  lemma EmptyMeansNone(q: Queue, size: uint32)
    requires IsSize(size) && Queued(q, size)
    ensures q.rd == q.wr <==> Pending(q) == 0
  {
    UsedIsCount(|q.popped|, |q.pushed|);
  }

  lemma FullMeansAll(q: Queue, size: uint32)
    requires IsSize(size) && Queued(q, size) && Configured(q, size)
    ensures IsFull(q.rd, q.wr, q.mask) <==> Pending(q) == size
  {
    UsedIsCount(|q.popped|, |q.pushed|);
  }

  lemma StoreKeeps(q: Queue, size: uint32, cell: Cell)
    requires IsSize(size) && Queued(q, size) && Configured(q, size) && Pending(q) < size
    ensures var r := Store(q, cell);
            && r == q.(slots := r.slots) && Configured(r, size) && Queued(r, size)
            && r.slots[Place(|q.pushed|, size)] == cell
  {
    SlotOfNumber(|q.pushed|, size);
    hide Place, Slot, IsSize;
    forall n: nat | |q.popped| <= n < |q.pushed| ensures Place(n, size) != Place(|q.pushed|, size) {
      SlotsDistinct(n, |q.pushed|, size);
    }
  }

  lemma PushKeeps(q: Queue, size: uint32, p: Packet)
    requires IsSize(size) && Queued(q, size) && Configured(q, size) && Pending(q) < size
    requires q.slots[Place(|q.pushed|, size)] == Whole(p)
    ensures Queued(q.(wr := Next(q.wr), pushed := q.pushed + [p]), size)
  {
    NextIsSuccessor(|q.pushed|);
    hide Place, IsSize, Next;
  }

  lemma PopKeeps(q: Queue, size: uint32)
    requires IsSize(size) && Queued(q, size) && Pending(q) > 0
    ensures Load(q) == Whole(q.pushed[|q.popped|])
    ensures Queued(q.(rd := Next(q.rd), popped := q.popped + [q.pushed[|q.popped|]]), size)
  {
    SlotOfNumber(|q.popped|, size);
    NextIsSuccessor(|q.popped|);
    hide Place, IsSize, Next, Slot;
  }

  /** Neither empty nor full, the two ends of the queue are different slots. */
  lemma EndsApart(q: Queue, size: uint32)
    requires IsSize(size) && Queued(q, size) && Configured(q, size) && 0 < Pending(q) < size
    ensures Slot(q.rd, q.mask) != Slot(q.wr, q.mask)
  {
    SlotOfNumber(|q.popped|, size);
    SlotOfNumber(|q.pushed|, size);
    SlotsDistinct(|q.popped|, |q.pushed|, size);
  }

  // --------------------------------------------------------------- steps

  /** A step of the producer on one queue concerns no other queue. */
  lemma OthersKept(s: State, t: State, j: nat)
    requires Inv(s) && InRange(t) && j < |s.queues|
    requires s.producer.Idle? || s.producer.lidar == j
    requires t.producer.Idle? || t.producer.lidar == j
    requires |t.queues| == |s.queues| && t == s.(queues := s.queues[j := t.queues[j]], producer := t.producer)
    ensures forall k | 0 <= k < |t.queues| && k != j :: QueueInv(t, k)
  {
    hide Queued, Configured;
    forall k | 0 <= k < |t.queues| && k != j ensures QueueInv(t, k) {
      assert QueueInv(s, k);
    }
  }

  lemma ProduceIdle(s: State, lidar: nat, packet: Packet)
    requires Inv(s) && lidar < |s.queues| && (s.producer.Idle? || s.producer.TestStorage?)
    ensures Inv(Produce(s, lidar, packet))
  {
    hide Queued;
    var t := Produce(s, lidar, packet);
    var j := t.producer.lidar;
    assert QueueInv(s, j);
    OthersKept(s, t, j);
  }

  /** Initialising a queue nobody has pushed into yet. */
  lemma ProduceInit(s: State, lidar: nat, packet: Packet)
    requires Inv(s) && lidar < |s.queues|
    requires s.producer.InitStorage? || s.producer.InitRead? || s.producer.InitWrite? || s.producer.InitSize? || s.producer.InitMask?
    ensures Inv(Produce(s, lidar, packet))
  {
    var j := s.producer.lidar;
    assert QueueInv(s, j);
    var t := Produce(s, lidar, packet);
    OthersKept(s, t, j);
    assert QueueInv(t, j);
  }

  lemma ProduceTestFull(s: State, lidar: nat, packet: Packet)
    requires Inv(s) && lidar < |s.queues| && s.producer.TestFull?
    ensures Inv(Produce(s, lidar, packet))
  {
    var j := s.producer.lidar;
    assert QueueInv(s, j);
    FullMeansAll(s.queues[j], s.bufferSize);
    hide IsFull, InPlace, Place;
    var t := Produce(s, lidar, packet);
    OthersKept(s, t, j);
    assert QueueInv(t, j);
  }

  lemma ProduceWrite(s: State, lidar: nat, packet: Packet)
    requires Inv(s) && lidar < |s.queues| && (s.producer.BeginWrite? || s.producer.EndWrite?)
    ensures Inv(Produce(s, lidar, packet))
  {
    var j := s.producer.lidar;
    assert QueueInv(s, j);
    StoreKeeps(s.queues[j], s.bufferSize, if s.producer.BeginWrite? then Torn else Whole(s.producer.packet));
    hide Store, InPlace, Place;
    var t := Produce(s, lidar, packet);
    OthersKept(s, t, j);
    assert QueueInv(t, j);
  }

  lemma ProduceAdvance(s: State, lidar: nat, packet: Packet)
    requires Inv(s) && lidar < |s.queues| && s.producer.Advance?
    ensures Inv(Produce(s, lidar, packet))
  {
    var j := s.producer.lidar;
    assert QueueInv(s, j);
    PushKeeps(s.queues[j], s.bufferSize, s.producer.packet);
    hide Next, InPlace, Place;
    var t := Produce(s, lidar, packet);
    OthersKept(s, t, j);
    assert QueueInv(t, j);
  }

  lemma ProduceTests(s: State, lidar: nat, packet: Packet)
    requires Inv(s) && lidar < |s.queues| && (s.producer.TestEmpty? || s.producer.TestCount? || s.producer.Signal?)
    ensures Inv(Produce(s, lidar, packet))
  {
    var j := s.producer.lidar;
    assert QueueInv(s, j);
    EmptyMeansNone(s.queues[j], s.bufferSize);
    hide InPlace, Place;
    var t := Produce(s, lidar, packet);
    if s.producer.Signal? {
      forall k | 0 <= k < |t.queues| ensures QueueInv(t, k) {
        assert QueueInv(s, k);
      }
    } else {
      OthersKept(s, t, j);
      assert QueueInv(t, j);
    }
  }

  lemma ProduceKeeps(s: State, lidar: nat, packet: Packet)
    requires Inv(s) && lidar < |s.queues|
    ensures Inv(Produce(s, lidar, packet))
  {
    hide Inv, Produce;
    var pc := s.producer;
    if pc.Idle? || pc.TestStorage? {
      ProduceIdle(s, lidar, packet);
    } else if pc.TestFull? {
      ProduceTestFull(s, lidar, packet);
    } else if pc.BeginWrite? || pc.EndWrite? {
      ProduceWrite(s, lidar, packet);
    } else if pc.Advance? {
      ProduceAdvance(s, lidar, packet);
    } else if pc.TestEmpty? || pc.TestCount? || pc.Signal? {
      ProduceTests(s, lidar, packet);
    } else {
      ProduceInit(s, lidar, packet);
    }
  }

  /** A step of the consumer that changes no queue. */
  lemma ConsumeLooks(s: State)
    requires Inv(s) && !s.consumer.PopUpdate?
    ensures Inv(Consume(s))
  {
    var pc, t := s.consumer, Consume(s);
    if !pc.Wait? && pc.lidar < |s.queues| {
      assert QueueInv(s, pc.lidar);
      EmptyMeansNone(s.queues[pc.lidar], s.bufferSize);
      if pc.Read? {
        PopKeeps(s.queues[pc.lidar], s.bufferSize);
      }
    }
    hide Load, Queued, Configured;
    forall k | 0 <= k < |t.queues| ensures QueueInv(t, k) {
      assert QueueInv(s, k);
    }
  }

  lemma ConsumePops(s: State)
    requires Inv(s) && s.consumer.PopUpdate?
    ensures Inv(Consume(s))
  {
    var j, t := s.consumer.lidar, Consume(s);
    assert QueueInv(s, j);
    PopKeeps(s.queues[j], s.bufferSize);
    hide Load, Next, Place;
    forall k | 0 <= k < |t.queues| ensures QueueInv(t, k) {
      assert QueueInv(s, k);
    }
  }

  lemma ConsumeKeeps(s: State)
    requires Inv(s)
    ensures Inv(Consume(s))
  {
    hide Inv, Consume;
    if s.consumer.PopUpdate? {
      ConsumePops(s);
    } else {
      ConsumeLooks(s);
    }
  }

  /** Every step of either thread keeps the invariant. */
  lemma StepKeeps(s: State, t: State)
    requires Inv(s) && Step(s, t)
    ensures Inv(t)
  {
    if ProducerStep(s, t) {
      var lidar: nat, packet: Packet :| lidar < |s.queues| && t == Produce(s, lidar, packet);
      hide Inv, Produce, Consume;
      ProduceKeeps(s, lidar, packet);
    } else {
      hide Inv, Consume;
      ConsumeKeeps(s);
    }
  }

  // ---------------------------------------------------------------- runs

  ghost predicate IsRun(run: seq<State>) {
    && |run| > 0 && Init(run[0])
    && forall i | 0 <= i < |run| - 1 :: InRange(run[i]) && Step(run[i], run[i + 1])
  }

  lemma {:induction false} RunKeeps(run: seq<State>, i: nat)
    requires IsRun(run) && i < |run|
    ensures Inv(run[i])
  {
    if i == 0 {
      InitHolds(run[0]);
    } else {
      hide Inv, Step, Init;
      RunKeeps(run, i - 1);
      StepKeeps(run[i - 1], run[i]);
    }
  }

  /**
   * In every reachable state the count is 0 or 1, and while the consumer waits at 0 with a packet in the queue
   * of a sampling lidar, the producer is still between its push into that queue and its signal test.
   */
  lemma NoLostWakeup(run: seq<State>, i: nat, j: nat)
    requires IsRun(run) && i < |run| && j < |run[i].queues|
    ensures InRange(run[i]) && 0 <= run[i].count <= 1
    ensures var s := run[i];
            s.consumer.Wait? && s.count == 0 && s.sampling[j] && Pending(s.queues[j]) > 0 ==> WillTest(s.producer, j)
  {
    RunKeeps(run, i);
    assert QueueInv(run[i], j);
  }

  /** From there the producer, the only one that can move, signals within three steps. */
  lemma TestSignals(s: State, j: nat, packet: Packet)
    requires Inv(s) && j < |s.queues| && s.consumer.Wait? && s.count == 0 && Pending(s.queues[j]) > 0
    requires WillTest(s.producer, j)
    ensures InRange(Produce(s, j, packet)) && InRange(Produce(Produce(s, j, packet), j, packet))
    ensures var t := Produce(s, j, packet);
            t.count == 1 || Produce(t, j, packet).count == 1 || Produce(Produce(t, j, packet), j, packet).count == 1
  {
    ProduceKeeps(s, j, packet);
    ProduceKeeps(Produce(s, j, packet), j, packet);
    assert QueueInv(s, j);
    EmptyMeansNone(s.queues[j], s.bufferSize);
  }

  /** The packets in a queue, oldest first. */
  function Contents(q: Queue): seq<Packet>
    requires |q.popped| <= |q.pushed|
  {
    q.pushed[|q.popped|..]
  }

  /** What a step does to a bounded FIFO: nothing, append one packet if there is room, or remove the oldest. */
  predicate FIFOStep(a: seq<Packet>, b: seq<Packet>, size: nat) {
    b == a || (|a| < size && |b| == |a| + 1 && b[..|a|] == a) || (|a| > 0 && b == a[1..])
  }

  /**
   * Every step of the threads is a step of a bounded FIFO on each queue; what was popped is a prefix of what was
   * pushed, and a packet is dropped only if the FIFO is full.
   */
  lemma RefinesFIFO(s: State, t: State, j: nat)
    requires Inv(s) && Step(s, t) && j < |s.queues|
    ensures Inv(t) && |t.queues| == |s.queues|
    ensures var a, b := s.queues[j], t.queues[j];
            && |a.popped| <= |a.pushed| && |b.popped| <= |b.pushed|
            && FIFOStep(Contents(a), Contents(b), s.bufferSize)
            && |Contents(a)| <= s.bufferSize
            && a.popped <= a.pushed && a.pushed <= b.pushed && a.popped <= b.popped
            && (b.dropped != a.dropped ==> |Contents(a)| == s.bufferSize && |b.dropped| == |a.dropped| + 1)
  {
    StepKeeps(s, t);
    assert QueueInv(s, j) && QueueInv(t, j);
    hide Inv, Produce, Consume, InPlace, Configured, Attended, Used, Contents, FIFOStep;
    if ProducerStep(s, t) {
      var lidar: nat, packet: Packet :| lidar < |s.queues| && t == Produce(s, lidar, packet);
      ProducerFIFO(s, lidar, packet, j);
    } else {
      ConsumerFIFO(s, j);
    }
    HistoriesFIFO(s.queues[j], t.queues[j], s.bufferSize);
  }

  /** The running indices always differ by the length of the FIFO, modulo 2^32. */
  lemma IndicesCountContents(s: State, j: nat)
    requires Inv(s) && j < |s.queues|
    ensures |s.queues[j].popped| <= |s.queues[j].pushed|
    ensures Used(s.queues[j].rd, s.queues[j].wr) == |Contents(s.queues[j])| <= s.bufferSize
  {
    assert QueueInv(s, j);
    UsedIsCount(|s.queues[j].popped|, |s.queues[j].pushed|);
    hide Used, InPlace;
  }

  lemma HistoriesFIFO(a: Queue, b: Queue, size: nat)
    requires 0 <= Pending(a) && a.popped == a.pushed[..|a.popped|]
    requires || (b.popped == a.popped
                 && (b.pushed == a.pushed || (Pending(a) < size && |b.pushed| == |a.pushed| + 1 && a.pushed <= b.pushed)))
             || (b.pushed == a.pushed && Pending(a) > 0 && b.popped == a.popped + [a.pushed[|a.popped|]])
    ensures |b.popped| <= |b.pushed| && FIFOStep(Contents(a), Contents(b), size) && |Contents(a)| == Pending(a)
    ensures a.popped <= a.pushed && a.pushed <= b.pushed && a.popped <= b.popped
  {
  }

  lemma ProducerFIFO(s: State, lidar: nat, packet: Packet, j: nat)
    requires Inv(s) && lidar < |s.queues| && j < |s.queues|
    ensures var a, b := s.queues[j], Produce(s, lidar, packet).queues[j];
            && b.popped == a.popped
            && (b.pushed == a.pushed
                || (Pending(a) < s.bufferSize && |b.pushed| == |a.pushed| + 1 && a.pushed <= b.pushed))
            && (b.dropped != a.dropped ==> Pending(a) == s.bufferSize && |b.dropped| == |a.dropped| + 1)
  {
    assert QueueInv(s, j);
    if s.producer.TestFull? && s.producer.lidar == j {
      FullMeansAll(s.queues[j], s.bufferSize);
    }
    hide IsFull, Slot, Place, Next;
  }

  lemma ConsumerFIFO(s: State, j: nat)
    requires Inv(s) && j < |s.queues|
    ensures var a, b := s.queues[j], Consume(s).queues[j];
            && b.pushed == a.pushed && b.dropped == a.dropped
            && (b.popped == a.popped || (Pending(a) > 0 && b.popped == a.popped + [a.pushed[|a.popped|]]))
  {
    hide Slot, Place, Next;
  }

  /** The slot the consumer copies from is never the slot the producer writes, and never torn. */
  lemma CopiesAreSafe(s: State)
    requires Inv(s) && s.consumer.Read?
    ensures var q := s.queues[s.consumer.lidar];
            && Load(q) == Whole(q.pushed[|q.popped|])
            && ((s.producer.BeginWrite? || s.producer.EndWrite?) && s.producer.lidar == s.consumer.lidar ==>
                  Slot(q.rd, q.mask) != Slot(q.wr, q.mask))
  {
    var q := s.queues[s.consumer.lidar];
    assert QueueInv(s, s.consumer.lidar);
    PopKeeps(q, s.bufferSize);
    if (s.producer.BeginWrite? || s.producer.EndWrite?) && s.producer.lidar == s.consumer.lidar {
      EndsApart(q, s.bufferSize);
    }
    hide Load, Slot, Queued, InPlace;
  }

  /** The pop inside the drain loops never finds the queue empty, and a queue is left only when it is empty. */
  lemma DrainsBeforeLeaving(s: State)
    requires Inv(s)
    ensures s.consumer.TestPop? ==> Consume(s).consumer == Read(s.consumer.lidar)
    ensures s.consumer.TestOuter? && Consume(s).consumer.Scan? ==> Pending(s.queues[s.consumer.lidar]) == 0
  {
    if s.consumer.TestPop? || s.consumer.TestOuter? {
      assert QueueInv(s, s.consumer.lidar);
      EmptyMeansNone(s.queues[s.consumer.lidar], s.bufferSize);
    }
  }

  // ------------------------------------------------------------ delivery

  function TotalPending(queues: seq<Queue>): int {
    if |queues| == 0 then 0 else TotalPending(queues[..|queues| - 1]) + Pending(queues[|queues| - 1])
  }

  lemma {:induction false} TotalPendingUpdate(queues: seq<Queue>, j: nat, q: Queue)
    requires j < |queues|
    ensures TotalPending(queues[j := q]) == TotalPending(queues) - Pending(queues[j]) + Pending(q)
    decreases |queues|
  {
    var n := |queues| - 1;
    if j < n {
      TotalPendingUpdate(queues[..n], j, q);
      assert queues[j := q][..n] == queues[..n][j := q];
    } else {
      assert queues[j := q][..n] == queues[..n];
    }
  }

  lemma {:induction false} TotalPendingNat(queues: seq<Queue>)
    requires forall j | 0 <= j < |queues| :: Pending(queues[j]) >= 0
    ensures TotalPending(queues) >= 0
  {
    if |queues| > 0 {
      TotalPendingNat(queues[..|queues| - 1]);
    }
  }

  function ConsumeMany(s: State, n: nat): (t: State)
    requires Inv(s)
    ensures Inv(t)
    decreases n
  {
    if n == 0 then s
    else
      ConsumeKeeps(s);
      ConsumeMany(Consume(s), n - 1)
  }

  /** How far the consumer still is from leaving the lidar it looks at. */
  function Distance(s: State): nat
    requires InRange(s)
  {
    var pc := s.consumer;
    if pc.Wait? then 0
    else if pc.Scan? then 9
    else if pc.TestStored? then 8
    else if pc.TestOuter? then (if Pending(s.queues[pc.lidar]) > 0 then 6 else 2)
    else if pc.TestInner? then (if Pending(s.queues[pc.lidar]) > 0 then 5 else 3)
    else if pc.TestPop? then 4
    else if pc.Read? then 3
    else 2
  }

  function LidarsLeft(s: State): nat
    requires InRange(s)
  {
    if s.consumer.Wait? then 0 else |s.queues| + 1 - s.consumer.lidar
  }

  /** A step of the consumer uses up a signal, removes a packet, moves on to the next lidar, or comes closer to that. */
  lemma ConsumeProgress(s: State)
    requires Inv(s) && !(s.consumer.Wait? && s.count == 0)
    ensures Inv(Consume(s)) && TotalPending(s.queues) >= 0 && TotalPending(Consume(s).queues) >= 0
    ensures var t := Consume(s);
            && t.producer == s.producer && t.sampling == s.sampling && |t.queues| == |s.queues|
            && (forall j | 0 <= j < |s.queues| :: t.queues[j].pushed == s.queues[j].pushed)
            && (t.count < s.count
                || (t.count == s.count
                    && (TotalPending(t.queues) < TotalPending(s.queues)
                        || (t.queues == s.queues
                            && (LidarsLeft(t) < LidarsLeft(s)
                                || (LidarsLeft(t) == LidarsLeft(s) && Distance(t) < Distance(s)))))))
  {
    ConsumeKeeps(s);
    PendingsNat(s);
    PendingsNat(Consume(s));
    if s.consumer.PopUpdate? {
      PopsOne(s);
    } else {
      Approaches(s);
    }
    hide Inv, Consume;
  }

  lemma PopsOne(s: State)
    requires Inv(s) && s.consumer.PopUpdate?
    ensures var t := Consume(s);
            && InRange(t) && t == s.(queues := t.queues, consumer := t.consumer) && |t.queues| == |s.queues|
            && (forall j | 0 <= j < |s.queues| :: t.queues[j].pushed == s.queues[j].pushed)
            && TotalPending(t.queues) < TotalPending(s.queues)
  {
    hide Slot, Next;
    TotalPendingUpdate(s.queues, s.consumer.lidar, Consume(s).queues[s.consumer.lidar]);
  }

  lemma Approaches(s: State)
    requires Inv(s) && !s.consumer.PopUpdate? && !(s.consumer.Wait? && s.count == 0)
    ensures var t := Consume(s);
            && InRange(t) && t == s.(count := t.count, consumer := t.consumer)
            && (t.count < s.count
                || (t.count == s.count
                    && (LidarsLeft(t) < LidarsLeft(s)
                        || (LidarsLeft(t) == LidarsLeft(s) && Distance(t) < Distance(s)))))
  {
    var pc := s.consumer;
    if !pc.Wait? && pc.lidar < |s.queues| {
      assert QueueInv(s, pc.lidar);
      EmptyMeansNone(s.queues[pc.lidar], s.bufferSize);
    }
    hide Queued, Configured, Attended, Load, ProducerKnows;
  }

  lemma PendingsNat(s: State)
    requires Inv(s)
    ensures TotalPending(s.queues) >= 0
  {
    forall j | 0 <= j < |s.queues| ensures Pending(s.queues[j]) >= 0 {
      assert QueueInv(s, j);
    }
    TotalPendingNat(s.queues);
  }

  /**
   * If the producer pauses, the consumer comes to rest, waiting at a count of zero, with every packet pushed
   * for a sampling lidar delivered in order.
   */
  lemma {:induction false} AllDelivered(s: State) returns (n: nat)
    requires Inv(s) && s.producer.Idle?
    ensures var t := ConsumeMany(s, n);
            && t.consumer.Wait? && t.count == 0 && |t.queues| == |s.queues|
            && forall j | 0 <= j < |s.queues| && s.sampling[j] :: t.queues[j].popped == s.queues[j].pushed
    decreases s.count, TotalPending(s.queues), LidarsLeft(s), Distance(s)
  {
    if s.consumer.Wait? && s.count == 0 {
      n := 0;
      forall j | 0 <= j < |s.queues| && s.sampling[j] ensures s.queues[j].popped == s.queues[j].pushed {
        assert QueueInv(s, j);
      }
    } else {
      hide Inv, Consume, Distance, LidarsLeft, TotalPending;
      ConsumeProgress(s);
      var m := AllDelivered(Consume(s));
      n := m + 1;
    }
  }
}
