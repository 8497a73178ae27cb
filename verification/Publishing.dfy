/** The publisher: decoded points are buffered per lidar and handed over in frames, by device time or by the clock. */
module Publishing {
  import opened Bytes

  const MAX_LIDARS: nat := 32
  const NS_PER_MS: nat := 1000000

  datatype ProtoType = LivoxLidarType | OtherType

  datatype DataType = CartesianHigh | CartesianLow | Spherical | UnknownData

  /** A raw measurement; its conversion to coordinates is not modelled, so points keep it as it came. */
  type Measurement = Text

  datatype Point = Point(raw: Measurement, line: nat, time: nat)

  datatype RawPacket = RawPacket(lidarType: ProtoType, handle: nat, dataType: DataType, lineNum: nat,
                                 timeStamp: nat, pointInterval: nat, raw: seq<Measurement>)

  predicate ValidPacket(p: RawPacket) {
    p.lineNum > 0
  }

  /** The i-th point of a packet; times are 64-bit. */
  function PointAt(p: RawPacket, i: nat): Point
    requires i < |p.raw| && ValidPacket(p)
  {
    Point(p.raw[i], i % p.lineNum, (p.timeStamp + i * p.pointInterval) % TWO_64)
  }

  predicate Decodable(p: RawPacket) {
    p.lidarType == LivoxLidarType && p.dataType != UnknownData
  }

  function PointsUpTo(p: RawPacket, n: nat): seq<Point>
    requires n <= |p.raw| && ValidPacket(p)
  {
    if n == 0 then [] else PointsUpTo(p, n - 1) + [PointAt(p, n - 1)]
  }

  /** All points of a packet, none for types that are not supported. */
  function Decoded(p: RawPacket): seq<Point>
    requires ValidPacket(p)
  {
    if Decodable(p) then PointsUpTo(p, |p.raw|) else []
  }

  function LidarId(p: RawPacket): nat {
    if p.lidarType == LivoxLidarType then p.handle else 0
  }

  function BaseTime(points: seq<Point>): nat {
    if |points| == 0 then 0 else points[0].time
  }

  function RecentTime(points: seq<Point>): nat {
    if |points| == 0 then 0 else points[|points| - 1].time
  }

  // ---------------------------------------------------------------- frames

  /** What a frame says about one lidar. */
  datatype Entry = Entry(baseTime: nat, handle: nat, points: seq<Point>)

  type Frame = seq<Entry>

  function OfFrame(frame: Frame, id: nat): seq<Point> {
    if |frame| == 0 then []
    else OfFrame(frame[..|frame| - 1], id) + (if frame[|frame| - 1].handle == id then frame[|frame| - 1].points else [])
  }

  /** All points published for a lidar, in the order of publication. */
  function Published(frames: seq<Frame>, id: nat): seq<Point> {
    if |frames| == 0 then []
    else Published(frames[..|frames| - 1], id) + OfFrame(frames[|frames| - 1], id)
  }

  /** The frame of everything that is buffered, lidars without points left out. */
  function Collected(order: seq<nat>, buffers: map<nat, seq<Point>>): Frame
    requires forall id | id in order :: id in buffers
  {
    if |order| == 0 then []
    else
      var id := order[|order| - 1];
      var before := Collected(order[..|order| - 1], buffers);
      if |buffers[id]| == 0 then before else before + [Entry(BaseTime(buffers[id]), id, buffers[id])]
  }

  predicate Ascending(order: seq<nat>) {
    forall i, j | 0 <= i < j < |order| :: order[i] < order[j]
  }

  lemma FrameOne(frame: Frame, e: Entry, id: nat)
    ensures OfFrame(frame + [e], id) == OfFrame(frame, id) + (if e.handle == id then e.points else [])
  {
    assert (frame + [e])[..|frame|] == frame;
  }

  lemma NothingCollected(buffers: map<nat, seq<Point>>)
    ensures Collected([], buffers) == []
  {
  }

  /** One more lidar visited. */
  lemma CollectedStep(order: seq<nat>, buffers: map<nat, seq<Point>>, k: nat)
    requires k < |order| && forall i | i in order :: i in buffers
    ensures var id, before := order[k], Collected(order[..k], buffers);
            Collected(order[..k + 1], buffers)
            == if |buffers[id]| == 0 then before else before + [Entry(BaseTime(buffers[id]), id, buffers[id])]
  {
    assert order[..k + 1][..k] == order[..k];
  }

  /** Collecting takes every buffer exactly once. */
  lemma {:induction false} CollectedHasAll(order: seq<nat>, buffers: map<nat, seq<Point>>, id: nat)
    requires Ascending(order) && forall i | i in order :: i in buffers
    ensures OfFrame(Collected(order, buffers), id) == if id in order then buffers[id] else []
    decreases |order|
  {
    if |order| > 0 {
      hide OfFrame, Collected, BaseTime;
      var n := |order| - 1;
      CollectedHasAll(order[..n], buffers, id);
      assert order == order[..n] + [order[n]] && order[..n + 1] == order;
      CollectedStep(order, buffers, n);
      var b := buffers[order[n]];
      FrameOne(Collected(order[..n], buffers), Entry(BaseTime(b), order[n], b), id);
      assert [] + b == b;
    }
  }

  /** Each entry carries points, and the time of the first of them. */
  predicate WellTimed(frame: Frame) {
    forall e | e in frame :: |e.points| > 0 && e.baseTime == e.points[0].time
  }

  lemma {:induction false} CollectedWellTimed(order: seq<nat>, buffers: map<nat, seq<Point>>)
    requires forall i | i in order :: i in buffers
    ensures WellTimed(Collected(order, buffers))
    decreases |order|
  {
    if |order| > 0 {
      CollectedWellTimed(order[..|order| - 1], buffers);
    }
  }

  // ------------------------------------------------- the publisher on values

  datatype Config = Config(publishInterval: nat, publishIntervalTolerance: nat, publishIntervalMs: nat)

  predicate ValidConfig(c: Config) {
    c.publishIntervalMs > 0
  }

  datatype Publisher = Publisher(order: seq<nat>, buffers: map<nat, seq<Point>>, first: bool, lastPubTime: int,
                                 published: seq<Frame>)

  const NEW_PUBLISHER := Publisher([], map[], true, 0, [])

  ghost predicate ValidPublisher(p: Publisher) {
    (forall id :: id in p.order <==> id in p.buffers) && Ascending(p.order) && |p.order| <= MAX_LIDARS
  }

  /** With synchronised time, a buffer is due at a multiple of the interval after enough device time. */
  predicate SyncDue(c: Config, points: seq<Point>)
    requires ValidConfig(c)
  {
    var ms := RecentTime(points) / NS_PER_MS;
    && ms % c.publishIntervalMs == 0 && ms != 0
    && (RecentTime(points) - BaseTime(points)) % TWO_64 >= c.publishIntervalTolerance
  }

  /** The buffers once those of some lidars have been taken. */
  function Cleared(buffers: map<nat, seq<Point>>, ids: seq<nat>): map<nat, seq<Point>> {
    map id | id in buffers :: if id in ids then [] else buffers[id]
  }

  lemma NothingCleared(buffers: map<nat, seq<Point>>)
    ensures Cleared(buffers, []) == buffers
  {
  }

  lemma ClearedStep(buffers: map<nat, seq<Point>>, order: seq<nat>, k: nat)
    requires Ascending(order) && k < |order| && forall id | id in order :: id in buffers
    ensures order[k] in Cleared(buffers, order[..k])
    ensures Cleared(buffers, order[..k])[order[k]] == buffers[order[k]]
    ensures Cleared(buffers, order[..k])[order[k] := []] == Cleared(buffers, order[..k + 1])
  {
    assert order[..k + 1] == order[..k] + [order[k]];
  }

  /** The check after each packet: the sender's buffer by its own time, or all buffers by the clock. */
  function AfterTimer(p: Publisher, c: Config, id: nat, sync: bool, now: int): Publisher
    requires ValidPublisher(p) && ValidConfig(c) && id in p.buffers
  {
    if sync then
      var b := p.buffers[id];
      if SyncDue(c, b) then p.(buffers := p.buffers[id := []], published := p.published + [[Entry(BaseTime(b), id, b)]])
      else p
    else if p.first then p.(first := false, lastPubTime := now)
    else if now - p.lastPubTime < c.publishInterval then p
    else p.(lastPubTime := p.lastPubTime + c.publishInterval, buffers := Cleared(p.buffers, p.order),
            published := p.published + [Collected(p.order, p.buffers)])
  }

  /** Where a new handle goes in the visiting order. */
  function Inserted(order: seq<nat>, id: nat): (r: seq<nat>)
    requires Ascending(order) && id !in order
    ensures Ascending(r) && |r| == |order| + 1 && forall i :: i in r <==> i in order || i == id
    ensures |order| > 0 ==> r[|r| - 1] == if order[|order| - 1] > id then order[|order| - 1] else id
    decreases |order|
  {
    if |order| == 0 || order[|order| - 1] < id then order + [id]
    else
      var n := |order| - 1;
      assert order == order[..n] + [order[n]];
      Inserted(order[..n], id) + [order[n]]
  }

  /** The buffers once points have been appended to one of them. */
  function Extended(buffers: map<nat, seq<Point>>, id: nat, points: seq<Point>): map<nat, seq<Point>>
    requires id in buffers
  {
    buffers[id := buffers[id] + points]
  }

  lemma AppendNothing(buffers: map<nat, seq<Point>>, id: nat)
    requires id in buffers
    ensures Extended(buffers, id, []) == buffers
  {
    assert buffers[id] + [] == buffers[id];
  }

  lemma AppendOne(buffers: map<nat, seq<Point>>, id: nat, points: seq<Point>, point: Point)
    requires id in buffers
    ensures var some := Extended(buffers, id, points);
            id in some && some[id := some[id] + [point]] == Extended(buffers, id, points + [point])
  {
    assert buffers[id] + points + [point] == buffers[id] + (points + [point]);
  }

  /** A packet: its lidar gets a buffer if it has none, and the buffer gets the points. */
  function AfterPacket(p: Publisher, packet: RawPacket): Publisher
    requires ValidPublisher(p) && ValidPacket(packet)
  {
    var id := LidarId(packet);
    if id in p.buffers then p.(buffers := Extended(p.buffers, id, Decoded(packet)))
    else p.(order := Inserted(p.order, id), buffers := Extended(p.buffers[id := []], id, Decoded(packet)))
  }

  lemma ReceiveKeeps(p: Publisher, packet: RawPacket)
    requires ValidPublisher(p) && ValidPacket(packet)
    requires LidarId(packet) in p.buffers || |p.order| < MAX_LIDARS
    ensures ValidPublisher(AfterPacket(p, packet)) && LidarId(packet) in AfterPacket(p, packet).buffers
  {
  }

  // ---------------------------------------------------------- conservation

  function Pending(p: Publisher, id: nat): seq<Point> {
    if id in p.buffers then p.buffers[id] else []
  }

  /** Everything known of a lidar: what was published, then what is still buffered. */
  function Accounted(p: Publisher, id: nat): seq<Point> {
    Published(p.published, id) + Pending(p, id)
  }

  lemma PublishOne(frames: seq<Frame>, frame: Frame, id: nat)
    ensures Published(frames + [frame], id) == Published(frames, id) + OfFrame(frame, id)
  {
    assert (frames + [frame])[..|frames|] == frames;
  }

  /** The timer check moves points from buffers to frames and loses, doubles or reorders none. */
  lemma TimerConserves(p: Publisher, c: Config, id: nat, sync: bool, now: int, lidar: nat)
    requires ValidPublisher(p) && ValidConfig(c) && id in p.buffers
    ensures ValidPublisher(AfterTimer(p, c, id, sync, now))
    ensures Accounted(AfterTimer(p, c, id, sync, now), lidar) == Accounted(p, lidar)
  {
    hide Ascending, Collected, SyncDue, OfFrame, Published;
    var t := AfterTimer(p, c, id, sync, now);
    if sync {
      var b := p.buffers[id];
      PublishOne(p.published, [Entry(BaseTime(b), id, b)], lidar);
      OfSingle(BaseTime(b), id, b, lidar);
    } else {
      PublishOne(p.published, Collected(p.order, p.buffers), lidar);
      CollectedHasAll(p.order, p.buffers, lidar);
    }
    assert Published(p.published, lidar) + Pending(p, lidar) + [] == Published(p.published, lidar) + Pending(p, lidar);
  }

  lemma OfSingle(time: nat, id: nat, points: seq<Point>, lidar: nat)
    ensures OfFrame([Entry(time, id, points)], lidar) == if lidar == id then points else []
  {
    assert [Entry(time, id, points)][..0] == [];
    assert [] + points == points;
  }

  /** A packet adds its points at the end, for its lidar only. */
  lemma PacketAppends(p: Publisher, packet: RawPacket, lidar: nat)
    requires ValidPublisher(p) && ValidPacket(packet)
    ensures Accounted(AfterPacket(p, packet), lidar)
         == Accounted(p, lidar) + (if lidar == LidarId(packet) then Decoded(packet) else [])
  {
    hide Inserted, Decoded, Published;
    var a, b, d := Published(p.published, lidar), Pending(p, lidar), Decoded(packet);
    assert a + (b + d) == a + b + d;
    assert a + b + [] == a + b;
  }

  /** What reaches the processing loop with each packet: the sync flag and a reading of the clock. */
  datatype Input = Input(packet: RawPacket, sync: bool, now: int)

  function Ids(inputs: seq<Input>): set<nat> {
    set i | 0 <= i < |inputs| :: LidarId(inputs[i].packet)
  }

  predicate ValidInputs(inputs: seq<Input>) {
    (forall i | 0 <= i < |inputs| :: ValidPacket(inputs[i].packet)) && |Ids(inputs)| <= MAX_LIDARS
  }

  /** All points decoded for a lidar, in order of arrival. */
  function DecodedFor(inputs: seq<Input>, id: nat): seq<Point>
    requires forall i | 0 <= i < |inputs| :: ValidPacket(inputs[i].packet)
  {
    if |inputs| == 0 then []
    else
      var last := inputs[|inputs| - 1].packet;
      DecodedFor(inputs[..|inputs| - 1], id) + (if LidarId(last) == id then Decoded(last) else [])
  }

  ghost predicate Knows(p: Publisher, inputs: seq<Input>) {
    forall id :: id in p.order <==> id in Ids(inputs)
  }

  /** One packet processed. */
  function Step(p: Publisher, c: Config, input: Input): (r: Publisher)
    requires ValidPublisher(p) && ValidConfig(c) && ValidPacket(input.packet)
    requires LidarId(input.packet) in p.buffers || |p.order| < MAX_LIDARS
    ensures ValidPublisher(r) && forall id :: id in r.order <==> id in p.order || id == LidarId(input.packet)
  {
    var received := AfterPacket(p, input.packet);
    ReceiveKeeps(p, input.packet);
    TimerConserves(received, c, LidarId(input.packet), input.sync, input.now, 0);
    AfterTimer(received, c, LidarId(input.packet), input.sync, input.now)
  }

  /** The publisher after some packets. */
  function Run(c: Config, inputs: seq<Input>): (p: Publisher)
    requires ValidConfig(c) && ValidInputs(inputs)
    ensures ValidPublisher(p) && Knows(p, inputs)
    decreases |inputs|
  {
    if |inputs| == 0 then NEW_PUBLISHER
    else
      var n := |inputs| - 1;
      RoomForLast(inputs);
      var before := Run(c, inputs[..n]);
      Bounded(before.order, Ids(inputs), LidarId(inputs[n].packet));
      Step(before, c, inputs[n])
  }

  lemma RoomForLast(inputs: seq<Input>)
    requires ValidInputs(inputs) && |inputs| > 0
    ensures ValidInputs(inputs[..|inputs| - 1])
    ensures Ids(inputs) == Ids(inputs[..|inputs| - 1]) + {LidarId(inputs[|inputs| - 1].packet)}
  {
    var n := |inputs| - 1;
    var before := inputs[..n];
    forall id ensures id in Ids(inputs) <==> id in Ids(before) || id == LidarId(inputs[n].packet) {
      if id in Ids(before) {
        var i :| 0 <= i < n && LidarId(before[i].packet) == id;
        assert LidarId(inputs[i].packet) == id;
      }
      if id in Ids(inputs) {
        var i :| 0 <= i < |inputs| && LidarId(inputs[i].packet) == id;
        assert i < n ==> LidarId(before[i].packet) == id;
      }
    }
    Smaller(Ids(before), Ids(inputs));
  }

  lemma {:induction false} Smaller(a: set<nat>, b: set<nat>)
    requires a <= b
    ensures |a| <= |b|
  {
    if a != {} {
      var x :| x in a;
      Smaller(a - {x}, b - {x});
    }
  }

  /** Distinct handles are no more than the set they come from. */
  lemma {:induction false} Bounded(order: seq<nat>, ids: set<nat>, id: nat)
    requires Ascending(order) && id in ids && forall i | i in order :: i in ids
    ensures |order| <= |ids| && (id !in order ==> |order| < |ids|)
  {
    if |order| > 0 {
      var n := |order| - 1;
      assert order == order[..n] + [order[n]];
      if order[n] == id {
        AscendingSmaller(order[..n], ids - {id});
      } else {
        Bounded(order[..n], ids - {order[n]}, id);
      }
    }
  }

  lemma {:induction false} AscendingSmaller(order: seq<nat>, ids: set<nat>)
    requires Ascending(order) && forall i | i in order :: i in ids
    ensures |order| <= |ids|
  {
    if |order| > 0 {
      var n := |order| - 1;
      assert order == order[..n] + [order[n]];
      AscendingSmaller(order[..n], ids - {order[n]});
    }
  }

  /**
   * Conservation: for any packets of up to 32 lidars in any order, any clock readings and any switching of the
   * sync flag, what was published for a lidar and what is still buffered are together, in order, what was decoded.
   */
  lemma {:induction false} Conservation(c: Config, inputs: seq<Input>, lidar: nat)
    requires ValidConfig(c) && ValidInputs(inputs)
    ensures Accounted(Run(c, inputs), lidar) == DecodedFor(inputs, lidar)
    decreases |inputs|
  {
    if |inputs| > 0 {
      hide AfterTimer, AfterPacket, Accounted, Decoded;
      var n := |inputs| - 1;
      RoomForLast(inputs);
      Conservation(c, inputs[..n], lidar);
      var before, last := Run(c, inputs[..n]), inputs[n];
      PacketAppends(before, last.packet, lidar);
      Bounded(before.order, Ids(inputs), LidarId(last.packet));
      ReceiveKeeps(before, last.packet);
      TimerConserves(AfterPacket(before, last.packet), c, LidarId(last.packet), last.sync, last.now, lidar);
    }
  }

  /** Every entry ever published has points, and its base time is that of its first point. */
  lemma {:induction false} FramesWellTimed(c: Config, inputs: seq<Input>)
    requires ValidConfig(c) && ValidInputs(inputs)
    ensures forall frame | frame in Run(c, inputs).published :: WellTimed(frame)
    decreases |inputs|
  {
    if |inputs| > 0 {
      var n := |inputs| - 1;
      RoomForLast(inputs);
      FramesWellTimed(c, inputs[..n]);
      var before, last := Run(c, inputs[..n]), inputs[n];
      Bounded(before.order, Ids(inputs), LidarId(last.packet));
      ReceiveKeeps(before, last.packet);
      TimerWellTimed(AfterPacket(before, last.packet), c, LidarId(last.packet), last.sync, last.now);
    }
  }

  lemma TimerWellTimed(p: Publisher, c: Config, id: nat, sync: bool, now: int)
    requires ValidPublisher(p) && ValidConfig(c) && id in p.buffers
    requires forall frame | frame in p.published :: WellTimed(frame)
    ensures forall frame | frame in AfterTimer(p, c, id, sync, now).published :: WellTimed(frame)
  {
    hide Collected, Ascending;
    CollectedWellTimed(p.order, p.buffers);
  }

  // -------------------------------------------------------------- publisher

  class PubHandler {
    const config: Config

    /** The buffer of each lidar's handler, and the handlers in the order the map visits them. */
    var buffers: map<nat, seq<Point>>
    var order: seq<nat>
    /** What the published frames point into. */
    var points: map<nat, seq<Point>>
    var lidarNum: nat
    const baseTime: array<nat>
    const lidarPoint: array<(nat, seq<Point>)>
    var first: bool
    var lastPubTime: int
    /** Every frame the callback has been given. */
    var published: seq<Frame>

    ghost predicate Valid()
      reads this
    {
      && ValidConfig(config) && ValidPublisher(State()) && lidarNum == 0
      && baseTime.Length == MAX_LIDARS && lidarPoint.Length == MAX_LIDARS
    }

    function State(): Publisher
      reads this
    {
      Publisher(order, buffers, first, lastPubTime, published)
    }

    constructor (config: Config)
      requires ValidConfig(config)
      ensures Valid() && State() == NEW_PUBLISHER && this.config == config
      ensures fresh(baseTime) && fresh(lidarPoint)
    {
      this.config := config;
      buffers, order, points, lidarNum, first, lastPubTime, published := map[], [], map[], 0, true, 0, [];
      baseTime := new nat[MAX_LIDARS](_ => 0);
      lidarPoint := new (nat, seq<Point>)[MAX_LIDARS](_ => (0, []));
    }

    /** Swaps the buffer of a lidar with an empty one. */
    method GetLidarPointClouds(id: nat)
      requires id in buffers
      modifies this`points, this`buffers
      ensures id in points && points[id] == old(buffers)[id] && buffers == old(buffers)[id := []]
    {
      points := points[id := buffers[id]];
      buffers := buffers[id := []];
    }

    /** Fills the next entry of the frame. */
    method AddEntry(time: nat, id: nat)
      requires lidarNum < baseTime.Length && lidarNum < lidarPoint.Length && id in points
      modifies this`lidarNum, baseTime, lidarPoint
      ensures lidarNum == old(lidarNum) + 1
      ensures forall k | 0 <= k < old(lidarNum) :: baseTime[k] == old(baseTime[k]) && lidarPoint[k] == old(lidarPoint[k])
      ensures baseTime[old(lidarNum)] == time && lidarPoint[old(lidarNum)] == (id, points[id])
    {
      baseTime[lidarNum] := time;
      lidarPoint[lidarNum] := (id, points[id]);
      lidarNum := lidarNum + 1;
    }

    /** The frame as the arrays hold it. */
    ghost predicate Holds(frame: Frame)
      reads this`lidarNum, baseTime, lidarPoint
    {
      && |frame| == lidarNum <= baseTime.Length && lidarNum <= lidarPoint.Length
      && forall k | 0 <= k < lidarNum :: frame[k] == Entry(baseTime[k], lidarPoint[k].0, lidarPoint[k].1)
    }

    /** Hands the frame to the callback. */
    method PublishPointCloud(ghost frame: Frame)
      requires Holds(frame)
      modifies this`published
      ensures published == old(published) + [frame]
    {
      var entries: Frame := [];
      for k := 0 to lidarNum
        invariant entries == frame[..k]
      {
        entries := entries + [Entry(baseTime[k], lidarPoint[k].0, lidarPoint[k].1)];
      }
      assert frame[..|frame|] == frame;
      published := published + [entries];
    }

    /** Synchronised time: only the sender is looked at. */
    method CheckDeviceTime(id: nat, ghost now: int)
      requires Valid() && id in buffers
      modifies this, baseTime, lidarPoint
      ensures Valid() && State() == AfterTimer(old(State()), config, id, true, now)
    {
      var recent, base := RecentTime(buffers[id]), BaseTime(buffers[id]);
      var ms := recent / NS_PER_MS;
      if ms % config.publishIntervalMs != 0 || ms == 0 {
        return;
      }
      if (recent - base) % TWO_64 < config.publishIntervalTolerance {
        return;
      }
      GetLidarPointClouds(id);
      if |points[id]| == 0 {
        return;
      }
      AddEntry(base, id);
      PublishPointCloud([Entry(base, id, points[id])]);
      lidarNum := 0;
    }

    /** Visits every lidar in turn and collects what is buffered. */
    method CollectAll()
      requires Valid()
      modifies this`points, this`buffers, this`lidarNum, baseTime, lidarPoint
      ensures buffers == Cleared(old(buffers), order)
      ensures (forall id | id in order :: id in old(buffers)) && Holds(Collected(order, old(buffers)))
    {
      hide Cleared, Collected, Ascending;
      ghost var was := buffers;
      NothingCollected(was);
      NothingCleared(was);
      for k := 0 to |order|
        invariant lidarNum <= k && Holds(Collected(order[..k], was))
        invariant buffers == Cleared(was, order[..k])
      {
        var id := order[k];
        ClearedStep(was, order, k);
        CollectedStep(order, was, k);
        var base := BaseTime(buffers[id]);
        GetLidarPointClouds(id);
        if |points[id]| != 0 {
          AddEntry(base, id);
        }
      }
      assert order[..|order|] == order;
    }

    /** Without synchronised time: all lidars at once, by the clock. */
    method CheckClock(ghost id: nat, now: int)
      requires Valid() && id in buffers
      modifies this, baseTime, lidarPoint
      ensures Valid() && State() == AfterTimer(old(State()), config, id, false, now)
    {
      if first {
        lastPubTime := now;
        first := false;
        return;
      }
      if now - lastPubTime < config.publishInterval {
        return;
      }
      hide Cleared, Collected, Ascending, SyncDue, BaseTime;
      lastPubTime := lastPubTime + config.publishInterval;
      CollectAll();
      PublishPointCloud(Collected(order, old(buffers)));
      lidarNum := 0;
    }

    method CheckTimer(id: nat, sync: bool, now: int)
      requires Valid() && id in buffers
      modifies this, baseTime, lidarPoint
      ensures Valid() && State() == AfterTimer(old(State()), config, id, sync, now)
    {
      if sync {
        CheckDeviceTime(id, now);
      } else {
        CheckClock(id, now);
      }
    }

    /** The conversion loop over the points of a packet. */
    method PointCloudProcess(id: nat, p: RawPacket)
      requires ValidPacket(p) && id in buffers
      modifies this`buffers
      ensures buffers == Extended(old(buffers), id, Decoded(p))
    {
      AppendNothing(buffers, id);
      if Decodable(p) {
        for i := 0 to |p.raw|
          invariant buffers == Extended(old(buffers), id, PointsUpTo(p, i))
        {
          var time := (p.timeStamp + i * p.pointInterval) % TWO_64;
          var point := Point(p.raw[i], i % p.lineNum, time);
          AppendOne(old(buffers), id, PointsUpTo(p, i), point);
          buffers := buffers[id := buffers[id] + [point]];
        }
      }
    }

    /** One packet off the queue; the frame arrays bound the number of lidars. */
    method ProcessPacket(p: RawPacket, sync: bool, now: int)
      requires Valid() && ValidPacket(p) && (LidarId(p) in buffers || |order| < MAX_LIDARS)
      modifies this, baseTime, lidarPoint
      ensures Valid() && ValidPublisher(AfterPacket(old(State()), p)) && LidarId(p) in AfterPacket(old(State()), p).buffers
      ensures State() == AfterTimer(AfterPacket(old(State()), p), config, LidarId(p), sync, now)
    {
      hide Extended, Inserted, Decoded, AfterTimer, Ascending;
      ReceiveKeeps(State(), p);
      var id := LidarId(p);
      if id !in buffers {
        order := Inserted(order, id);
        buffers := buffers[id := []];
      }
      PointCloudProcess(id, p);
      CheckTimer(id, sync, now);
    }

    /** The processing loop over the packets that arrive. */
    method RawDataProcess(queue: seq<Input>)
      requires Valid() && State() == NEW_PUBLISHER && ValidInputs(queue)
      modifies this, baseTime, lidarPoint
      ensures Valid() && State() == Run(config, queue)
    {
      assert queue[..0] == [];
      for k := 0 to |queue|
        invariant Valid() && ValidInputs(queue[..k]) && State() == Run(config, queue[..k])
      {
        hide AfterTimer, AfterPacket, Ids, Ascending;
        PrefixValid(queue, k + 1);
        RoomForLast(queue[..k + 1]);
        assert queue[..k + 1][..k] == queue[..k] && queue[..k + 1][k] == queue[k];
        Bounded(order, Ids(queue[..k + 1]), LidarId(queue[k].packet));
        ProcessPacket(queue[k].packet, queue[k].sync, queue[k].now);
      }
      assert queue[..|queue|] == queue;
    }
  }

  lemma PrefixValid(inputs: seq<Input>, k: nat)
    requires ValidInputs(inputs) && k <= |inputs|
    ensures ValidInputs(inputs[..k])
  {
    Smaller(Ids(inputs[..k]), Ids(inputs));
  }
}
