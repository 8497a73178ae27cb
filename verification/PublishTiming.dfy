/** When the publisher publishes, and what, told from the inputs alone. */
module PublishTiming {
  import opened Bytes
  import opened Options
  import opened Publishing

  // ------------------------------------------------------------- the clock

  /** The first reading of the clock: that of the first input without synchronised time. */
  function FirstReading(inputs: seq<Input>): Option<int> {
    if |inputs| == 0 then None
    else
      var before := FirstReading(inputs[..|inputs| - 1]);
      if before.Some? || inputs[|inputs| - 1].sync then before else Some(inputs[|inputs| - 1].now)
  }

  /** The last input finds that one more interval than frames published by the clock has passed since the first reading. */
  predicate ClockDue(c: Config, inputs: seq<Input>)
    requires |inputs| > 0
    decreases |inputs|, 0
  {
    var n := |inputs| - 1;
    var t0 := FirstReading(inputs[..n]);
    && !inputs[n].sync && t0.Some?
    && inputs[n].now >= t0.value + (ClockFrames(c, inputs[..n]) + 1) * c.publishInterval
  }

  /** The frames published by the clock. */
  function ClockFrames(c: Config, inputs: seq<Input>): nat
    decreases |inputs|, 1
  {
    if |inputs| == 0 then 0
    else ClockFrames(c, inputs[..|inputs| - 1]) + if ClockDue(c, inputs) then 1 else 0
  }

  /** The time the publisher keeps is the first reading and one interval for every frame by the clock. */
  lemma {:induction false} ClockKept(c: Config, inputs: seq<Input>)
    requires ValidConfig(c) && ValidInputs(inputs)
    ensures var p := Run(c, inputs);
            && p.first == FirstReading(inputs).None?
            && (FirstReading(inputs).Some? ==>
                  p.lastPubTime == FirstReading(inputs).value + ClockFrames(c, inputs) * c.publishInterval)
            && (FirstReading(inputs).None? ==> ClockFrames(c, inputs) == 0)
    decreases |inputs|
  {
    hide ValidPublisher, ValidInputs, Run, Step;
    if |inputs| == 0 {
      RunStarts(c);
    } else {
      var n := |inputs| - 1;
      RunStep(c, inputs);
      ClockKept(c, inputs[..n]);
      StepClock(Run(c, inputs[..n]), c, inputs[n]);
      Distribute(ClockFrames(c, inputs[..n]), c.publishInterval);
    }
  }

  lemma RunStarts(c: Config)
    requires ValidConfig(c) && ValidInputs([])
    ensures Run(c, []) == NEW_PUBLISHER
  {
  }

  lemma RunStep(c: Config, inputs: seq<Input>)
    requires ValidConfig(c) && ValidInputs(inputs) && |inputs| > 0
    ensures ValidInputs(inputs[..|inputs| - 1]) && ValidPacket(inputs[|inputs| - 1].packet)
    ensures var before, last := Run(c, inputs[..|inputs| - 1]), inputs[|inputs| - 1];
            && ValidPublisher(before) && (LidarId(last.packet) in before.buffers || |before.order| < MAX_LIDARS)
            && Run(c, inputs) == Step(before, c, last)
  {
    hide Ids, Step;
    RoomForLast(inputs);
    Bounded(Run(c, inputs[..|inputs| - 1]).order, Ids(inputs), LidarId(inputs[|inputs| - 1].packet));
  }

  /** What one input does to the clock of the publisher. */
  lemma StepClock(p: Publisher, c: Config, input: Input)
    requires ValidPublisher(p) && ValidConfig(c) && ValidPacket(input.packet)
    requires LidarId(input.packet) in p.buffers || |p.order| < MAX_LIDARS
    ensures var r := Step(p, c, input);
            if input.sync then r.first == p.first && r.lastPubTime == p.lastPubTime
            else if p.first then !r.first && r.lastPubTime == input.now
            else !r.first && r.lastPubTime == p.lastPubTime
                             + if input.now >= p.lastPubTime + c.publishInterval then c.publishInterval else 0
  {
    hide Inserted, Extended, Decoded, SyncDue, Collected, Cleared;
    ReceiveKeeps(p, input.packet);
  }

  lemma Distribute(k: nat, interval: nat)
    ensures (k + 1) * interval == k * interval + interval
  {
  }

  // ------------------------------------------------------- the device time

  /** A buffer has reached a multiple of the interval, and spans enough time. */
  predicate DeviceDue(c: Config, points: seq<Point>)
    requires ValidConfig(c)
  {
    && |points| > 0
    && var recent, base := points[|points| - 1].time, points[0].time;
       && recent / NS_PER_MS > 0 && recent / NS_PER_MS % c.publishIntervalMs == 0
       && (recent - base) % TWO_64 >= c.publishIntervalTolerance
  }

  // ----------------------------------------------------------- every input

  /** What is buffered of a lidar when an input has arrived. */
  function Arrived(before: Publisher, input: Input, id: nat): seq<Point>
    requires ValidPacket(input.packet)
  {
    Pending(before, id) + if id == LidarId(input.packet) then Decoded(input.packet) else []
  }

  /** The one lidar there is, or any. */
  predicate Chosen(only: Option<nat>, id: nat) {
    only.None? || only.value == id
  }

  /** One frame more, of one lidar or of all: it holds all that is buffered of them, and the others keep theirs. */
  ghost predicate PublishesFrom(before: Publisher, input: Input, after: Publisher, only: Option<nat>)
    requires ValidPacket(input.packet)
  {
    && |after.published| == |before.published| + 1 && before.published <= after.published
    && (forall id :: OfFrame(after.published[|before.published|], id) == if Chosen(only, id) then Arrived(before, input, id) else [])
    && (forall id :: Pending(after, id) == if Chosen(only, id) then [] else Arrived(before, input, id))
  }

  ghost predicate PublishesNothing(before: Publisher, input: Input, after: Publisher)
    requires ValidPacket(input.packet)
  {
    after.published == before.published && forall id :: Pending(after, id) == Arrived(before, input, id)
  }

  lemma ArrivedPends(before: Publisher, packet: RawPacket, input: Input, id: nat)
    requires ValidPublisher(before) && ValidPacket(packet) && packet == input.packet
    ensures Pending(AfterPacket(before, packet), id) == Arrived(before, input, id)
    ensures AfterPacket(before, packet).published == before.published
  {
    hide Inserted, Decoded;
    assert Pending(before, id) + [] == Pending(before, id);
  }

  lemma TimerByClock(before: Publisher, c: Config, input: Input, received: Publisher, due: bool)
    requires ValidPublisher(received) && ValidConfig(c) && ValidPacket(input.packet) && !input.sync
    requires LidarId(input.packet) in received.buffers && received.published == before.published
    requires forall id :: Pending(received, id) == Arrived(before, input, id)
    requires due <==> !received.first && input.now - received.lastPubTime >= c.publishInterval
    ensures var after := AfterTimer(received, c, LidarId(input.packet), false, input.now);
            if due then PublishesFrom(before, input, after, None) else PublishesNothing(before, input, after)
  {
    hide Collected, OfFrame, Arrived, SyncDue;
    if due {
      forall id ensures OfFrame(Collected(received.order, received.buffers), id) == Arrived(before, input, id) {
        CollectedHasAll(received.order, received.buffers, id);
      }
    }
  }

  lemma TimerByDevice(before: Publisher, c: Config, input: Input, received: Publisher)
    requires ValidPublisher(received) && ValidConfig(c) && ValidPacket(input.packet) && input.sync
    requires LidarId(input.packet) in received.buffers && received.published == before.published
    requires forall id :: Pending(received, id) == Arrived(before, input, id)
    ensures var sender := LidarId(input.packet);
            var after := AfterTimer(received, c, sender, true, input.now);
            if DeviceDue(c, Arrived(before, input, sender)) then PublishesFrom(before, input, after, Some(sender))
            else PublishesNothing(before, input, after)
  {
    hide OfFrame, Arrived, ValidPublisher;
    var sender := LidarId(input.packet);
    var b := received.buffers[sender];
    assert b == Pending(received, sender);
    assert SyncDue(c, b) <==> DeviceDue(c, b);
    forall id ensures OfFrame([Entry(BaseTime(b), sender, b)], id) == if id == sender then b else [] {
      OfSingle(BaseTime(b), sender, b, id);
    }
  }

  /**
   * For every run, with any switching of the sync flag. Without it an input publishes exactly if one interval more than
   * frames published by the clock has passed since the first reading, and then everything that is buffered. With it an
   * input publishes exactly if the buffer of its lidar is due by the time of its points, and then that buffer alone.
   */
  lemma PublishesWhenDue(c: Config, inputs: seq<Input>)
    requires ValidConfig(c) && ValidInputs(inputs) && |inputs| > 0 && ValidInputs(inputs[..|inputs| - 1])
    ensures var n := |inputs| - 1;
            var before, input, after := Run(c, inputs[..n]), inputs[n], Run(c, inputs);
            if input.sync then
              if DeviceDue(c, Arrived(before, input, LidarId(input.packet)))
              then PublishesFrom(before, input, after, Some(LidarId(input.packet)))
              else PublishesNothing(before, input, after)
            else if ClockDue(c, inputs) then PublishesFrom(before, input, after, None)
            else PublishesNothing(before, input, after)
  {
    hide PublishesFrom, PublishesNothing, AfterTimer, AfterPacket, DeviceDue, Arrived, ValidPublisher, ValidInputs, Run;
    var n := |inputs| - 1;
    RunStep(c, inputs);
    var before, input := Run(c, inputs[..n]), inputs[n];
    ClockKept(c, inputs[..n]);
    ReceiveKeeps(before, input.packet);
    var received := AfterPacket(before, input.packet);
    forall id ensures Pending(received, id) == Arrived(before, input, id) && received.published == before.published {
      ArrivedPends(before, input.packet, input, id);
    }
    assert received.published == before.published by {
      ArrivedPends(before, input.packet, input, 0);
    }
    SameClock(before, input.packet);
    if input.sync {
      TimerByDevice(before, c, input, received);
    } else {
      Distribute(ClockFrames(c, inputs[..n]), c.publishInterval);
      TimerByClock(before, c, input, received, ClockDue(c, inputs));
    }
  }

  lemma SameClock(before: Publisher, packet: RawPacket)
    requires ValidPublisher(before) && ValidPacket(packet)
    ensures AfterPacket(before, packet).first == before.first && AfterPacket(before, packet).lastPubTime == before.lastPubTime
  {
  }

  // -------------------------------------------------------- decoded points

  /**
   * What a packet brings: of a lidar of the supported type and in a known format, one point for each measurement, in
   * order, the times an interval apart, the lines in turn; nothing else.
   */
  lemma PointsInTurn(p: RawPacket)
    requires ValidPacket(p)
    ensures var points := Decoded(p);
            if p.lidarType != LivoxLidarType || p.dataType !in {CartesianHigh, CartesianLow, Spherical} then points == []
            else
              && |points| == |p.raw| && (forall i | 0 <= i < |points| :: points[i].raw == p.raw[i])
              && (|points| > 0 ==> points[0].time == p.timeStamp % TWO_64 && points[0].line == 0)
              && (forall i | 0 <= i < |points| - 1 ::
                    && points[i + 1].time == (points[i].time + p.pointInterval) % TWO_64
                    && points[i + 1].line == if points[i].line + 1 == p.lineNum then 0 else points[i].line + 1)
  {
    hide PointAt;
    PointsAre(p, |p.raw|);
    forall i | 0 <= i < |p.raw| - 1
      ensures && PointAt(p, i + 1).time == (PointAt(p, i).time + p.pointInterval) % TWO_64
              && PointAt(p, i + 1).line == if PointAt(p, i).line + 1 == p.lineNum then 0 else PointAt(p, i).line + 1
    {
      NextPoint(p, i);
    }
    FirstPoint(p);
  }

  lemma FirstPoint(p: RawPacket)
    requires ValidPacket(p)
    ensures forall i | 0 <= i < |p.raw| :: PointAt(p, i).raw == p.raw[i]
    ensures |p.raw| > 0 ==> PointAt(p, 0).time == p.timeStamp % TWO_64 && PointAt(p, 0).line == 0
  {
  }

  lemma {:induction false} PointsAre(p: RawPacket, n: nat)
    requires ValidPacket(p) && n <= |p.raw|
    ensures |PointsUpTo(p, n)| == n && forall i | 0 <= i < n :: PointsUpTo(p, n)[i] == PointAt(p, i)
  {
    if n > 0 {
      PointsAre(p, n - 1);
    }
  }

  lemma NextPoint(p: RawPacket, i: nat)
    requires ValidPacket(p) && i + 1 < |p.raw|
    ensures PointAt(p, i + 1).time == (PointAt(p, i).time + p.pointInterval) % TWO_64
    ensures PointAt(p, i + 1).line == if PointAt(p, i).line + 1 == p.lineNum then 0 else PointAt(p, i).line + 1
  {
    var t := p.timeStamp + i * p.pointInterval;
    Distribute(i, p.pointInterval);
    AddModulo(t, p.pointInterval);
    NextRemainder(i, p.lineNum);
  }

  lemma AddModulo(t: nat, d: nat)
    ensures (t + d) % TWO_64 == (t % TWO_64 + d) % TWO_64
  {
  }

  lemma NextRemainder(i: nat, m: nat)
    requires m > 0
    ensures (i + 1) % m == if i % m + 1 == m then 0 else i % m + 1
  {
    var a, b := i / m, (i + 1) / m;
    assert i == m * a + i % m && i + 1 == m * b + (i + 1) % m;
    Between(m, b - a, i % m + 1 - (i + 1) % m);
  }

  /** A multiple of m that lies between -m and m inclusive is none but these and 0. */
  lemma Between(m: nat, k: int, d: int)
    requires m > 0 && m * k == d && 0 < m + d && d <= m
    ensures d == 0 || d == m
  {
    if k >= 2 {
      TimesGrows(m, 2, k);
    } else if k <= -1 {
      TimesGrows(m, k, -1);
    }
  }

  lemma TimesGrows(m: nat, j: int, k: int)
    requires j <= k
    ensures m * j <= m * k
  {
    assert m * k == m * j + m * (k - j);
  }
}
