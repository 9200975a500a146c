/** The sample neural-net trading agent: two moving averages warm up on the
    USDJPY bid; once both report a value, each tick schedules or runs a trade
    evaluation that closes every open position and opens at most one new one
    as the net's output directs. */
module NeuralNetAgent {
  import opened Wrappers

  // ---------------------------------------------------------------------
  // Collaborators

  /** A moving average as the agent uses it: it is fed one bid per tick and
      reports no value until it has seen `period` bids, then the mean of the
      last `period` bids. Its state is the window of bids it keeps. */
  datatype MovingAverage = MovingAverage(period: nat, window: seq<real>)

  function Sum(xs: seq<real>): real {
    if |xs| == 0 then 0.0 else Sum(xs[..|xs| - 1]) + xs[|xs| - 1]
  }

  function Mean(xs: seq<real>): real {
    if |xs| == 0 then 0.0 else Sum(xs) / (|xs| as real)
  }

  /** The result of feeding one value to a moving average. */
  datatype Fed = Fed(ma: MovingAverage, value: Option<real>)

  /** `next_data`: append the bid; report nothing while fewer than `period`
      bids have been seen, otherwise keep and average the last `period`. */
  function NextData(mv: MovingAverage, x: real): (r: Fed)
    ensures r.ma.period == mv.period
    ensures r.value.None? <==> |mv.window| + 1 < mv.period
    ensures r.value.None? ==> r.ma.window == mv.window + [x]
    ensures r.value.Some? ==>
      && |r.ma.window| == mv.period
      && r.ma.window == (mv.window + [x])[|mv.window| + 1 - mv.period..]
      && r.value == Some(Mean(r.ma.window))
  {
    var w := mv.window + [x];
    if |w| < mv.period then Fed(mv.(window := w), None)
    else
      var kept := w[|w| - mv.period..];
      Fed(mv.(window := kept), Some(Mean(kept)))
  }

  /** The side of an order or position: Ruby's `:buy` and `:sell`. */
  datatype Side = Buy | Sell

  datatype Position = Position(pair: string, side: Side, units: int)

  datatype Order = Order(pair: string, side: Side, units: int)

  /** The broker as the agent sees it: the open positions, the positions
      closed so far (in closing order) and the log of orders placed. */
  datatype Broker = Broker(open: seq<Position>, closed: seq<Position>, orders: seq<Order>)

  /** The only instrument and order size the agent trades. */
  const Instrument: string := "USDJPY"
  const Units: int := 1000

  /** `broker.buy` / `broker.sell`: log the order and open its position. */
  function PlaceOrder(b: Broker, side: Side): (r: Broker)
    ensures r.orders == b.orders + [Order(Instrument, side, Units)]
    ensures r.open == b.open + [Position(Instrument, side, Units)]
    ensures r.closed == b.closed
  {
    Broker(b.open + [Position(Instrument, side, Units)], b.closed, b.orders + [Order(Instrument, side, Units)])
  }

  /** The positions of `ps` on `side`, in order. */
  function OnSide(ps: seq<Position>, side: Side): (r: seq<Position>)
    ensures forall i :: 0 <= i < |r| ==> r[i].side == side
    ensures |r| <= |ps|
  {
    if |ps| == 0 then []
    else
      var rest := OnSide(ps[..|ps| - 1], side);
      if ps[|ps| - 1].side == side then rest + [ps[|ps| - 1]] else rest
  }

  /** The positions of `ps` not on `side`, in order. */
  function OffSide(ps: seq<Position>, side: Side): (r: seq<Position>)
    ensures forall i :: 0 <= i < |r| ==> r[i].side != side
    ensures |r| <= |ps|
  {
    if |ps| == 0 then []
    else
      var rest := OffSide(ps[..|ps| - 1], side);
      if ps[|ps| - 1].side != side then rest + [ps[|ps| - 1]] else rest
  }

  /** `close_exist_positions(side)`: close every open position on `side`,
      leave the others open. */
  function CloseExistPositions(b: Broker, side: Side): (r: Broker)
    ensures forall i :: 0 <= i < |r.open| ==> r.open[i].side != side
    ensures |r.closed| >= |b.closed| && r.closed[..|b.closed|] == b.closed
    ensures forall i :: |b.closed| <= i < |r.closed| ==> r.closed[i].side == side
    ensures |r.open| + |r.closed| == |b.open| + |b.closed|
    ensures r.orders == b.orders
  {
    PartitionSize(b.open, side);
    Broker(OffSide(b.open, side), b.closed + OnSide(b.open, side), b.orders)
  }

  lemma {:induction false} PartitionSize(ps: seq<Position>, side: Side)
    ensures |OnSide(ps, side)| + |OffSide(ps, side)| == |ps|
  {
    if |ps| > 0 {
      PartitionSize(ps[..|ps| - 1], side);
    }
  }

  /** Closing splits the open positions exactly: a position value on `side`
      moves, with all its copies, from open to closed; any other stays open
      with all its copies. */
  lemma {:induction false} CloseExistPositionsExact(b: Broker, side: Side, p: Position)
    ensures var r := CloseExistPositions(b, side);
      && multiset(r.open)[p] == (if p.side == side then 0 else multiset(b.open)[p])
      && multiset(r.closed)[p] == multiset(b.closed)[p] + (if p.side == side then multiset(b.open)[p] else 0)
  {
    PartitionCounts(b.open, side, p);
  }

  lemma {:induction false} PartitionCounts(ps: seq<Position>, side: Side, p: Position)
    ensures multiset(OffSide(ps, side))[p] == (if p.side == side then 0 else multiset(ps)[p])
    ensures multiset(OnSide(ps, side))[p] == (if p.side == side then multiset(ps)[p] else 0)
  {
    if |ps| > 0 {
      var init := ps[..|ps| - 1];
      var last := ps[|ps| - 1];
      assert ps == init + [last];
      PartitionCounts(init, side, p);
    }
  }

  // ---------------------------------------------------------------------
  // The agent

  /** A market tick, reduced to what the agent reads: the timestamp in whole
      seconds and the USDJPY bid. */
  datatype Tick = Tick(timestamp: int, bid: real)

  /** The net's output: `output[0]` (buy confidence), `output[1]` (sell). */
  datatype NetOutput = NetOutput(buy: real, sell: real)

  /** The agent's state: the two moving averages (`@mvs`), the trade interval,
      the next evaluation time, the bid at the last evaluation and the last
      feature vector fed to the net. */
  datatype Agent = Agent(
    shortMa: MovingAverage,
    longMa: MovingAverage,
    tradeTime: int,
    nextTime: Option<int>,
    bidBack: real,
    inputData: Option<seq<real>>)

  /** Default properties: short period 25, long period 75, interval 60 s. */
  const DefaultShort: nat := 25
  const DefaultLong: nat := 75
  const DefaultTradeTime: int := 60

  /** `post_create`: fresh moving averages, no schedule, reference bid 0. */
  function PostCreate(short: nat, long: nat, tradeTime: int): (a: Agent)
    ensures a.shortMa == MovingAverage(short, []) && a.longMa == MovingAverage(long, [])
    ensures a.tradeTime == tradeTime
    ensures a.nextTime.None? && a.bidBack == 0.0 && a.inputData.None?
  {
    Agent(MovingAverage(short, []), MovingAverage(long, []), tradeTime, None, 0.0, None)
  }

  /** The confidence above which the net's output triggers an order. */
  const Threshold: real := 0.8

  /** The order rule: buy when the buy output exceeds the threshold; only
      otherwise sell when the sell output does; otherwise place nothing. */
  function Decide(out: NetOutput): (r: Option<Side>)
    ensures r == Some(Buy) <==> out.buy > Threshold
    ensures r == Some(Sell) <==> out.buy <= Threshold && out.sell > Threshold
    ensures r == None <==> out.buy <= Threshold && out.sell <= Threshold
  {
    if out.buy > Threshold then Some(Buy)
    else if out.sell > Threshold then Some(Sell)
    else None
  }

  /** The agent and broker after a call. */
  datatype Traded = Traded(agent: Agent, broker: Broker)

  /** The evaluation step: close sell positions, then buy positions;
      reschedule; place at most one order as the net directs; remember the
      bid. */
  function Evaluate(a: Agent, b: Broker, tick: Tick, nn: Option<seq<real>> -> NetOutput): (r: Traded)
    ensures r.agent == a.(nextTime := Some(tick.timestamp + a.tradeTime), bidBack := tick.bid)
    ensures r.broker.closed ==
      b.closed + OnSide(b.open, Sell) + OnSide(OffSide(b.open, Sell), Buy)
    ensures |b.orders| <= |r.broker.orders| <= |b.orders| + 1 && r.broker.orders[..|b.orders|] == b.orders
    ensures |r.broker.open| == |r.broker.orders| - |b.orders|
  {
    var closed := CloseExistPositions(CloseExistPositions(b, Sell), Buy);
    OffSideBoth(b.open);
    var placed :=
      match Decide(nn(a.inputData))
      case Some(side) => PlaceOrder(closed, side)
      case None => closed;
    Traded(a.(nextTime := Some(tick.timestamp + a.tradeTime), bidBack := tick.bid), placed)
  }

  /** Closing sell positions and then buy positions leaves none open. */
  lemma {:induction false} OffSideBoth(ps: seq<Position>)
    ensures OffSide(OffSide(ps, Sell), Buy) == []
  {
    if |ps| > 0 {
      var init := ps[..|ps| - 1];
      var last := ps[|ps| - 1];
      OffSideBoth(init);
      var rest := OffSide(init, Sell);
      if last.side != Sell {
        assert OffSide(ps, Sell) == rest + [last];
        assert (rest + [last])[..|rest|] == rest;
      }
    }
  }

  /** `do_trade`: on the first call only schedule the first evaluation; later
      evaluate only when the tick is strictly after the scheduled time. */
  function DoTrade(a: Agent, b: Broker, tick: Tick, nn: Option<seq<real>> -> NetOutput): (r: Traded)
    ensures a.nextTime.None? ==>
      r == Traded(a.(nextTime := Some(tick.timestamp + a.tradeTime)), b)
    ensures a.nextTime.Some? && tick.timestamp <= a.nextTime.value ==> r == Traded(a, b)
    ensures a.nextTime.Some? && tick.timestamp > a.nextTime.value ==> r == Evaluate(a, b, tick, nn)
  {
    match a.nextTime
    case None => Traded(a.(nextTime := Some(tick.timestamp + a.tradeTime)), b)
    case Some(t) => if tick.timestamp > t then Evaluate(a, b, tick, nn) else Traded(a, b)
  }

  /** The net's input: how far each average lies above the bid, the bid's
      move since the last evaluation, and the spread of the averages. The
      features are not rounded here, so the spread is exactly the second
      feature minus the first; with the rounding to 3 and 5 places that
      relation holds only approximately. */
  function Features(short: real, long: real, bid: real, bidBack: real): (f: seq<real>)
    ensures |f| == 4
    ensures f[3] == f[1] - f[0]
  {
    [short - bid, long - bid, bid - bidBack, long - short]
  }

  /** The result of one tick, with the pair of averages sent to the graph. */
  datatype Step = Step(agent: Agent, broker: Broker, plotted: Option<(real, real)>)

  /** `next_tick`: feed the bid to both moving averages; while either has no
      value stop there; otherwise plot the averages, compute the feature
      vector and call `do_trade`. */
  function NextTick(a: Agent, b: Broker, tick: Tick, nn: Option<seq<real>> -> NetOutput): (r: Step)
    ensures var s := NextData(a.shortMa, tick.bid); var l := NextData(a.longMa, tick.bid);
      && r.agent.shortMa == s.ma && r.agent.longMa == l.ma
      && (s.value.None? || l.value.None? <==> r.plotted.None?)
      && (r.plotted.None? ==>
            && r.broker == b && r.agent.nextTime == a.nextTime
            && r.agent.bidBack == a.bidBack && r.agent.inputData == a.inputData)
      && (r.plotted.Some? ==>
            && r.plotted == Some((s.value.value, l.value.value))
            && r.agent.inputData == Some(Features(s.value.value, l.value.value, tick.bid, a.bidBack))
            && Traded(r.agent, r.broker) ==
                 DoTrade(a.(shortMa := s.ma, longMa := l.ma, inputData := r.agent.inputData), b, tick, nn))
    ensures r.agent.tradeTime == a.tradeTime
    ensures r.agent.shortMa.period == a.shortMa.period && r.agent.longMa.period == a.longMa.period
  {
    var s := NextData(a.shortMa, tick.bid);
    var l := NextData(a.longMa, tick.bid);
    var fed := a.(shortMa := s.ma, longMa := l.ma);
    if s.value.None? || l.value.None? then Step(fed, b, None)
    else
      var v0 := s.value.value;
      var v1 := l.value.value;
      var input := Features(v0, v1, tick.bid, a.bidBack);
      var t := DoTrade(fed.(inputData := Some(input)), b, tick, nn);
      Step(t.agent, t.broker, Some((v0, v1)))
  }

  /** Feeding a sequence of ticks in arrival order. */
  function Run(a: Agent, b: Broker, ticks: seq<Tick>, nn: Option<seq<real>> -> NetOutput): (r: Traded)
    ensures r.agent.tradeTime == a.tradeTime
    ensures r.agent.shortMa.period == a.shortMa.period && r.agent.longMa.period == a.longMa.period
    decreases |ticks|
  {
    if |ticks| == 0 then Traded(a, b)
    else
      var s := NextTick(a, b, ticks[0], nn);
      Run(s.agent, s.broker, ticks[1..], nn)
  }

  // ---------------------------------------------------------------------
  // State snapshots

  /** The snapshot `state` returns and `restore_state` reads: the entry
      under `:mvs`, when present, is a list whose entries may be nil. */
  datatype Snapshot = Snapshot(mvs: Option<seq<Option<seq<real>>>>)

  /** `state`: the moving averages' states, short then long. */
  function State(a: Agent): (s: Snapshot)
    ensures s.mvs.Some? && |s.mvs.value| == 2
    ensures s.mvs.value[0] == Some(a.shortMa.window) && s.mvs.value[1] == Some(a.longMa.window)
  {
    Snapshot(Some([Some(a.shortMa.window), Some(a.longMa.window)]))
  }

  /** A moving average restored from its entry. What the moving-average
      library does when handed nil is not part of this model: it is the
      parameter `restoreNil`. */
  function RestoreMa(mv: MovingAverage, entry: Option<seq<real>>, restoreNil: MovingAverage -> MovingAverage): (r: MovingAverage)
    ensures entry.None? ==> r == restoreNil(mv)
    ensures entry.Some? ==> r == mv.(window := entry.value)
  {
    match entry
    case None => restoreNil(mv)
    case Some(w) => mv.(window := w)
  }

  /** Ruby's `list[i]`: nil past the end. */
  function Entry(list: seq<Option<seq<real>>>, i: nat): (r: Option<seq<real>>)
    ensures i >= |list| ==> r.None?
    ensures i < |list| ==> r == list[i]
  {
    if i < |list| then list[i] else None
  }

  /** `restore_state`: without a `:mvs` entry nothing changes; otherwise the
      short and long averages are restored from entries 0 and 1 of the list,
      a missing entry reading as nil. */
  function RestoreState(a: Agent, snap: Snapshot, restoreNil: MovingAverage -> MovingAverage): (r: Agent)
    ensures snap.mvs.None? ==> r == a
    ensures r == a.(shortMa := r.shortMa, longMa := r.longMa)
    ensures snap.mvs.Some? && |snap.mvs.value| > 0 && snap.mvs.value[0].Some? ==>
      r.shortMa == a.shortMa.(window := snap.mvs.value[0].value)
    ensures snap.mvs.Some? && (|snap.mvs.value| == 0 || snap.mvs.value[0].None?) ==>
      r.shortMa == restoreNil(a.shortMa)
    ensures snap.mvs.Some? && |snap.mvs.value| > 1 && snap.mvs.value[1].Some? ==>
      r.longMa == a.longMa.(window := snap.mvs.value[1].value)
    ensures snap.mvs.Some? && (|snap.mvs.value| <= 1 || snap.mvs.value[1].None?) ==>
      r.longMa == restoreNil(a.longMa)
  {
    match snap.mvs
    case None => a
    case Some(list) =>
      a.(shortMa := RestoreMa(a.shortMa, Entry(list, 0), restoreNil),
         longMa := RestoreMa(a.longMa, Entry(list, 1), restoreNil))
  }

  // ---------------------------------------------------------------------
  // Properties

  /** The tie-break: when both outputs exceed the threshold the agent buys. */
  lemma BuyWinsTie(out: NetOutput)
    requires out.buy > Threshold && out.sell > Threshold
    ensures Decide(out) == Some(Buy)
  {
  }

  /** An evaluation closes every position that was open and leaves open only
      the position of the order it placed, if any; the orders log grows by
      that one order. */
  lemma EvaluationClosesAll(a: Agent, b: Broker, tick: Tick, nn: Option<seq<real>> -> NetOutput)
    ensures var r := Evaluate(a, b, tick, nn);
      && r.broker.open == (match Decide(nn(a.inputData))
                           case Some(side) => [Position(Instrument, side, Units)]
                           case None => [])
      && r.broker.orders == b.orders + (match Decide(nn(a.inputData))
                                        case Some(side) => [Order(Instrument, side, Units)]
                                        case None => [])
  {
    OffSideBoth(b.open);
  }

  /** While the long average cannot yet report a value, ticks change neither
      the schedule, nor the reference bid, nor the broker. */
  lemma {:induction false} ColdTicksDoNothing(a: Agent, b: Broker, ticks: seq<Tick>, nn: Option<seq<real>> -> NetOutput)
    requires |a.longMa.window| + |ticks| < a.longMa.period
    requires |a.shortMa.window| <= a.shortMa.period
    decreases |ticks|
    ensures var r := Run(a, b, ticks, nn);
      && r.broker == b
      && r.agent.nextTime == a.nextTime
      && r.agent.bidBack == a.bidBack
      && r.agent.inputData == a.inputData
      && |r.agent.longMa.window| == |a.longMa.window| + |ticks|
      && |r.agent.shortMa.window| ==
           if |a.shortMa.window| + |ticks| < a.shortMa.period then |a.shortMa.window| + |ticks|
           else a.shortMa.period
  {
    if |ticks| > 0 {
      var s := NextTick(a, b, ticks[0], nn);
      assert s.agent.longMa.window == a.longMa.window + [ticks[0].bid];
      ColdTicksDoNothing(s.agent, s.broker, ticks[1..], nn);
    }
  }

  /** Feeding a non-empty run of ticks is feeding all but the last, then the
      last. */
  lemma {:induction false} RunSnoc(a: Agent, b: Broker, ticks: seq<Tick>, nn: Option<seq<real>> -> NetOutput)
    requires |ticks| > 0
    decreases |ticks|
    ensures var r := Run(a, b, ticks[..|ticks| - 1], nn);
      var s := NextTick(r.agent, r.broker, ticks[|ticks| - 1], nn);
      Run(a, b, ticks, nn) == Traded(s.agent, s.broker)
  {
    var s0 := NextTick(a, b, ticks[0], nn);
    if |ticks| > 1 {
      var rest := ticks[1..];
      RunSnoc(s0.agent, s0.broker, rest, nn);
      assert ticks[..|ticks| - 1][1..] == rest[..|rest| - 1];
      assert rest[|rest| - 1] == ticks[|ticks| - 1];
    } else {
      assert ticks[..0] == [];
    }
  }

  /** The first tick on which both averages report: the evaluation is only
      scheduled, `trade_time` after the tick, and the broker is untouched;
      a later warm tick past the schedule evaluates. */
  lemma WarmTickTrades(a: Agent, b: Broker, tick: Tick, nn: Option<seq<real>> -> NetOutput)
    requires |a.shortMa.window| + 1 >= a.shortMa.period && |a.longMa.window| + 1 >= a.longMa.period
    ensures var r := NextTick(a, b, tick, nn);
      && r.plotted.Some?
      && (a.nextTime.None? ==>
            r.broker == b && r.agent.nextTime == Some(tick.timestamp + a.tradeTime))
      && (a.nextTime.Some? && tick.timestamp > a.nextTime.value ==>
            && r.agent.nextTime == Some(tick.timestamp + a.tradeTime)
            && r.agent.bidBack == tick.bid
            && |r.broker.open| <= 1)
  {
  }

  /** With the default periods, a fresh agent fed 74 ticks has placed and
      closed nothing and has no schedule yet. */
  lemma DefaultWarmUp(b: Broker, ticks: seq<Tick>, nn: Option<seq<real>> -> NetOutput)
    requires |ticks| <= 74
    ensures var a := PostCreate(DefaultShort, DefaultLong, DefaultTradeTime);
      var r := Run(a, b, ticks, nn);
      r.broker == b && r.agent.nextTime.None?
  {
    ColdTicksDoNothing(PostCreate(DefaultShort, DefaultLong, DefaultTradeTime), b, ticks, nn);
  }

  /** With the default periods, the 75th tick is the first on which both
      averages report: it schedules the first evaluation 60 seconds later
      and still places and closes nothing. */
  lemma DefaultFirstSchedule(b: Broker, ticks: seq<Tick>, nn: Option<seq<real>> -> NetOutput)
    requires |ticks| == 75
    ensures var a := PostCreate(DefaultShort, DefaultLong, DefaultTradeTime);
      var r := Run(a, b, ticks, nn);
      r.broker == b && r.agent.nextTime == Some(ticks[74].timestamp + 60)
  {
    var a := PostCreate(DefaultShort, DefaultLong, DefaultTradeTime);
    ColdTicksDoNothing(a, b, ticks[..74], nn);
    RunSnoc(a, b, ticks, nn);
    var w := Run(a, b, ticks[..74], nn);
    WarmTickTrades(w.agent, w.broker, ticks[74], nn);
  }

  /** The schedule with a 60-second interval: the first warm tick at 1000
      schedules 1060; a tick at 1059 or at exactly 1060 does nothing; a tick
      at 1061 evaluates and schedules 1121. */
  lemma ScheduleExample(a: Agent, b: Broker, nn: Option<seq<real>> -> NetOutput)
    requires a.nextTime.None? && a.tradeTime == 60
    ensures var t1 := DoTrade(a, b, Tick(1000, 1.0), nn);
      && t1.agent.nextTime == Some(1060)
      && DoTrade(t1.agent, t1.broker, Tick(1059, 1.0), nn) == t1
      && DoTrade(t1.agent, t1.broker, Tick(1060, 1.0), nn) == t1
      && DoTrade(t1.agent, t1.broker, Tick(1061, 1.0), nn).agent.nextTime == Some(1121)
  {
  }

  /** Restoring what `state` returned into an agent with the same periods
      reproduces the moving averages, so the same next tick plots the same
      averages. The schedule and reference bid are not part of the
      snapshot. */
  lemma StateRoundTrip(a: Agent, other: Agent, b1: Broker, b2: Broker, tick: Tick,
                       nn: Option<seq<real>> -> NetOutput, restoreNil: MovingAverage -> MovingAverage)
    requires other.shortMa.period == a.shortMa.period && other.longMa.period == a.longMa.period
    ensures var restored := RestoreState(other, State(a), restoreNil);
      && restored.shortMa == a.shortMa && restored.longMa == a.longMa
      && restored.nextTime == other.nextTime && restored.bidBack == other.bidBack
      && NextTick(restored, b1, tick, nn).plotted == NextTick(a, b2, tick, nn).plotted
  {
  }

  /** A `:mvs` list shorter than two entries hands nil to the restore of
      each average it lacks and restores the others; a snapshot without
      `:mvs` changes nothing. */
  lemma RestoreShortList(a: Agent, w: seq<real>, restoreNil: MovingAverage -> MovingAverage)
    ensures RestoreState(a, Snapshot(None), restoreNil) == a
    ensures RestoreState(a, Snapshot(Some([])), restoreNil) ==
      a.(shortMa := restoreNil(a.shortMa), longMa := restoreNil(a.longMa))
    ensures RestoreState(a, Snapshot(Some([Some(w)])), restoreNil) ==
      a.(shortMa := a.shortMa.(window := w), longMa := restoreNil(a.longMa))
  {
  }
}
