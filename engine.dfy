/** The live trading engine: it owns the bar store and the account, runs the
    polling loop, and stops for good once the venue connection is found closed.

    The venue and the strategy are not modelled: what a fetch would return, the
    clock and the connection health come in as parameters. */
module Engine {
  import opened Bars
  import opened Orders
  import opened Schedule

  /** The account snapshot the engine keeps: the open orders and the
      append-only history of orders seen to close. */
  class Account {
    var openOrders: seq<Order>
    var orderHistory: seq<Order>

    constructor ()
      ensures openOrders == [] && orderHistory == []
    {
      openOrders := [];
      orderHistory := [];
    }
  }

  /** What one pass of the polling loop observes: the clock when the pass starts
      (`current`) and when a tick is stamped (`firedAt`), the latest push time
      written by the notification callback, the connection health, and what the
      venue returns to the fetches of a tick (full bars, recent bars, orders). */
  datatype Poll = Poll(current: real, firedAt: real, lastTick: real, connected: bool,
                       full: seq<Bar>, recent: seq<Bar>, orders: seq<Order>)

  /** The loop's `last` when poll `k` is evaluated, starting from `last == 0`:
      still 0, or the time an earlier pass fired at. */
  function LastBefore(polls: seq<Poll>, k: nat, loopInterval: real): (r: real)
    requires k <= |polls|
    ensures r == 0.0 || exists i :: 0 <= i < k && r == polls[i].firedAt
  {
    if k == 0 then 0.0
    else
      var p, last := polls[k - 1], LastBefore(polls, k - 1, loopInterval);
      if ShouldTick(p.current, last, p.lastTick, loopInterval) then p.firedAt else last
  }

  /** Poll `k` triggers work and finds the connection closed: the engine exits. */
  predicate Stops(polls: seq<Poll>, k: nat, loopInterval: real)
    requires k < |polls|
  {
    var p := polls[k];
    ShouldTick(p.current, LastBefore(polls, k, loopInterval), p.lastTick, loopInterval) && !p.connected
  }

  /** The clock never runs backwards: a pass stamps `last` no earlier than it
      started, and every later pass starts no earlier than that stamp. */
  predicate MonotoneClock(polls: seq<Poll>)
  {
    && (forall k :: 0 <= k < |polls| ==> polls[k].current <= polls[k].firedAt)
    && (forall i, j :: 0 <= i < j < |polls| ==> polls[i].firedAt <= polls[j].current)
  }

  /** Poll `k` fires through the push branch of the trigger: a push newer than
      the last tick that has aged past the debounce window. */
  predicate PushFires(polls: seq<Poll>, k: nat, loopInterval: real)
    requires k < |polls|
  {
    LastBefore(polls, k, loopInterval) < polls[k].lastTick < polls[k].current - Debounce
  }

  /** Once pass `k1` fires, `last` never drops below the time it fired at. */
  lemma {:induction false} LastBeforeAfterFiring(polls: seq<Poll>, loopInterval: real, k1: nat, k: nat)
    requires MonotoneClock(polls)
    requires k1 < k <= |polls|
    requires ShouldTick(polls[k1].current, LastBefore(polls, k1, loopInterval), polls[k1].lastTick, loopInterval)
    ensures LastBefore(polls, k, loopInterval) >= polls[k1].firedAt
    decreases k
  {
    var p, last := polls[k - 1], LastBefore(polls, k - 1, loopInterval);
    assert LastBefore(polls, k, loopInterval)
        == if ShouldTick(p.current, last, p.lastTick, loopInterval) then p.firedAt else last;
    if k > k1 + 1 {
      LastBeforeAfterFiring(polls, loopInterval, k1, k - 1);
      assert polls[k1].firedAt <= p.current <= p.firedAt;
    }
  }

  /** Debounce: one push fires the push branch at most once. After a pass fired
      by a push, every later pass that still sees that push can only fire on
      the polling interval. */
  lemma PushFiresOnce(polls: seq<Poll>, loopInterval: real, k1: nat, k2: nat)
    requires MonotoneClock(polls)
    requires k1 < k2 < |polls| && polls[k1].lastTick == polls[k2].lastTick
    requires PushFires(polls, k1, loopInterval)
    ensures !PushFires(polls, k2, loopInterval)
    ensures ShouldTick(polls[k2].current, LastBefore(polls, k2, loopInterval), polls[k2].lastTick, loopInterval)
        <==> polls[k2].current - LastBefore(polls, k2, loopInterval) > loopInterval
  {
    LastBeforeAfterFiring(polls, loopInterval, k1, k2);
    StalePushIgnored(polls[k2].current, LastBefore(polls, k2, loopInterval), polls[k2].lastTick, loopInterval);
  }

  /** What the incremental merge reads of the venue's fetches: the first bar of
      a full fetch that can become the compared head carries a subbar, and so
      does every bar of a recent fetch. */
  predicate WellFormedPolls(polls: seq<Poll>)
  {
    forall k :: 0 <= k < |polls| ==>
      (|polls[k].full| >= 10 ==> polls[k].full[0].subbars != []) && AllHaveSubbars(polls[k].recent)
  }

  /** Poll `k` triggers work and finds the connection open: a tick runs. */
  predicate Ticks(polls: seq<Poll>, k: nat, loopInterval: real)
    requires k < |polls|
  {
    var p := polls[k];
    ShouldTick(p.current, LastBefore(polls, k, loopInterval), p.lastTick, loopInterval) && p.connected
  }

  /** The bars after the first `k` polls, from `bars0`: every pass that ticks
      applies the bar update and clears the change flags; no other pass touches
      the bars. */
  function BarsAfter(polls: seq<Poll>, k: nat, loopInterval: real, bars0: seq<Bar>): (r: seq<Bar>)
    requires k <= |polls| && WellFormedPolls(polls)
    requires |bars0| >= 10 ==> HeadReady(bars0)
    ensures |r| >= 10 ==> HeadReady(r)
  {
    if k == 0 then bars0
    else
      var prev, p := BarsAfter(polls, k - 1, loopInterval, bars0), polls[k - 1];
      if Ticks(polls, k - 1, loopInterval) then
        var r := Settled(UpdatedBars(prev, p.full, p.recent));
        assert |r| >= 10 ==> r[0].subbars == UpdatedBars(prev, p.full, p.recent)[0].subbars;
        r
      else prev
  }

  /** The open orders after the first `k` polls: those of the latest tick's
      order fetch, or `open0` when no pass ticked. */
  function OpenAfter(polls: seq<Poll>, k: nat, loopInterval: real, open0: seq<Order>): seq<Order>
    requires k <= |polls|
  {
    if k == 0 then open0
    else if Ticks(polls, k - 1, loopInterval) then ActiveOrders(polls[k - 1].orders)
    else OpenAfter(polls, k - 1, loopInterval, open0)
  }

  /** The order history after the first `k` polls: every tick appends the
      orders of its fetch that close an order open before that tick. */
  function HistoryAfter(polls: seq<Poll>, k: nat, loopInterval: real, open0: seq<Order>, history0: seq<Order>): seq<Order>
    requires k <= |polls|
  {
    if k == 0 then history0
    else
      var prev := HistoryAfter(polls, k - 1, loopInterval, open0, history0);
      if Ticks(polls, k - 1, loopInterval) then
        prev + Transitions(polls[k - 1].orders, IdsOf(OpenAfter(polls, k - 1, loopInterval, open0)))
      else prev
  }

  class LiveTrading {
    var bars: seq<Bar>
    const account: Account
    var alive: bool
    /** Time of the latest push notification, written by the venue's callback. */
    var lastTick: real
    /** `settings.LOOP_INTERVAL`: seconds between ticks when no push arrives. */
    const loopInterval: real

    /** Start-up: the engine comes alive only if the venue connection is open,
        and then holds the full bar fetch and the open orders of the first
        account fetch. */
    constructor (loopInterval: real, connected: bool, full: seq<Bar>, orders: seq<Order>)
      ensures this.loopInterval == loopInterval && lastTick == 0.0
      ensures alive == connected
      ensures connected ==> bars == full && account.openOrders == ActiveOrders(orders)
      ensures !connected ==> bars == [] && account.openOrders == []
      ensures account.orderHistory == []
    {
      this.loopInterval := loopInterval;
      lastTick := 0.0;
      bars := [];
      account := new Account();
      alive := true;
      new;
      if connected {
        UpdateBars(full, []);
        assert IdsOf(account.openOrders) == [];
        UpdateAccount(orders);
        NothingClosesFromEmpty(orders);
      } else {
        alive := false;
      }
    }

    /** The venue's push callback: record when the latest notification came. */
    method OnTick(now: real)
      modifies this`lastTick
      ensures lastTick == now
    {
      lastTick := now;
    }

    /** Replace the bars by a full fetch while fewer than ten are held; otherwise
        fold the newest-first `recent` fetch into them, oldest bar first. */
    method UpdateBars(full: seq<Bar>, recent: seq<Bar>)
      requires |bars| >= 10 ==> HeadReady(bars) && AllHaveSubbars(recent)
      modifies this`bars
      ensures bars == UpdatedBars(old(bars), full, recent)
    {
      if |bars| < 10 {
        bars := full;
      } else {
        var i := |recent|;
        assert recent[..i] == recent;
        while i > 0
          invariant 0 <= i <= |recent|
          invariant HeadReady(bars)
          invariant MergeBatch(bars, recent[..i]) == MergeBatch(old(bars), recent)
        {
          var b := recent[i - 1];
          assert recent[..i][..i - 1] == recent[..i - 1];
          if b.tstamp < bars[0].tstamp {
            // stale: this bucket was superseded
          } else if b.tstamp == bars[0].tstamp {
            if Oldest(b.subbars).tstamp == Oldest(bars[0].subbars).tstamp {
              bars := bars[0 := b];
            } else {
              var merged := MergeSameBucket(bars[0], b);
              bars := bars[0 := merged];
            }
          } else {
            bars := [b] + bars;
          }
          i := i - 1;
        }
      }
    }

    /** Reconcile the account with the fetched `orders`: the open set becomes
        the active orders, and the orders that closed since the last pass are
        appended to the history. */
    method UpdateAccount(orders: seq<Order>)
      modifies account
      ensures account.openOrders == ActiveOrders(orders)
      ensures account.orderHistory ==
        old(account.orderHistory) + Transitions(orders, IdsOf(old(account.openOrders)))
    {
      var prevOpenIds: seq<string> := [];
      var open := account.openOrders;
      var i := 0;
      while i < |open|
        invariant 0 <= i <= |open|
        invariant prevOpenIds == IdsOf(open)[..i]
      {
        prevOpenIds := prevOpenIds + [open[i].id];
        i := i + 1;
      }
      assert prevOpenIds == IdsOf(old(account.openOrders));
      account.openOrders := [];
      var j := 0;
      while j < |orders|
        invariant 0 <= j <= |orders|
        invariant account.openOrders == ActiveOrders(orders[..j])
        invariant account.orderHistory == old(account.orderHistory) + Transitions(orders[..j], prevOpenIds)
      {
        var o := orders[j];
        assert orders[..j + 1] == orders[..j] + [o];
        ActiveOrdersSnoc(orders[..j], o);
        TransitionsSnoc(orders[..j], o, prevOpenIds);
        if o.active {
          account.openOrders := account.openOrders + [o];
        } else if |o.id| > 0 && o.id in prevOpenIds {
          account.orderHistory := account.orderHistory + [o];
        }
        j := j + 1;
      }
      assert orders[..j] == orders;
    }

    /** Clear every bar's change flag once the strategy has seen the tick. */
    method ClearChangeFlags()
      modifies this`bars
      ensures bars == Settled(old(bars))
    {
      var i := 0;
      while i < |bars|
        invariant 0 <= i <= |bars| == |old(bars)|
        invariant forall k :: 0 <= k < i ==> bars[k] == old(bars[k]).(didChange := false)
        invariant forall k :: i <= k < |bars| ==> bars[k] == old(bars[k])
      {
        bars := bars[i := bars[i].(didChange := false)];
        i := i + 1;
      }
    }

    /** One tick: bars, then account, then the strategy (not modelled), then
        every change flag cleared. */
    method HandleTick(full: seq<Bar>, recent: seq<Bar>, orders: seq<Order>)
      requires |bars| >= 10 ==> HeadReady(bars) && AllHaveSubbars(recent)
      modifies this`bars, account
      ensures bars == Settled(UpdatedBars(old(bars), full, recent))
      ensures forall i :: 0 <= i < |bars| ==> !bars[i].didChange
      ensures account.openOrders == ActiveOrders(orders)
      ensures account.orderHistory ==
        old(account.orderHistory) + Transitions(orders, IdsOf(old(account.openOrders)))
    {
      UpdateBars(full, recent);
      UpdateAccount(orders);
      ClearChangeFlags();
    }

    /** Shut down: a no-op once stopped; otherwise the venue's clean-up runs
        (its failures are only logged) and the engine always ends stopped. */
    method Exit()
      modifies this`alive
      ensures !alive
    {
      if !alive {
        return;
      }
      alive := false;
    }

    /** One pass of the polling loop, from a live engine: when the trigger fires,
        stamp `last`, then either exit on a closed connection or run a tick. */
    method RunLoopStep(last: real, current: real, firedAt: real, connected: bool,
                       full: seq<Bar>, recent: seq<Bar>, orders: seq<Order>)
      returns (newLast: real, ticked: bool)
      requires alive
      requires |bars| >= 10 ==> HeadReady(bars) && AllHaveSubbars(recent)
      modifies this`bars, this`alive, account
      ensures newLast == if ShouldTick(current, last, lastTick, loopInterval) then firedAt else last
      ensures ticked <==> ShouldTick(current, last, lastTick, loopInterval) && connected
      ensures alive <==> !(ShouldTick(current, last, lastTick, loopInterval) && !connected)
      ensures !ticked ==> bars == old(bars) && unchanged(account)
      ensures ticked ==> bars == Settled(UpdatedBars(old(bars), full, recent))
      ensures ticked ==> account.openOrders == ActiveOrders(orders)
      ensures ticked ==>
        account.orderHistory == old(account.orderHistory) + Transitions(orders, IdsOf(old(account.openOrders)))
    {
      newLast, ticked := last, false;
      if ShouldTick(current, last, lastTick, loopInterval) {
        newLast := firedAt;
        if !connected {
          Exit();
        } else {
          HandleTick(full, recent, orders);
          ticked := true;
        }
      }
    }

    /** The polling loop over a finite run of polls: it keeps polling while the
        engine is alive, and stops right after the first poll that fires and
        finds the connection closed. */
    method RunLoop(polls: seq<Poll>) returns (consumed: nat)
      requires |bars| >= 10 ==> HeadReady(bars)
      requires WellFormedPolls(polls)
      modifies this`bars, this`alive, this`lastTick, account
      ensures consumed <= |polls|
      ensures !old(alive) ==> consumed == 0 && !alive
      ensures old(alive) && alive ==> consumed == |polls|
      ensures old(alive) && !alive ==> 0 < consumed && Stops(polls, consumed - 1, loopInterval)
      ensures old(alive) ==> forall k :: 0 <= k < consumed && (alive || k < consumed - 1) ==>
        !Stops(polls, k, loopInterval)
      ensures !old(alive) ==> bars == old(bars) && unchanged(account) && lastTick == old(lastTick)
      ensures bars == BarsAfter(polls, consumed, loopInterval, old(bars))
      ensures account.openOrders == OpenAfter(polls, consumed, loopInterval, old(account.openOrders))
      ensures account.orderHistory ==
        HistoryAfter(polls, consumed, loopInterval, old(account.openOrders), old(account.orderHistory))
      ensures lastTick == if consumed == 0 then old(lastTick) else polls[consumed - 1].lastTick
    {
      var last := 0.0;
      consumed := 0;
      while alive && consumed < |polls|
        invariant consumed <= |polls|
        invariant |bars| >= 10 ==> HeadReady(bars)
        invariant last == LastBefore(polls, consumed, loopInterval)
        invariant !old(alive) ==> consumed == 0 && !alive
        invariant old(alive) && !alive ==> 0 < consumed && Stops(polls, consumed - 1, loopInterval)
        invariant old(alive) ==> forall k :: 0 <= k < consumed && (alive || k < consumed - 1) ==>
          !Stops(polls, k, loopInterval)
        invariant !old(alive) ==> bars == old(bars) && unchanged(account) && lastTick == old(lastTick)
        invariant bars == BarsAfter(polls, consumed, loopInterval, old(bars))
        invariant account.openOrders == OpenAfter(polls, consumed, loopInterval, old(account.openOrders))
        invariant account.orderHistory ==
          HistoryAfter(polls, consumed, loopInterval, old(account.openOrders), old(account.orderHistory))
        invariant lastTick == if consumed == 0 then old(lastTick) else polls[consumed - 1].lastTick
      {
        var p := polls[consumed];
        OnTick(p.lastTick);
        var ticked;
        last, ticked := RunLoopStep(last, p.current, p.firedAt, p.connected, p.full, p.recent, p.orders);
        consumed := consumed + 1;
      }
    }
  }
}
