// Whole runs: any sequence of ticks, submissions and closings, with either strategy.
module Runs {
  import opened Orders
  import opened FirstStrategy

  /** What has happened so far: the orders in the sequence in which they entered the opened list, those
      in the sequence in which they entered the closed one, and those that were ever pending. */
  datatype History = History(entered: seq<Order>, closed: seq<Order>, queued: set<Order>)

  ghost function HistoryOf(e: Engine): History
    reads e
  {
    History(e.entered, e.closed_orders, e.queued)
  }

  /** Nothing that has happened is undone or forgotten. */
  ghost predicate Continues(h: History, now: History) {
    h.entered <= now.entered && h.closed <= now.closed && h.queued <= now.queued
  }

  /** Over the whole history, no order entered or was closed twice, and none was lost. */
  ghost predicate Sound(e: Engine)
    reads e
  {
    && Distinct(e.entered) && Distinct(e.closed_orders) && Distinct(e.opened_orders)
    && (forall o <- e.opened_orders :: o !in e.closed_orders)
    && (forall o <- e.entered :: o in e.opened_orders || o in e.closed_orders)
    && (forall o <- e.opened_orders + e.closed_orders :: o in e.entered)
    && (forall o <- e.queued :: o in e.pending_orders || o in e.opened_orders || o in e.closed_orders)
  }

  lemma ValidIsSound(e: Engine)
    requires e.Valid()
    ensures Sound(e)
  {
    ListsOfOrders(e);
  }

  datatype Step =
    | Submitted(optr: Order?)
    | Ticked(tick: Tick)
    | TradeClosed(tick: Tick, trade: Order)
    | AllTradesClosed(tick: Tick)

  /** An order that counts as closed has been opened. */
  ghost predicate Allowed(step: Step)
    reads if step.Submitted? && step.optr != null then {step.optr} else {}
  {
    step.Submitted? && step.optr != null && step.optr.IsClosed() ==> step.optr.IsOpened()
  }

  ghost predicate Permitted(steps: seq<Step>)
    reads set k | 0 <= k < |steps| && steps[k].Submitted? && steps[k].optr != null :: steps[k].optr
  {
    forall k :: 0 <= k < |steps| ==> Allowed(steps[k])
  }

  /** Every order the step will open has a price to open at. */
  predicate Priced(e: Engine, step: Step)
    reads e, e.pending_orders, e.new_orders
  {
    step.Ticked? ==> AllDefined(e.pending_orders + e.new_orders, step.tick)
  }

  /** A tick with both prices is always one. */
  lemma QuotedIsPriced(e: Engine, step: Step)
    requires step.Ticked? ==> Quoted(step.tick)
    ensures Priced(e, step)
  {
  }

  /** One operation of an engine that runs the default strategy. */
  method Do(e: Engine, step: Step)
    requires e.Valid() && Allowed(step)
    modifies e, e.orders`open_price, e.orders`open_time, e.orders`close_price, e.orders`close_time
    ensures Continues(old(HistoryOf(e)), HistoryOf(e))
    ensures old(Priced(e, step)) ==> e.Valid()
    ensures old(!Priced(e, step)) ==> exists o <- e.entered :: !o.IsOpened()
    ensures e.orders >= old(e.orders) && fresh(e.orders - old(e.orders))
    ensures step.Ticked? ==> forall o <- e.new_orders :: o in e.queued
  {
    match step {
      case Submitted(optr) => var _ := e.SubmitOrder(optr);
      case Ticked(tick) => e.EngineTick(tick);
      case TradeClosed(tick, trade) => var _ := e.CloseTrade(tick, trade);
      case AllTradesClosed(tick) => e.CloseAllTrades(tick);
    }
  }

  /**
   Order life cycle over every run of the default strategy: from a valid state, whatever is submitted,
   closed or ticked, each order enters the opened list at most once and the closed list at most once, is
   never in both, and every order that was ever pending is pending, opened or closed.  The run is
   followed up to the first tick, if any, that opens an order at an undefined price: that order has
   entered the opened list without being open.
   */
  method Run(e: Engine, steps: seq<Step>) returns (n: nat)
    requires e.Valid() && Permitted(steps)
    modifies e, e.orders`open_price, e.orders`open_time, e.orders`close_price, e.orders`close_time
    ensures n <= |steps| && Continues(old(HistoryOf(e)), HistoryOf(e))
    ensures n == |steps| ==> e.Valid() && Sound(e)
    ensures n < |steps| ==> steps[n].Ticked? && !Quoted(steps[n].tick) && exists o <- e.entered :: !o.IsOpened()
  {
    n := 0;
    while n < |steps|
      invariant n <= |steps| && e.Valid() && Continues(old(HistoryOf(e)), HistoryOf(e))
      invariant e.orders >= old(e.orders) && fresh(e.orders - old(e.orders))
      invariant forall k :: n <= k < |steps| ==> Allowed(steps[k])
    {
      var priced := Priced(e, steps[n]);
      if !priced && Quoted(steps[n].tick) { QuotedIsPriced(e, steps[n]); }
      Do(e, steps[n]);
      if !priced {
        return;
      }
      n := n + 1;
    }
    ValidIsSound(e);
  }

  datatype StrategyStep =
    | OneSubmitted(optr: Order?)
    | OneTicked(tick: Tick)
    | BarEnded(oneMinute: bool, latest_bars: seq<Bar>)
    | OneTradeClosed(tick: Tick, trade: Order)
    | EveryTradeClosed(tick: Tick)

  ghost predicate AllowedFor(step: StrategyStep)
    reads if step.OneSubmitted? && step.optr != null then {step.optr} else {}
  {
    step.OneSubmitted? && step.optr != null && step.optr.IsClosed() ==> step.optr.IsOpened()
  }

  ghost predicate PermittedFor(steps: seq<StrategyStep>)
    reads set k | 0 <= k < |steps| && steps[k].OneSubmitted? && steps[k].optr != null :: steps[k].optr
  {
    forall k :: 0 <= k < |steps| ==> AllowedFor(steps[k])
  }

  /** One operation of an engine that runs first_strategy. */
  method DoFirst(s: FirstStrategy, step: StrategyStep)
    requires s.Valid() && AllowedFor(step)
    modifies s, s.engine, s.engine.orders`close_price, s.engine.orders`close_time
    ensures s.Valid() && Continues(old(HistoryOf(s.engine)), HistoryOf(s.engine))
    ensures s.engine.orders >= old(s.engine.orders) && fresh(s.engine.orders - old(s.engine.orders))
  {
    match step {
      case OneSubmitted(optr) => var _ := s.engine.SubmitOrder(optr);
      case OneTicked(tick) => s.EngineTick(tick);
      case BarEnded(oneMinute, latest_bars) => s.OnBar(oneMinute, latest_bars);
      case OneTradeClosed(tick, trade) => var _ := s.CloseTrade(tick, trade);
      case EveryTradeClosed(tick) => s.CloseAllTrades(tick);
    }
  }

  /**
   The same for every run of first_strategy, with any ticks: there is never more than one open order, so
   the early return of check_orders_closing strands nothing, and since the last reset of the counter no
   more orders have entered than the parameters allow for one bar.
   */
  method RunFirst(s: FirstStrategy, steps: seq<StrategyStep>)
    requires s.Valid() && PermittedFor(steps)
    modifies s, s.engine, s.engine.orders`close_price, s.engine.orders`close_time
    ensures s.Valid() && Sound(s.engine) && Continues(old(HistoryOf(s.engine)), HistoryOf(s.engine))
    ensures |s.engine.opened_orders| <= 1 && |s.engine.entered| <= s.mark + s.params.max_trades_per_candle
  {
    for i := 0 to |steps|
      invariant s.Valid() && Continues(old(HistoryOf(s.engine)), HistoryOf(s.engine))
      invariant s.engine.orders >= old(s.engine.orders) && fresh(s.engine.orders - old(s.engine.orders))
      invariant forall k :: i <= k < |steps| ==> AllowedFor(steps[k])
    {
      DoFirst(s, steps[i]);
    }
    ValidIsSound(s.engine);
  }
}
