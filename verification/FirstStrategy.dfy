// first_strategy: at most one order at a time, and a bounded number of orders per bar.
module FirstStrategy {
  import opened Orders

  datatype Params = Params(volume: real, min_candle: int, lines_dist: int, max_trades_per_candle: int)

  /** What the constructor of first_strategy lets through. */
  predicate Accepted(p: Params) {
    p.volume >= 0.01 && p.min_candle > 0 && p.lines_dist > 0 && p.max_trades_per_candle > 0
  }

  datatype Bar = Bar(o: real, h: real, l: real, c: real, t: int)

  function Shift(p: Price, offset: real): Price {
    match p
    case At(v) => At(v + offset)
    case Undefined => Undefined
  }

  /** base_buy_order::is_valid and base_sell_order::is_valid. */
  predicate IsValid(k: Kind, price: Price, volume: real, stop_loss: Price, take_profit: Price) {
    && price.At? && price.value > 0.0 && volume >= 0.01
    && (stop_loss.At? ==> if Buys(k) then stop_loss.value < price.value else stop_loss.value > price.value)
    && (take_profit.At? ==> if Buys(k) then take_profit.value > price.value else take_profit.value < price.value)
  }

  /** The order of first_strategy that opened at a price, with its limits at a distance on either side. */
  predicate Sent(o: Order, k: Kind, price: Price, distance: real)
    reads o
  {
    && price.At? && o.kind == k && (k == Buy || k == Sell) && o.order_price == price && o.open_price == price
    && o.stop_loss == At(if k == Buy then price.value - distance else price.value + distance)
    && o.take_profit == At(if k == Buy then price.value + distance else price.value - distance)
  }

  /** It is closed by its limits exactly when the closing price is that far away from the opening price. */
  lemma SentCloses(o: Order, k: Kind, price: real, distance: real, t: Tick)
    requires Sent(o, k, At(price), distance) && distance > 0.0 && !o.IsClosed()
    ensures o.CheckClose(t) <==>
            var q := Quote(t, k, false); q.Undefined? || q.value <= price - distance || price + distance <= q.value
  {
    InNumbers(o, t);
  }

  class FirstStrategy {
    const engine: Engine
    const params: Params
    /** The size of a pip of the engine's symbol. */
    const point: real
    var trade_opens_in_current_bar: int
    var buy_line: real
    var sell_line: real
    /** How many orders had entered the opened list when the counter was last reset. */
    ghost var mark: nat

    ghost predicate Valid()
      reads this, engine, engine.orders
    {
      && engine.Valid() && Accepted(params) && point > 0.0
      && |engine.opened_orders| <= 1
      && 0 <= trade_opens_in_current_bar <= params.max_trades_per_candle
      && |engine.entered| == mark + trade_opens_in_current_bar
    }

    constructor (engine: Engine, params: Params, point: real)
      requires engine.Valid() && engine.opened_orders == [] && Accepted(params) && point > 0.0
      ensures Valid() && this.engine == engine && this.params == params && this.point == point
    {
      this.engine, this.params, this.point := engine, params, point;
      trade_opens_in_current_bar, buy_line, sell_line := 0, 0.0, 0.0;
      mark := |engine.entered|;
    }

    /** Half the distance of the lines, in pips: the stop loss and the take profit of every order. */
    function Limit(): int { params.lines_dist / 2 }

    /** That distance as a price. */
    function Distance(): real { (params.lines_dist / 2) as real * point }

    function StopLoss(k: Kind, price: Price): Price {
      Shift(price, (if Buys(k) then -Limit() else Limit()) as real * point)
    }

    function TakeProfit(k: Kind, price: Price): Price {
      Shift(price, (if Buys(k) then Limit() else -Limit()) as real * point)
    }

    /** The order constructor does not throw. */
    predicate Constructs(k: Kind, price: Price) {
      IsValid(k, price, params.volume, StopLoss(k, price), TakeProfit(k, price))
    }

    method OrderSend(k: Kind, tick: Tick) returns (ok: bool)
      requires engine.Valid() && engine.opened_orders == [] && (k == Buy || k == Sell)
      modifies engine`opened_orders, engine`entered, engine`orders
      ensures engine.Valid() && ok == Constructs(k, OpeningPrice(k, tick))
      ensures |engine.opened_orders| == if ok then 1 else 0
      ensures engine.entered == old(engine.entered) + engine.opened_orders
      ensures ok ==> fresh(engine.opened_orders[0]) && Sent(engine.opened_orders[0], k, Quote(tick, k, true), Distance())
      ensures engine.orders == old(engine.orders) + set o | o in engine.opened_orders
    {
      var price := OpeningPrice(k, tick);
      if !Constructs(k, price) {
        return false;
      }
      var optr := new Order(k, price, StopLoss(k, price), TakeProfit(k, price));
      var _ := optr.Open(tick);
      ghost var none, was, shut := engine.opened_orders, engine.entered, engine.closed_orders;
      engine.opened_orders := engine.opened_orders + [optr];
      engine.entered := engine.entered + [optr];
      engine.orders := engine.orders + {optr};
      SharedMore(none, shut, was, [optr]);
      return true;
    }

    /** The side the tick asks for: the buy line is looked at first. */
    function Side(tick: Tick): Kind
      reads this`buy_line
    {
      if AtMost(At(buy_line), tick.bid) then Buy else Sell
    }

    /** When on_tick sends an order. */
    predicate Sends(tick: Tick)
      reads this, engine`opened_orders
    {
      && buy_line > 0.0 && sell_line > 0.0 && engine.opened_orders == []
      && trade_opens_in_current_bar < params.max_trades_per_candle
      && (AtMost(At(buy_line), tick.bid) || AtMost(tick.bid, At(sell_line)))
      && Constructs(Side(tick), OpeningPrice(Side(tick), tick))
    }

    /** In numbers: when on_tick buys, and when it sells. With lines less than two pips apart it never does. */
    lemma SendsIn(tick: Tick)
      requires Valid()
      ensures Sends(tick) <==>
              && buy_line > 0.0 && sell_line > 0.0 && engine.opened_orders == []
              && trade_opens_in_current_bar < params.max_trades_per_candle && params.lines_dist >= 2
              && if IsAtLeast(tick.bid, buy_line) then tick.ask.At? && tick.ask.value > 0.0
                 else IsAtMost(tick.bid, sell_line) && tick.bid.value > 0.0
      ensures Side(tick) == if IsAtLeast(tick.bid, buy_line) then Buy else Sell
    {
      if params.lines_dist >= 2 {
        assert Limit() as real * point > 0.0;
      }
    }

    method OnTick(tick: Tick)
      requires Valid()
      modifies this`trade_opens_in_current_bar
      modifies engine`opened_orders, engine`closed_orders, engine`entered, engine`orders
      modifies engine.orders`close_price, engine.orders`close_time
      ensures Valid()
      ensures engine.entered == old(engine.entered) + if old(Sends(tick)) then engine.opened_orders else []
      ensures old(engine.closed_orders) <= engine.closed_orders
      ensures fresh(engine.orders - old(engine.orders)) && old(engine.orders) <= engine.orders
      ensures old(Sends(tick)) ==>
                |engine.opened_orders| == 1 && Sent(engine.opened_orders[0], old(Side(tick)), Quote(tick, old(Side(tick)), true), Distance())
      ensures old(buy_line > 0.0 && sell_line > 0.0) ==> forall o <- old(engine.opened_orders) :: o in engine.closed_orders <==> AtLimit(o, tick)
      ensures old(buy_line > 0.0 && sell_line > 0.0) ==>
                engine.closed_orders == old(engine.closed_orders) + old(HittingOf(engine.opened_orders, tick))
    {
      if buy_line <= 0.0 || sell_line <= 0.0 {
        return;
      }
      if engine.opened_orders != [] {
        ghost var open, shut := engine.opened_orders, engine.closed_orders;
        AtMostOneHits(open, tick);
        ListsOfOrders(engine);
        var _ := engine.CheckOrdersClosing(tick);
        ClosedAtLimit(open, shut, engine.closed_orders, tick);
        return;
      }
      if trade_opens_in_current_bar >= params.max_trades_per_candle {
        return;
      }
      var order_send_success := false;
      if AtMost(At(buy_line), tick.bid) {
        order_send_success := OrderSend(Buy, tick);
      } else if AtMost(tick.bid, At(sell_line)) {
        order_send_success := OrderSend(Sell, tick);
      }
      if order_send_success {
        trade_opens_in_current_bar := trade_opens_in_current_bar + 1;
      }
    }

    /** on_bar on the last two bars of the bar collector. A bar that is large enough switches the
        lines off, whatever the name of the test says. */
    method OnBar(oneMinute: bool, latest_bars: seq<Bar>)
      requires Valid()
      modifies this`buy_line, this`sell_line, this`trade_opens_in_current_bar, this`mark
      ensures Valid()
      ensures !oneMinute || latest_bars == [] ==>
                buy_line == old(buy_line) && sell_line == old(sell_line) &&
                trade_opens_in_current_bar == old(trade_opens_in_current_bar)
      ensures oneMinute && latest_bars != [] && IsLegal(latest_bars[|latest_bars| - 1]) ==>
                buy_line == 0.0 && sell_line == 0.0 &&
                trade_opens_in_current_bar == old(trade_opens_in_current_bar)
      ensures oneMinute && latest_bars != [] && !IsLegal(latest_bars[|latest_bars| - 1]) ==>
                trade_opens_in_current_bar == 0 && mark == |engine.entered| &&
                sell_line < latest_bars[0].o < buy_line && buy_line - sell_line == params.lines_dist as real * point &&
                buy_line - latest_bars[0].o == latest_bars[0].o - sell_line
    {
      if !oneMinute || latest_bars == [] {
        return;
      }
      if IsLegal(latest_bars[|latest_bars| - 1]) {
        buy_line, sell_line := 0.0, 0.0;
        return;
      }
      buy_line := latest_bars[0].o + params.lines_dist as real * point / 2.0;
      sell_line := buy_line - params.lines_dist as real * point;
      trade_opens_in_current_bar := 0;
      mark := |engine.entered|;
      HalfWay(params.lines_dist as real, point);
    }

    lemma LegalMeans(bar: Bar)
      requires point > 0.0
      ensures IsLegal(bar) <==> bar.h - bar.l > params.min_candle as real * point
    {
      var x, m := bar.h - bar.l, params.min_candle as real;
      assert x / point * point == x;
      if x / point > m { assert x / point * point > m * point; }
      if x / point <= m { assert x / point * point <= m * point; }
    }

    predicate IsLegal(bar: Bar)
      requires point != 0.0
    {
      (bar.h - bar.l) / point > params.min_candle as real
    }

    /** data_event_callback::on_tick with this strategy; submitted orders only pile up. */
    method EngineTick(tick: Tick)
      requires Valid()
      modifies this`trade_opens_in_current_bar
      modifies engine`pending_orders, engine`opened_orders, engine`closed_orders, engine`entered, engine`orders, engine`queued
      modifies engine.orders`close_price, engine.orders`close_time
      ensures Valid() && engine.queued == old(engine.queued) + set o | o in engine.new_orders
      ensures old(engine.entered) <= engine.entered && |engine.entered| <= old(|engine.entered|) + 1
      ensures old(engine.closed_orders) <= engine.closed_orders
      ensures fresh(engine.orders - old(engine.orders)) && old(engine.orders) <= engine.orders
    {
      engine.AddNewOrders();
      OnTick(tick);
    }

    method CloseAllTrades(tick: Tick)
      requires Valid()
      modifies engine`opened_orders, engine`closed_orders, engine.orders`close_price, engine.orders`close_time
      ensures Valid() && engine.opened_orders == []
      ensures engine.closed_orders == old(engine.closed_orders) + old(engine.opened_orders)
    {
      engine.CloseAllTrades(tick);
    }

    method CloseTrade(tick: Tick, optr: Order) returns (ok: bool)
      requires Valid()
      modifies engine`opened_orders, engine`closed_orders, engine.orders`close_price, engine.orders`close_time
      ensures Valid() && ok == (optr in old(engine.opened_orders))
      ensures ok ==> engine.opened_orders == []
      ensures engine.closed_orders == old(engine.closed_orders) + if ok then [optr] else []
    {
      ok := engine.CloseTrade(tick, optr);
    }
  }

  lemma AtMostOneHits(s: seq<Order>, t: Tick)
    requires |s| <= 1
    ensures |HittingOf(s, t)| <= 1
    ensures |HittingOf(s, t)| + |Drop(s, Hitting(s, t))| == |s|
    ensures FirstOf(HittingOf(s, t)) == HittingOf(s, t)
  {
    if |s| == 1 {
      var x := Hitting(s, t);
      assert s[1..] == [];
      assert Take(s[1..], x) == [] && Drop(s[1..], x) == [];
    }
  }

  lemma HalfWay(d: real, point: real)
    requires d > 0.0 && point > 0.0
    ensures 0.0 < d * point / 2.0 < d * point
  {
    assert d * point > 0.0;
  }
}
