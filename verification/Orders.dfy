// Orders and their life cycle: order.h, the order lists of fx_engine, and the operations of the
// strategies on them.
module Orders {
  import opened Guard

  /** A price, with the undefined value, which compares as positive infinity. */
  datatype Price = At(value: real) | Undefined

  predicate AtMost(a: Price, b: Price) {
    b.Undefined? || (a.At? && a.value <= b.value)
  }

  datatype Tick = Tick(bid: Price, ask: Price, time: int)

  predicate Quoted(t: Tick) { t.bid.At? && t.ask.At? }

  datatype Kind = Buy | BuyLimit | BuyStop | Sell | SellLimit | SellStop

  predicate Buys(k: Kind) { k.Buy? || k.BuyLimit? || k.BuyStop? }

  /** A buy order opens at the ask and closes at the bid, a sell order the other way round. */
  function OpeningPrice(k: Kind, t: Tick): Price { if Buys(k) then t.ask else t.bid }

  function ClosingPrice(k: Kind, t: Tick): Price { if Buys(k) then t.bid else t.ask }

  class Order {
    const kind: Kind
    const order_price: Price
    var stop_loss: Price
    var take_profit: Price
    var open_price: Price
    var close_price: Price
    var open_time: int
    var close_time: int

    constructor (kind: Kind, order_price: Price, stop_loss: Price, take_profit: Price)
      ensures this.kind == kind && this.order_price == order_price
      ensures this.stop_loss == stop_loss && this.take_profit == take_profit
      ensures !IsOpened() && !IsClosed()
    {
      this.kind, this.order_price, this.stop_loss, this.take_profit := kind, order_price, stop_loss, take_profit;
      open_price, close_price, open_time, close_time := Undefined, Undefined, 0, 0;
    }

    /** The copy constructor behind clone(). */
    constructor Clone(o: Order)
      ensures SameAs(o)
    {
      kind, order_price, stop_loss, take_profit := o.kind, o.order_price, o.stop_loss, o.take_profit;
      open_price, close_price, open_time, close_time := o.open_price, o.close_price, o.open_time, o.close_time;
    }

    predicate SameAs(o: Order)
      reads this, o
    {
      && kind == o.kind && order_price == o.order_price && stop_loss == o.stop_loss && take_profit == o.take_profit
      && open_price == o.open_price && close_price == o.close_price && open_time == o.open_time && close_time == o.close_time
    }

    predicate IsOpened()
      reads this
    {
      open_price != Undefined
    }

    predicate IsClosed()
      reads this
    {
      close_price != Undefined
    }

    /** The price condition of limit and stop orders. */
    predicate Triggered(t: Tick) {
      match kind
      case Buy => true
      case BuyLimit => AtMost(t.ask, order_price)
      case BuyStop => AtMost(order_price, t.ask)
      case Sell => true
      case SellLimit => AtMost(order_price, t.bid)
      case SellStop => AtMost(t.bid, order_price)
    }

    predicate CheckOpen(t: Tick)
      reads this
    {
      !IsOpened() && Triggered(t)
    }

    /** The closing price has reached the stop loss or the take profit. */
    predicate Hits(t: Tick)
      reads this`stop_loss, this`take_profit
    {
      var p := ClosingPrice(kind, t);
      if Buys(kind)
      then (stop_loss != Undefined && AtMost(p, stop_loss)) || (take_profit != Undefined && AtMost(take_profit, p))
      else (stop_loss != Undefined && AtMost(stop_loss, p)) || (take_profit != Undefined && AtMost(p, take_profit))
    }

    predicate CheckClose(t: Tick)
      reads this
    {
      IsOpened() && !IsClosed() && Hits(t)
    }

    method Open(t: Tick) returns (ok: bool)
      modifies this`open_price, this`open_time
      ensures ok == old(CheckOpen(t))
      ensures open_price == if ok then OpeningPrice(kind, t) else old(open_price)
      ensures open_time == if ok then t.time else old(open_time)
    {
      ok := CheckOpen(t);
      if ok {
        open_price := if Buys(kind) then t.ask else t.bid;
        open_time := t.time;
      }
    }

    method Close(t: Tick) returns (ok: bool)
      modifies this`close_price, this`close_time
      ensures ok == (IsOpened() && !old(IsClosed()))
      ensures close_price == if ok then ClosingPrice(kind, t) else old(close_price)
      ensures close_time == if ok then t.time else old(close_time)
    {
      ok := IsOpened() && !IsClosed();
      if ok {
        close_price := if Buys(kind) then t.bid else t.ask;
        close_time := t.time;
      }
    }
  }

  // The conditions in numbers; an undefined price is above every number.

  predicate IsAtMost(p: Price, limit: real) { p.At? && p.value <= limit }

  predicate IsAtLeast(p: Price, limit: real) { p.Undefined? || limit <= p.value }

  /** A buy order is closed when the bid has fallen to its stop loss or risen to its take profit, a sell order when the
      ask has risen to its stop loss or fallen to its take profit. */
  predicate AtLimit(o: Order, t: Tick)
    reads o`stop_loss, o`take_profit
  {
    match o.kind
    case Buy | BuyLimit | BuyStop =>
      (o.stop_loss.At? && IsAtMost(t.bid, o.stop_loss.value)) || (o.take_profit.At? && IsAtLeast(t.bid, o.take_profit.value))
    case Sell | SellLimit | SellStop =>
      (o.stop_loss.At? && IsAtLeast(t.ask, o.stop_loss.value)) || (o.take_profit.At? && IsAtMost(t.ask, o.take_profit.value))
  }

  /** A limit order waits for a better price than the one at hand, a stop order for a worse one. */
  predicate AtPrice(o: Order, t: Tick) {
    match o.kind
    case Buy | Sell => true
    case BuyLimit => o.order_price.Undefined? || IsAtMost(t.ask, o.order_price.value)
    case SellStop => o.order_price.Undefined? || IsAtMost(t.bid, o.order_price.value)
    case BuyStop => if o.order_price.At? then IsAtLeast(t.ask, o.order_price.value) else t.ask.Undefined?
    case SellLimit => if o.order_price.At? then IsAtLeast(t.bid, o.order_price.value) else t.bid.Undefined?
  }

  /** The price a tick has for opening, or for closing, an order of a kind. */
  function Quote(t: Tick, k: Kind, opening: bool): Price {
    match k
    case Buy | BuyLimit | BuyStop => if opening then t.ask else t.bid
    case Sell | SellLimit | SellStop => if opening then t.bid else t.ask
  }

  lemma InNumbers(o: Order, t: Tick)
    ensures o.Hits(t) <==> AtLimit(o, t)
    ensures o.Triggered(t) <==> AtPrice(o, t)
    ensures OpeningPrice(o.kind, t) == Quote(t, o.kind, true) && ClosingPrice(o.kind, t) == Quote(t, o.kind, false)
  {
  }

  /** While the closing price is strictly between its limits, an order stays open. */
  lemma BetweenTheLimits(o: Order, t: Tick, price: real)
    requires Quote(t, o.kind, false) == At(price)
    requires o.stop_loss.At? ==> if Buys(o.kind) then o.stop_loss.value < price else price < o.stop_loss.value
    requires o.take_profit.At? ==> if Buys(o.kind) then price < o.take_profit.value else o.take_profit.value < price
    ensures !o.CheckClose(t)
  {
  }

  // Each guarded definition below has its own number.
  const SHARED: nat := 1
  const DISTINCT: nat := 2

  // ---------------------------------------------------------------- lists of orders

  ghost predicate Distinct(s: seq<Order>) {
    forall k :: Unfold(k) && k == DISTINCT ==> forall i, j :: 0 <= i < j < |s| ==> s[i] != s[j]
  }

  /** The two parts std::stable_partition makes of a list: the orders in x, and the others. */
  function Take(s: seq<Order>, x: set<Order>): (r: seq<Order>)
    ensures forall o <- r :: o in s && o in x
    ensures forall o <- s :: o in x ==> o in r
  {
    if s == [] then [] else (if s[0] in x then [s[0]] else []) + Take(s[1..], x)
  }

  function Drop(s: seq<Order>, x: set<Order>): (r: seq<Order>)
    ensures forall o <- r :: o in s && o !in x
    ensures forall o <- s :: o !in x ==> o in r
  {
    if s == [] then [] else (if s[0] in x then [] else [s[0]]) + Drop(s[1..], x)
  }

  function ReadyToOpen(s: seq<Order>, t: Tick): (x: set<Order>)
    reads s
  {
    set o | o in s && o.CheckOpen(t)
  }

  function ReadyToClose(s: seq<Order>, t: Tick): (x: set<Order>)
    reads s
  {
    set o | o in s && o.CheckClose(t)
  }

  /** The orders whose closing price has reached a limit. */
  function Hitting(s: seq<Order>, t: Tick): (x: set<Order>)
    reads s`stop_loss, s`take_profit
  {
    set o | o in s && o.Hits(t)
  }

  lemma {:induction false} Parts(s: seq<Order>, x: set<Order>)
    ensures Shared(Drop(s, x), Take(s, x), s)
  {
    assert Unfold(SHARED);
    if s != [] {
      Parts(s[1..], x);
      assert s == [s[0]] + s[1..];
    }
  }

  /** The orders that enter the opened list when `s` is opened one by one at a tick: an order whose
      opening price is undefined enters every time it comes up, any other one the first time. */
  function Entering(s: seq<Order>, t: Tick): (r: seq<Order>)
    ensures forall o <- r :: o in s
    ensures forall o <- s :: o in r
  {
    if s == [] then [] else
      var n := |s| - 1;
      Entering(s[..n], t) + if OpeningPrice(s[n].kind, t).At? && s[n] in s[..n] then [] else [s[n]]
  }

  /** An order enters once at most exactly when no order with an undefined opening price comes twice. */
  lemma {:induction false} EnterOnce(s: seq<Order>, t: Tick)
    ensures Distinct(Entering(s, t)) <==>
            forall i, j :: 0 <= i < j < |s| && s[i] == s[j] ==> OpeningPrice(s[i].kind, t).At?
  {
    assert Unfold(DISTINCT);
    if s != [] {
      var n := |s| - 1;
      EnterOnce(s[..n], t);
      var r := Entering(s[..n], t);
      if Distinct(Entering(s, t)) {
        assert forall i :: 0 <= i < |r| ==> r[i] == Entering(s, t)[i];
        forall i, j | 0 <= i < j < |s| && s[i] == s[j] ensures OpeningPrice(s[i].kind, t).At? {
          if j == n && !OpeningPrice(s[n].kind, t).At? {
            Twice(r, s[n]);
          } else if j < n {
            assert s[..n][i] == s[..n][j];
          }
        }
      } else {
        assert !Distinct(r) || s[n] in r;
        if !Distinct(r) {
          var i, j :| 0 <= i < j < n && s[..n][i] == s[..n][j] && !OpeningPrice(s[..n][i].kind, t).At?;
          assert s[i] == s[j];
        } else {
          var i :| 0 <= i < n && s[i] == s[n];
        }
      }
    }
  }

  /** An infinite ask lets one buy order through as often as it is pending. */
  lemma InfiniteAskEntersTwice(o: Order, t: Tick)
    requires Buys(o.kind) && t.ask == Undefined
    ensures Entering([o, o], t) == [o, o]
  {
    assert [o, o][..1] == [o] && [o][..0] == [];
    assert Entering([o], t) == [o];
  }

  lemma Twice(r: seq<Order>, o: Order)
    requires o in r
    ensures !Distinct(r + [o])
  {
    assert Unfold(DISTINCT);
    var k :| 0 <= k < |r| && r[k] == o;
    assert (r + [o])[k] == (r + [o])[|r|];
  }

  lemma AppendOne(a: seq<Order>, b: seq<Order>, o: Order)
    ensures a + (b + [o]) == a + b + [o]
  {
  }

  lemma EnteringStep(s: seq<Order>, i: nat, t: Tick)
    requires i < |s|
    ensures Entering(s[..i + 1], t) == Entering(s[..i], t) +
            if OpeningPrice(s[i].kind, t).At? && s[i] in s[..i] then [] else [s[i]]
  {
    assert s[..i + 1][..i] == s[..i];
  }

  lemma JoinDistinct(a: seq<Order>, b: seq<Order>)
    requires Distinct(a) && Distinct(b) && forall o <- b :: o !in a
    ensures Distinct(a + b)
  {
    assert Unfold(DISTINCT);
    var s := a + b;
    forall i, j | 0 <= i < j < |s| ensures s[i] != s[j] {
      if i < |a| <= j {
        assert b[j - |a|] !in a;
      }
    }
  }

  lemma {:induction false} OnceInTwo(a: seq<Order>, b: seq<Order>, c: seq<Order>)
    requires Distinct(c) && Shared(a, b, c)
    ensures Distinct(a) && Distinct(b) && forall o <- a :: o !in b
    ensures forall o :: o in c <==> o in a || o in b
  {
    assert Unfold(SHARED);
    forall o: Order ensures multiset(a)[o] + multiset(b)[o] <= 1 {
      DistinctOnce(c, o);
      assert (multiset(a) + multiset(b))[o] == multiset(c)[o];
    }
    DistinctCounts(a);
    DistinctCounts(b);
    forall o: Order ensures o in c <==> o in a || o in b {
      assert o in c <==> o in multiset(c);
      assert o in a <==> o in multiset(a);
      assert o in b <==> o in multiset(b);
    }
    forall o <- a ensures o !in b {
      assert multiset(a)[o] >= 1;
      assert o in b ==> multiset(b)[o] >= 1;
    }
  }

  lemma {:induction false} DistinctOnce(s: seq<Order>, o: Order)
    requires Distinct(s)
    ensures multiset(s)[o] <= 1
  {
    assert Unfold(DISTINCT);
    if s != [] {
      DistinctOnce(s[1..], o);
      assert s == [s[0]] + s[1..];
      assert s[0] !in s[1..];
    }
  }

  lemma {:induction false} DistinctCounts(s: seq<Order>)
    ensures Distinct(s) <==> forall o :: multiset(s)[o] <= 1
  {
    assert Unfold(DISTINCT);
    if Distinct(s) {
      forall o: Order ensures multiset(s)[o] <= 1 {
        DistinctOnce(s, o);
      }
    } else {
      var i, j :| 0 <= i < j < |s| && s[i] == s[j];
      assert s == s[..j] + s[j..];
      assert s[i] in multiset(s[..j]) && s[i] in multiset(s[j..]) by {
        assert s[..j][i] == s[i] && s[j..][0] == s[i];
      }
      assert multiset(s)[s[i]] >= 2;
    }
  }

  /** The entered orders are shared out between the opened and the closed ones. */
  ghost predicate Shared(open: seq<Order>, shut: seq<Order>, entered: seq<Order>) {
    forall k :: Unfold(k) && k == SHARED ==> multiset(open) + multiset(shut) == multiset(entered)
  }

  lemma SharedMore(open: seq<Order>, shut: seq<Order>, entered: seq<Order>, added: seq<Order>)
    requires Shared(open, shut, entered)
    ensures Shared(open + added, shut, entered + added)
  {
    assert Unfold(SHARED);
  }

  /** Orders that had not entered before enter once each. */
  lemma EnterShared(open: seq<Order>, shut: seq<Order>, entered: seq<Order>, s: seq<Order>, t: Tick)
    requires Distinct(entered) && Shared(open, shut, entered)
    requires forall o <- s :: o !in entered && OpeningPrice(o.kind, t).At?
    ensures Distinct(entered + Entering(s, t)) && Shared(open + Entering(s, t), shut, entered + Entering(s, t))
  {
    EnterOnce(s, t);
    JoinDistinct(entered, Entering(s, t));
    SharedMore(open, shut, entered, Entering(s, t));
  }

  lemma SharedMoved(open: seq<Order>, shut: seq<Order>, entered: seq<Order>, stay: seq<Order>, move: seq<Order>)
    requires Shared(open, shut, entered) && Shared(stay, move, open)
    ensures Shared(stay, shut + move, entered)
  {
    assert Unfold(SHARED);
  }

  function Without(s: seq<Order>, k: nat): seq<Order>
    requires k < |s|
  {
    s[..k] + s[k + 1..]
  }

  lemma SharedOne(s: seq<Order>, k: nat)
    requires k < |s|
    ensures Shared(Without(s, k), [s[k]], s)
  {
    assert Unfold(SHARED);
    assert s == s[..k] + [s[k]] + s[k + 1..];
  }

  lemma SharedAll(s: seq<Order>)
    ensures Shared([], s, s)
  {
    assert Unfold(SHARED);
  }

  lemma SharedSizes(open: seq<Order>, shut: seq<Order>, entered: seq<Order>)
    requires Shared(open, shut, entered)
    ensures |open| + |shut| == |entered|
  {
    assert Unfold(SHARED);
    assert |multiset(open)| + |multiset(shut)| == |multiset(entered)|;
  }

  /** How many orders are in neither list after `move` was taken out of the opened one. */
  lemma SizesLeft(open: seq<Order>, shut: seq<Order>, entered: seq<Order>, stay: seq<Order>, move: seq<Order>)
    requires Shared(open, shut, entered) && Shared(stay, move, open)
    ensures |entered| - |stay| - |shut| == |move|
  {
    SharedSizes(open, shut, entered);
    SharedSizes(stay, move, open);
  }

  function FirstOf(s: seq<Order>): seq<Order> {
    if s == [] then [] else [s[0]]
  }

  ghost predicate Apart(a: seq<Order>, b: seq<Order>) {
    Distinct(b) && forall o <- a :: o !in b
  }

  ghost predicate Within(s: seq<Order>, orders: set<Order>) {
    forall o <- s :: o in orders
  }

  /** Every order that is ready to open at a tick has a price to open at. */
  predicate AllDefined(s: seq<Order>, t: Tick)
    reads s
  {
    forall o <- ReadyToOpen(s, t) :: OpeningPrice(o.kind, t).At?
  }

  /** The orders that enter from a pending list. */
  ghost function Entrants(s: seq<Order>, t: Tick): seq<Order>
    reads s
  {
    Entering(Take(s, ReadyToOpen(s, t)), t)
  }

  ghost function HittingOf(s: seq<Order>, t: Tick): seq<Order>
    reads s`stop_loss, s`take_profit
  {
    Take(s, Hitting(s, t))
  }

  /** What happens to the orders of `move` when they leave the opened list, and the closed one gets the first. */
  lemma FirstOnly(open: seq<Order>, shut: seq<Order>, entered: seq<Order>, stay: seq<Order>, move: seq<Order>)
    requires Distinct(entered) && Shared(open, shut, entered) && Shared(stay, move, open)
    ensures Shared(stay, shut + FirstOf(move), entered) <==> |move| <= 1
    ensures |entered| - |stay| - |shut + FirstOf(move)| == |move| - |FirstOf(move)|
    ensures forall k :: 1 <= k < |move| ==> move[k] in entered && move[k] !in stay && move[k] !in shut + FirstOf(move)
  {
    SizesLeft(open, shut, entered, stay, move);
    OnceInTwo(open, shut, entered);
    OnceInTwo(stay, move, open);
    if |move| <= 1 {
      assert FirstOf(move) == move;
      SharedMoved(open, shut, entered, stay, move);
    } else if Shared(stay, shut + FirstOf(move), entered) {
      SharedSizes(stay, shut + FirstOf(move), entered);
    }
    assert Unfold(DISTINCT);
  }

  /** Which orders of a list the limits close. */
  lemma ClosedAtLimit(open: seq<Order>, shut: seq<Order>, now: seq<Order>, t: Tick)
    requires now == shut + HittingOf(open, t) && forall o <- open :: o !in shut
    ensures forall o <- open :: o in now <==> AtLimit(o, t)
  {
    forall o <- open ensures o in now <==> AtLimit(o, t) {
      InNumbers(o, t);
    }
  }

  lemma LeftOpen(open: seq<Order>, t: Tick)
    ensures forall o <- open :: o !in Drop(open, Hitting(open, t)) <==> AtLimit(o, t)
  {
    forall o <- open ensures o !in Drop(open, Hitting(open, t)) <==> AtLimit(o, t) {
      InNumbers(o, t);
    }
  }

  lemma OpenedAtPrice(pending: seq<Order>, t: Tick)
    ensures forall o <- pending :: o in Entrants(pending, t) <==> !o.IsOpened() && AtPrice(o, t)
  {
    forall o <- pending ensures o in Entrants(pending, t) <==> !o.IsOpened() && AtPrice(o, t) {
      InNumbers(o, t);
    }
  }

  // ---------------------------------------------------------------- the engine

  class Engine {
    /** Submitted orders; every tick appends them to the pending orders again. */
    var new_orders: seq<Order>
    var pending_orders: seq<Order>
    var opened_orders: seq<Order>
    var closed_orders: seq<Order>
    /** The orders that entered the opened list, in the order they did. */
    ghost var entered: seq<Order>
    /** The orders that were ever put into the pending list. */
    ghost var queued: set<Order>
    ghost var orders: set<Order>

    /** Every listed order is one of the engine's. */
    ghost predicate Known()
      reads this, orders
    {
      && Within(new_orders, orders) && Within(pending_orders, orders) && Within(opened_orders, orders) && Within(closed_orders, orders)
      && Within(entered, orders)
      && (forall o <- orders :: o.IsClosed() ==> o.IsOpened())
    }

    /** No order entered twice; those that entered are opened or closed, each in one place; none that was
        ever pending is lost. */
    ghost predicate Valid()
      reads this, orders
    {
      && Known()
      && Distinct(entered)
      && Shared(opened_orders, closed_orders, entered)
      && (forall o <- entered :: o.IsOpened())
      && (forall o <- opened_orders :: !o.IsClosed())
      && (forall o <- queued :: o in pending_orders || o in entered)
    }

    constructor ()
      ensures Valid() && queued == {} && entered == [] && new_orders == [] && pending_orders == [] && opened_orders == [] && closed_orders == [] && orders == {}
    {
      new_orders, pending_orders, opened_orders, closed_orders, entered, queued, orders := [], [], [], [], [], {}, {};
    }

    /** submit_order: a copy of the order, or a refusal when there is none. */
    method SubmitOrder(optr: Order?) returns (ok: bool)
      requires Valid() && (optr != null ==> optr.IsClosed() ==> optr.IsOpened())
      modifies this`new_orders, this`orders
      ensures Valid() && ok == (optr != null)
      ensures if ok then |new_orders| == |old(new_orders)| + 1 && fresh(new_orders[|new_orders| - 1])
                         && new_orders[..|new_orders| - 1] == old(new_orders)
              else new_orders == old(new_orders)
      ensures ok ==> new_orders[|new_orders| - 1].SameAs(optr)
      ensures orders == old(orders) + if ok then {new_orders[|new_orders| - 1]} else {}
    {
      if optr == null {
        return false;
      }
      var clone := new Order.Clone(optr);
      new_orders := new_orders + [clone];
      orders := orders + {clone};
      return true;
    }

    method AddNewOrders()
      requires Valid()
      modifies this`pending_orders, this`queued
      ensures Valid() && pending_orders == old(pending_orders) + new_orders
      ensures queued == old(queued) + set o | o in new_orders
    {
      pending_orders := pending_orders + new_orders;
      queued := queued + set o | o in new_orders;
    }

    /** One round of that loop: order i, whose price condition holds, opens and enters unless it is open already. */
    method OpenNext(optr: Order, tick: Tick, ghost opening_orders: seq<Order>, ghost i: nat, ghost before: seq<Order>, ghost added: seq<Order>)
      returns (ghost added': seq<Order>)
      requires i < |opening_orders| && opening_orders[i] == optr && optr.Triggered(tick)
      requires added == Entering(opening_orders[..i], tick) && opened_orders == before + added
      requires optr.IsOpened() <==> optr in added && OpeningPrice(optr.kind, tick).At?
      requires optr in added ==> optr.open_price == OpeningPrice(optr.kind, tick)
      modifies this`opened_orders, optr`open_price, optr`open_time
      ensures added' == Entering(opening_orders[..i + 1], tick) && opened_orders == before + added'
      ensures forall o :: o in added' <==> o in added || o == optr
      ensures optr.open_price == OpeningPrice(optr.kind, tick)
    {
      EnteringStep(opening_orders, i, tick);
      added' := added;
      var ok := optr.Open(tick);
      if ok {
        AppendOne(before, added, optr);
        opened_orders := opened_orders + [optr];
        added' := added + [optr];
      }
    }

    /** The loop over the orders that are ready to open. */
    method OpenAll(opening_orders: seq<Order>, tick: Tick)
      requires Within(opening_orders, orders) && forall o <- opening_orders :: !o.IsOpened() && o.Triggered(tick)
      modifies this`opened_orders, this`entered, orders`open_price, orders`open_time
      ensures opened_orders == old(opened_orders) + Entering(opening_orders, tick)
      ensures entered == old(entered) + Entering(opening_orders, tick)
      ensures forall o <- orders ::
                o.open_price == if o in opening_orders then OpeningPrice(o.kind, tick) else old(o.open_price)
    {
      ghost var added, before := [], opened_orders;
      for i := 0 to |opening_orders|
        invariant added == Entering(opening_orders[..i], tick)
        invariant opened_orders == before + added && entered == old(entered)
        invariant forall o <- orders :: o.open_price == if o in added then OpeningPrice(o.kind, tick) else old(o.open_price)
      {
        assert old(!opening_orders[i].IsOpened());
        added := OpenNext(opening_orders[i], tick, opening_orders, i, before, added);
      }
      assert opening_orders[..|opening_orders|] == opening_orders;
      entered := entered + added;
    }

    /** The loop over the orders that are ready to close. */
    method CloseAll(closing_orders: seq<Order>, tick: Tick)
      requires Within(closing_orders, orders) && Within(closed_orders, orders)
      modifies this`closed_orders, orders`close_price, orders`close_time
      ensures Within(closed_orders, orders) && old(closed_orders) <= closed_orders
      ensures old(Distinct(closing_orders) && forall o <- closing_orders :: o.IsOpened() && !o.IsClosed()) ==>
                closed_orders == old(closed_orders) + closing_orders &&
                forall o <- closing_orders :: o.close_price == ClosingPrice(o.kind, tick)
      ensures forall o <- orders :: o !in closing_orders ==> o.close_price == old(o.close_price)
      ensures forall o <- orders :: o.IsClosed() ==> old(o.IsClosed()) || o.IsOpened()
    {
      assert Unfold(DISTINCT);
      ghost var good := Distinct(closing_orders) && forall o <- closing_orders :: o.IsOpened() && !o.IsClosed();
      for i := 0 to |closing_orders|
        invariant Within(closed_orders, orders) && old(closed_orders) <= closed_orders
        invariant good ==> closed_orders == old(closed_orders) + closing_orders[..i]
        invariant good ==> forall j :: 0 <= j < i ==> closing_orders[j].close_price == ClosingPrice(closing_orders[j].kind, tick)
        invariant good ==> forall j :: i <= j < |closing_orders| ==> closing_orders[j].close_price == old(closing_orders[j].close_price)
        invariant forall o <- orders :: o !in closing_orders ==> o.close_price == old(o.close_price)
        invariant forall o <- orders :: o.IsClosed() ==> old(o.IsClosed()) || o.IsOpened()
      {
        var optr := closing_orders[i];
        assert good ==> old(optr.IsOpened() && !optr.IsClosed());
        var ok := optr.Close(tick);
        assert closing_orders[..i + 1] == closing_orders[..i] + [optr];
        if ok {
          closed_orders := closed_orders + [optr];
        }
      }
      assert closing_orders[..|closing_orders|] == closing_orders;
    }

    /** The first half of default_strategy::on_tick: ready orders move from pending to opened. */
    method OpenReady(tick: Tick)
      requires Valid()
      modifies this`pending_orders, this`opened_orders, this`entered, orders`open_price, orders`open_time
      ensures Known()
      ensures pending_orders == old(Drop(pending_orders, ReadyToOpen(pending_orders, tick)))
      ensures opened_orders == old(opened_orders) + old(Entrants(pending_orders, tick))
      ensures entered == old(entered) + old(Entrants(pending_orders, tick))
      ensures old(AllDefined(pending_orders, tick)) ==> Valid()
      ensures forall o <- old(ReadyToOpen(pending_orders, tick)) :: o.open_price == OpeningPrice(o.kind, tick)
    {
      ghost var good := AllDefined(pending_orders, tick);
      var ready := ReadyToOpen(pending_orders, tick);
      var opening_orders := Take(pending_orders, ready);
      pending_orders := Drop(pending_orders, ready);
      OpenAll(opening_orders, tick);
      if good {
        EnterShared(old(opened_orders), closed_orders, old(entered), opening_orders, tick);
      }
    }

    /** Takes the orders that reach a limit out of the opened list. */
    method TakeReady(tick: Tick) returns (closing_orders: seq<Order>)
      requires Known()
      modifies this`opened_orders
      ensures Known() && Within(closing_orders, orders)
      ensures closing_orders == old(Take(opened_orders, ReadyToClose(opened_orders, tick)))
      ensures opened_orders == old(Drop(opened_orders, ReadyToClose(opened_orders, tick)))
      ensures Shared(opened_orders, closing_orders, old(opened_orders))
      ensures forall o <- closing_orders :: o.IsOpened() && !o.IsClosed()
      ensures old(Valid()) ==> Apart(opened_orders, closing_orders)
      ensures old(Valid()) ==> forall o <- opened_orders :: !o.IsClosed()
      ensures old(Valid()) ==> closing_orders == old(HittingOf(opened_orders, tick))
      ensures old(Valid()) ==> opened_orders == old(Drop(opened_orders, Hitting(opened_orders, tick)))
    {
      var ready := ReadyToClose(opened_orders, tick);
      closing_orders := Take(opened_orders, ready);
      Parts(opened_orders, ready);
      if Valid() {
        ListsOfOrders(this);
        assert ready == Hitting(opened_orders, tick);
        OnceInTwo(Drop(opened_orders, ready), closing_orders, opened_orders);
      }
      opened_orders := Drop(opened_orders, ready);
    }

    /** The same from a valid state. */
    method TakeHitting(tick: Tick) returns (closing_orders: seq<Order>)
      requires Valid()
      modifies this`opened_orders
      ensures Within(opened_orders, orders) && Within(closing_orders, orders)
      ensures closing_orders == old(HittingOf(opened_orders, tick))
      ensures opened_orders == old(Drop(opened_orders, Hitting(opened_orders, tick)))
      ensures Shared(opened_orders, closing_orders, old(opened_orders)) && Apart(opened_orders, closing_orders)
      ensures forall o <- closing_orders :: o.IsOpened() && !o.IsClosed()
      ensures forall o <- opened_orders :: !o.IsClosed()
      ensures forall o <- old(opened_orders) :: o !in opened_orders <==> AtLimit(o, tick)
    {
      LeftOpen(opened_orders, tick);
      closing_orders := TakeReady(tick);
    }

    /** The second half: opened orders that reach a limit are closed and move to the closed list. */
    method CloseReady(tick: Tick)
      requires Known()
      modifies this`opened_orders, this`closed_orders, orders`close_price, orders`close_time
      ensures Known() && old(closed_orders) <= closed_orders
      ensures old(Valid()) ==> Valid()
      ensures old(Valid()) ==> closed_orders == old(closed_orders) + old(HittingOf(opened_orders, tick))
      ensures old(Valid()) ==> forall o <- old(HittingOf(opened_orders, tick)) :: o.close_price == ClosingPrice(o.kind, tick)
    {
      ghost var good, was, shut, hitting := Valid(), opened_orders, closed_orders, HittingOf(opened_orders, tick);
      var closing_orders := TakeReady(tick);
      assert good ==> closing_orders == hitting;
      CloseAll(closing_orders, tick);
      if good {
        SharedMoved(was, shut, entered, opened_orders, closing_orders);
      }
    }

    /** default_strategy::on_tick. */
    method OnTick(tick: Tick)
      requires Valid()
      modifies this`pending_orders, this`opened_orders, this`closed_orders, this`entered
      modifies orders`open_price, orders`open_time, orders`close_price, orders`close_time
      ensures pending_orders == old(Drop(pending_orders, ReadyToOpen(pending_orders, tick)))
      ensures entered == old(entered) + old(Entrants(pending_orders, tick))
      ensures forall o <- old(pending_orders) :: o in pending_orders || o in entered
      ensures old(entered) <= entered && old(closed_orders) <= closed_orders
      ensures old(AllDefined(pending_orders, tick)) ==> Valid()
      ensures old(!AllDefined(pending_orders, tick)) ==> exists o <- entered :: !o.IsOpened()
      ensures old(AllDefined(pending_orders, tick)) ==>
                closed_orders == old(closed_orders) + HittingOf(old(opened_orders) + old(Entrants(pending_orders, tick)), tick)
      ensures forall o <- old(pending_orders) :: o in old(Entrants(pending_orders, tick)) <==> old(!o.IsOpened()) && AtPrice(o, tick)
      ensures forall o <- old(Entrants(pending_orders, tick)) :: o.open_price == Quote(tick, o.kind, true)
      ensures old(AllDefined(pending_orders, tick)) ==>
                forall o <- old(opened_orders) + old(Entrants(pending_orders, tick)) ::
                  && (o in closed_orders <==> AtLimit(o, tick))
                  && (AtLimit(o, tick) ==> o.close_price == Quote(tick, o.kind, false))
    {
      ghost var ready := ReadyToOpen(pending_orders, tick);
      ghost var added := Entrants(pending_orders, tick);
      ghost var good := AllDefined(pending_orders, tick);
      OpenedAtPrice(pending_orders, tick);
      OpenReady(tick);
      ghost var open, shut := opened_orders, closed_orders;
      if good { ListsOfOrders(this); }
      if !good {
        ghost var o :| o in ready && !OpeningPrice(o.kind, tick).At?;
        assert o in added && o in entered && o.open_price == Undefined;
      }
      CloseReady(tick);
      if good {
        ClosedAtLimit(open, shut, closed_orders, tick);
      }
    }

    /** data_event_callback::on_tick with the default strategy. */
    method EngineTick(tick: Tick)
      requires Valid()
      modifies this`pending_orders, this`opened_orders, this`closed_orders, this`entered, this`queued
      modifies orders`open_price, orders`open_time, orders`close_price, orders`close_time
      ensures old(AllDefined(pending_orders + new_orders, tick)) ==> Valid()
      ensures old(!AllDefined(pending_orders + new_orders, tick)) ==> exists o <- entered :: !o.IsOpened()
      ensures queued == old(queued) + set o | o in new_orders
      ensures old(entered) <= entered && old(closed_orders) <= closed_orders
      ensures entered == old(entered) + old(Entrants(pending_orders + new_orders, tick))
    {
      AddNewOrders();
      OnTick(tick);
    }

    /** strategy::close_trade. */
    method CloseTrade(tick: Tick, close_optr: Order) returns (ok: bool)
      requires Valid()
      modifies this`opened_orders, this`closed_orders, orders`close_price, orders`close_time
      ensures Valid() && ok == (close_optr in old(opened_orders))
      ensures !ok ==> opened_orders == old(opened_orders) && closed_orders == old(closed_orders)
      ensures ok ==> closed_orders == old(closed_orders) + [close_optr] && close_optr !in opened_orders
      ensures ok ==> close_optr.close_price == Quote(tick, close_optr.kind, false)
      ensures ok ==> exists k :: 0 <= k < |old(opened_orders)| && opened_orders == Without(old(opened_orders), k)
    {
      var i := 0;
      while i < |opened_orders| && opened_orders[i] != close_optr
        invariant i <= |opened_orders| && close_optr !in opened_orders[..i]
      {
        assert opened_orders[..i + 1] == opened_orders[..i] + [opened_orders[i]];
        i := i + 1;
      }
      assert opened_orders[..|opened_orders|] == opened_orders;
      if i == |opened_orders| {
        return false;
      }
      ok := CloseAt(tick, i);
    }

    method CloseAt(tick: Tick, i: nat) returns (ok: bool)
      requires Valid() && i < |opened_orders|
      modifies this`opened_orders, this`closed_orders, orders`close_price, orders`close_time
      ensures Valid() && ok && opened_orders == Without(old(opened_orders), i)
      ensures closed_orders == old(closed_orders) + [old(opened_orders[i])] && old(opened_orders[i]) !in opened_orders
      ensures old(opened_orders[i]).close_price == ClosingPrice(old(opened_orders[i]).kind, tick)
    {
      ListsOfOrders(this);
      assert Unfold(DISTINCT);
      ghost var before := opened_orders;
      var optr := opened_orders[i];
      SharedOne(opened_orders, i);
      ok := optr.Close(tick);
      if ok {
        closed_orders := closed_orders + [optr];
        opened_orders := Without(opened_orders, i);
        SharedMoved(before, old(closed_orders), entered, opened_orders, [optr]);
        assert forall o <- opened_orders :: o in before;
      }
    }

    /** strategy::close_all_trades. */
    method CloseAllTrades(tick: Tick)
      requires Valid()
      modifies this`opened_orders, this`closed_orders, orders`close_price, orders`close_time
      ensures Valid() && opened_orders == [] && closed_orders == old(closed_orders) + old(opened_orders)
      ensures forall o <- old(opened_orders) :: o.close_price == Quote(tick, o.kind, false)
    {
      ListsOfOrders(this);
      CloseAll(opened_orders, tick);
      opened_orders := [];
      SharedAll(old(opened_orders));
      SharedMoved(old(opened_orders), old(closed_orders), entered, [], old(opened_orders));
    }

    /** first_strategy::check_orders_closing: every ready order leaves the opened list, but the loop
        returns after the first one that closes, and the others are in no list any more. */
    method CheckOrdersClosing(tick: Tick) returns (ok: bool)
      requires Valid()
      modifies this`opened_orders, this`closed_orders, orders`close_price, orders`close_time
      ensures ok == (old(HittingOf(opened_orders, tick)) != [])
      ensures opened_orders == old(Drop(opened_orders, Hitting(opened_orders, tick)))
      ensures closed_orders == old(closed_orders) + FirstOf(old(HittingOf(opened_orders, tick)))
      ensures Valid() <==> |old(HittingOf(opened_orders, tick))| <= 1
      ensures forall o <- old(opened_orders) :: o !in opened_orders <==> AtLimit(o, tick)
      ensures forall o <- closed_orders :: o in old(closed_orders) || o.close_price == Quote(tick, o.kind, false)
      ensures var ready := old(HittingOf(opened_orders, tick));
              forall k :: 1 <= k < |ready| ==> ready[k] in entered && ready[k] !in opened_orders && ready[k] !in closed_orders
      ensures old(closed_orders) <= closed_orders
      ensures var ready := old(HittingOf(opened_orders, tick));
              |entered| - |opened_orders| - |closed_orders| == |ready| - |FirstOf(ready)|
    {
      ghost var was, shut := opened_orders, closed_orders;
      var closing_orders := TakeHitting(tick);
      ok := CloseOne(closing_orders, tick);
      assert Known() && forall o <- opened_orders :: !o.IsClosed();
      FirstOnly(was, shut, entered, opened_orders, closing_orders);
    }

    /** Its loop: returns from the first order that closes. */
    method CloseOne(closing_orders: seq<Order>, tick: Tick) returns (ok: bool)
      requires Within(closing_orders, orders) && Within(closed_orders, orders)
      requires forall o <- closing_orders :: o.IsOpened() && !o.IsClosed()
      modifies this`closed_orders, orders`close_price, orders`close_time
      ensures Within(closed_orders, orders) && ok == (closing_orders != [])
      ensures closed_orders == old(closed_orders) + FirstOf(closing_orders)
      ensures forall o <- FirstOf(closing_orders) :: o.close_price == ClosingPrice(o.kind, tick)
      ensures forall o <- orders :: o !in closing_orders ==> o.close_price == old(o.close_price)
      ensures forall o <- orders :: o.IsClosed() ==> old(o.IsClosed()) || o.IsOpened()
    {
      for i := 0 to |closing_orders|
        invariant i == 0 && closed_orders == old(closed_orders)
        invariant forall o <- orders :: o.close_price == old(o.close_price)
      {
        var optr := closing_orders[i];
        ok := optr.Close(tick);
        if ok {
          closed_orders := closed_orders + [optr];
          return true;
        }
      }
      return false;
    }
  }

  /** What the invariant means for the two lists. */
  lemma ListsOfOrders(e: Engine)
    requires e.Valid()
    ensures Distinct(e.opened_orders) && Distinct(e.closed_orders)
    ensures forall o <- e.opened_orders :: o !in e.closed_orders && o in e.entered
    ensures forall o <- e.closed_orders :: o in e.entered
    ensures forall o <- e.entered :: o in e.opened_orders || o in e.closed_orders
  {
    OnceInTwo(e.opened_orders, e.closed_orders, e.entered);
  }

  lemma {:induction false} TakeAllOrNone(s: seq<Order>, x: set<Order>)
    ensures (forall o <- s :: o in x) ==> Take(s, x) == s
    ensures (forall o <- s :: o !in x) ==> Take(s, x) == []
  {
    if s != [] { TakeAllOrNone(s[1..], x); }
  }

  /** Two buy orders with a take profit of 2 open at 1; when the bid is 3 one is closed, the other lost. */
  method SecondIsStranded() returns (e: Engine, ghost lost: Order)
    ensures lost in e.entered && lost !in e.opened_orders && lost !in e.closed_orders
  {
    e := new Engine();
    var o := new Order(Buy, Undefined, Undefined, At(2.0));
    var _ := e.SubmitOrder(o);
    var _ := e.SubmitOrder(o);
    TwoOpen(e, Tick(At(1.0), At(1.0), 0));
    ListsOfOrders(e);
    var high := Tick(At(3.0), At(3.0), 1);
    ghost var ready := e.opened_orders;
    AllHit(ready, high);
    var _ := e.CheckOrdersClosing(high);
    lost := ready[1];
  }

  lemma AllHit(s: seq<Order>, t: Tick)
    requires forall o <- s :: o.Hits(t)
    ensures HittingOf(s, t) == s
  {
    TakeAllOrNone(s, Hitting(s, t));
  }

  method TwoOpen(e: Engine, t: Tick)
    requires e.Valid() && e.entered == [] && e.opened_orders == [] && e.closed_orders == [] && e.pending_orders == []
    requires Fresh(e.new_orders, t)
    modifies e`pending_orders, e`opened_orders, e`closed_orders, e`entered, e`queued
    modifies e.orders`open_price, e.orders`open_time, e.orders`close_price, e.orders`close_time
    ensures e.Valid() && e.entered == old(e.new_orders) && e.closed_orders == [] && |e.opened_orders| == 2
  {
    ghost var two := e.new_orders;
    e.AddNewOrders();
    assert [] + two == two;
    FreshEnter(two, t);
    e.OnTick(t);
    NoneHits(two, t);
    assert e.closed_orders == [] + [];
    SharedSizes(e.opened_orders, e.closed_orders, e.entered);
  }

  /** Two buy orders that a tick opens, without one of them reaching a limit. */
  predicate Fresh(two: seq<Order>, t: Tick)
    reads two
  {
    |two| == 2 && two[0] != two[1] && Quoted(t) && forall o <- two :: o.kind == Buy && !o.IsOpened() && !o.Hits(t)
  }

  lemma FreshEnter(two: seq<Order>, t: Tick)
    requires Fresh(two, t)
    ensures AllDefined(two, t) && Entrants(two, t) == two
  {
    TakeAllOrNone(two, ReadyToOpen(two, t));
    var a, b := two[0], two[1];
    assert two[..1] == [a] && [a][..0] == [] && two == [a] + [b];
    assert Entering([a], t) == [a];
  }

  lemma NoneHits(two: seq<Order>, t: Tick)
    requires forall o <- two :: !o.Hits(t)
    ensures HittingOf(two, t) == []
  {
    TakeAllOrNone(two, Hitting(two, t));
  }
}
