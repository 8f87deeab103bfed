// data_feeder and the candle factories it drives.
module DataFeeder {
  import opened Guard
  import opened Candles

  const NO_BAR := Bar(0.0, 0.0, 0.0, 0.0, 0)

  /** The bar is the one of the current run; before the first positive bucket it means nothing. */
  ghost predicate BarFits(s: seq<Stamped>, bar: Bar) {
    && (s == [] ==> bar == NO_BAR)
    && (s != [] ==> bar.t == Last(s).bucket)
    && (s != [] && bar.t > 0 ==> bar == BarOf(Run(s), bar.t))
  }

  /** What the next price does to the bar, and which bar it ends. */
  lemma NextBar(s: seq<Stamped>, x: Stamped, bar: Bar)
    requires BarFits(s, bar)
    ensures x.bucket != bar.t ==> BarFits(s + [x], Bar(x.bid, x.bid, x.bid, x.bid, x.bucket))
    ensures x.bucket == bar.t ==> BarFits(s + [x], Extend(bar, x.bid))
    ensures Ends(Run(s), x) == if x.bucket != bar.t && bar.t > 0 then [bar] else []
  {
    StreamStep(s, x);
    BarSingle(x, x.bucket);
    if s != [] { BarMore(Run(s), x, x.bucket); }
  }

  class CandleFactory {
    const divider: nat
    var bar: Bar
    ghost var ticks: seq<Tick>

    ghost function Stream(): seq<Stamped>
      requires divider > 0
      reads this`ticks
    {
      Stamp(ticks, divider)
    }

    /** The bar under way belongs to the current run; before the first positive bucket it means nothing. */
    ghost predicate Valid()
      reads this
    {
      divider > 0 && BarFits(Stream(), bar)
    }

    constructor (divider: nat)
      requires divider > 0
      ensures Valid() && this.divider == divider && ticks == []
    {
      this.divider, bar, ticks := divider, NO_BAR, [];
    }

    /** put_tick; the result lists the bars the callback was called with. */
    method PutTick(tick: Tick) returns (fired: seq<Bar>)
      requires Valid()
      modifies this
      ensures Valid() && ticks == old(ticks) + [tick]
      ensures fired == Ends(Run(old(Stream())), Stamped(Bucket(tick.time, divider), tick.bid))
      ensures Closed(Stream()) == Closed(old(Stream())) + fired
    {
      ghost var s, x := Stream(), Stamped(Bucket(tick.time, divider), tick.bid);
      StampMore(ticks, tick, divider);
      StreamStep(s, x);
      NextBar(s, x, bar);
      fired := [];
      var tick_time, bid := Bucket(tick.time, divider), tick.bid;
      if tick_time != bar.t {
        if bar.t > 0 {
          fired := [bar];
        }
        bar := Bar(bid, bid, bid, bid, tick_time);
      } else {
        bar := bar.(c := bid);
        if bid > bar.h {
          bar := bar.(h := bid);
        } else if bid < bar.l {
          bar := bar.(l := bid);
        }
      }
      ticks := ticks + [tick];
    }
  }

  // ---------------------------------------------------------------- the feeder

  /** One call of data_feeder::on_bar. */
  datatype Event = Event(tf: nat, bar: Bar)

  /** The timeframes in seconds, in the order in which the map of factories is walked: 1, 5, 15 and 30
      minutes, 1, 4, 168 and 720 hours. */
  const TIMEFRAMES: seq<nat> := [60, 300, 900, 1800, 3600, 14400, 604800, 2592000]

  function BarsOf(events: seq<Event>, tf: nat): seq<Bar> {
    if events == [] then [] else
      var n := |events| - 1;
      BarsOf(events[..n], tf) + if events[n].tf == tf then [events[n].bar] else []
  }

  function Tagged(tf: nat, bars: seq<Bar>): (r: seq<Event>)
    requires |bars| <= 1
    ensures |r| == |bars|
  {
    if bars == [] then [] else [Event(tf, bars[0])]
  }

  lemma BarsOfMore(events: seq<Event>, tf: nat, bars: seq<Bar>, other: nat)
    requires |bars| <= 1
    ensures BarsOf(events + Tagged(tf, bars), tf) == BarsOf(events, tf) + bars
    ensures other != tf ==> BarsOf(events + Tagged(tf, bars), other) == BarsOf(events, other)
  {
    if bars == [] {
      assert events + Tagged(tf, bars) == events && BarsOf(events, tf) + bars == BarsOf(events, tf);
    } else {
      assert (events + Tagged(tf, bars))[..|events|] == events;
      assert bars == [bars[0]];
      assert BarsOf(events, other) + [] == BarsOf(events, other);
    }
  }

  const AGREES: nat := 1

  /** An event's bar is made up, for every shorter timeframe that divides its own, by that timeframe's
      bars in its interval, all of which come earlier. */
  ghost predicate Agrees(earlier: seq<Event>, ev: Event) {
    forall k :: Unfold(k) && k == AGREES ==>
      forall a <- TIMEFRAMES, hi :: a < ev.tf && Divides(a, ev.tf) && hi == ev.bar.t + ev.tf ==>
        AgreesWith(earlier, ev, a, hi)
  }

  ghost predicate AgreesWith(earlier: seq<Event>, ev: Event, a: nat, hi: int) {
    MakeUp(BarsOf(earlier, a), ev.bar, ev.bar.t, hi)
  }

  ghost predicate AllAgree(events: seq<Event>) {
    forall e :: 0 <= e < |events| ==> Agrees(events[..e], events[e])
  }

  lemma AllAgreeMore(events: seq<Event>, tf: nat, fired: seq<Bar>)
    requires AllAgree(events) && |fired| <= 1
    requires fired != [] ==> Agrees(events, Event(tf, fired[0]))
    ensures AllAgree(events + Tagged(tf, fired))
  {
    var more := events + Tagged(tf, fired);
    forall e | 0 <= e < |more| ensures Agrees(more[..e], more[e]) {
      assert more[..e] == if e < |events| then events[..e] else events;
    }
  }

  /** The bar a tick ends agrees with the shorter timeframes, which have seen the tick already. */
  lemma NewAgrees(events: seq<Event>, tf: nat, ticks: seq<Tick>, x: Tick, fired: seq<Bar>)
    requires tf > 0 && Ordered(ticks + [x]) && |fired| == 1
    requires fired == Ends(Run(Stamp(ticks, tf)), Stamped(Bucket(x.time, tf), x.bid))
    requires forall a <- TIMEFRAMES :: 0 < a < tf ==> BarsOf(events, a) == Closed(Stamp(ticks + [x], a))
    ensures Agrees(events, Event(tf, fired[0]))
  {
    var ev := Event(tf, fired[0]);
    forall a <- TIMEFRAMES, hi | a < tf && Divides(a, tf) && hi == ev.bar.t + tf ensures AgreesWith(events, ev, a, hi) {
      EndedAgrees(events, ticks, x, a, fired, ev, hi);
    }
  }

  lemma EndedAgrees(events: seq<Event>, ticks: seq<Tick>, x: Tick, a: nat, fired: seq<Bar>, ev: Event, hi: int)
    requires Divides(a, ev.tf) && Ordered(ticks + [x]) && fired == [ev.bar] && hi == ev.bar.t + ev.tf
    requires fired == Ends(Run(Stamp(ticks, ev.tf)), Stamped(Bucket(x.time, ev.tf), x.bid))
    requires BarsOf(events, a) == Closed(Stamp(ticks + [x], a))
    ensures AgreesWith(events, ev, a, hi)
  {
    var b := ev.tf;
    StreamStep(Stamp(ticks, b), Stamped(Bucket(x.time, b), x.bid));
    EmittedIsMerge(ticks, x, a, b, ev.bar.t, hi);
  }

  /** What factory i has seen when the first n have seen the later ticks. */
  function Seen(i: nat, n: nat, before: seq<Tick>, after: seq<Tick>): seq<Tick> {
    if i < n then after else before
  }

  class DataFeeder {
    const factories: seq<CandleFactory>
    var events: seq<Event>
    ghost var ticks: seq<Tick>

    ghost predicate Wired()
    {
      && |factories| == |TIMEFRAMES|
      && (forall i :: 0 <= i < |factories| ==> factories[i].divider == TIMEFRAMES[i])
      && (forall i, j :: 0 <= i < j < |factories| ==> factories[i] != factories[j])
    }

    /** The first n factories have seen one tick more than the others. */
    ghost predicate Fed(n: nat, before: seq<Tick>, after: seq<Tick>)
      requires Wired()
      reads this`events, factories
    {
      forall i :: 0 <= i < |factories| ==> FedAt(i, n, before, after)
    }

    ghost predicate FedAt(i: nat, n: nat, before: seq<Tick>, after: seq<Tick>)
      requires Wired() && i < |factories|
      reads this`events, factories
    {
      var f := factories[i];
      && f.Valid() && f.ticks == Seen(i, n, before, after)
      && BarsOf(events, TIMEFRAMES[i]) == Closed(f.Stream())
    }

    ghost predicate Valid()
      reads this, factories
    {
      Wired() && Fed(0, ticks, ticks) && (Ordered(ticks) ==> AllAgree(events))
    }

    constructor ()
      ensures Valid() && events == [] && ticks == []
    {
      var fs: seq<CandleFactory> := [];
      for i := 0 to |TIMEFRAMES|
        invariant |fs| == i
        invariant forall j :: 0 <= j < i ==> fs[j].Valid() && fs[j].divider == TIMEFRAMES[j] && fs[j].ticks == []
        invariant forall j, k :: 0 <= j < k < i ==> fs[j] != fs[k]
      {
        TimeframesRise();
        assert TIMEFRAMES[i] > 0;
        var f := new CandleFactory(TIMEFRAMES[i]);
        fs := fs + [f];
      }
      factories, events, ticks := fs, [], [];
    }

    method OnTick(tick: Tick)
      requires Valid()
      modifies this`events, this`ticks, factories
      ensures Valid() && ticks == old(ticks) + [tick]
    {
      ghost var after := ticks + [tick];
      if Ordered(after) {
        OrderedPrefix(ticks, tick);
      }
      Relabel(0, ticks, ticks, 0, ticks, after);
      for i := 0 to |factories|
        invariant ticks == old(ticks) && Fed(i, ticks, after)
        invariant Ordered(after) ==> AllAgree(events)
      {
        Feed(i, tick, i + 1);
      }
      Relabel(|factories|, ticks, after, 0, after, after);
      ticks := after;
    }

    /** Two descriptions of the same state of all factories. */
    lemma Relabel(n: nat, before: seq<Tick>, after: seq<Tick>, m: nat, before': seq<Tick>, after': seq<Tick>)
      requires Wired() && Fed(n, before, after)
      requires forall i :: 0 <= i < |factories| ==> Seen(i, n, before, after) == Seen(i, m, before', after')
      ensures Fed(m, before', after')
    {
      forall i | 0 <= i < |factories| ensures FedAt(i, m, before', after') {
        assert FedAt(i, n, before, after);
      }
    }

    /** What the shorter timeframes have emitted when factory i is fed. */
    lemma ShorterAreFed(i: nat, after: seq<Tick>)
      requires Wired() && i < |factories| && Fed(i, ticks, after)
      ensures forall a <- TIMEFRAMES :: 0 < a < TIMEFRAMES[i] ==> BarsOf(events, a) == Closed(Stamp(after, a))
    {
      forall a <- TIMEFRAMES | 0 < a < TIMEFRAMES[i] ensures BarsOf(events, a) == Closed(Stamp(after, a)) {
        var j :| 0 <= j < |TIMEFRAMES| && TIMEFRAMES[j] == a;
        TimeframesRise();
        assert FedAt(j, i, ticks, after);
      }
    }

    /** The bar that feeding factory i is going to log agrees with those logged before. */
    lemma WillAgree(i: nat, tick: Tick, after: seq<Tick>, fired: seq<Bar>)
      requires Wired() && i < |factories| && after == ticks + [tick] && Fed(i, ticks, after)
      requires Ordered(after) && AllAgree(events)
      requires fired == Ends(Run(Stamp(ticks, TIMEFRAMES[i])), Stamped(Bucket(tick.time, TIMEFRAMES[i]), tick.bid))
      ensures AllAgree(events + Tagged(TIMEFRAMES[i], fired))
    {
      if fired != [] {
        ShorterAreFed(i, after);
        NewAgrees(events, TIMEFRAMES[i], ticks, tick, fired);
      }
      AllAgreeMore(events, TIMEFRAMES[i], fired);
    }

    /** One round of the loop. */
    method Feed(i: nat, tick: Tick, ghost next: nat)
      requires Wired() && i < |factories| && next == i + 1 && Fed(i, ticks, ticks + [tick])
      requires Ordered(ticks + [tick]) ==> AllAgree(events)
      modifies this`events, factories[i]
      ensures Fed(next, ticks, ticks + [tick])
      ensures Ordered(ticks + [tick]) ==> AllAgree(events)
    {
      ghost var after := ticks + [tick];
      ghost var ends := Ends(Run(factories[i].Stream()), Stamped(Bucket(tick.time, TIMEFRAMES[i]), tick.bid));
      assert FedAt(i, i, ticks, after);
      if Ordered(after) {
        WillAgree(i, tick, after, ends);
      }
      var fired := PutAndLog(i, tick, next, after);
      assert fired == ends;
    }

    /** The callback of factory i logs what it is called with. */
    method PutAndLog(i: nat, tick: Tick, ghost next: nat, ghost after: seq<Tick>) returns (fired: seq<Bar>)
      requires Wired() && i < |factories| && next == i + 1 && after == ticks + [tick] && Fed(i, ticks, after)
      modifies this`events, factories[i]
      ensures |fired| <= 1 && events == old(events) + Tagged(TIMEFRAMES[i], fired)
      ensures fired == Ends(Run(old(Stamp(ticks, TIMEFRAMES[i]))), Stamped(Bucket(tick.time, TIMEFRAMES[i]), tick.bid))
      ensures Fed(next, ticks, after)
    {
      assert FedAt(i, i, ticks, after);
      fired := factories[i].PutTick(tick);
      ghost var was, tf := events, TIMEFRAMES[i];
      events := events + Tagged(TIMEFRAMES[i], fired);
      TimeframesRise();
      BarsOfMore(was, tf, fired, tf);
      forall j | 0 <= j < |factories| ensures FedAt(j, next, ticks, after) {
        if j != i {
          assert old(FedAt(j, i, ticks, after));
          BarsOfMore(was, tf, fired, TIMEFRAMES[j]);
        }
      }
    }
  }

  /** For ticks in the order of time, every timeframe has emitted exactly its closed buckets. */
  lemma FeederBars(f: DataFeeder, i: nat)
    requires f.Valid() && i < |f.factories| && f.ticks != [] && Ordered(f.ticks)
    ensures BarsOfBuckets(BarsOf(f.events, TIMEFRAMES[i]), Stamp(f.ticks, TIMEFRAMES[i]))
  {
    assert f.FedAt(i, 0, f.ticks, f.ticks);
    OrderedRises(f.ticks, TIMEFRAMES[i]);
    EmittedBars(Stamp(f.ticks, TIMEFRAMES[i]));
  }

  /** Of all timeframes, only the weeks do not make up the months: 168 hours do not divide 720. */
  lemma WeeksDoNotMakeMonths(i: nat, j: nat)
    requires i < j < |TIMEFRAMES|
    ensures Composes(TIMEFRAMES[i], TIMEFRAMES[j]) <==> !(TIMEFRAMES[i] == 604800 && TIMEFRAMES[j] == 2592000)
  {
    TimeframesRise();
    WhichDivide(TIMEFRAMES[i], TIMEFRAMES[j]);
    ComposesIffDivides(TIMEFRAMES[i], TIMEFRAMES[j]);
  }

  lemma WhichDivide(a: nat, b: nat)
    requires a in TIMEFRAMES && b in TIMEFRAMES && a < b
    ensures Divides(a, b) <==> !(a == 604800 && b == 2592000)
  {
    if a == 60 {
    } else if a == 300 {
    } else if a == 900 {
    } else if a == 1800 {
    } else if a == 3600 {
    } else if a == 14400 {
    } else {
      assert a == 604800 && b == 2592000;
    }
  }

  /** A feeder that has seen a tick at the start of a month and one at the start of the next has
      emitted the bar of the month, and no bar of a week that starts in it. */
  lemma MonthWithoutWeeks(f: DataFeeder)
    requires f.Valid() && f.ticks == [FirstTick(2592000), NextTick(2592000)]
    ensures BarsOf(f.events, 2592000) == [Bar(1.0, 1.0, 1.0, 1.0, 2592000)]
    ensures InSpan(BarsOf(f.events, 604800), 2592000, 5184000) == []
  {
    assert f.FedAt(6, 0, f.ticks, f.ticks) && f.FedAt(7, 0, f.ticks, f.ticks);
    NothingInSpan(604800, 2592000, 5184000);
    var s := Stamp(f.ticks, 2592000);
    StreamStep([], s[0]);
    StreamStep([s[0]], s[1]);
    assert [] + [s[0]] == [s[0]] && [s[0]] + [s[1]] == s;
    BarSingle(s[0], 2592000);
  }

  lemma TimeframesRise()
    ensures forall i :: 0 <= i < |TIMEFRAMES| ==> TIMEFRAMES[i] > 0
    ensures forall i, j :: 0 <= i < j < |TIMEFRAMES| ==> TIMEFRAMES[i] < TIMEFRAMES[j]
  {
  }
}
