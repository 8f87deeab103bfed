// Candles: candle_factory builds the bars of one timeframe, data_feeder runs the factories of all
// timeframes over every tick, the shortest first.
module Candles {
  datatype Tick = Tick(time: int, bid: real)

  datatype Bar = Bar(o: real, h: real, l: real, c: real, t: int)

  // ---------------------------------------------------------------- buckets

  /** The start of the bucket of a time, with the division of C++, which rounds towards zero. */
  function Bucket(time: int, divider: nat): int
    requires divider > 0
  {
    if time >= 0 then time / divider * divider else -((-time) / divider * divider)
  }

  lemma FloorAtLeast(t: nat, d: nat, m: nat)
    requires d > 0
    ensures t / d >= m <==> t >= m * d
  {
    var q, r := t / d, t % d;
    assert t == q * d + r;
    if q >= m {
      assert q * d >= m * d;
    } else {
      assert (q + 1) * d <= m * d;
      assert q * d + d == (q + 1) * d;
    }
  }

  lemma Multiples(q: int, m: int, d: nat)
    ensures q >= m ==> q * d >= m * d
    ensures q > m ==> q * d >= m * d + d
    ensures (m + 1) * d == m * d + d
  {
    if q >= m {
      assert (q - m) * d >= 0 && q * d == m * d + (q - m) * d;
    }
    if q > m {
      assert (q - m - 1) * d >= 0 && q * d == m * d + d + (q - m - 1) * d;
    }
  }

  /** A positive bucket holds the times from its start to its end. */
  lemma BucketSpan(t: int, d: nat, m: nat)
    requires d > 0 && m > 0
    ensures Bucket(t, d) == m * d <==> m * d <= t < (m + 1) * d
    ensures Bucket(t, d) >= m * d <==> t >= m * d
  {
    Multiples(m, 1, d);
    Multiples(m, m, d);
    if t >= 0 {
      var q := t / d;
      FloorAtLeast(t, d, m);
      FloorAtLeast(t, d, m + 1);
      Multiples(q, m, d);
      Multiples(m, q, d);
    } else {
      Multiples((-t) / d, 0, d);
    }
  }

  lemma FloorMonotone(t: nat, u: nat, d: nat)
    requires d > 0 && t <= u
    ensures t / d * d <= u / d * d
  {
    var m, n := t / d, u / d;
    FloorAtLeast(t, d, m);
    FloorAtLeast(u, d, m);
    assert n >= m;
    assert (n - m) * d >= 0;
    assert n * d == m * d + (n - m) * d;
  }

  lemma BucketMonotone(t: int, u: int, d: nat)
    requires d > 0 && t <= u
    ensures Bucket(t, d) <= Bucket(u, d)
  {
    if t >= 0 {
      FloorMonotone(t, u, d);
    } else if u < 0 {
      FloorMonotone(-u, -t, d);
    } else {
      FloorMonotone(0, -t, d);
      FloorMonotone(0, u, d);
    }
  }

  /** When a divides b, the bucket of a time for b is decided by its bucket for a. */
  lemma BucketNested(t: int, a: nat, q: nat, m: nat)
    requires a > 0 && q > 0 && m > 0
    ensures q * a > 0
    ensures m * (q * a) <= Bucket(t, a) < (m + 1) * (q * a) <==> Bucket(t, q * a) == m * (q * a)
  {
    var b := q * a;
    assert m * b == (m * q) * a && (m + 1) * b == ((m + 1) * q) * a;
    assert m * q > 0 && (m + 1) * q > 0;
    BucketSpan(t, a, m * q);
    BucketSpan(t, a, (m + 1) * q);
    BucketSpan(t, b, m);
  }

  /** A price and the bucket of its time. */
  datatype Stamped = Stamped(bucket: int, bid: real)

  function Stamp(ticks: seq<Tick>, d: nat): (s: seq<Stamped>)
    requires d > 0
    ensures |s| == |ticks|
    ensures forall i :: 0 <= i < |s| ==> s[i].bucket == Bucket(ticks[i].time, d) && s[i].bid == ticks[i].bid
  {
    seq(|ticks|, i requires 0 <= i < |ticks| => Stamped(Bucket(ticks[i].time, d), ticks[i].bid))
  }

  lemma StampMore(ticks: seq<Tick>, x: Tick, d: nat)
    requires d > 0
    ensures Stamp(ticks + [x], d) == Stamp(ticks, d) + [Stamped(Bucket(x.time, d), x.bid)]
  {
  }

  predicate Ordered(ticks: seq<Tick>) {
    forall i, j :: 0 <= i < j < |ticks| ==> ticks[i].time <= ticks[j].time
  }

  /** Buckets that never go back. */
  predicate Rising(s: seq<Stamped>) {
    forall i, j :: 0 <= i < j < |s| ==> s[i].bucket <= s[j].bucket
  }

  lemma OrderedRises(ticks: seq<Tick>, d: nat)
    requires d > 0 && Ordered(ticks)
    ensures Rising(Stamp(ticks, d))
  {
    forall i, j | 0 <= i < j < |ticks| ensures Bucket(ticks[i].time, d) <= Bucket(ticks[j].time, d) {
      BucketMonotone(ticks[i].time, ticks[j].time, d);
    }
  }

  // ---------------------------------------------------------------- bars

  function Max(s: seq<real>): (m: real)
    requires s != []
    ensures m in s && forall x <- s :: x <= m
  {
    var n := |s| - 1;
    assert s == s[..n] + [s[n]];
    if n == 0 then s[0] else var m := Max(s[..n]); if s[n] > m then s[n] else m
  }

  function Min(s: seq<real>): (m: real)
    requires s != []
    ensures m in s && forall x <- s :: m <= x
  {
    var n := |s| - 1;
    assert s == s[..n] + [s[n]];
    if n == 0 then s[0] else var m := Min(s[..n]); if s[n] < m then s[n] else m
  }

  function Bids(run: seq<Stamped>): (r: seq<real>)
    ensures |r| == |run|
  {
    seq(|run|, i requires 0 <= i < |run| => run[i].bid)
  }

  /** The bar of some ticks: first, highest, lowest and last price. */
  function BarOf(run: seq<Stamped>, t: int): Bar
    requires run != []
  {
    Bar(run[0].bid, Max(Bids(run)), Min(Bids(run)), run[|run| - 1].bid, t)
  }

  /** The prices of a bar are prices of its ticks, and all others are between the lowest and the highest. */
  lemma BarIs(run: seq<Stamped>, t: int)
    requires run != []
    ensures var bar := BarOf(run, t);
            && bar.o == run[0].bid && bar.c == run[|run| - 1].bid && bar.t == t
            && (forall x <- run :: bar.l <= x.bid <= bar.h)
            && (exists x <- run :: x.bid == bar.l) && (exists x <- run :: x.bid == bar.h)
  {
    var bids := Bids(run);
    forall x <- run ensures x.bid in bids {
      var k :| 0 <= k < |run| && run[k] == x;
      assert bids[k] == x.bid;
    }
    var i :| 0 <= i < |bids| && bids[i] == Max(bids);
    var j :| 0 <= j < |bids| && bids[j] == Min(bids);
    assert run[i] in run && run[j] in run;
  }

  function Highs(bars: seq<Bar>): (r: seq<real>)
    ensures |r| == |bars|
  {
    seq(|bars|, i requires 0 <= i < |bars| => bars[i].h)
  }

  function Lows(bars: seq<Bar>): (r: seq<real>)
    ensures |r| == |bars|
  {
    seq(|bars|, i requires 0 <= i < |bars| => bars[i].l)
  }

  /** The bar that bars make together: first open, highest high, lowest low, last close. */
  function Merge(bars: seq<Bar>, t: int): Bar
    requires bars != []
  {
    Bar(bars[0].o, Max(Highs(bars)), Min(Lows(bars)), bars[|bars| - 1].c, t)
  }

  /** A bar after one more price, as put_tick updates it. */
  function Extend(bar: Bar, bid: real): Bar {
    Bar(bar.o, if bid > bar.h then bid else bar.h, if bid > bar.h then bar.l else if bid < bar.l then bid else bar.l,
        bid, bar.t)
  }

  lemma MaxMore(s: seq<real>, x: real)
    requires s != []
    ensures Max(s + [x]) == if x > Max(s) then x else Max(s)
    ensures Min(s + [x]) == if x < Min(s) then x else Min(s)
    ensures Min(s) <= Max(s)
  {
    assert (s + [x])[..|s|] == s;
    assert s[0] in s;
  }

  lemma BarMore(run: seq<Stamped>, x: Stamped, t: int)
    requires run != []
    ensures BarOf(run + [x], t) == Extend(BarOf(run, t), x.bid)
  {
    assert Bids(run + [x]) == Bids(run) + [x.bid];
    MaxMore(Bids(run), x.bid);
  }

  lemma BarSingle(x: Stamped, t: int)
    ensures BarOf([x], t) == Bar(x.bid, x.bid, x.bid, x.bid, t)
  {
  }

  lemma MergeOne(bar: Bar, t: int)
    ensures Merge([bar], t) == Bar(bar.o, bar.h, bar.l, bar.c, t)
  {
    assert Highs([bar]) == [bar.h] && Lows([bar]) == [bar.l];
  }

  lemma MergeStep(bars: seq<Bar>, bar: Bar, t: int)
    requires bars != []
    ensures var m := Merge(bars, t);
            Merge(bars + [bar], t) ==
            Bar(m.o, if bar.h > m.h then bar.h else m.h, if bar.l < m.l then bar.l else m.l, bar.c, t)
  {
    assert Highs(bars + [bar]) == Highs(bars) + [bar.h] && Lows(bars + [bar]) == Lows(bars) + [bar.l];
    MaxMore(Highs(bars), bar.h);
    MaxMore(Lows(bars), bar.l);
  }

  /** Extending the last of several bars extends their merge. */
  lemma MergeExtend(bars: seq<Bar>, last: Bar, x: real, t: int)
    requires last.l <= last.h && forall b <- bars :: b.l <= b.h
    ensures Merge(bars + [Extend(last, x)], t) == Extend(Merge(bars + [last], t), x)
  {
    if bars == [] {
      assert [] + [last] == [last] && [] + [Extend(last, x)] == [Extend(last, x)];
      MergeOne(last, t);
      MergeOne(Extend(last, x), t);
    } else {
      MergeStep(bars, last, t);
      MergeStep(bars, Extend(last, x), t);
      LowsBelowHighs(bars);
    }
  }

  /** So does a further bar of one price. */
  lemma MergeAppend(bars: seq<Bar>, x: real, t: int, u: int)
    requires bars != [] && forall b <- bars :: b.l <= b.h
    ensures Merge(bars + [Bar(x, x, x, x, u)], t) == Extend(Merge(bars, t), x)
  {
    MergeStep(bars, Bar(x, x, x, x, u), t);
    LowsBelowHighs(bars);
  }

  lemma LowsBelowHighs(bars: seq<Bar>)
    requires bars != []
    ensures (forall b <- bars :: b.l <= b.h) ==> Min(Lows(bars)) <= Max(Highs(bars))
  {
    assert Lows(bars)[0] == bars[0].l && Highs(bars)[0] == bars[0].h;
    assert Lows(bars)[0] in Lows(bars) && Highs(bars)[0] in Highs(bars);
  }

  // ---------------------------------------------------------------- the bars of a stream of prices

  function Last(s: seq<Stamped>): Stamped
    requires s != []
  {
    s[|s| - 1]
  }

  /** The prices since the bucket last changed. */
  function Run(s: seq<Stamped>): (r: seq<Stamped>)
    ensures s == [] <==> r == []
    ensures s != [] ==> forall x <- r :: x.bucket == Last(s).bucket
  {
    if s == [] then [] else
      var n := |s| - 1;
      var r := Run(s[..n]);
      if r != [] && r[0].bucket == s[n].bucket then r + [s[n]] else [s[n]]
  }

  /** The bar that a price ends: buckets that are not positive give none. */
  function Ends(run: seq<Stamped>, x: Stamped): seq<Bar> {
    if run != [] && 0 < run[0].bucket != x.bucket then [BarOf(run, run[0].bucket)] else []
  }

  /** The bars of the runs that have ended. */
  function Closed(s: seq<Stamped>): seq<Bar> {
    if s == [] then [] else
      var n := |s| - 1;
      Closed(s[..n]) + Ends(Run(s[..n]), s[n])
  }

  lemma StreamStep(s: seq<Stamped>, x: Stamped)
    ensures Closed(s + [x]) == Closed(s) + Ends(Run(s), x)
    ensures var r := Run(s); Run(s + [x]) == if r != [] && r[0].bucket == x.bucket then r + [x] else [x]
    ensures s != [] ==> Run(s)[0].bucket == Last(s).bucket
  {
    assert (s + [x])[..|s|] == s;
    assert s != [] ==> Run(s)[0] in Run(s);
  }

  // An independent account, for buckets that never go back.

  /** The prices of one bucket. */
  function InBucket(s: seq<Stamped>, bucket: int): (r: seq<Stamped>)
    ensures forall x <- r :: x in s && x.bucket == bucket
    ensures forall x <- s :: x.bucket == bucket ==> x in r
  {
    if s == [] then [] else
      var n := |s| - 1;
      assert s == s[..n] + [s[n]];
      InBucket(s[..n], bucket) + if s[n].bucket == bucket then [s[n]] else []
  }

  lemma InBucketStep(s: seq<Stamped>, x: Stamped, bucket: int)
    ensures x.bucket == bucket ==> InBucket(s + [x], bucket) == InBucket(s, bucket) + [x]
    ensures x.bucket != bucket ==> InBucket(s + [x], bucket) == InBucket(s, bucket)
    ensures (forall y <- s :: y.bucket != bucket) ==> InBucket(s, bucket) == []
  {
    assert (s + [x])[..|s|] == s;
    if InBucket(s, bucket) != [] {
      assert InBucket(s, bucket)[0] in s;
    }
  }

  /** The emitted bars are the closed buckets, each once and in the order of time, and each with the
      first, highest, lowest and last of all its prices. */
  ghost predicate BarsOfBuckets(bars: seq<Bar>, s: seq<Stamped>)
    requires s != []
  {
    && (forall i, j :: 0 <= i < j < |bars| ==> bars[i].t < bars[j].t)
    && (forall b <- bars :: Fits(b, s))
    && (forall x <- s :: 0 < x.bucket < Last(s).bucket ==> HasBar(bars, x.bucket))
  }

  ghost predicate Fits(b: Bar, s: seq<Stamped>)
    requires s != []
  {
    0 < b.t < Last(s).bucket && InBucket(s, b.t) != [] && b == BarOf(InBucket(s, b.t), b.t)
  }

  ghost predicate HasBar(bars: seq<Bar>, t: int) {
    exists b <- bars :: b.t == t
  }

  /** The current run is the bucket of the last price. */
  lemma {:induction false} RunIsBucket(s: seq<Stamped>)
    requires s != [] && Rising(s)
    ensures Run(s) == InBucket(s, Last(s).bucket)
  {
    var n := |s| - 1;
    var before, x := s[..n], s[n];
    assert s == before + [x];
    StreamStep(before, x);
    InBucketStep(before, x, x.bucket);
    assert Rising(before);
    if before != [] {
      RunIsBucket(before);
      if Last(before).bucket != x.bucket {
        NotYet(before, x);
      }
    }
  }

  lemma NotYet(before: seq<Stamped>, x: Stamped)
    requires before != [] && Rising(before + [x]) && Last(before).bucket != x.bucket
    ensures InBucket(before, x.bucket) == []
  {
    var s := before + [x];
    forall y <- before ensures y.bucket != x.bucket {
      var i :| 0 <= i < |before| && before[i] == y;
      assert s[i].bucket <= s[|before| - 1].bucket <= s[|before|].bucket;
    }
    InBucketStep(before, x, x.bucket);
  }

  lemma {:induction false} EmittedBars(s: seq<Stamped>)
    requires s != [] && Rising(s)
    ensures BarsOfBuckets(Closed(s), s)
  {
    var n := |s| - 1;
    var before, x := s[..n], s[n];
    assert s == before + [x];
    StreamStep(before, x);
    if before != [] {
      EmittedBars(before);
      EmittedStep(before, x);
    }
  }

  lemma FitsMore(b: Bar, before: seq<Stamped>, x: Stamped)
    requires before != [] && Fits(b, before) && Last(before).bucket <= x.bucket
    ensures Fits(b, before + [x])
  {
    InBucketStep(before, x, b.t);
  }

  lemma FitsNew(before: seq<Stamped>, x: Stamped)
    requires before != [] && Rising(before) && 0 < Last(before).bucket < x.bucket
    ensures Fits(BarOf(Run(before), Last(before).bucket), before + [x])
  {
    RunIsBucket(before);
    InBucketStep(before, x, Last(before).bucket);
  }

  lemma EmittedStep(before: seq<Stamped>, x: Stamped)
    requires before != [] && Rising(before + [x]) && BarsOfBuckets(Closed(before), before)
    ensures BarsOfBuckets(Closed(before + [x]), before + [x])
  {
    var s, n := before + [x], |before|;
    var was := Closed(before);
    assert forall i :: 0 <= i < n ==> before[i] == s[i];
    assert s[n] == x && s[n - 1] == Last(before);
    StreamStep(before, x);
    var more := Ends(Run(before), x);
    if more != [] {
      FitsNew(before, x);
    }
    forall b <- was ensures Fits(b, s) {
      FitsMore(b, before, x);
    }
    StillIncreasing(was, before, more);
    forall y <- s | 0 < y.bucket < x.bucket ensures HasBar(was + more, y.bucket) {
      KeepsBars(was, before, x, more, y);
    }
  }

  lemma StillIncreasing(was: seq<Bar>, before: seq<Stamped>, more: seq<Bar>)
    requires before != [] && BarsOfBuckets(was, before) && |more| <= 1
    requires more != [] ==> more[0].t == Last(before).bucket
    ensures forall i, j :: 0 <= i < j < |was + more| ==> (was + more)[i].t < (was + more)[j].t
  {
    forall i, j | 0 <= i < j < |was + more| ensures (was + more)[i].t < (was + more)[j].t {
      if j == |was| {
        assert was[i] in was && Fits(was[i], before);
      }
    }
  }

  lemma KeepsBars(was: seq<Bar>, before: seq<Stamped>, x: Stamped, more: seq<Bar>, y: Stamped)
    requires before != [] && BarsOfBuckets(was, before) && Rising(before)
    requires y in before + [x] && 0 < y.bucket < x.bucket
    requires 0 < Last(before).bucket < x.bucket ==> |more| == 1 && more[0].t == Last(before).bucket
    ensures HasBar(was + more, y.bucket)
  {
    assert y in before;
    AtMostLast(before, y);
    if y.bucket < Last(before).bucket {
      assert HasBar(was, y.bucket);
      var b :| b in was && b.t == y.bucket;
      assert b in was + more;
    } else {
      assert more[0] in was + more;
    }
  }

  lemma AtMostLast(s: seq<Stamped>, y: Stamped)
    requires Rising(s) && y in s
    ensures y.bucket <= Last(s).bucket
  {
    var i :| 0 <= i < |s| && s[i] == y;
    assert s[i].bucket <= s[|s| - 1].bucket;
  }

  // ---------------------------------------------------------------- bars of bars

  function InSpan(bars: seq<Bar>, lo: int, hi: int): (r: seq<Bar>)
    ensures forall b <- r :: b in bars && lo <= b.t < hi
  {
    if bars == [] then [] else
      var n := |bars| - 1;
      InSpan(bars[..n], lo, hi) + if lo <= bars[n].t < hi then [bars[n]] else []
  }

  lemma InSpanStep(bars: seq<Bar>, b: Bar, lo: int, hi: int)
    ensures InSpan(bars + [b], lo, hi) == if lo <= b.t < hi then InSpan(bars, lo, hi) + [b] else InSpan(bars, lo, hi)
  {
    assert (bars + [b])[..|bars|] == bars;
  }

  /** The bar under way, when it starts in a span. */
  function Under(s: seq<Stamped>, lo: int, hi: int): seq<Bar> {
    if s != [] && lo <= Last(s).bucket < hi then [BarOf(Run(s), Last(s).bucket)] else []
  }

  /** The bars of a span: those emitted, and the one under way. */
  function Part(s: seq<Stamped>, lo: int, hi: int): seq<Bar> {
    InSpan(Closed(s), lo, hi) + Under(s, lo, hi)
  }

  predicate Sane(bars: seq<Bar>) { forall b <- bars :: b.l <= b.h }

  function Single(x: Stamped): Bar { Bar(x.bid, x.bid, x.bid, x.bid, x.bucket) }

  predicate Same(s: seq<Stamped>, x: Stamped) { s != [] && Last(s).bucket == x.bucket }

  lemma UnderStep(s: seq<Stamped>, x: Stamped, lo: int, hi: int)
    ensures Same(s, x) && lo <= x.bucket < hi ==>
              |Under(s, lo, hi)| == 1 && Under(s + [x], lo, hi) == [Extend(Under(s, lo, hi)[0], x.bid)]
    ensures !Same(s, x) && lo <= x.bucket < hi ==> Under(s + [x], lo, hi) == [Single(x)]
    ensures !(lo <= x.bucket < hi) ==> Under(s + [x], lo, hi) == []
  {
    StreamStep(s, x);
    assert Last(s + [x]) == x;
    if Same(s, x) {
      BarMore(Run(s), x, x.bucket);
    } else {
      BarSingle(x, x.bucket);
    }
  }

  lemma ClosedStep(s: seq<Stamped>, x: Stamped, lo: int, hi: int)
    requires 0 < lo
    ensures Same(s, x) ==> InSpan(Closed(s + [x]), lo, hi) == InSpan(Closed(s), lo, hi)
    ensures !Same(s, x) ==> InSpan(Closed(s + [x]), lo, hi) == Part(s, lo, hi)
  {
    StreamStep(s, x);
    var ends := Ends(Run(s), x);
    if ends == [] {
      assert Closed(s) + ends == Closed(s);
      assert !Same(s, x) ==> Under(s, lo, hi) == [];
      assert InSpan(Closed(s), lo, hi) + [] == InSpan(Closed(s), lo, hi);
    } else {
      InSpanStep(Closed(s), ends[0], lo, hi);
      assert InSpan(Closed(s), lo, hi) + [] == InSpan(Closed(s), lo, hi);
    }
  }

  /** A price in the bucket under way changes the last bar; any other price comes with a bar of its own. */
  lemma PartStep(s: seq<Stamped>, x: Stamped, lo: int, hi: int)
    requires 0 < lo
    ensures !(lo <= x.bucket < hi) ==> Part(s + [x], lo, hi) == Part(s, lo, hi)
    ensures lo <= x.bucket < hi ==> Updated(Part(s, lo, hi), Part(s + [x], lo, hi), x)
  {
    ClosedStep(s, x, lo, hi);
    UnderStep(s, x, lo, hi);
    var c, u, v := InSpan(Closed(s), lo, hi), Under(s, lo, hi), Under(s + [x], lo, hi);
    if lo <= x.bucket < hi {
      if Same(s, x) {
        assert (c + u)[..|c|] == c && (c + u)[|c|] == u[0];
      }
    } else {
      assert Part(s, lo, hi) + [] == Part(s, lo, hi);
    }
  }

  /** The last bar takes in a price, or a bar of that price alone is added. */
  predicate Updated(p: seq<Bar>, q: seq<Bar>, x: Stamped) {
    || (p != [] && q == p[..|p| - 1] + [Extend(p[|p| - 1], x.bid)])
    || q == p + [Single(x)]
  }

  /** The same prices stamped for two timeframes, the shorter of which divides the other: the bars of
      the shorter one that start in a span are the bucket of the longer one. */
  ghost predicate Nested(sa: seq<Stamped>, sb: seq<Stamped>, lo: int, hi: int) {
    |sa| == |sb| && forall i :: 0 <= i < |sa| ==>
      sa[i].bid == sb[i].bid && (lo <= sa[i].bucket < hi <==> sb[i].bucket == lo)
  }

  lemma Split<T>(s: seq<T>)
    requires s != []
    ensures s == s[..|s| - 1] + [s[|s| - 1]]
  {
  }

  lemma {:induction false} MergeLaw(sa: seq<Stamped>, sb: seq<Stamped>, lo: int, hi: int)
    requires 0 < lo && Nested(sa, sb, lo, hi)
    ensures Sane(Part(sa, lo, hi)) && (Part(sa, lo, hi) == [] <==> InBucket(sb, lo) == [])
    ensures Part(sa, lo, hi) != [] ==> Merge(Part(sa, lo, hi), lo) == BarOf(InBucket(sb, lo), lo)
  {
    if sa != [] {
      var n := |sa| - 1;
      MergeLaw(sa[..n], sb[..n], lo, hi);
      PartStep(sa[..n], sa[n], lo, hi);
      InBucketStep(sb[..n], sb[n], lo);
      Split(sa);
      Split(sb);
      if sb[n].bucket == lo {
        MergeLawStep(Part(sa[..n], lo, hi), Part(sa, lo, hi), InBucket(sb[..n], lo), sa[n], sb[n], lo);
      }
    }
  }

  lemma MergeLawStep(p: seq<Bar>, q: seq<Bar>, run: seq<Stamped>, x: Stamped, y: Stamped, lo: int)
    requires Sane(p) && (p == [] <==> run == []) && (p != [] ==> Merge(p, lo) == BarOf(run, lo))
    requires Updated(p, q, x) && x.bid == y.bid
    ensures Sane(q) && q != [] && Merge(q, lo) == BarOf(run + [y], lo)
  {
    if p == [] {
      MergeOne(Single(x), lo);
      BarSingle(y, lo);
      assert run + [y] == [y] && q == [Single(x)];
    } else {
      BarMore(run, y, lo);
      var last := p[|p| - 1];
      assert p == p[..|p| - 1] + [last] && last in p;
      if q == p + [Single(x)] {
        MergeAppend(p, x.bid, lo, x.bucket);
      } else {
        MergeExtend(p[..|p| - 1], last, x.bid, lo);
      }
    }
  }

  lemma StampsNested(ticks: seq<Tick>, a: nat, q: nat, m: nat)
    requires a > 0 && q > 0 && m > 0
    ensures q * a > 0 && Nested(Stamp(ticks, a), Stamp(ticks, q * a), m * (q * a), (m + 1) * (q * a))
  {
    forall i | 0 <= i < |ticks|
      ensures q * a > 0
      ensures m * (q * a) <= Bucket(ticks[i].time, a) < (m + 1) * (q * a) <==>
              Bucket(ticks[i].time, q * a) == m * (q * a)
    {
      BucketNested(ticks[i].time, a, q, m);
    }
    BucketNested(0, a, q, m);
  }

  lemma BucketMultiple(t: int, d: nat) returns (m: nat)
    requires d > 0 && Bucket(t, d) > 0
    ensures m > 0 && Bucket(t, d) == m * d
  {
    m := if t >= 0 then t / d else 0;
    if t >= 0 {
      Multiples(0, m, d);
    } else {
      Multiples((-t) / d, 0, d);
    }
  }

  lemma PartEnds(s: seq<Stamped>, lo: int, hi: int)
    requires s != [] && !(lo <= Last(s).bucket < hi)
    ensures Part(s, lo, hi) == InSpan(Closed(s), lo, hi)
  {
    assert InSpan(Closed(s), lo, hi) + [] == InSpan(Closed(s), lo, hi);
  }

  /** Among some bars are those that start in an interval, and together they make up a bar. */
  predicate MakeUp(bars: seq<Bar>, bar: Bar, lo: int, hi: int) {
    InSpan(bars, lo, hi) != [] && Merge(InSpan(bars, lo, hi), lo) == bar
  }

  /** A price that leaves the bucket of the longer timeframe leaves the bars of the span complete. */
  lemma MergeAtEnd(sa: seq<Stamped>, sb: seq<Stamped>, x: Stamped, lo: int, hi: int)
    requires 0 < lo && Nested(sa, sb + [x], lo, hi)
    requires sb != [] && Rising(sb) && Last(sb).bucket == lo != x.bucket
    ensures MakeUpRun(Closed(sa), sb, lo, hi)
  {
    MergeLaw(sa, sb + [x], lo, hi);
    InBucketStep(sb, x, lo);
    RunIsBucket(sb);
    assert (sb + [x])[|sb|] == x;
    PartEnds(sa, lo, hi);
  }

  predicate Divides(a: nat, b: nat) { a > 0 && b > 0 && b % a == 0 }

  /** When a tick ends a bar of the longer timeframe, the bars of the shorter one in its interval have
      all been emitted, this tick's included, and they make it up. */
  lemma EmittedIsMerge(ticks: seq<Tick>, x: Tick, a: nat, b: nat, t: int, hi: int)
    requires Divides(a, b) && EndsBar(ticks, x, b, t) && hi == t + b
    ensures MakeUpRun(Emitted(ticks + [x], a), Stamp(ticks, b), t, hi)
  {
    var sa, sb, xb := Stamp(ticks + [x], a), Stamp(ticks, b), Stamped(Bucket(x.time, b), x.bid);
    NestedAt(ticks, x, a, b, t, hi);
    OrderedPrefix(ticks, x);
    OrderedRises(ticks, b);
    MergeAtEnd(sa, sb, xb, t, hi);
  }

  lemma NestedAt(ticks: seq<Tick>, x: Tick, a: nat, b: nat, t: int, hi: int)
    requires Divides(a, b) && ticks != [] && 0 < t == Bucket(ticks[|ticks| - 1].time, b) && hi == t + b
    ensures Nested(Stamp(ticks + [x], a), Stamp(ticks, b) + [Stamped(Bucket(x.time, b), x.bid)], t, hi)
  {
    var m := BucketMultiple(ticks[|ticks| - 1].time, b);
    Multiples(m, m, b);
    var q := b / a;
    assert b == q * a;
    StampsNested(ticks + [x], a, q, m);
    StampMore(ticks, x, b);
  }

  /** Tick x ends the bar of timeframe b that starts at t. */
  ghost predicate EndsBar(ticks: seq<Tick>, x: Tick, b: nat, t: int)
    requires b > 0
  {
    Ordered(ticks + [x]) && ticks != [] && 0 < t == Bucket(ticks[|ticks| - 1].time, b) != Bucket(x.time, b)
  }

  /** The bars of a timeframe that have ended. */
  function Emitted(ticks: seq<Tick>, d: nat): seq<Bar>
    requires d > 0
  {
    Closed(Stamp(ticks, d))
  }

  /** These bars make up the bar of the current run. */
  predicate MakeUpRun(bars: seq<Bar>, s: seq<Stamped>, lo: int, hi: int) {
    s != [] && MakeUp(bars, BarOf(Run(s), lo), lo, hi)
  }

  /** If x ends the bar of timeframe b from t up to hi, the bars of timeframe a make it up. */
  ghost predicate Composed(ticks: seq<Tick>, x: Tick, a: nat, b: nat, t: int, hi: int)
    requires a > 0 && b > 0
  {
    EndsBar(ticks, x, b, t) && hi == t + b ==> MakeUpRun(Emitted(ticks + [x], a), Stamp(ticks, b), t, hi)
  }

  /** On every stream, the bars of timeframe a make up those of timeframe b. */
  ghost predicate Composes(a: nat, b: nat)
    requires a > 0 && b > 0
  {
    forall ticks, x, t, hi :: Composed(ticks, x, a, b, t, hi)
  }

  /** One timeframe composes another exactly if it divides it. */
  lemma ComposesIffDivides(a: nat, b: nat)
    requires a > 0 && b > 0
    ensures Composes(a, b) <==> Divides(a, b)
  {
    if Divides(a, b) {
      forall ticks, x, t, hi ensures Composed(ticks, x, a, b, t, hi) {
        if EndsBar(ticks, x, b, t) && hi == t + b { EmittedIsMerge(ticks, x, a, b, t, hi); }
      }
    } else {
      NotComposed(a, b, 2 * b);
    }
  }

  /** A tick at the start of the first bar of a timeframe... */
  function FirstTick(b: nat): Tick { Tick(b, 1.0) }

  /** ... and one at the start of the next bar. */
  function NextTick(b: nat): Tick { Tick(2 * b, 1.0) }

  lemma NextTickEnds(b: nat)
    requires b > 0
    ensures EndsBar([FirstTick(b)], NextTick(b), b, b)
  {
    BucketSpan(b, b, 1);
    BucketSpan(2 * b, b, 2);
  }

  /** If a does not divide b, the bar of a that holds the first tick starts before that of b, and is the only one. */
  lemma NothingInSpan(a: nat, b: nat, hi: int)
    requires a > 0 && b > 0 && !Divides(a, b)
    ensures InSpan(Emitted([FirstTick(b), NextTick(b)], a), b, hi) == []
  {
    StartsEarlier(a, b);
    StartsBefore(Stamp([FirstTick(b), NextTick(b)], a), b, hi);
  }

  lemma NotComposed(a: nat, b: nat, hi: int)
    requires a > 0 && b > 0 && !Divides(a, b) && hi == 2 * b
    ensures !Composed([FirstTick(b)], NextTick(b), a, b, b, hi)
  {
    NextTickEnds(b);
    NothingInSpan(a, b, hi);
    assert [FirstTick(b)] + [NextTick(b)] == [FirstTick(b), NextTick(b)];
  }

  lemma StartsEarlier(a: nat, b: nat)
    requires a > 0 && b > 0 && !Divides(a, b)
    ensures Bucket(b, a) < b
  {
    FloorAtLeast(b, a, b / a);
  }

  /** Of two prices only the first has a bar. */
  lemma StartsBefore(s: seq<Stamped>, lo: int, hi: int)
    requires |s| == 2 && s[0].bucket < lo
    ensures InSpan(Closed(s), lo, hi) == []
  {
    StreamStep([], s[0]);
    StreamStep([s[0]], s[1]);
    assert [] + [s[0]] == [s[0]];
    assert [s[0]] + [s[1]] == s;
    var more := Ends([s[0]], s[1]);
    assert Closed(s) == more;
    if more != [] {
      InSpanStep([], more[0], lo, hi);
    }
  }

  lemma OrderedPrefix(ticks: seq<Tick>, x: Tick)
    requires Ordered(ticks + [x])
    ensures Ordered(ticks)
  {
    assert forall i :: 0 <= i < |ticks| ==> ticks[i] == (ticks + [x])[i];
  }
}
