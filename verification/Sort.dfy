/**
 The hand-written sort of the XPath engine, in place on an array: insertion sort for small
 chunks, median of three or nine, and a three-way partition that grows the range of equal
 elements in the middle.  A comparator need not be a strict order itself: it only has to agree with
 one wherever two different places of the array are compared.
 */
module Sort {

  /** The laws of a strict order that agrees with equality, at three elements. */
  ghost predicate Law<T(!new)>(less: (T, T) -> bool, x: T, y: T, z: T) {
    && !less(x, x)
    && (less(x, y) || less(y, x) || x == y)
    && (less(x, y) && less(y, z) ==> less(x, z))
  }

  ghost predicate StrictTotal<T(!new)>(less: (T, T) -> bool) {
    forall x, y, z :: Law(less, x, y, z)
  }

  lemma AtMost<T(!new)>(less: (T, T) -> bool, x: T, y: T, z: T)
    requires StrictTotal(less) && !less(y, x) && !less(z, y)
    ensures !less(z, x)
    ensures !less(x, z) ==> x == y == z
  {
    assert Law(less, x, z, x) && Law(less, z, y, x) && Law(less, x, z, y) && Law(less, z, x, y) && Law(less, y, x, z) && Law(less, y, z, x);
  }

  lemma Connected<T(!new)>(less: (T, T) -> bool, x: T, y: T)
    requires StrictTotal(less)
    ensures !less(x, x) && !(less(x, y) && less(y, x)) && (less(x, y) || less(y, x) || x == y)
  {
    assert Law(less, x, y, x);
  }

  /** The elements i and k of s, i before k, are in order. */
  predicate Ordered<T>(less: (T, T) -> bool, s: seq<T>, i: nat, k: nat)
    requires i < |s| && k < |s|
  {
    !less(s[k], s[i])
  }

  ghost predicate Sorted<T>(less: (T, T) -> bool, s: seq<T>, lo: nat, hi: nat)
    requires lo <= hi <= |s|
  {
    forall i, k :: lo <= i < k < hi ==> Ordered(less, s, i, k)
  }

  /** `now` is `was` with the elements from lo up to hi rearranged. */
  ghost predicate Rearranged<T>(was: seq<T>, now: seq<T>, lo: nat, hi: nat)
    requires lo <= hi <= |was|
  {
    && |now| == |was|
    && was[..lo] == now[..lo] && was[hi..] == now[hi..]
    && multiset(was[lo..hi]) == multiset(now[lo..hi])
  }

  lemma RearrangedTwice<T>(a: seq<T>, b: seq<T>, c: seq<T>, lo: nat, hi: nat)
    requires lo <= hi <= |a| && Rearranged(a, b, lo, hi) && Rearranged(b, c, lo, hi)
    ensures Rearranged(a, c, lo, hi)
  {
  }

  lemma RearrangedWithin<T>(was: seq<T>, now: seq<T>, lo: nat, i: nat, k: nat, hi: nat)
    requires lo <= i <= k <= hi <= |was| && Rearranged(was, now, i, k)
    ensures Rearranged(was, now, lo, hi)
  {
    assert was[..lo] == was[..i][..lo] && now[..lo] == now[..i][..lo];
    assert was[hi..] == was[k..][hi - k..] && now[hi..] == now[k..][hi - k..];
    assert was[lo..i] == was[..i][lo..] && now[lo..i] == now[..i][lo..];
    assert was[k..hi] == was[k..][..hi - k] && now[k..hi] == now[k..][..hi - k];
    assert was[lo..hi] == was[lo..i] + was[i..k] + was[k..hi];
    assert now[lo..hi] == now[lo..i] + now[i..k] + now[k..hi];
  }

  /** Every element of a rearranged range was in it before. */
  lemma Origin<T>(was: seq<T>, now: seq<T>, lo: nat, hi: nat, k: nat) returns (j: nat)
    requires lo <= k < hi <= |was| && Rearranged(was, now, lo, hi)
    ensures lo <= j < hi && was[j] == now[k]
  {
    assert now[lo..hi][k - lo] in multiset(now[lo..hi]);
    assert now[k] in was[lo..hi];
    var m :| 0 <= m < hi - lo && was[lo..hi][m] == now[k];
    j := lo + m;
  }

  lemma Unmoved<T>(was: seq<T>, now: seq<T>, lo: nat, hi: nat, k: nat)
    requires lo <= hi <= |was| && Rearranged(was, now, lo, hi) && k < |was| && !(lo <= k < hi)
    ensures now[k] == was[k]
  {
    if k < lo {
      assert was[..lo][k] == now[..lo][k];
    } else {
      assert was[hi..][k - hi] == now[hi..][k - hi];
    }
  }

  /** The comparator `cmp` agrees with `less`, except perhaps for an element and itself if there is only one of it. */
  ghost predicate Fits<T(!new)>(cmp: (T, T) -> bool, less: (T, T) -> bool, m: multiset<T>) {
    forall x, y :: Agree(cmp, less, m, x, y)
  }

  ghost predicate Agree<T>(cmp: (T, T) -> bool, less: (T, T) -> bool, m: multiset<T>, x: T, y: T) {
    x in m && y in m && (x != y || m[x] > 1) ==> cmp(x, y) == less(x, y)
  }

  lemma TwiceIn<T>(s: seq<T>, i: nat, k: nat)
    requires i < |s| && k < |s| && i != k && s[i] == s[k]
    ensures multiset(s)[s[i]] >= 2
  {
    var j, l := if i < k then i else k, if i < k then k else i;
    assert s == s[..l] + s[l..];
    assert s[j] in s[..l] && s[l] in s[l..];
    assert s[..l][j] in multiset(s[..l]) && s[l..][0] in multiset(s[l..]);
  }

  /** At two different places of the array the comparator can be trusted. */
  lemma FitsAt<T(!new)>(cmp: (T, T) -> bool, less: (T, T) -> bool, s: seq<T>, i: nat, k: nat)
    requires Fits(cmp, less, multiset(s)) && i < |s| && k < |s| && i != k
    ensures cmp(s[i], s[k]) == less(s[i], s[k])
  {
    assert s[i] in s && s[k] in s;
    if s[i] == s[k] { TwiceIn(s, i, k); }
    assert Agree(cmp, less, multiset(s), s[i], s[k]);
  }

  /** Rearranging a part rearranges the whole. */
  lemma SameMultiset<T>(was: seq<T>, now: seq<T>, lo: nat, hi: nat)
    requires lo <= hi <= |was| && Rearranged(was, now, lo, hi)
    ensures multiset(now) == multiset(was)
  {
    assert was == was[..lo] + was[lo..hi] + was[hi..];
    assert now == now[..lo] + now[lo..hi] + now[hi..];
  }

  method Swap<T>(a: array<T>, i: nat, j: nat, ghost lo: nat, ghost hi: nat)
    requires lo <= i < hi <= a.Length && lo <= j < hi
    modifies a
    ensures a[i] == old(a[j]) && a[j] == old(a[i])
    ensures forall k :: 0 <= k < a.Length && k != i && k != j ==> a[k] == old(a[k])
    ensures Rearranged(old(a[..]), a[..], lo, hi)
  {
    ghost var s := a[..];
    a[i], a[j] := a[j], a[i];
    assert a[..] == s[i := s[j]][j := s[i]];
    assert a[..][lo..hi] == s[lo..hi][i - lo := s[j]][j - lo := s[i]];
  }

  method CopyBackwards<T>(a: array<T>, begin: nat, end: nat, target: nat)
    requires begin <= end <= target <= a.Length
    modifies a
    ensures forall k :: 0 <= k < target - (end - begin) || target <= k < a.Length ==> a[k] == old(a[k])
    ensures forall k :: begin <= k < end ==> a[k + (target - end)] == old(a[k])
  {
    var e, t := end, target;
    while begin != e
      invariant begin <= e <= end && t - e == target - end
      invariant forall k :: 0 <= k < t || target <= k < a.Length ==> a[k] == old(a[k])
      invariant forall k :: e <= k < end ==> a[k + (target - end)] == old(a[k])
    {
      t, e := t - 1, e - 1;
      a[t] := a[e];
    }
  }

  /** Putting the element behind a range into the range rearranges it. */
  lemma Inserted<T>(was: seq<T>, now: seq<T>, lo: nat, hole: nat, it: nat)
    requires lo <= hole <= it < |was| == |now|
    requires forall k :: 0 <= k < hole || it < k < |was| ==> now[k] == was[k]
    requires now[hole] == was[it] && forall k :: hole <= k < it ==> now[k + 1] == was[k]
    ensures Rearranged(was, now, lo, it + 1)
  {
    assert was[lo..it + 1] == was[lo..hole] + was[hole..it] + [was[it]];
    assert now[lo..it + 1] == was[lo..hole] + [was[it]] + was[hole..it];
  }

  /** Inserting val at a place where everything before it is not larger and everything behind it is not smaller. */
  lemma InsertedSorted<T(!new)>(less: (T, T) -> bool, was: seq<T>, now: seq<T>, lo: nat, hole: nat, it: nat)
    requires StrictTotal(less) && lo <= hole <= it < |was| == |now| && Sorted(less, was, lo, it)
    requires forall k :: lo <= k < hole ==> now[k] == was[k]
    requires now[hole] == was[it] && forall k :: hole <= k < it ==> now[k + 1] == was[k]
    requires lo < hole ==> !less(was[it], was[hole - 1])
    requires hole < it ==> less(was[it], was[hole])
    ensures Sorted(less, now, lo, it + 1)
  {
    forall i, k | lo <= i < k < it + 1 ensures Ordered(less, now, i, k) {
      if k == hole {
        if i < hole - 1 {
          assert Ordered(less, was, i, hole - 1);
          AtMost(less, was[i], was[hole - 1], was[it]);
        }
      } else if i == hole {
        Connected(less, was[it], was[hole]);
        if hole < k - 1 {
          assert Ordered(less, was, hole, k - 1);
          AtMost(less, was[it], was[hole], was[k - 1]);
        }
        assert now[k - 1 + 1] == was[k - 1];
      } else {
        var i', k' := if i < hole then i else i - 1, if k < hole then k else k - 1;
        assert Ordered(less, was, i', k');
        assert now[i] == was[i'] && now[k] == was[k'] by {
          if hole < i { assert now[i - 1 + 1] == was[i - 1]; }
          if hole < k { assert now[k - 1 + 1] == was[k - 1]; }
        }
      }
    }
  }

  /** The elements from hole on have moved one place up, as far as place it. */
  ghost predicate Shifted<T>(was: seq<T>, now: seq<T>, hole: nat, it: nat) {
    && hole <= it < |was| == |now|
    && (forall k :: 0 <= k < hole || it < k < |was| ==> now[k] == was[k])
    && (forall k :: hole <= k < it ==> now[k + 1] == was[k])
  }

  /** Once the hole is filled the first part is sorted up to and including place it. */
  lemma HoleFilled<T(!new)>(less: (T, T) -> bool, was: seq<T>, now: seq<T>, lo: nat, hole: nat, it: nat)
    requires StrictTotal(less) && lo <= hole <= it < |was| == |now| && Sorted(less, was, lo, it)
    requires Shifted(was, now, hole, it) && now[hole] == was[it]
    requires lo < hole ==> !less(was[it], was[hole - 1])
    requires hole < it ==> less(was[it], was[hole])
    ensures Sorted(less, now, lo, it + 1) && Rearranged(was, now, lo, it + 1)
  {
    Inserted(was, now, lo, hole, it);
    InsertedSorted(less, was, now, lo, hole, it);
  }

  /** The unguarded inner loop: the first element, which is not larger, stops it. */
  method MoveHole<T(!new)>(a: array<T>, begin: nat, it: nat, val: T, cmp: (T, T) -> bool, ghost less: (T, T) -> bool, ghost was: seq<T>)
    returns (hole: nat)
    requires begin < it < a.Length && a[..] == was && val == was[it]
    requires Fits(cmp, less, multiset(was)) && !less(val, was[begin])
    modifies a
    ensures begin < hole <= it && Shifted(was, a[..], hole, it)
    ensures !less(val, was[hole - 1]) && (hole < it ==> less(val, was[hole]))
  {
    hole := it;
    FitsAt(cmp, less, was, it, hole - 1);
    while cmp(val, a[hole - 1])
      invariant begin < hole <= it && Shifted(was, a[..], hole, it)
      invariant cmp(val, was[hole - 1]) == less(val, was[hole - 1])
      invariant hole < it ==> less(val, was[hole])
      decreases hole
    {
      ShiftMore(was, a[..], hole, hole - 1, it);
      a[hole] := a[hole - 1];
      hole := hole - 1;
      FitsAt(cmp, less, was, it, hole - 1);
    }
  }

  lemma ShiftMore<T>(was: seq<T>, now: seq<T>, hole: nat, next: nat, it: nat)
    requires Shifted(was, now, hole, it) && hole == next + 1
    ensures now[next] == was[next] && Shifted(was, now[hole := now[next]], next, it)
  {
  }

  /** The body of insertion_sort. */
  method Insert<T(!new)>(a: array<T>, begin: nat, it: nat, cmp: (T, T) -> bool, ghost less: (T, T) -> bool)
    requires StrictTotal(less) && begin < it < a.Length && Sorted(less, a[..], begin, it)
    requires Fits(cmp, less, multiset(a[..]))
    modifies a
    ensures Sorted(less, a[..], begin, it + 1)
    ensures Rearranged(old(a[..]), a[..], begin, it + 1)
  {
    ghost var was := a[..];
    var val := a[it];
    var hole := begin;
    FitsAt(cmp, less, was, it, begin);
    if cmp(val, a[begin]) {
      CopyBackwards(a, begin, it, it + 1);
      assert forall k :: begin <= k < it ==> a[k + 1] == was[k];
    } else {
      hole := MoveHole(a, begin, it, val, cmp, less, was);
    }
    a[hole] := val;
    HoleFilled(less, was, a[..], begin, hole, it);
  }

  /** insertion_sort */
  method InsertionSort<T(!new)>(a: array<T>, begin: nat, end: nat, cmp: (T, T) -> bool, ghost less: (T, T) -> bool)
    requires StrictTotal(less) && begin < end <= a.Length && Fits(cmp, less, multiset(a[..]))
    modifies a
    ensures Sorted(less, a[..], begin, end)
    ensures Rearranged(old(a[..]), a[..], begin, end)
  {
    ghost var s := a[..];
    var it := begin + 1;
    while it != end
      invariant begin < it <= end
      invariant Sorted(less, a[..], begin, it)
      invariant Rearranged(s, a[..], begin, end)
    {
      ghost var was := a[..];
      SameMultiset(s, was, begin, end);
      Insert(a, begin, it, cmp, less);
      RearrangedWithin(was, a[..], begin, begin, it + 1, end);
      RearrangedTwice(s, was, a[..], begin, end);
      it := it + 1;
    }
  }

  /** The elements at three places have traded them; everything else is where it was. */
  ghost predicate Traded<T(!new)>(was: seq<T>, now: seq<T>, i: nat, j: nat, k: nat)
    requires i < j < k < |was|
  {
    && |now| == |was| && (forall m :: 0 <= m < |was| && m != i && m != j && m != k ==> now[m] == was[m])
    && Arranged(was[i], was[j], was[k], now[i], now[j], now[k])
  }

  /** One of the six ways to arrange x, y and z. */
  ghost predicate Arranged<T(!new)>(x: T, y: T, z: T, u: T, v: T, w: T) {
    || (u == x && v == y && w == z) || (u == x && v == z && w == y)
    || (u == y && v == x && w == z) || (u == y && v == z && w == x)
    || (u == z && v == x && w == y) || (u == z && v == y && w == x)
  }

  /** The two, the smaller one first. */
  function SmallerFirst<T>(less: (T, T) -> bool, x: T, y: T): (T, T) {
    if less(y, x) then (y, x) else (x, y)
  }

  /** Three exchanges put three elements in order. */
  lemma OrderOfThree<T(!new)>(less: (T, T) -> bool, x: T, y: T, z: T, s: (T, T), t: (T, T), u: (T, T))
    requires StrictTotal(less)
    requires s == SmallerFirst(less, x, y) && t == SmallerFirst(less, s.1, z) && u == SmallerFirst(less, s.0, t.0)
    ensures !less(u.1, u.0) && !less(t.1, u.1) && Arranged(x, y, z, u.0, u.1, t.1)
  {
    Connected(less, x, y);
    Connected(less, y, z);
    Connected(less, x, z);
    assert Law(less, x, y, z) && Law(less, x, z, y) && Law(less, y, x, z) && Law(less, y, z, x) && Law(less, z, x, y) && Law(less, z, y, x);
  }

  /** A line of median3: elements i and k exchange places if they are not in order. */
  method PutInOrder<T(!new)>(a: array<T>, i: nat, k: nat, cmp: (T, T) -> bool, ghost less: (T, T) -> bool, ghost lo: nat, ghost hi: nat)
    requires lo <= i < k < hi <= a.Length && Fits(cmp, less, multiset(a[..]))
    modifies a
    ensures (a[i], a[k]) == SmallerFirst(less, old(a[i]), old(a[k]))
    ensures forall m :: 0 <= m < a.Length && m != i && m != k ==> a[m] == old(a[m])
    ensures Rearranged(old(a[..]), a[..], lo, hi) && Fits(cmp, less, multiset(a[..]))
  {
    ghost var s := a[..];
    FitsAt(cmp, less, s, k, i);
    if cmp(a[k], a[i]) {
      Swap(a, k, i, lo, hi);
    }
    SameMultiset(s, a[..], lo, hi);
  }

  /** median3 */
  method Median3<T(!new)>(a: array<T>, first: nat, middle: nat, last: nat, cmp: (T, T) -> bool, ghost less: (T, T) -> bool,
                         ghost lo: nat, ghost hi: nat)
    requires StrictTotal(less) && lo <= first < middle < last < hi <= a.Length && Fits(cmp, less, multiset(a[..]))
    modifies a
    ensures Rearranged(old(a[..]), a[..], lo, hi) && Traded(old(a[..]), a[..], first, middle, last)
    ensures Ordered(less, a[..], first, middle) && Ordered(less, a[..], middle, last)
  {
    ghost var s := SmallerFirst(less, a[first], a[middle]);
    ghost var t := SmallerFirst(less, s.1, a[last]);
    OrderOfThree(less, a[first], a[middle], a[last], s, t, SmallerFirst(less, s.0, t.0));
    PutInOrder(a, first, middle, cmp, less, lo, hi);
    PutInOrder(a, middle, last, cmp, less, lo, hi);
    PutInOrder(a, first, middle, cmp, less, lo, hi);
  }

  /** Between first and last there are n other elements that are not larger than element m. */
  ghost predicate SomeBelow<T(!new)>(less: (T, T) -> bool, s: seq<T>, first: nat, last: nat, m: nat, n: nat)
    requires m < |s|
  {
    exists w: set<nat> :: |w| == n && forall k <- w :: first <= k <= last && k != m && k < |s| && Ordered(less, s, k, m)
  }

  ghost predicate SomeAbove<T(!new)>(less: (T, T) -> bool, s: seq<T>, first: nat, last: nat, m: nat, n: nat)
    requires m < |s|
  {
    exists w: set<nat> :: |w| == n && forall k <- w :: first <= k <= last && k != m && k < |s| && Ordered(less, s, m, k)
  }

  /** median: of three elements, or of three such medians. */
  method Median<T(!new)>(a: array<T>, first: nat, middle: nat, last: nat, cmp: (T, T) -> bool, ghost less: (T, T) -> bool)
    requires StrictTotal(less) && Fits(cmp, less, multiset(a[..]))
    requires first + 2 <= last < a.Length && middle == first + (last + 1 - first) / 2
    modifies a
    ensures Rearranged(old(a[..]), a[..], first, last + 1)
    ensures var n := if last - first <= 40 then 1 else 3;
            SomeBelow(less, a[..], first, last, middle, n) && SomeAbove(less, a[..], first, last, middle, n)
  {
    if last - first <= 40 {
      Median3(a, first, middle, last, cmp, less, first, last + 1);
      OneOnEachSide(less, a[..], first, middle, last);
    } else {
      var step := (last - first + 1) / 8;
      MedianOfNine(a, first, middle, last, step, cmp, less, last + 1);
    }
  }

  lemma OneOnEachSide<T(!new)>(less: (T, T) -> bool, s: seq<T>, first: nat, middle: nat, last: nat)
    requires first < middle < last < |s| && Ordered(less, s, first, middle) && Ordered(less, s, middle, last)
    ensures SomeBelow(less, s, first, last, middle, 1) && SomeAbove(less, s, first, last, middle, 1)
  {
    var low, high: set<nat> := {first}, {last};
    assert |low| == 1 && |high| == 1;
  }

  method MedianOfNine<T(!new)>(a: array<T>, first: nat, middle: nat, last: nat, step: nat, cmp: (T, T) -> bool,
                              ghost less: (T, T) -> bool, ghost end: nat)
    requires StrictTotal(less) && Fits(cmp, less, multiset(a[..])) && end == last + 1 <= a.Length
    requires first + 41 <= last && middle == first + (last + 1 - first) / 2 && step == (last - first + 1) / 8
    modifies a
    ensures Rearranged(old(a[..]), a[..], first, end)
    ensures SomeBelow(less, a[..], first, last, middle, 3) && SomeAbove(less, a[..], first, last, middle, 3)
  {
    ghost var s := a[..];
    var p, q, r, t := first + step, first + 2 * step, middle - step, middle + step;
    var u, v := last - 2 * step, last - step;
    Median3(a, first, p, q, cmp, less, first, end);
    SameMultiset(s, a[..], first, end);
    Median3(a, r, middle, t, cmp, less, first, end);
    SameMultiset(s, a[..], first, end);
    Median3(a, u, v, last, cmp, less, first, end);
    SameMultiset(s, a[..], first, end);
    ghost var groups := a[..];
    Median3(a, p, middle, v, cmp, less, first, end);
    ThreeOnEachSide(less, groups, a[..], first, p, q, r, middle, t, u, v, last);
  }

  /** The middle one of three medians: two of the groups have a lower element below it, and two a higher one above it. */
  lemma ThreeOnEachSide<T(!new)>(less: (T, T) -> bool, was: seq<T>, s: seq<T>, first: nat, p: nat, q: nat,
                                r: nat, middle: nat, t: nat, u: nat, v: nat, last: nat)
    requires StrictTotal(less) && first < p < q < r < middle < t < u < v < last < |was| && Traded(was, s, p, middle, v)
    requires Ordered(less, was, first, p) && Ordered(less, was, p, q)
    requires Ordered(less, was, r, middle) && Ordered(less, was, middle, t)
    requires Ordered(less, was, u, v) && Ordered(less, was, v, last)
    requires Ordered(less, s, p, middle) && Ordered(less, s, middle, v)
    ensures SomeBelow(less, s, first, last, middle, 3) && SomeAbove(less, s, first, last, middle, 3)
  {
    var now := (s[p], s[middle], s[v]);
    if now == (was[p], was[middle], was[v]) {
      ThreeBelow(less, was, s, first, last, p, middle, first, p, r, middle);
      ThreeAbove(less, was, s, first, last, middle, v, t, middle, last, v);
    } else if now == (was[p], was[v], was[middle]) {
      ThreeBelow(less, was, s, first, last, p, middle, first, p, u, v);
      ThreeAbove(less, was, s, first, last, middle, v, last, v, t, middle);
    } else if now == (was[middle], was[p], was[v]) {
      ThreeBelow(less, was, s, first, last, p, middle, r, middle, first, p);
      ThreeAbove(less, was, s, first, last, middle, v, q, p, last, v);
    } else if now == (was[middle], was[v], was[p]) {
      ThreeBelow(less, was, s, first, last, p, middle, r, middle, u, v);
      ThreeAbove(less, was, s, first, last, middle, v, last, v, q, p);
    } else if now == (was[v], was[p], was[middle]) {
      ThreeBelow(less, was, s, first, last, p, middle, u, v, first, p);
      ThreeAbove(less, was, s, first, last, middle, v, q, p, t, middle);
    } else {
      ThreeBelow(less, was, s, first, last, p, middle, u, v, r, middle);
      ThreeAbove(less, was, s, first, last, middle, v, t, middle, q, p);
    }
  }

  /** Two medians a and b are now at p and m; lowA was below the one and lowB below the other. */
  lemma ThreeBelow<T(!new)>(less: (T, T) -> bool, was: seq<T>, s: seq<T>, first: nat, last: nat, p: nat, m: nat,
                           lowA: nat, a: nat, lowB: nat, b: nat)
    requires StrictTotal(less) && |s| == |was| && a < |was| && b < |was| && last < |s| && m < |s|
    requires first <= p <= last && first <= lowA <= last && first <= lowB <= last
    requires p != lowA && lowA != lowB && lowB != p && p != m && lowA != m && lowB != m
    requires s[p] == was[a] && s[m] == was[b] && s[lowA] == was[lowA] && s[lowB] == was[lowB]
    requires Ordered(less, was, lowA, a) && Ordered(less, was, lowB, b) && Ordered(less, s, p, m)
    ensures SomeBelow(less, s, first, last, m, 3)
  {
    AtMost(less, s[lowA], s[p], s[m]);
    var w: set<nat> := {p, lowA, lowB};
    assert |w| == 3;
  }

  lemma ThreeAbove<T(!new)>(less: (T, T) -> bool, was: seq<T>, s: seq<T>, first: nat, last: nat, m: nat, v: nat,
                           highB: nat, b: nat, highC: nat, c: nat)
    requires StrictTotal(less) && |s| == |was| && b < |was| && c < |was| && last < |s| && m < |s|
    requires first <= v <= last && first <= highB <= last && first <= highC <= last
    requires v != highB && highB != highC && highC != v && v != m && highB != m && highC != m
    requires s[m] == was[b] && s[v] == was[c] && s[highB] == was[highB] && s[highC] == was[highC]
    requires Ordered(less, was, b, highB) && Ordered(less, was, c, highC) && Ordered(less, s, m, v)
    ensures SomeAbove(less, s, first, last, m, 3)
  {
    AtMost(less, s[m], s[v], s[highC]);
    var w: set<nat> := {v, highB, highC};
    assert |w| == 3;
  }

  /** The five zones of partition: unprocessed, less than v, equal to v, greater than v, unprocessed. */
  ghost predicate Zones<T>(less: (T, T) -> bool, s: seq<T>, v: T, ltend: nat, eqbeg: nat, eqend: nat, gtbeg: nat)
    requires ltend <= eqbeg < eqend <= gtbeg <= |s|
  {
    && (forall k :: ltend <= k < eqbeg ==> less(s[k], v))
    && (forall k :: eqbeg <= k < eqend ==> s[k] == v)
    && (forall k :: eqend <= k < gtbeg ==> less(v, s[k]))
  }

  /** The first inner loop of partition: extend the greater zone to the right. */
  method ScanRight<T(!new, ==)>(a: array<T>, begin: nat, end: nat, cmp: (T, T) -> bool,
                               ghost less: (T, T) -> bool, ghost v: T,
                                ltend: nat, eqbeg: nat, eqend0: nat, gtbeg0: nat) returns (eqend: nat, gtbeg: nat)
    requires StrictTotal(less) && begin <= ltend <= eqbeg < eqend0 <= gtbeg0 <= end <= a.Length
    requires Zones(less, a[..], v, ltend, eqbeg, eqend0, gtbeg0) && Fits(cmp, less, multiset(a[..]))
    modifies a
    ensures eqend0 <= eqend && gtbeg0 <= gtbeg && eqend <= gtbeg <= end
    ensures Zones(less, a[..], v, ltend, eqbeg, eqend, gtbeg) && Rearranged(old(a[..]), a[..], begin, end)
    ensures gtbeg < end ==> less(a[gtbeg], v)
    ensures ltend > begin ==> a[ltend - 1] == old(a[ltend - 1])
  {
    ghost var s := a[..];
    eqend, gtbeg := eqend0, gtbeg0;
    while gtbeg != end
      invariant eqend0 <= eqend <= gtbeg <= end && gtbeg0 <= gtbeg
      invariant Zones(less, a[..], v, ltend, eqbeg, eqend, gtbeg) && Rearranged(s, a[..], begin, end)
      invariant ltend > begin ==> a[ltend - 1] == s[ltend - 1]
    {
      SameMultiset(s, a[..], begin, end);
      FitsAt(cmp, less, a[..], eqbeg, gtbeg);
      if !cmp(a[eqbeg], a[gtbeg]) {
        if a[gtbeg] == a[eqbeg] {
          ghost var t := a[..];
          Swap(a, gtbeg, eqend, begin, end);
          RearrangedTwice(s, t, a[..], begin, end);
          eqend := eqend + 1;
        } else {
          Connected(less, a[eqbeg], a[gtbeg]);
          break;
        }
      }
      gtbeg := gtbeg + 1;
    }
  }

  /** The second inner loop of partition: extend the less zone to the left. */
  method ScanLeft<T(!new, ==)>(a: array<T>, begin: nat, end: nat, cmp: (T, T) -> bool,
                               ghost less: (T, T) -> bool, ghost v: T,
                               ltend0: nat, eqbeg0: nat, eqend: nat, gtbeg: nat) returns (ltend: nat, eqbeg: nat)
    requires StrictTotal(less) && begin <= ltend0 <= eqbeg0 < eqend <= gtbeg <= end <= a.Length
    requires Zones(less, a[..], v, ltend0, eqbeg0, eqend, gtbeg) && Fits(cmp, less, multiset(a[..]))
    modifies a
    ensures begin <= ltend <= ltend0 && ltend <= eqbeg <= eqbeg0
    ensures Zones(less, a[..], v, ltend, eqbeg, eqend, gtbeg) && Rearranged(old(a[..]), a[..], begin, end)
    ensures ltend > begin ==> less(v, a[ltend - 1])
    ensures gtbeg < end ==> a[gtbeg] == old(a[gtbeg])
  {
    ghost var s := a[..];
    ltend, eqbeg := ltend0, eqbeg0;
    while ltend != begin
      invariant begin <= ltend <= ltend0 && ltend <= eqbeg <= eqbeg0
      invariant Zones(less, a[..], v, ltend, eqbeg, eqend, gtbeg) && Rearranged(s, a[..], begin, end)
      invariant gtbeg < end ==> a[gtbeg] == s[gtbeg]
    {
      SameMultiset(s, a[..], begin, end);
      FitsAt(cmp, less, a[..], ltend - 1, eqbeg);
      if !cmp(a[ltend - 1], a[eqbeg]) {
        if a[eqbeg] == a[ltend - 1] {
          ghost var t := a[..];
          eqbeg := eqbeg - 1;
          Swap(a, ltend - 1, eqbeg, begin, end);
          RearrangedTwice(s, t, a[..], begin, end);
        } else {
          Connected(less, a[ltend - 1], a[eqbeg]);
          break;
        }
      }
      ltend := ltend - 1;
    }
  }

  /** The last part of the outer loop: exchange the two elements found, or shift the equal zone to make room. */
  method MakeRoom<T(!new)>(a: array<T>, begin: nat, end: nat, ghost less: (T, T) -> bool, ghost v: T,
                           ltend0: nat, eqbeg0: nat, eqend0: nat, gtbeg0: nat)
    returns (ltend: nat, eqbeg: nat, eqend: nat, gtbeg: nat)
    requires StrictTotal(less) && begin <= ltend0 <= eqbeg0 < eqend0 <= gtbeg0 <= end <= a.Length
    requires Zones(less, a[..], v, ltend0, eqbeg0, eqend0, gtbeg0)
    requires begin < ltend0 || gtbeg0 < end
    requires gtbeg0 < end ==> less(a[gtbeg0], v)
    requires begin < ltend0 ==> less(v, a[ltend0 - 1])
    modifies a
    ensures begin <= ltend <= eqbeg < eqend <= gtbeg <= end
    ensures ltend <= ltend0 && gtbeg0 <= gtbeg && gtbeg - ltend > gtbeg0 - ltend0
    ensures Zones(less, a[..], v, ltend, eqbeg, eqend, gtbeg) && Rearranged(old(a[..]), a[..], begin, end)
  {
    ltend, eqbeg, eqend, gtbeg := ltend0, eqbeg0, eqend0, gtbeg0;
    if gtbeg == end {
      ltend, eqbeg := ltend - 1, eqbeg - 1;
      eqend := eqend - 1;
      ShiftEqualLeft(a, begin, end, less, v, ltend, eqbeg, eqend);
    } else if ltend == begin {
      ShiftEqualRight(a, begin, end, less, v, eqbeg, eqend, gtbeg);
      eqend := eqend + 1;
      gtbeg, eqbeg := gtbeg + 1, eqbeg + 1;
    } else {
      ltend := ltend - 1;
      Swap(a, gtbeg, ltend, begin, end);
      gtbeg := gtbeg + 1;
    }
  }

  /** Everything to the right has been scanned: the element at ltend goes behind the equal zone. */
  method ShiftEqualLeft<T>(a: array<T>, begin: nat, end: nat, ghost less: (T, T) -> bool, ghost v: T,
                           ltend: nat, eqbeg: nat, eqend: nat)
    requires begin <= ltend <= eqbeg < eqend < end <= a.Length
    requires Zones(less, a[..], v, ltend + 1, eqbeg + 1, eqend + 1, end) && less(v, a[ltend])
    modifies a
    ensures Zones(less, a[..], v, ltend, eqbeg, eqend, end)
    ensures Rearranged(old(a[..]), a[..], begin, end)
  {
    ghost var s := a[..];
    if ltend != eqbeg { Swap(a, ltend, eqbeg, begin, end); }
    ghost var t := a[..];
    Swap(a, eqbeg, eqend, begin, end);
    RearrangedTwice(s, t, a[..], begin, end);
  }

  /** Everything to the left has been scanned: the element at gtbeg goes in front of the equal zone. */
  method ShiftEqualRight<T>(a: array<T>, begin: nat, end: nat, ghost less: (T, T) -> bool, ghost v: T,
                            eqbeg: nat, eqend: nat, gtbeg: nat)
    requires begin <= eqbeg < eqend <= gtbeg < end <= a.Length
    requires Zones(less, a[..], v, begin, eqbeg, eqend, gtbeg) && less(a[gtbeg], v)
    modifies a
    ensures Zones(less, a[..], v, begin, eqbeg + 1, eqend + 1, gtbeg + 1)
    ensures Rearranged(old(a[..]), a[..], begin, end)
  {
    ghost var s := a[..];
    if eqend != gtbeg { Swap(a, eqbeg, eqend, begin, end); }
    ghost var t := a[..];
    Swap(a, gtbeg, eqbeg, begin, end);
    RearrangedTwice(s, t, a[..], begin, end);
  }

  /** partition: on return everything before eqbeg is less than v, everything from eqend on greater, the rest equal. */
  method Partition<T(!new, ==)>(a: array<T>, begin: nat, middle: nat, end: nat, cmp: (T, T) -> bool, ghost less: (T, T) -> bool)
    returns (eqbeg: nat, eqend: nat, ghost v: T)
    requires StrictTotal(less) && begin <= middle < end <= a.Length && Fits(cmp, less, multiset(a[..]))
    modifies a
    ensures begin <= eqbeg < eqend <= end
    ensures Zones(less, a[..], v, begin, eqbeg, eqend, end) && Rearranged(old(a[..]), a[..], begin, end)
  {
    ghost var s := a[..];
    v := a[middle];
    eqbeg, eqend := middle, middle + 1;
    while eqbeg != begin && a[eqbeg - 1] == a[eqbeg]
      invariant begin <= eqbeg <= middle && forall k :: eqbeg <= k < eqend ==> a[k] == v
    {
      eqbeg := eqbeg - 1;
    }
    while eqend != end && a[eqend] == a[eqbeg]
      invariant middle < eqend <= end && forall k :: eqbeg <= k < eqend ==> a[k] == v
    {
      eqend := eqend + 1;
    }
    var ltend, gtbeg := eqbeg, eqend;
    while true
      invariant begin <= ltend <= eqbeg < eqend <= gtbeg <= end
      invariant Zones(less, a[..], v, ltend, eqbeg, eqend, gtbeg) && Rearranged(s, a[..], begin, end)
      decreases end - begin - (gtbeg - ltend)
    {
      SameMultiset(s, a[..], begin, end);
      eqend, gtbeg := ScanRight(a, begin, end, cmp, less, v, ltend, eqbeg, eqend, gtbeg);
      SameMultiset(s, a[..], begin, end);
      ltend, eqbeg := ScanLeft(a, begin, end, cmp, less, v, ltend, eqbeg, eqend, gtbeg);
      if gtbeg == end && ltend == begin {
        return;
      }
      ltend, eqbeg, eqend, gtbeg := MakeRoom(a, begin, end, less, v, ltend, eqbeg, eqend, gtbeg);
    }
  }

  /** All pairs of elements in the range [lo, hi) are in order, except those inside the open part [i, k). */
  ghost predicate Settled<T>(less: (T, T) -> bool, s: seq<T>, lo: nat, i: nat, k: nat, hi: nat)
    requires lo <= i <= k <= hi <= |s|
  {
    forall x, y :: lo <= x < y < hi && (x < i || k <= y) ==> Ordered(less, s, x, y)
  }

  /** Rearranging the open part keeps the rest settled. */
  lemma SettledStays<T>(less: (T, T) -> bool, was: seq<T>, now: seq<T>, lo: nat, i: nat, k: nat, hi: nat)
    requires lo <= i <= k <= hi <= |was| && Settled(less, was, lo, i, k, hi) && Rearranged(was, now, i, k)
    ensures Settled(less, now, lo, i, k, hi)
  {
    forall x, y | lo <= x < y < hi && (x < i || k <= y) ensures Ordered(less, now, x, y) {
      var x', y' := x, y;
      if i <= x < k { x' := Origin(was, now, i, k, x); } else { Unmoved(was, now, i, k, x); }
      if i <= y < k { y' := Origin(was, now, i, k, y); } else { Unmoved(was, now, i, k, y); }
      assert Ordered(less, was, x', y');
    }
  }

  /** After a partition, only the two outer zones are open. */
  lemma PartitionSettles<T(!new)>(less: (T, T) -> bool, s: seq<T>, v: T, lo: nat, begin: nat, eqbeg: nat, eqend: nat, end: nat, hi: nat)
    requires StrictTotal(less) && lo <= begin <= eqbeg < eqend <= end <= hi <= |s|
    requires Settled(less, s, lo, begin, end, hi) && Zones(less, s, v, begin, eqbeg, eqend, end)
    ensures forall x, y :: lo <= x < y < hi && !(begin <= x && y < eqbeg) && !(eqend <= x && y < end) ==> Ordered(less, s, x, y)
  {
    forall x, y | lo <= x < y < hi && !(begin <= x && y < eqbeg) && !(eqend <= x && y < end) ensures Ordered(less, s, x, y) {
      if begin <= x && y < end {
        Connected(less, s[x], v);
        Connected(less, v, s[y]);
        AtMost(less, s[x], v, s[y]);
      } else {
        assert Settled(less, s, lo, begin, end, hi);
      }
    }
  }

  /** The zone already sorted, together with what was settled before, leaves only the other zone open. */
  lemma LeftDone<T(!new)>(less: (T, T) -> bool, was: seq<T>, now: seq<T>, v: T,
                          lo: nat, begin: nat, eqbeg: nat, eqend: nat, end: nat, hi: nat)
    requires StrictTotal(less) && lo <= begin <= eqbeg < eqend <= end <= hi <= |was|
    requires Settled(less, was, lo, begin, end, hi) && Zones(less, was, v, begin, eqbeg, eqend, end)
    requires Rearranged(was, now, begin, eqbeg) && Sorted(less, now, begin, eqbeg)
    ensures Settled(less, now, lo, eqend, end, hi)
  {
    RearrangedWithin(was, now, begin, begin, eqbeg, end);
    SettledStays(less, was, now, lo, begin, end, hi);
    ZonesStay(less, was, now, v, begin, eqbeg, eqend, end, begin, eqbeg);
    PartitionSettles(less, now, v, lo, begin, eqbeg, eqend, end, hi);
  }

  lemma RightDone<T(!new)>(less: (T, T) -> bool, was: seq<T>, now: seq<T>, v: T,
                           lo: nat, begin: nat, eqbeg: nat, eqend: nat, end: nat, hi: nat)
    requires StrictTotal(less) && lo <= begin <= eqbeg < eqend <= end <= hi <= |was|
    requires Settled(less, was, lo, begin, end, hi) && Zones(less, was, v, begin, eqbeg, eqend, end)
    requires Rearranged(was, now, eqend, end) && Sorted(less, now, eqend, end)
    ensures Settled(less, now, lo, begin, eqbeg, hi)
  {
    RearrangedWithin(was, now, begin, eqend, end, end);
    SettledStays(less, was, now, lo, begin, end, hi);
    ZonesStay(less, was, now, v, begin, eqbeg, eqend, end, eqend, end);
    PartitionSettles(less, now, v, lo, begin, eqbeg, eqend, end, hi);
  }

  lemma ZonesStay<T>(less: (T, T) -> bool, was: seq<T>, now: seq<T>, v: T,
                     begin: nat, eqbeg: nat, eqend: nat, end: nat, i: nat, k: nat)
    requires begin <= eqbeg < eqend <= end <= |was| && Zones(less, was, v, begin, eqbeg, eqend, end)
    requires (i == begin && k == eqbeg) || (i == eqend && k == end)
    requires Rearranged(was, now, i, k)
    ensures Zones(less, now, v, begin, eqbeg, eqend, end)
  {
    forall x | begin <= x < end
      ensures x < eqbeg ==> less(now[x], v)
      ensures eqbeg <= x < eqend ==> now[x] == v
      ensures eqend <= x ==> less(v, now[x])
    {
      if i <= x < k { var j := Origin(was, now, i, k, x); } else { Unmoved(was, now, i, k, x); }
    }
  }

  /** sort: terminates, stays inside the range, and leaves a sorted permutation of it. */
  method Sort<T(!new, ==)>(a: array<T>, lo: nat, hi: nat, cmp: (T, T) -> bool, ghost less: (T, T) -> bool)
    requires StrictTotal(less) && lo <= hi <= a.Length && Fits(cmp, less, multiset(a[..]))
    modifies a
    ensures Sorted(less, a[..], lo, hi)
    ensures Rearranged(old(a[..]), a[..], lo, hi)
    decreases hi - lo
  {
    var begin, end := lo, hi;
    while end - begin > 32
      invariant lo <= begin <= end <= hi
      invariant Settled(less, a[..], lo, begin, end, hi) && Rearranged(old(a[..]), a[..], lo, hi)
      decreases end - begin
    {
      SameMultiset(old(a[..]), a[..], lo, hi);
      begin, end := SortRound(a, lo, begin, end, hi, cmp, less);
    }
    ghost var was := a[..];
    if begin != end {
      SameMultiset(old(a[..]), a[..], lo, hi);
      InsertionSort(a, begin, end, cmp, less);
      RearrangedWithin(was, a[..], lo, begin, end, hi);
      SettledStays(less, was, a[..], lo, begin, end, hi);
    }
  }

  /** One round of the loop of sort: partition, sort the smaller outer zone, go on with the larger one. */
  method SortRound<T(!new, ==)>(a: array<T>, ghost lo: nat, begin0: nat, end0: nat, ghost hi: nat,
                               cmp: (T, T) -> bool, ghost less: (T, T) -> bool)
    returns (begin: nat, end: nat)
    requires StrictTotal(less) && lo <= begin0 && begin0 + 32 < end0 && end0 <= hi <= a.Length
    requires Settled(less, a[..], lo, begin0, end0, hi) && Fits(cmp, less, multiset(a[..]))
    modifies a
    ensures begin0 <= begin <= end <= end0 && end - begin < end0 - begin0
    ensures Settled(less, a[..], lo, begin, end, hi) && Rearranged(old(a[..]), a[..], lo, hi)
    decreases end0 - begin0, 0
  {
    ghost var s := a[..];
    begin, end := begin0, end0;
    var middle := begin + (end - begin) / 2;
    Median(a, begin, middle, end - 1, cmp, less);
    SettledStays(less, s, a[..], lo, begin, end, hi);
    ghost var t := a[..];
    SameMultiset(s, t, begin, end);
    var eqbeg, eqend, v := Partition(a, begin, middle, end, cmp, less);
    SettledStays(less, t, a[..], lo, begin, end, hi);
    RearrangedTwice(s, t, a[..], begin, end);
    ghost var u := a[..];
    SameMultiset(t, u, begin, end);
    if eqbeg - begin > end - eqend {
      Sort(a, eqend, end, cmp, less);
      RightDone(less, u, a[..], v, lo, begin, eqbeg, eqend, end, hi);
      RearrangedWithin(u, a[..], begin, eqend, end, end);
      end := eqbeg;
    } else {
      Sort(a, begin, eqbeg, cmp, less);
      LeftDone(less, u, a[..], v, lo, begin, eqbeg, eqend, end, hi);
      RearrangedWithin(u, a[..], begin, begin, eqbeg, end);
      begin := eqend;
    }
    RearrangedTwice(s, u, a[..], begin0, end0);
    RearrangedWithin(s, a[..], lo, begin0, end0, hi);
  }

  /** reverse */
  method Reverse<T>(a: array<T>)
    modifies a
    ensures forall k :: 0 <= k < a.Length ==> a[k] == old(a[a.Length - 1 - k])
  {
    var begin, end := 0, a.Length;
    while end - begin > 1
      invariant 0 <= begin <= end == a.Length - begin
      invariant forall k :: 0 <= k < begin || end <= k < a.Length ==> a[k] == old(a[a.Length - 1 - k])
      invariant forall k :: begin <= k < end ==> a[k] == old(a[k])
    {
      end := end - 1;
      a[begin], a[end] := a[end], a[begin];
      begin := begin + 1;
    }
  }

  /** s without the elements that equal their predecessor. */
  function Unique<T(==)>(s: seq<T>): (r: seq<T>)
    ensures |r| <= |s| && (|s| > 0 ==> |r| > 0 && r[|r| - 1] == s[|s| - 1])
  {
    if |s| <= 1 then s
    else if s[|s| - 1] == s[|s| - 2] then Unique(s[..|s| - 1])
    else Unique(s[..|s| - 1]) + [s[|s| - 1]]
  }

  /** unique */
  method UniqueInPlace<T(==)>(a: array<T>) returns (n: nat)
    modifies a
    ensures n <= a.Length && a[..n] == Unique(old(a[..]))
  {
    ghost var s := a[..];
    var begin := 0;
    while a.Length - begin > 1 && a[begin] != a[begin + 1]
      invariant begin <= a.Length && (begin < a.Length || begin == 0)
      invariant forall k :: 0 < k <= begin && k < a.Length ==> s[k - 1] != s[k]
    {
      begin := begin + 1;
    }
    if begin == a.Length {
      return begin;
    }
    NothingRepeats(s, begin + 1);
    assert a[..] == s;
    n := Pack(a, begin, begin + 1, s);
  }

  /** The second loop of unique: from the first repetition on, elements that differ from the last one kept move to the front. */
  method Pack<T(==)>(a: array<T>, write0: nat, begin0: nat, ghost s: seq<T>) returns (n: nat)
    requires |s| == a.Length && write0 < begin0 <= a.Length && Packed(a[..], s, write0, begin0)
    modifies a
    ensures n <= a.Length && a[..n] == Unique(s)
  {
    var write: nat, begin: nat := write0, begin0;
    while begin != a.Length
      invariant write < begin <= a.Length
      invariant Packed(a[..], s, write, begin)
    {
      ghost var now := a[..];
      PackedStep(now, s, write, begin);
      if a[begin] != a[write] {
        write := write + 1;
        a[write] := a[begin];
        assert a[..] == now[write := now[begin]];
      }
      begin := begin + 1;
    }
    assert s[..begin] == s;
    n := write + 1;
  }

  /** The elements up to begin have been dealt with; those worth keeping are at the front. */
  ghost predicate Packed<T>(now: seq<T>, s: seq<T>, write: nat, begin: nat)
    requires write < begin <= |s| == |now|
  {
    now[..write + 1] == Unique(s[..begin]) && now[begin..] == s[begin..]
  }

  lemma PackedStep<T>(now: seq<T>, s: seq<T>, write: nat, begin: nat)
    requires write < begin < |s| == |now| && Packed(now, s, write, begin)
    ensures now[begin] == now[write] ==> Packed(now, s, write, begin + 1)
    ensures now[begin] != now[write] ==> Packed(now[write + 1 := now[begin]], s, write + 1, begin + 1)
  {
    UniqueStep(s, begin);
    assert now[begin] == now[begin..][0] == s[begin];
    assert now[write] == now[..write + 1][write] == s[begin - 1];
    assert now[begin + 1..] == now[begin..][1..] == s[begin + 1..];
    var next := now[write + 1 := now[begin]];
    assert next[..write + 2] == now[..write + 1] + [now[begin]];
    assert next[begin + 1..] == now[begin + 1..];
  }

  lemma UniqueStep<T>(s: seq<T>, n: nat)
    requires 0 < n < |s|
    ensures var u := Unique(s[..n]); |u| > 0 && u[|u| - 1] == s[n - 1]
    ensures Unique(s[..n + 1]) == if s[n] == s[n - 1] then Unique(s[..n]) else Unique(s[..n]) + [s[n]]
  {
    assert s[..n + 1][..n] == s[..n];
  }

  lemma {:induction false} NothingRepeats<T>(s: seq<T>, n: nat)
    requires n <= |s| && forall k :: 0 < k < n ==> s[k - 1] != s[k]
    ensures Unique(s[..n]) == s[..n]
  {
    if n > 1 {
      NothingRepeats(s, n - 1);
      UniqueStep(s, n - 1);
      assert s[..n] == s[..n - 1] + [s[n - 1]];
    }
  }

  predicate Before<T>(less: (T, T) -> bool, s: seq<T>, i: nat, k: nat)
    requires i < |s| && k < |s|
  {
    less(s[i], s[k])
  }

  ghost predicate StrictlySorted<T>(less: (T, T) -> bool, s: seq<T>) {
    forall i, k :: 0 <= i < k < |s| ==> Before(less, s, i, k)
  }

  /** Of a sorted range, `Unique` keeps every element once. */
  lemma {:induction false} UniqueOfSorted<T(!new)>(less: (T, T) -> bool, s: seq<T>)
    requires StrictTotal(less) && Sorted(less, s, 0, |s|)
    ensures var r := Unique(s);
            && (forall x :: x in r <==> x in s)
            && StrictlySorted(less, r)
  {
    if |s| > 1 {
      var t := s[..|s| - 1];
      forall i, k | 0 <= i < k < |t| ensures Ordered(less, t, i, k) {
        assert Ordered(less, s, i, k);
      }
      UniqueOfSorted(less, t);
      var r, x := Unique(t), s[|s| - 1];
      assert s == t + [x];
      if x != s[|s| - 2] {
        assert Ordered(less, s, |s| - 2, |s| - 1);
        Connected(less, s[|s| - 2], x);
        assert r[|r| - 1] == s[|s| - 2];
        forall i | 0 <= i < |r| ensures less(r[i], x) {
          if i < |r| - 1 {
            assert Before(less, r, i, |r| - 1);
            assert Law(less, r[i], r[|r| - 1], x);
          }
        }
        assert Unique(s) == r + [x];
        forall i, k | 0 <= i < k < |r| + 1 ensures Before(less, r + [x], i, k) {
          if k < |r| { assert Before(less, r, i, k); }
        }
      } else {
        assert Unique(s) == r;
        assert x in t;
      }
    }
  }

  /** min_element */
  method MinElement<T(!new)>(s: seq<T>, cmp: (T, T) -> bool, ghost less: (T, T) -> bool) returns (r: T)
    requires StrictTotal(less) && 0 < |s| && Fits(cmp, less, multiset(s))
    ensures r in s && forall k :: 0 <= k < |s| ==> !less(s[k], r)
  {
    var result := 0;
    Connected(less, s[0], s[0]);
    for it := 1 to |s|
      invariant result < it && forall k :: 0 <= k < it ==> !less(s[k], s[result])
    {
      FitsAt(cmp, less, s, it, result);
      if cmp(s[it], s[result]) {
        forall k | 0 <= k <= it ensures !less(s[k], s[it]) {
          Connected(less, s[it], s[k]);
          assert Law(less, s[k], s[it], s[result]);
        }
        result := it;
      }
    }
    return s[result];
  }
}
