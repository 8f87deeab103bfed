/**
 Node sets.  As a value, a node set is the list of its nodes in document order.  The evaluator
 works on buffers instead: lists in any order, with a tag that says how they are sorted, holding
 as much of a node set as was asked for.
 */
module XPathSets {
  import opened Basics
  import opened Guard
  import opened Shape
  import opened Sort
  import opened XPathData

  // Each guarded definition below has its own number.
  const APPLIED: nat := 1
  const FILTERING: nat := 2
  const STEPPING: nat := 3

  /** s with x put in its place in document order. */
  function Placed(s: seq<Ref>, x: Ref): seq<Ref> {
    if s == [] || Precedes(x, s[0]) then [x] + s
    else if s[0] == x then s
    else [s[0]] + Placed(s[1..], x)
  }

  /** The elements of a list as a set in document order. */
  function AsSet(list: seq<Ref>): seq<Ref> {
    if list == [] then [] else Placed(AsSet(list[1..]), list[0])
  }

  /** The nodes of the list, from index i on, that pass the test. */
  function Keep(judge: (Ref, nat, nat) -> bool, list: seq<Ref>, i: nat): seq<Ref>
    decreases |list| - i
  {
    if i >= |list| then []
    else if judge(list[i], i + 1, |list|) then [list[i]] + Keep(judge, list, i + 1)
    else Keep(judge, list, i + 1)
  }

  function Gather(step: Ref -> seq<Ref>, contexts: seq<Ref>): seq<Ref> {
    if contexts == [] then [] else step(contexts[0]) + Gather(step, contexts[1..])
  }

  /** The first node of a set in document order. */
  function First(ns: seq<Ref>): Ref {
    if ns == [] then Null else ns[0]
  }

  /** xpath_node_set::type_t */
  datatype Order = Sorted | SortedReverse | Unsorted

  // Node sets as lists in document order.

  lemma {:induction false} PlacedSpec(s: seq<Ref>, x: Ref)
    requires InOrder(s)
    ensures InOrder(Placed(s, x)) && forall y :: y in Placed(s, x) <==> y in s || y == x
  {
    if s != [] && !Precedes(x, s[0]) && s[0] != x {
      Distinguish(x, s[0]);
      Rest(Precedes, s);
      PlacedSpec(s[1..], x);
      var r := Placed(s[1..], x);
      assert s == [s[0]] + s[1..];
      forall k | 0 <= k < |r| ensures Precedes(s[0], r[k]) {
        assert r[k] in r;
        if r[k] in s[1..] { assert Precedes(s[0], r[k]); }
      }
      Prepended(Precedes, s[0], r);
    } else if s != [] && Precedes(x, s[0]) {
      Rest(Precedes, s);
      assert s == [s[0]] + s[1..];
      forall k | 0 <= k < |s| ensures Precedes(x, s[k]) {
        if 0 < k { assert Precedes(s[0], s[1..][k - 1]); }
      }
      Prepended(Precedes, x, s);
    }
  }

  lemma {:induction false} AsSetSpec(list: seq<Ref>)
    ensures InOrder(AsSet(list)) && forall x :: x in AsSet(list) <==> x in list
  {
    if list != [] {
      AsSetSpec(list[1..]);
      PlacedSpec(AsSet(list[1..]), list[0]);
      assert list == [list[0]] + list[1..];
    }
  }

  /** A predicate keeps some of the nodes, in the order given. */
  lemma {:induction false} KeepOrder(judge: (Ref, nat, nat) -> bool, list: seq<Ref>, i: nat, less: (Ref, Ref) -> bool)
    requires i <= |list| && StrictlySorted(less, list)
    ensures StrictlySorted(less, Keep(judge, list, i))
    ensures forall x :: x in Keep(judge, list, i) ==> x in list[i..]
    decreases |list| - i
  {
    if i < |list| {
      KeepOrder(judge, list, i + 1, less);
      var r := Keep(judge, list, i + 1);
      assert list[i..] == [list[i]] + list[i + 1..];
      forall k | 0 <= k < |r| ensures less(list[i], r[k]) {
        assert r[k] in list[i + 1..];
        var m :| 0 <= m < |list| - i - 1 && list[i + 1..][m] == r[k];
        assert Before(less, list, i, i + 1 + m);
      }
      Prepended(less, list[i], r);
    }
  }

  lemma {:induction false} Gathered(step: Ref -> seq<Ref>, contexts: seq<Ref>, k: nat, x: Ref)
    requires k < |contexts| && x in step(contexts[k])
    ensures x in Gather(step, contexts)
  {
    if 0 < k { Gathered(step, contexts[1..], k - 1, x); }
  }

  lemma {:induction false} GatheredFrom(step: Ref -> seq<Ref>, contexts: seq<Ref>, x: Ref) returns (k: nat)
    requires x in Gather(step, contexts)
    ensures k < |contexts| && x in step(contexts[k])
  {
    if x in step(contexts[0]) {
      k := 0;
    } else {
      k := GatheredFrom(step, contexts[1..], x);
      k := k + 1;
    }
  }

  /** nodeset_eval_t */
  datatype Mode = All | Any | FirstOnly

  predicate EvalOnce(order: Order, mode: Mode) {
    if order == Order.Sorted then mode != All else mode == Any
  }

  function AxisType(axis: Axis): Order {
    if IsReverse(axis) then SortedReverse else Order.Sorted
  }

  ghost predicate Tagged(order: Order, ns: seq<Ref>) {
    match order
    case Sorted => InOrder(ns)
    case SortedReverse => StrictlySorted(Follows, ns)
    case Unsorted => true
  }

  /** As much of the set S as the mode asks for. */
  ghost predicate Complete(mode: Mode, ns: seq<Ref>, S: seq<Ref>) {
    match mode
    case All => forall x :: x in S ==> x in ns
    case FirstOnly => S != [] ==> S[0] in ns
    case Any => S != [] ==> ns != []
  }

  /** The buffer answers the question `mode` about the set S, and its tag is true. */
  ghost predicate Answer(mode: Mode, ns: seq<Ref>, order: Order, S: seq<Ref>) {
    && NoRepeats(ns) && Tagged(order, ns)
    && (forall x :: x in ns ==> x in S)
    && Complete(mode, ns, S)
  }

  /** The first element only, if `once`. */
  function Cut(list: seq<Ref>, once: bool): seq<Ref> {
    if once && 1 < |list| then list[..1] else list
  }

  lemma Prefix(list: seq<Ref>, n: nat, less: (Ref, Ref) -> bool)
    requires n <= |list| && StrictlySorted(less, list)
    ensures StrictlySorted(less, list[..n])
  {
    forall i, k | 0 <= i < k < n ensures Before(less, list[..n], i, k) {
      assert Before(less, list, i, k);
    }
  }

  /** Cutting a complete answer short when eval_once allows it gives the answer asked for. */
  lemma CutAnswers(mode: Mode, ns: seq<Ref>, order: Order, S: seq<Ref>, once: bool)
    requires Answer(All, ns, order, S) && InOrder(S) && (once ==> EvalOnce(order, mode))
    ensures Answer(mode, Cut(ns, once), order, S)
  {
    if once && 1 < |ns| {
      Prefix(ns, 1, Differ);
      assert ns[..1] == [ns[0]];
      if order == Order.Sorted { SameElements(ns, S); Prefix(ns, 1, Precedes); }
      if order == SortedReverse { Prefix(ns, 1, Follows); }
    } else {
      assert mode == FirstOnly && S != [] ==> S[0] in S;
      if mode == Any && S != [] { assert S[0] in ns; }
    }
  }

  /** Rearranging the whole of a list keeps its elements and its freedom from repetitions. */
  lemma SameAfterSort(was: seq<Ref>, now: seq<Ref>)
    requires Rearranged(was, now, 0, |was|)
    ensures forall x :: x in now <==> x in was
  {
    assert was[0..|was|] == was && now[0..|was|] == now;
    forall x ensures x in now <==> x in was {
      assert x in now <==> x in multiset(now);
      assert x in was <==> x in multiset(was);
    }
  }

  /** duplicate_comparator: attributes come before nodes, otherwise the addresses decide. */
  function AddressLess(address: Ref -> int): (Ref, Ref) -> bool {
    (x: Ref, y: Ref) => if x.A? then (if y.A? then address(x) < address(y) else true)
                        else if y.A? then false else address(x) < address(y)
  }

  /** Different nodes, and different attributes, are at different addresses. */
  ghost predicate ValidAddresses(address: Ref -> int) {
    forall x: Ref, y: Ref :: x.A? == y.A? && address(x) == address(y) ==> x == y
  }

  lemma AddressesAreTotal(address: Ref -> int)
    requires ValidAddresses(address)
    ensures StrictTotal(AddressLess(address))
  {
    forall x: Ref, y: Ref, z: Ref ensures Law(AddressLess(address), x, y, z) {
    }
  }

  /** remove_duplicates */
  method RemoveDuplicates(address: Ref -> int, ns: seq<Ref>, order: Order) returns (r: seq<Ref>)
    requires ValidAddresses(address) && order == Unsorted
    ensures NoRepeats(r) && forall x :: x in r <==> x in ns
  {
    var a := new Ref[|ns|](i requires 0 <= i < |ns| => ns[i]);
    assert a[..] == ns;
    if order == Unsorted {
      AddressesAreTotal(address);
      Sort.Sort(a, 0, a.Length, AddressLess(address), AddressLess(address));
      SameAfterSort(ns, a[..]);
    }
    ghost var sorted := a[..];
    var n := UniqueInPlace(a);
    r := a[..n];
    UniqueOfSorted(AddressLess(address), sorted);
    forall i, k | 0 <= i < k < |r| ensures Before(Differ, r, i, k) {
      assert Before(AddressLess(address), r, i, k);
    }
  }

  /** xpath_get_order */
  method GetOrder(ns: seq<Ref>) returns (order: Order)
    requires NoRepeats(ns)
    ensures Tagged(order, ns)
  {
    if |ns| < 2 {
      return Order.Sorted;
    }
    PrecedesIsTotal();
    assert Before(Differ, ns, 0, 1);
    var first := Comparator(ns[0], ns[1]);
    for it := 1 to |ns| - 1
      invariant forall k :: 0 <= k < it ==> Precedes(ns[k], ns[k + 1]) == first
    {
      assert Before(Differ, ns, it, it + 1);
      if Comparator(ns[it], ns[it + 1]) != first {
        return Unsorted;
      }
    }
    if first {
      ChainOrder(ns, Precedes);
      return Order.Sorted;
    }
    forall k | 0 <= k < |ns| - 1 ensures Follows(ns[k], ns[k + 1]) {
      assert Before(Differ, ns, k, k + 1);
      Connected(Precedes, ns[k], ns[k + 1]);
    }
    ChainOrder(ns, Follows);
    return SortedReverse;
  }

  lemma {:induction false} ChainOrder(ns: seq<Ref>, less: (Ref, Ref) -> bool)
    requires less == Precedes || less == Follows
    requires forall k :: 0 <= k < |ns| - 1 ==> less(ns[k], ns[k + 1])
    ensures StrictlySorted(less, ns)
  {
    if 1 < |ns| {
      ChainOrder(ns[1..], less);
      forall k | 0 <= k < |ns| - 1 ensures less(ns[0], ns[1..][k]) {
        if 0 < k { assert Before(less, ns[1..], 0, k); }
      }
      Prepended(less, ns[0], ns[1..]);
      assert ns == [ns[0]] + ns[1..];
    }
  }

  /** sort_do: xpath_sort in document order */
  method SortDo(ns: seq<Ref>, order0: Order) returns (r: seq<Ref>, order: Order)
    requires NoRepeats(ns) && Tagged(order0, ns)
    ensures order == Order.Sorted && InOrder(r) && forall x :: x in r <==> x in ns
  {
    r, order := ns, order0;
    if order == Unsorted {
      var sorted := GetOrder(ns);
      if sorted == Unsorted {
        r := Sorting(ns);
        order := Order.Sorted;
      } else {
        order := sorted;
      }
    }
    if order != Order.Sorted {
      r := Reversing(r);
    }
    order := Order.Sorted;
  }

  method Sorting(ns: seq<Ref>) returns (r: seq<Ref>)
    requires NoRepeats(ns)
    ensures InOrder(r) && forall x :: x in r <==> x in ns
  {
    var a := new Ref[|ns|](i requires 0 <= i < |ns| => ns[i]);
    assert a[..] == ns;
    PrecedesIsTotal();
    ComparatorFits(ns);
    Sort.Sort(a, 0, a.Length, Comparator, Precedes);
    r := a[..];
    SortedWithoutRepeats(ns, r);
  }

  method Reversing(ns: seq<Ref>) returns (r: seq<Ref>)
    requires StrictlySorted(Follows, ns)
    ensures InOrder(r) && forall x :: x in r <==> x in ns
  {
    var a := new Ref[|ns|](i requires 0 <= i < |ns| => ns[i]);
    assert a[..] == ns;
    Reverse(a);
    r := a[..];
    ReversedIsInOrder(ns, r);
  }

  lemma SortedWithoutRepeats(was: seq<Ref>, now: seq<Ref>)
    requires NoRepeats(was) && Rearranged(was, now, 0, |was|) && Sort.Sorted(Precedes, now, 0, |now|)
    ensures InOrder(now) && forall x :: x in now <==> x in was
  {
    SameAfterSort(was, now);
    RearrangedNoRepeats(was, now);
    PrecedesIsTotal();
    forall i, k | 0 <= i < k < |now| ensures Before(Precedes, now, i, k) {
      assert Ordered(Precedes, now, i, k) && Before(Differ, now, i, k);
      Connected(Precedes, now[i], now[k]);
    }
  }

  lemma RearrangedNoRepeats(was: seq<Ref>, now: seq<Ref>)
    requires NoRepeats(was) && Rearranged(was, now, 0, |was|)
    ensures NoRepeats(now)
  {
    assert was[0..|was|] == was && now[0..|was|] == now;
    forall i, k | 0 <= i < k < |now| ensures Before(Differ, now, i, k) {
      if now[i] == now[k] {
        TwiceIn(now, i, k);
        OnceIn(was, now[i]);
      }
    }
  }

  /** No attribute is ever compared with itself if there are no repetitions. */
  lemma ComparatorFits(ns: seq<Ref>)
    requires NoRepeats(ns)
    ensures Fits(Comparator, Precedes, multiset(ns))
  {
    forall x, y ensures Agree(Comparator, Precedes, multiset(ns), x, y) {
      OnceIn(ns, x);
    }
  }

  lemma {:induction false} OnceIn(s: seq<Ref>, x: Ref)
    requires NoRepeats(s)
    ensures multiset(s)[x] <= 1
  {
    if s != [] {
      Rest(Differ, s);
      OnceIn(s[1..], x);
      assert s == [s[0]] + s[1..];
      assert s[0] !in s[1..];
    }
  }

  lemma ReversedIsInOrder(was: seq<Ref>, now: seq<Ref>)
    requires StrictlySorted(Follows, was) && |now| == |was| && forall k :: 0 <= k < |was| ==> now[k] == was[|was| - 1 - k]
    ensures InOrder(now) && forall x :: x in now <==> x in was
  {
    forall i, k | 0 <= i < k < |now| ensures Before(Precedes, now, i, k) {
      assert Before(Follows, was, |was| - 1 - k, |was| - 1 - i);
    }
    forall x ensures x in now <==> x in was {
      if x in was {
        var k :| 0 <= k < |was| && was[k] == x;
        assert now[|was| - 1 - k] == x;
      }
    }
  }

  /** xpath_first */
  method FirstOf(ns: seq<Ref>, order: Order, ghost S: seq<Ref>) returns (r: Ref)
    requires Answer(FirstOnly, ns, order, S) && InOrder(S)
    ensures r == First(S)
  {
    if |ns| == 0 {
      assert S == [];
      return Null;
    }
    assert 0 < |ns| && ns[|ns| - 1] in ns;
    match order {
      case Sorted => r := ns[0];
      case SortedReverse => r := ns[|ns| - 1];
      case Unsorted =>
        PrecedesIsTotal();
        ComparatorFits(ns);
        r := MinElement(ns, Comparator, Precedes);
    }
    LeastIsFirst(ns, order, S, r);
  }

  lemma LeastIsFirst(ns: seq<Ref>, order: Order, S: seq<Ref>, r: Ref)
    requires Answer(FirstOnly, ns, order, S) && InOrder(S) && r in ns
    requires match order
             case Sorted => r == ns[0]
             case SortedReverse => r == ns[|ns| - 1]
             case Unsorted => forall k :: 0 <= k < |ns| ==> !Precedes(ns[k], r)
    ensures S != [] && r == S[0]
  {
    PrecedesIsTotal();
    assert r in S;
    var k :| 0 <= k < |ns| && ns[k] == S[0];
    var m :| 0 <= m < |S| && S[m] == r;
    if 0 < m { assert Before(Precedes, S, 0, m); }
    if order == Order.Sorted && 0 < k { assert Before(Precedes, ns, 0, k); }
    if order == SortedReverse && k < |ns| - 1 { assert Before(Follows, ns, k, |ns| - 1); }
    Connected(Precedes, r, S[0]);
  }

  // Predicates: filtering a part of a buffer in place.

  /** A judge that only looks at the position keeps at most one node. */
  lemma {:induction false} KeepAt(judge: (Ref, nat, nat) -> bool, list: seq<Ref>, m: int, i: nat)
    requires i <= |list| && forall k :: 0 <= k < |list| ==> (judge(list[k], k + 1, |list|) <==> k + 1 == m)
    ensures Keep(judge, list, i) == if i < m <= |list| then [list[m - 1]] else []
    decreases |list| - i
  {
    if i < |list| { KeepAt(judge, list, m, i + 1); }
  }

  /** A judge that does not look at the position keeps the same nodes of any list. */
  lemma {:induction false} KeepAnywhere(judge: (Ref, nat, nat) -> bool, list: seq<Ref>, i: nat)
    requires i <= |list| && forall x, p, n :: judge(x, p, n) == judge(x, 1, 1)
    ensures forall x :: x in Keep(judge, list, i) <==> x in list[i..] && judge(x, 1, 1)
    decreases |list| - i
  {
    if i < |list| {
      KeepAnywhere(judge, list, i + 1);
      assert list[i..] == [list[i]] + list[i + 1..];
    }
  }

  lemma Inhabited(r: seq<Ref>)
    ensures r == [] || exists x :: x in r
  {
    if r != [] { assert r[0] in r; }
  }

  lemma AtMostOne(r: seq<Ref>)
    requires NoRepeats(r)
    ensures |r| <= 1 || exists x, y :: x in r && y in r && x != y
  {
    if 1 < |r| {
      assert Before(Differ, r, 0, 1);
      assert r[0] in r && r[1] in r;
    }
  }

  /** What apply_predicate leaves in the buffer from `first` on. */
  ghost predicate Applied(judge: (Ref, nat, nat) -> bool, ns: seq<Ref>, first: nat, once: bool, r: seq<Ref>)
    requires first <= |ns|
  {
    forall k :: Unfold(k) && k == APPLIED ==> r == ns[..first] + Cut(Keep(judge, ns[first..], 0), once)
  }

  /** apply_predicate in progress: the survivors so far are in [first, last), what is left to judge starts at it. */
  ghost predicate Filtering(judge: (Ref, nat, nat) -> bool, ns0: seq<Ref>, first: nat, ns: seq<Ref>, last: nat, it: nat, once: bool)
    requires first <= last <= it <= |ns| == |ns0|
  {
    (once ==> first == last)
    && forall k :: Unfold(k) && k == FILTERING ==>
      && ns[..first] == ns0[..first] && ns[it..] == ns0[it..]
      && ns[first..last] + Keep(judge, ns0[first..], it - first) == Keep(judge, ns0[first..], 0)
  }

  lemma FilteringKeeps(judge: (Ref, nat, nat) -> bool, ns0: seq<Ref>, first: nat, ns: seq<Ref>, last: nat, it: nat, once: bool,
                       i: nat, size: nat)
    requires first <= last <= it < |ns| == |ns0| && Filtering(judge, ns0, first, ns, last, it, once)
    requires i == it - first + 1 && size == |ns0| - first && judge(ns[it], i, size)
    ensures once ==> Applied(judge, ns0, first, once, ns[last := ns[it]][..last + 1])
    ensures !once ==> Filtering(judge, ns0, first, ns[last := ns[it]], last + 1, it + 1, once)
  {
    assert Unfold(FILTERING) && Unfold(APPLIED);
    var block, next := ns0[first..], ns[last := ns[it]];
    TailStep(ns, ns0, it);
    assert ns[it] == block[it - first];
    Compaction(ns, first, last, it);
    assert Keep(judge, block, it - first) == [ns[it]] + Keep(judge, block, it - first + 1);
    if !once {
      assert next[first..last + 1] + Keep(judge, block, it + 1 - first)
          == ns[first..last] + Keep(judge, block, it - first);
    }
  }

  lemma Compaction(ns: seq<Ref>, first: nat, last: nat, it: nat)
    requires first <= last <= it < |ns|
    ensures var next := ns[last := ns[it]];
            && next[it + 1..] == ns[it + 1..] && next[..first] == ns[..first]
            && next[first..last + 1] == ns[first..last] + [ns[it]]
            && next[..last + 1] == ns[..first] + ns[first..last] + [ns[it]]
  {
  }

  lemma TailStep(ns: seq<Ref>, ns0: seq<Ref>, it: nat)
    requires it < |ns| == |ns0| && ns[it..] == ns0[it..]
    ensures ns[it] == ns0[it] && ns[it + 1..] == ns0[it + 1..]
  {
    assert ns[it] == ns[it..][0] && ns0[it] == ns0[it..][0];
    assert ns[it + 1..] == ns[it..][1..] && ns0[it + 1..] == ns0[it..][1..];
  }

  lemma FilteringSkips(judge: (Ref, nat, nat) -> bool, ns0: seq<Ref>, first: nat, ns: seq<Ref>, last: nat, it: nat, once: bool,
                       i: nat, size: nat)
    requires first <= last <= it < |ns| == |ns0| && Filtering(judge, ns0, first, ns, last, it, once)
    requires i == it - first + 1 && size == |ns0| - first && !judge(ns[it], i, size)
    ensures Filtering(judge, ns0, first, ns, last, it + 1, once)
  {
    assert Unfold(FILTERING);
    TailStep(ns, ns0, it);
    assert ns[it] == ns0[first..][it - first];
  }

  lemma FilteringStart(judge: (Ref, nat, nat) -> bool, ns0: seq<Ref>, first: nat, once: bool)
    requires first <= |ns0|
    ensures Filtering(judge, ns0, first, ns0, first, first, once)
  {
  }

  lemma FilteringEnd(judge: (Ref, nat, nat) -> bool, ns0: seq<Ref>, first: nat, ns: seq<Ref>, last: nat, once: bool)
    requires first <= last <= |ns| == |ns0| && Filtering(judge, ns0, first, ns, last, |ns|, once)
    ensures Applied(judge, ns0, first, once, ns[..last])
  {
    assert Unfold(FILTERING) && Unfold(APPLIED);
    assert ns[..last] == ns[..first] + ns[first..last];
  }

  /** One round of the loop of apply_predicate: a survivor is moved to the front. */
  method Sift(ghost judge: (Ref, nat, nat) -> bool, ghost ns0: seq<Ref>, ghost first: nat, ns: seq<Ref>, last: nat, it: nat,
              once: bool, b: bool, ghost i: nat, ghost size: nat)
    returns (next: seq<Ref>, last': nat, it': nat)
    requires first <= last <= it < |ns| == |ns0| && Filtering(judge, ns0, first, ns, last, it, once)
    requires i == it - first + 1 && size == |ns0| - first && b == judge(ns[it], i, size)
    ensures first <= last' <= it' == it + 1 && |next| == |ns0|
    ensures once && b ==> Applied(judge, ns0, first, once, next[..last'])
    ensures !(once && b) ==> Filtering(judge, ns0, first, next, last', it', once)
  {
    it' := it + 1;
    if b {
      FilteringKeeps(judge, ns0, first, ns, last, it, once, i, size);
      next := ns[last := ns[it]];
      last' := last + 1;
    } else {
      FilteringSkips(judge, ns0, first, ns, last, it, once, i, size);
      next, last' := ns, last;
    }
  }

  lemma TwoParts(front: seq<Ref>, back: seq<Ref>, ns: seq<Ref>)
    requires ns == front + back
    ensures ns[..|front|] == front && ns[|front|..] == back
  {
  }

  // Filters: a predicate applied to the answer to a question about the left operand.

  lemma FilterAnywhere(judge: (Ref, nat, nat) -> bool, ns: seq<Ref>, order: Order, S: seq<Ref>, mode: Mode, once: bool)
    requires Answer(All, ns, order, S) && InOrder(S) && (once ==> EvalOnce(order, mode))
    requires forall x, p, n :: judge(x, p, n) == judge(x, 1, 1)
    ensures Answer(mode, Cut(Keep(judge, ns, 0), once), order, Keep(judge, S, 0))
  {
    KeepAnywhere(judge, ns, 0);
    KeepAnywhere(judge, S, 0);
    KeepOrder(judge, ns, 0, Differ);
    KeepOrder(judge, S, 0, Precedes);
    if order == Order.Sorted { KeepOrder(judge, ns, 0, Precedes); }
    if order == SortedReverse { KeepOrder(judge, ns, 0, Follows); }
    assert ns[0..] == ns && S[0..] == S;
    CutAnswers(mode, Keep(judge, ns, 0), order, Keep(judge, S, 0), once);
  }

  /** If the predicate gives the same of the sorted buffer and of the set, the tag may say sorted. */
  lemma FilterSorted(judge: (Ref, nat, nat) -> bool, ns: seq<Ref>, S: seq<Ref>, mode: Mode, once: bool)
    requires InOrder(S) && Keep(judge, ns, 0) == Keep(judge, S, 0) && (once ==> EvalOnce(Order.Sorted, mode))
    ensures Answer(mode, Cut(Keep(judge, ns, 0), once), Order.Sorted, Keep(judge, S, 0))
  {
    KeepOrder(judge, S, 0, Precedes);
    OrderedNoRepeats(Keep(judge, S, 0));
    CutAnswers(mode, Keep(judge, S, 0), Order.Sorted, Keep(judge, S, 0), once);
  }

  /** The first node of a set is the first of any sorted part of the set that contains it. */
  lemma FirstOfPart(ns: seq<Ref>, S: seq<Ref>)
    requires InOrder(ns) && InOrder(S) && (forall x :: x in ns ==> x in S) && Complete(FirstOnly, ns, S)
    ensures (ns == [] <==> S == []) && (ns != [] ==> ns[0] == S[0])
  {
    Inhabited(ns);
    if ns != [] && S != [] {
      assert ns[0] in ns;
      LeastOf(ns, S[0]);
      LeastOf(S, ns[0]);
      PrecedesIsTotal();
      Connected(Precedes, ns[0], S[0]);
    }
  }

  lemma UnionAnswer(mode: Mode, ls: seq<Ref>, lo: Order, L: seq<Ref>, rs: seq<Ref>, ro: Order, R: seq<Ref>, r: seq<Ref>)
    requires Answer(mode, ls, lo, L) && Answer(mode, rs, ro, R) && InOrder(L) && InOrder(R)
    requires NoRepeats(r) && forall x :: x in r <==> x in rs + ls
    ensures Answer(mode, r, Unsorted, AsSet(L + R))
  {
    AsSetSpec(L + R);
    var S := AsSet(L + R);
    if S != [] {
      assert S[0] in S && S[0] in L + R;
      if S[0] in L { UnionFirst(S, L); } else { UnionFirst(S, R); }
      if mode == Any && ls != [] { assert ls[0] in r; }
      if mode == Any && rs != [] { assert rs[0] in r; }
    }
  }

  lemma UnionFirst(S: seq<Ref>, L: seq<Ref>)
    requires InOrder(S) && InOrder(L) && S != [] && S[0] in L && forall x :: x in L ==> x in S
    ensures L != [] && L[0] == S[0]
  {
    LeastOf(L, S[0]);
    LeastOf(S, L[0]);
    PrecedesIsTotal();
    Connected(Precedes, L[0], S[0]);
  }

  lemma {:induction false} GatherNothing(con: Ref -> seq<Ref>, C: seq<Ref>)
    requires forall x :: con(x) == []
    ensures Gather(con, C) == []
  {
    if C != [] { GatherNothing(con, C[1..]); }
  }

  // Steps: collecting the contributions of several context nodes.

  /** The first k context nodes have been dealt with. */
  ghost predicate Covers(con: Ref -> seq<Ref>, s: seq<Ref>, k: nat, mode: Mode, ns: seq<Ref>)
    requires k <= |s|
  {
    && (forall x :: x in ns ==> exists j :: 0 <= j < k && Gives(con, s, j, x))
    && (forall j :: 0 <= j < k ==> Complete(mode, ns, AsSet(con(s[j]))))
  }

  predicate Gives(con: Ref -> seq<Ref>, s: seq<Ref>, j: nat, x: Ref)
    requires j < |s|
  {
    x in con(s[j])
  }

  lemma MoreIsComplete(mode: Mode, ns: seq<Ref>, more: seq<Ref>, S: seq<Ref>)
    requires Complete(mode, ns, S) && forall x :: x in ns ==> x in more
    ensures Complete(mode, more, S)
  {
    if mode == Any && S != [] { assert ns[0] in more; }
  }

  lemma CoversMore(con: Ref -> seq<Ref>, s: seq<Ref>, k: nat, mode: Mode, ns: seq<Ref>, block: seq<Ref>)
    requires k < |s| && Covers(con, s, k, mode, ns)
    requires (forall x :: x in block ==> x in con(s[k])) && Complete(mode, block, AsSet(con(s[k])))
    ensures Covers(con, s, k + 1, mode, ns + block)
  {
    forall x | x in ns + block ensures exists j :: 0 <= j < k + 1 && Gives(con, s, j, x) {
      if x !in ns { assert Gives(con, s, k, x); }
    }
    forall j | 0 <= j < k + 1 ensures Complete(mode, ns + block, AsSet(con(s[j]))) {
      if j < k {
        MoreIsComplete(mode, ns, ns + block, AsSet(con(s[j])));
      } else {
        MoreIsComplete(mode, block, ns + block, AsSet(con(s[j])));
      }
    }
  }

  /** Once all context nodes have been dealt with, the buffer holds what was asked for. */
  lemma CoversAll(con: Ref -> seq<Ref>, s: seq<Ref>, C: seq<Ref>, mode: Mode, ns: seq<Ref>)
    requires Covers(con, s, |s|, mode, ns) && forall x :: x in s <==> x in C
    ensures (forall x :: x in ns ==> x in AsSet(Gather(con, C))) && Complete(mode, ns, AsSet(Gather(con, C)))
  {
    var all := Gather(con, C);
    AsSetSpec(all);
    forall x | x in ns ensures x in all {
      var j :| 0 <= j < |s| && Gives(con, s, j, x);
      assert s[j] in C;
      var k :| 0 <= k < |C| && C[k] == s[j];
      Gathered(con, C, k, x);
    }
    forall x | x in all ensures (mode == All || (mode == FirstOnly && x == AsSet(all)[0])) ==> x in ns
      ensures mode == Any ==> ns != []
    {
      var k := GatheredFrom(con, C, x);
      assert C[k] in s;
      var j :| 0 <= j < |s| && s[j] == C[k];
      AsSetSpec(con(s[j]));
      assert Complete(mode, ns, AsSet(con(s[j])));
      if mode == FirstOnly && x == AsSet(all)[0] { FirstOfSome(con, C, k, all, x); }
    }
    if AsSet(all) != [] { assert AsSet(all)[0] in all; }
  }

  /** The first node of the whole set is the first of every contribution it belongs to. */
  lemma FirstOfSome(con: Ref -> seq<Ref>, C: seq<Ref>, k: nat, all: seq<Ref>, x: Ref)
    requires k < |C| && all == Gather(con, C) && x in con(C[k]) && AsSet(all) != [] && x == AsSet(all)[0]
    ensures AsSet(con(C[k])) != [] && AsSet(con(C[k]))[0] == x
  {
    var S, T := AsSet(all), AsSet(con(C[k]));
    AsSetSpec(all);
    AsSetSpec(con(C[k]));
    assert x in T && T[0] in con(C[k]);
    Gathered(con, C, k, T[0]);
    LeastOf(S, T[0]);
    LeastOf(T, x);
    PrecedesIsTotal();
    Connected(Precedes, x, T[0]);
  }

  lemma LeastOf(S: seq<Ref>, x: Ref)
    requires InOrder(S) && x in S
    ensures S[0] == x || Precedes(S[0], x)
  {
    var k :| 0 <= k < |S| && S[k] == x;
    if 0 < k { assert Before(Precedes, S, 0, k); }
  }

  lemma CutListIsComplete(list: seq<Ref>, order: Order, mode: Mode, cut: bool)
    requires NoRepeats(list) && Tagged(order, list)
    requires cut && 1 < |list| ==> EvalOnce(order, mode)
    ensures (forall y :: y in Cut(list, cut) ==> y in list) && Complete(mode, Cut(list, cut), AsSet(list))
    ensures NoRepeats(Cut(list, cut)) && Tagged(order, Cut(list, cut))
  {
    AsSetSpec(list);
    Inhabited(AsSet(list));
    if cut && 1 < |list| {
      Prefix(list, 1, Differ);
      if order == Order.Sorted { Prefix(list, 1, Precedes); }
      if order == SortedReverse { Prefix(list, 1, Follows); }
      if mode == FirstOnly { SameElements(list, AsSet(list)); }
    } else if AsSet(list) != [] {
      assert AsSet(list)[0] in list;
    }
  }

  lemma Append(less: (Ref, Ref) -> bool, a: seq<Ref>, b: seq<Ref>)
    requires StrictlySorted(less, a) && StrictlySorted(less, b)
    requires forall x, y :: x in a && y in b ==> less(x, y)
    ensures StrictlySorted(less, a + b)
  {
    forall i, k | 0 <= i < k < |a + b| ensures Before(less, a + b, i, k) {
      if k < |a| {
        assert Before(less, a, i, k);
      } else if |a| <= i {
        assert Before(less, b, i - |a|, k - |a|);
      } else {
        assert a[i] in a && b[k - |a|] in b;
      }
    }
  }

  /** The elements before and behind one that is dropped stay in order. */
  lemma Dropped(less: (Ref, Ref) -> bool, a: seq<Ref>, x: Ref, b: seq<Ref>)
    requires StrictlySorted(less, a + [x] + b)
    ensures StrictlySorted(less, a + b)
  {
    forall i, k | 0 <= i < k < |a + b| ensures Before(less, a + b, i, k) {
      assert Before(less, a + [x] + b, if i < |a| then i else i + 1, if k < |a| then k else k + 1);
    }
  }

  /**
   What is known of the contributions of the context nodes of a step: they come in the order
   of the axis; on the self axis a node contributes nothing but itself; on the child,
   attribute and self axes different context nodes never contribute the same node.
   */
  ghost predicate WellBehaved(con: Ref -> seq<Ref>, axisOrder: Order, single: bool, separate: bool) {
    && (forall x :: NoRepeats(con(x)) && Tagged(axisOrder, con(x)))
    && (single ==> forall x, y :: y in con(x) ==> y == x)
    && (separate ==> forall a, b, y :: y in con(a) && y in con(b) ==> a == b)
  }

  /** The state of the loop of step_do before context node k; its tag is unsorted as soon as two nodes have contributed. */
  ghost predicate Stepping(con: Ref -> seq<Ref>, axisOrder: Order, single: bool, separate: bool,
                           s: seq<Ref>, sOrder: Order, k: nat, mode: Mode, ns: seq<Ref>, order: Order)
    requires k <= |s|
  {
    forall u :: Unfold(u) && u == STEPPING ==>
      && Covers(con, s, k, mode, ns)
      && (separate ==> NoRepeats(ns))
      && if single then
           order == sOrder && Tagged(order, ns + s[k..])
         else
           Tagged(order, ns) && (order == axisOrder || order == Unsorted)
  }

  lemma StepStart(con: Ref -> seq<Ref>, axisOrder: Order, single: bool, separate: bool,
                  s: seq<Ref>, sOrder: Order, mode: Mode, order: Order)
    requires Tagged(sOrder, s) && order == if single then sOrder else axisOrder
    ensures Stepping(con, axisOrder, single, separate, s, sOrder, 0, mode, [], order)
  {
    assert [] + s[0..] == s;
  }

  lemma StepForward(con: Ref -> seq<Ref>, axisOrder: Order, single: bool, separate: bool,
                    s: seq<Ref>, sOrder: Order, k: nat, mode: Mode, ns: seq<Ref>, order: Order, cut: bool, order': Order)
    requires k < |s| && NoRepeats(s) && WellBehaved(con, axisOrder, single, separate)
    requires Stepping(con, axisOrder, single, separate, s, sOrder, k, mode, ns, order)
    requires order' == if !single && |ns| != 0 then Unsorted else order
    requires cut ==> EvalOnce(order', mode) || EvalOnce(axisOrder, mode)
    ensures Stepping(con, axisOrder, single, separate, s, sOrder, k + 1, mode, ns + Cut(con(s[k]), cut), order')
  {
    assert Unfold(STEPPING);
    var block := Cut(con(s[k]), cut);
    if single { AtMostOne(con(s[k])); }
    CutListIsComplete(con(s[k]), axisOrder, mode, cut);
    CoversMore(con, s, k, mode, ns, block);
    if separate { StepSeparate(con, s, k, mode, ns, block); }
    if single {
      StepSingle(ns, block, s, k, sOrder);
    } else if |ns| == 0 {
      assert ns + block == block;
    }
  }

  lemma StepSingle(ns: seq<Ref>, block: seq<Ref>, s: seq<Ref>, k: nat, order: Order)
    requires k < |s| && |block| <= 1 && (forall y :: y in block ==> y == s[k]) && Tagged(order, ns + s[k..])
    ensures Tagged(order, ns + block + s[k + 1..])
  {
    assert s[k..] == [s[k]] + s[k + 1..];
    Inhabited(block);
    if block == [] {
      assert ns + s[k..] == ns + [s[k]] + s[k + 1..];
      if order == Order.Sorted { Dropped(Precedes, ns, s[k], s[k + 1..]); }
      if order == SortedReverse { Dropped(Follows, ns, s[k], s[k + 1..]); }
      assert ns + [] == ns;
    } else {
      assert block == [s[k]];
      assert ns + block + s[k + 1..] == ns + s[k..];
    }
  }

  lemma StepSeparate(con: Ref -> seq<Ref>, s: seq<Ref>, k: nat, mode: Mode, ns: seq<Ref>, block: seq<Ref>)
    requires k < |s| && NoRepeats(s) && NoRepeats(ns) && NoRepeats(block) && Covers(con, s, k, mode, ns)
    requires forall a, b, y :: y in con(a) && y in con(b) ==> a == b
    requires forall y :: y in block ==> y in con(s[k])
    ensures NoRepeats(ns + block)
  {
    forall x, y | x in ns && y in block ensures Differ(x, y) {
      var j :| 0 <= j < k && Gives(con, s, j, x);
      assert Before(Differ, s, j, k);
    }
    Append(Differ, ns, block);
  }

  /** After the loop, and the removal of duplicates if the tag calls for it, the buffer is the answer. */
  lemma StepDone(con: Ref -> seq<Ref>, axisOrder: Order, single: bool, separate: bool,
                 s: seq<Ref>, sOrder: Order, C: seq<Ref>, mode: Mode, ns: seq<Ref>, order: Order, r: seq<Ref>)
    requires Stepping(con, axisOrder, single, separate, s, sOrder, |s|, mode, ns, order) && forall x :: x in s <==> x in C
    requires single ==> separate
    requires if !separate && order == Unsorted then NoRepeats(r) && (forall x :: x in r <==> x in ns) else r == ns
    ensures Answer(mode, r, order, AsSet(Gather(con, C)))
  {
    assert Unfold(STEPPING);
    CoversAll(con, s, C, mode, ns);
    MoreIsComplete(mode, ns, r, AsSet(Gather(con, C)));
    assert ns + s[|s|..] == ns;
    if !separate && order != Unsorted { OrderedNoRepeats(r); }
  }
}
