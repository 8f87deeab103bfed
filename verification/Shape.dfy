/**
 A tree as the list of its nodes in document order (preorder) together with the
 depth of each node.  The four pointers that pugixml keeps in a node are functions
 of the depths alone; they are all computed by two scans, `Nxt` and `Last`.
 */
module Shape {

  type Depths = seq<nat>

  /** One root at depth 0; every other node is at most one level below its predecessor. */
  ghost predicate WellFormed(d: Depths) {
    && 0 < |d|
    && d[0] == 0
    && (forall i :: 0 < i < |d| ==> 1 <= d[i])
    && (forall i :: 0 < i < |d| ==> StepDown(d, i))
  }

  predicate StepDown(d: Depths, i: int)
    requires 0 < i < |d|
  {
    d[i] <= d[i - 1] + 1
  }

  /** The first position at or after q that is no deeper than v; |d| when there is none. */
  function Nxt(d: Depths, q: nat, v: int): (k: nat)
    requires q <= |d|
    ensures q <= k <= |d|
    decreases |d| - q
  {
    if q == |d| || d[q] <= v then q else Nxt(d, q + 1, v)
  }

  /** The last position before q that is no deeper than v; -1 when there is none. */
  function Last(d: Depths, q: nat, v: int): (j: int)
    requires q <= |d|
    ensures -1 <= j < q
  {
    if q == 0 then -1 else if d[q - 1] <= v then q - 1 else Last(d, q - 1, v)
  }

  /** The position just after the subtree of i. */
  function End(d: Depths, i: nat): (k: nat)
    requires i < |d|
    ensures i < k <= |d|
  {
    Nxt(d, i + 1, d[i])
  }

  // The pointers of the node at position i, as positions; -1 is the null pointer.

  function Parent(d: Depths, i: nat): (j: int)
    requires i < |d|
    ensures -1 <= j < i
  {
    Last(d, i, d[i] as int - 1)
  }

  function FirstChild(d: Depths, i: nat): int
    requires i < |d|
  {
    if i + 1 < |d| && d[i] < d[i + 1] then i + 1 else -1
  }

  function NextSibling(d: Depths, i: nat): int
    requires i < |d|
  {
    var e := End(d, i);
    if e < |d| && d[e] == d[i] then e else -1
  }

  /** The half-cyclic back pointer: a first child points at the last one, the root at itself. */
  function PrevSiblingC(d: Depths, i: nat): (j: int)
    requires i < |d|
    ensures -1 <= j < |d|
  {
    if i == 0 then 0
    else
      var p := Parent(d, i);
      if p == i - 1 && 0 <= p then Last(d, End(d, p), d[i]) else Last(d, i, d[i])
  }

  lemma PrevSiblingExists(d: Depths, i: nat)
    requires WellFormed(d) && i < |d|
    ensures 0 <= PrevSiblingC(d, i)
  {
    if 0 < i {
      ParentDepth(d, i);
      LastSpec(d, End(d, Parent(d, i)), d[i]);
      LastSpec(d, i, d[i]);
    }
  }

  /** `d` with the tree `e` inserted at position p, its root at depth b. */
  function Graft(d: Depths, p: nat, e: Depths, b: nat): (r: Depths)
    requires p <= |d|
    ensures Grafted(d, p, e, b, r)
  {
    d[..p] + seq(|e|, i requires 0 <= i < |e| => e[i] + b) + d[p..]
  }

  /** r is `d` with `e` inserted at position p, pointwise. */
  ghost predicate Grafted(d: Depths, p: nat, e: Depths, b: nat, r: Depths)
    requires p <= |d|
  {
    && |r| == |d| + |e|
    && forall j {:trigger r[j]} :: 0 <= j < |r| ==>
         r[j] == if j < p then d[j] else if j < p + |e| then e[j - p] + b else d[j - |e|]
  }

  /** Position p may receive a subtree whose root is at depth b. */
  ghost predicate Slot(d: Depths, p: nat, b: nat) {
    && WellFormed(d)
    && 0 < p <= |d|
    && 1 <= b <= d[p - 1] + 1
    && (p < |d| ==> d[p] <= b)
  }

  lemma NxtSpec(d: Depths, q: nat, v: int)
    requires q <= |d|
    ensures var k := Nxt(d, q, v);
            (k < |d| ==> d[k] <= v) && forall j :: q <= j < k ==> d[j] > v
    decreases |d| - q
  {
    if q < |d| && d[q] > v { NxtSpec(d, q + 1, v); }
  }

  lemma LastSpec(d: Depths, q: nat, v: int)
    requires q <= |d|
    ensures var j := Last(d, q, v);
            (0 <= j ==> d[j] <= v) && forall k :: j < k < q ==> d[k] > v
  {
    if 0 < q && d[q - 1] > v { LastSpec(d, q - 1, v); }
  }

  lemma NxtIs(d: Depths, q: nat, v: int, k: nat)
    requires q <= k <= |d|
    requires k < |d| ==> d[k] <= v
    requires forall j :: q <= j < k ==> d[j] > v
    ensures Nxt(d, q, v) == k
  {
    NxtSpec(d, q, v);
    var n := Nxt(d, q, v);
    assert n < |d| ==> d[n] <= v;
  }

  lemma LastIs(d: Depths, q: nat, v: int, j: int)
    requires q <= |d| && -1 <= j < q
    requires 0 <= j ==> d[j] <= v
    requires forall k :: j < k < q ==> d[k] > v
    ensures Last(d, q, v) == j
  {
    LastSpec(d, q, v);
    var n := Last(d, q, v);
    assert 0 <= n ==> d[n] <= v;
  }

  /** In a well-formed shape the parent is exactly one level up. */
  lemma ParentDepth(d: Depths, i: nat)
    requires WellFormed(d) && 0 < i < |d|
    ensures 0 <= Parent(d, i) && d[Parent(d, i)] == d[i] - 1
    ensures i < End(d, Parent(d, i))
  {
    LastSpec(d, i, d[i] as int - 1);
    NxtSpec(d, Parent(d, i) + 1, d[Parent(d, i)]);
    var p := Parent(d, i);
    assert d[0] < d[i];
    assert StepDown(d, p + 1);
    assert p + 1 == i || d[p + 1] >= d[i];
    assert End(d, p) == |d| || d[End(d, p)] <= d[p];
  }

  lemma GraftWellFormed(d: Depths, p: nat, e: Depths, b: nat, r: Depths)
    requires Slot(d, p, b) && WellFormed(e) && Grafted(d, p, e, b, r)
    ensures WellFormed(r)
  {
    forall i | 0 < i < |r| ensures StepDown(r, i) {
      if i < p { assert StepDown(d, i); }
      else if p < i < p + |e| { assert StepDown(e, i - p); }
      else if p + |e| < i { assert StepDown(d, i - |e|); }
    }
  }

  /** Where the old position i (or the null position -1) is after a graft of m nodes at p. */
  function Shift(i: int, p: nat, m: nat): int {
    if i < p then i else i + m
  }

  // A scan for a level above the grafted tree does not see it.

  lemma NxtOuter(d: Depths, p: nat, e: Depths, b: nat, r: Depths, q: nat, v: int)
    requires q <= |d| && p <= |d| && v < b && Grafted(d, p, e, b, r)
    ensures Nxt(r, Shift(q, p, |e|), v) == Shift(Nxt(d, q, v), p, |e|)
  {
    NxtSpec(d, q, v);
    NxtIs(r, Shift(q, p, |e|), v, Shift(Nxt(d, q, v), p, |e|));
  }

  lemma NxtOuterAt(d: Depths, p: nat, e: Depths, b: nat, r: Depths, v: int)
    requires p <= |d| && v < b && Grafted(d, p, e, b, r)
    ensures Nxt(r, p, v) == Shift(Nxt(d, p, v), p, |e|)
  {
    NxtSpec(d, p, v);
    NxtIs(r, p, v, Shift(Nxt(d, p, v), p, |e|));
  }

  lemma LastOuter(d: Depths, p: nat, e: Depths, b: nat, r: Depths, q: nat, v: int)
    requires q <= |d| && p <= |d| && v < b && Grafted(d, p, e, b, r)
    ensures Last(r, Shift(q, p, |e|), v) == Shift(Last(d, q, v), p, |e|)
  {
    LastSpec(d, q, v);
    LastIs(r, Shift(q, p, |e|), v, Shift(Last(d, q, v), p, |e|));
  }

  lemma LastOuterAt(d: Depths, p: nat, e: Depths, b: nat, r: Depths, v: int)
    requires p <= |d| && Grafted(d, p, e, b, r)
    ensures Last(r, p, v) == Last(d, p, v)
  {
    LastSpec(d, p, v);
    LastIs(r, p, v, Last(d, p, v));
  }

  // A scan at the level of the grafted tree, or below it, stays on its side of it.

  lemma NxtInner(d: Depths, p: nat, e: Depths, b: nat, r: Depths, q: nat, v: int)
    requires q <= |d| && p <= |d| && b <= v && (p < |d| ==> d[p] <= b) && WellFormed(e) && Grafted(d, p, e, b, r)
    ensures p <= q ==> Nxt(r, q + |e|, v) == Nxt(d, q, v) + |e|
    ensures q <= p ==> Nxt(r, q, v) == Nxt(d, q, v) <= p
  {
    NxtSpec(d, q, v);
    if p <= q { NxtIs(r, q + |e|, v, Nxt(d, q, v) + |e|); }
    if q <= p { NxtIs(r, q, v, Nxt(d, q, v)); }
  }

  lemma LastInner(d: Depths, p: nat, e: Depths, b: nat, r: Depths, q: nat, v: int)
    requires q <= |d| && p <= |d| && b <= v && (p < |d| ==> d[p] <= b) && WellFormed(e) && Grafted(d, p, e, b, r)
    ensures p < q ==> p <= Last(d, q, v) && Last(r, q + |e|, v) == Last(d, q, v) + |e|
    ensures q <= p ==> Last(r, q, v) == Last(d, q, v)
  {
    LastSpec(d, q, v);
    if p < q { LastIs(r, q + |e|, v, Last(d, q, v) + |e|); }
    if q <= p { LastIs(r, q, v, Last(d, q, v)); }
  }

  // A scan that starts inside the grafted tree.

  lemma NxtInside(d: Depths, p: nat, e: Depths, b: nat, r: Depths, k: nat, v: nat)
    requires k <= |e| && p <= |d| && (p < |d| ==> d[p] <= b) && WellFormed(e) && Grafted(d, p, e, b, r)
    ensures Nxt(r, p + k, b + v) == p + Nxt(e, k, v)
  {
    NxtSpec(e, k, v);
    NxtIs(r, p + k, b + v, p + Nxt(e, k, v));
  }

  lemma LastInside(d: Depths, p: nat, e: Depths, b: nat, r: Depths, k: nat, v: nat)
    requires 0 < k <= |e| && p <= |d| && WellFormed(e) && Grafted(d, p, e, b, r)
    ensures Last(r, p + k, b + v) == p + Last(e, k, v)
  {
    LastSpec(e, k, v);
    assert e[0] <= v;
    LastIs(r, p + k, b + v, p + Last(e, k, v));
  }

  /** At its own level the last node of the grafted tree is its root. */
  lemma LastRoot(d: Depths, p: nat, e: Depths, b: nat, r: Depths)
    requires p <= |d| && WellFormed(e) && Grafted(d, p, e, b, r)
    ensures Last(r, p + |e|, b) == p
  {
    LastIs(r, p + |e|, b, p);
  }

  lemma GraftParent(d: Depths, p: nat, e: Depths, b: nat, r: Depths, i: nat)
    requires Slot(d, p, b) && WellFormed(e) && i < |d| && Grafted(d, p, e, b, r)
    ensures r[Shift(i, p, |e|)] == d[i]
    ensures Parent(r, Shift(i, p, |e|)) == Shift(Parent(d, i), p, |e|)
  {
    if d[i] <= b {
      LastOuter(d, p, e, b, r, i, d[i] as int - 1);
    } else {
      LastInner(d, p, e, b, r, i, d[i] as int - 1);
    }
  }

  lemma GraftEnd(d: Depths, p: nat, e: Depths, b: nat, r: Depths, i: nat)
    requires Slot(d, p, b) && WellFormed(e) && i < |d| && Grafted(d, p, e, b, r)
    ensures End(r, Shift(i, p, |e|)) == (if i < p && b <= d[i] then End(d, i) else Shift(End(d, i), p, |e|))
    ensures i < p && b <= d[i] ==> End(d, i) <= p
  {
    if d[i] < b {
      if i + 1 == p { NxtOuterAt(d, p, e, b, r, d[i]); } else { NxtOuter(d, p, e, b, r, i + 1, d[i]); }
    } else {
      NxtInner(d, p, e, b, r, i + 1, d[i]);
    }
  }

  lemma GraftNextSibling(d: Depths, p: nat, e: Depths, b: nat, r: Depths, i: nat)
    requires Slot(d, p, b) && WellFormed(e) && i < |d| && Grafted(d, p, e, b, r)
    ensures var owner := Last(d, p, b - 1);
            var before := Last(d, p, b);
            NextSibling(r, Shift(i, p, |e|)) ==
              if i == before && before != owner then p else Shift(NextSibling(d, i), p, |e|)
  {
    GraftEnd(d, p, e, b, r, i);
    BeforeSlot(d, p, b, i);
  }

  /** The node before a slot in its list is the one at the same level whose subtree ends there. */
  lemma BeforeSlot(d: Depths, p: nat, b: nat, i: nat)
    requires Slot(d, p, b) && i < |d|
    ensures (i == Last(d, p, b) && Last(d, p, b) != Last(d, p, b - 1)) <==> (i < p && d[i] == b && End(d, i) == p)
  {
    LastSpec(d, p, b);
    NxtSpec(d, i + 1, d[i]);
    OwnerDepth(d, p, b);
    if i < p && d[i] == b && End(d, i) == p { LastIs(d, p, b, i); }
    if i == Last(d, p, b) && d[i] == b { NxtIs(d, i + 1, d[i], p); }
    if i == Last(d, p, b) && d[i] != b { LastIs(d, p, b - 1, i); }
  }

  /** The owner of a slot, the node that becomes the parent of the grafted root, is one level above it. */
  lemma OwnerDepth(d: Depths, p: nat, b: nat)
    requires Slot(d, p, b)
    ensures 0 <= Last(d, p, b - 1) && d[Last(d, p, b - 1)] == b - 1
  {
    LastSpec(d, p, b - 1);
    var owner := Last(d, p, b - 1);
    assert d[0] <= b - 1;
    if owner + 1 < p { assert StepDown(d, owner + 1); }
  }

  lemma GraftPrev(d: Depths, p: nat, e: Depths, b: nat, r: Depths, i: nat)
    requires Slot(d, p, b) && WellFormed(e) && i < |d| && Grafted(d, p, e, b, r)
    ensures var owner := Last(d, p, b - 1);
            PrevSiblingC(r, Shift(i, p, |e|)) ==
              if (i == p && d[p] == b) || (0 <= owner == i - 1 && i < p && p == End(d, owner)) then p
              else Shift(PrevSiblingC(d, i), p, |e|)
  {
    if i != 0 {
      GraftParent(d, p, e, b, r, i);
      ParentDepth(d, i);
      OwnerDepth(d, p, b);
      if Parent(d, i) == i - 1 && i != p {
        GraftTail(d, p, e, b, r, i);
      } else if i == p && d[p] == b {
        LastRoot(d, p, e, b, r);
      } else if d[i] < b {
        LastOuter(d, p, e, b, r, i, d[i]);
      } else {
        LastInner(d, p, e, b, r, i, d[i]);
      }
    }
  }

  /** The tail pointer kept in a first child. */
  lemma GraftTail(d: Depths, p: nat, e: Depths, b: nat, r: Depths, i: nat)
    requires Slot(d, p, b) && WellFormed(e) && Grafted(d, p, e, b, r)
    requires 0 < i < |d| && i != p && Parent(d, i) == i - 1
    ensures var owner := Last(d, p, b - 1);
            Last(r, End(r, Shift(i - 1, p, |e|)), d[i]) ==
              if 0 <= owner == i - 1 && i < p && p == End(d, owner) then p
              else Shift(Last(d, End(d, i - 1), d[i]), p, |e|)
  {
    var up := i - 1;
    var v, n := d[i], End(d, up);
    ParentDepth(d, i);
    OwnerDepth(d, p, b);
    GraftEnd(d, p, e, b, r, up);
    if v < b {
      LastOuter(d, p, e, b, r, n, v);
    } else if up < p && n == p && v == b {
      NxtSpec(d, up + 1, d[up]);
      LastIs(d, p, b - 1, up);
      LastRoot(d, p, e, b, r);
    } else {
      LastInner(d, p, e, b, r, n, v);
    }
  }

  lemma GraftFirstChild(d: Depths, p: nat, e: Depths, b: nat, r: Depths, i: nat)
    requires Slot(d, p, b) && WellFormed(e) && i < |d| && Grafted(d, p, e, b, r)
    ensures var owner := Last(d, p, b - 1);
            FirstChild(r, Shift(i, p, |e|)) == if i == owner && p == owner + 1 then p else Shift(FirstChild(d, i), p, |e|)
  {
    OwnerDepth(d, p, b);
    if i + 1 == p && d[i] < b { LastIs(d, p, b - 1, i); }
  }

  /**
   The pointers of the old nodes after a subtree is grafted at a slot: all are
   carried over by `Shift`, except for the at most three that the list insertion
   routines rewrite.
   */
  lemma GraftOld(d: Depths, p: nat, e: Depths, b: nat, r: Depths, i: nat)
    requires Slot(d, p, b) && WellFormed(e) && i < |d| && Grafted(d, p, e, b, r)
    ensures var m := |e|;
            var k := Shift(i, p, m);
            var owner := Last(d, p, b - 1);
            var before := Last(d, p, b);
            && Parent(r, k) == Shift(Parent(d, i), p, m)
            && FirstChild(r, k) == (if i == owner && p == owner + 1 then p else Shift(FirstChild(d, i), p, m))
            && NextSibling(r, k) == (if i == before && before != owner then p else Shift(NextSibling(d, i), p, m))
            && PrevSiblingC(r, k) == (if (i == p && d[p] == b) || (0 <= owner == i - 1 && i < p && p == End(d, owner)) then p
                                      else Shift(PrevSiblingC(d, i), p, m))
  {
    GraftParent(d, p, e, b, r, i);
    GraftFirstChild(d, p, e, b, r, i);
    GraftNextSibling(d, p, e, b, r, i);
    GraftPrev(d, p, e, b, r, i);
  }

  /** The pointers of a grafted node other than the root move along with it. */
  lemma GraftMoved(d: Depths, p: nat, e: Depths, b: nat, r: Depths, k: nat)
    requires Slot(d, p, b) && WellFormed(e) && 0 < k < |e| && Grafted(d, p, e, b, r)
    ensures Parent(r, p + k) == p + Parent(e, k)
    ensures FirstChild(r, p + k) == if FirstChild(e, k) == -1 then -1 else p + FirstChild(e, k)
    ensures NextSibling(r, p + k) == if NextSibling(e, k) == -1 then -1 else p + NextSibling(e, k)
    ensures PrevSiblingC(r, p + k) == p + PrevSiblingC(e, k)
  {
    ParentDepth(e, k);
    LastInside(d, p, e, b, r, k, e[k] - 1);
    GraftMovedEnd(d, p, e, b, r, k);
    GraftMovedPrev(d, p, e, b, r, k);
  }

  lemma GraftMovedEnd(d: Depths, p: nat, e: Depths, b: nat, r: Depths, k: nat)
    requires Slot(d, p, b) && WellFormed(e) && k < |e| && Grafted(d, p, e, b, r)
    ensures r[p + k] == e[k] + b && End(r, p + k) == p + End(e, k)
  {
    NxtInside(d, p, e, b, r, k + 1, e[k]);
  }

  lemma GraftMovedPrev(d: Depths, p: nat, e: Depths, b: nat, r: Depths, k: nat)
    requires Slot(d, p, b) && WellFormed(e) && 0 < k < |e| && Grafted(d, p, e, b, r)
    requires Parent(r, p + k) == p + Parent(e, k) && 0 <= Parent(e, k)
    ensures PrevSiblingC(r, p + k) == p + PrevSiblingC(e, k)
  {
    var up := Parent(e, k);
    if up == k - 1 {
      GraftMovedEnd(d, p, e, b, r, up);
      LastInside(d, p, e, b, r, End(e, up), e[k]);
    } else {
      LastInside(d, p, e, b, r, k, e[k]);
    }
  }

  /** The pointers of the grafted root: it is linked into the child list of the owner of the slot. */
  lemma GraftRoot(d: Depths, p: nat, e: Depths, b: nat, r: Depths)
    requires Slot(d, p, b) && WellFormed(e) && Grafted(d, p, e, b, r)
    ensures var owner := Last(d, p, b - 1);
            && Parent(r, p) == owner
            && FirstChild(r, p) == (if FirstChild(e, 0) == -1 then -1 else p + FirstChild(e, 0))
            && NextSibling(r, p) == (if p < |d| && d[p] == b then p + |e| else -1)
            && PrevSiblingC(r, p) == (if p != owner + 1 then Last(d, p, b)
                                      else if p < |d| && d[p] == b then Shift(PrevSiblingC(d, p), p, |e|)
                                      else p)
  {
    var owner := Last(d, p, b - 1);
    OwnerDepth(d, p, b);
    LastOuterAt(d, p, e, b, r, b - 1);
    NxtIs(r, p + 1, b, p + |e|);
    if p != owner + 1 {
      LastOuterAt(d, p, e, b, r, b);
    } else {
      GraftRootTail(d, p, e, b, r);
    }
  }

  lemma GraftRootTail(d: Depths, p: nat, e: Depths, b: nat, r: Depths)
    requires Slot(d, p, b) && WellFormed(e) && Grafted(d, p, e, b, r) && p == Last(d, p, b - 1) + 1
    ensures Last(r, End(r, p - 1), b) == if p < |d| && d[p] == b then Shift(PrevSiblingC(d, p), p, |e|) else p
  {
    OwnerDepth(d, p, b);
    GraftEnd(d, p, e, b, r, p - 1);
    if p < |d| && d[p] == b {
      LastInner(d, p, e, b, r, End(d, p - 1), b);
    } else {
      LastRoot(d, p, e, b, r);
    }
  }

  /** The slot behind the last child of i. */
  lemma AppendSlot(d: Depths, i: nat)
    requires WellFormed(d) && i < |d|
    ensures Slot(d, End(d, i), d[i] + 1)
    ensures Last(d, End(d, i), d[i]) == i
    ensures End(d, i) < |d| ==> d[End(d, i)] <= d[i]
    ensures FirstChild(d, i) == -1 <==> End(d, i) == i + 1
    ensures FirstChild(d, i) != -1 ==>
              && FirstChild(d, i) == i + 1 < End(d, i)
              && PrevSiblingC(d, i + 1) == Last(d, End(d, i), d[i] + 1) > i
  {
    var p := End(d, i);
    NxtSpec(d, i + 1, d[i]);
    LastIs(d, p, d[i], i);
    LastSpec(d, p, d[i] + 1);
    if i + 1 < |d| { assert StepDown(d, i + 1); }
    if i + 1 < p {
      LastIs(d, i + 1, d[i], i);
    }
  }

  /** The slot in front of the first child of i. */
  lemma PrependSlot(d: Depths, i: nat)
    requires WellFormed(d) && i < |d|
    ensures Slot(d, i + 1, d[i] + 1)
    ensures Last(d, i + 1, d[i]) == i
    ensures FirstChild(d, i) == if i + 1 < |d| && d[i + 1] == d[i] + 1 then i + 1 else -1
  {
    if i + 1 < |d| { assert StepDown(d, i + 1); }
  }

  /** The slot right behind the subtree of i, among its siblings. */
  lemma BehindSlot(d: Depths, i: nat)
    requires WellFormed(d) && 0 < i < |d|
    ensures var p := End(d, i);
            && Slot(d, p, d[i])
            && Last(d, p, d[i] as int - 1) == Parent(d, i) >= 0
            && Last(d, p, d[i]) == i
            && Parent(d, i) + 1 < p
            && FirstChild(d, Parent(d, i)) == Parent(d, i) + 1
            && (NextSibling(d, i) == if p < |d| && d[p] == d[i] then p else -1)
  {
    var p := End(d, i);
    NxtSpec(d, i + 1, d[i]);
    ParentDepth(d, i);
    LastSpec(d, i, d[i] as int - 1);
    LastIs(d, p, d[i], i);
    LastIs(d, p, d[i] as int - 1, Parent(d, i));
    assert StepDown(d, Parent(d, i) + 1);
    if p < |d| { assert StepDown(d, p); }
  }

  /** The slot right in front of i: the node before it is its back link, unless i comes first. */
  lemma FrontSlot(d: Depths, i: nat)
    requires WellFormed(d) && 0 < i < |d|
    ensures Slot(d, i, d[i])
    ensures Last(d, i, d[i] as int - 1) == Parent(d, i) >= 0
    ensures 0 <= PrevSiblingC(d, i)
    ensures i == Parent(d, i) + 1 ==> NextSibling(d, PrevSiblingC(d, i)) == -1
    ensures i != Parent(d, i) + 1 ==> PrevSiblingC(d, i) == Last(d, i, d[i]) && NextSibling(d, PrevSiblingC(d, i)) == i
    ensures FirstChild(d, Parent(d, i)) == Parent(d, i) + 1
  {
    ParentDepth(d, i);
    assert StepDown(d, i);
    assert StepDown(d, Parent(d, i) + 1);
    PrevSiblingExists(d, i);
    FirstDepth(d, i);
    if i == Parent(d, i) + 1 { TailHasNoNext(d, i); } else { PrevThenNext(d, i); }
  }

  lemma FirstDepth(d: Depths, i: nat)
    requires WellFormed(d) && 0 < i < |d|
    ensures 0 <= Parent(d, i) && FirstChild(d, Parent(d, i)) == Parent(d, i) + 1
  {
    ParentDepth(d, i);
    LastSpec(d, i, d[i] as int - 1);
  }

  /** The back pointer of a first child is the last child. */
  lemma TailHasNoNext(d: Depths, i: nat)
    requires WellFormed(d) && 0 < i < |d| && i == Parent(d, i) + 1
    ensures 0 <= PrevSiblingC(d, i) && NextSibling(d, PrevSiblingC(d, i)) == -1
  {
    var n := End(d, i - 1);
    ParentDepth(d, i);
    PrevSiblingExists(d, i);
    NxtSpec(d, i, d[i - 1]);
    LastSpec(d, n, d[i]);
    NxtIs(d, Last(d, n, d[i]) + 1, d[i], n);
  }

  /** For any other child the forward and the back pointer are inverse. */
  lemma PrevThenNext(d: Depths, i: nat)
    requires WellFormed(d) && 0 < i < |d| && i != Parent(d, i) + 1
    ensures 0 <= PrevSiblingC(d, i) && NextSibling(d, PrevSiblingC(d, i)) == i
  {
    ParentDepth(d, i);
    PrevSiblingExists(d, i);
    LastSpec(d, i, d[i]);
    LastSpec(d, i, d[i] as int - 1);
    NxtIs(d, Last(d, i, d[i]) + 1, d[i], i);
    assert StepDown(d, Parent(d, i) + 1);
  }

  /** The neighbours of a slot: the owner comes right before it, or a child of the owner ends at it. */
  lemma SlotNeighbours(d: Depths, p: nat, b: nat)
    requires Slot(d, p, b)
    ensures var owner := Last(d, p, b - 1);
            && 0 <= owner
            && (p != owner + 1 <==> Last(d, p, b) != owner)
            && (p == End(d, owner) <==> !(p < |d| && d[p] == b))
  {
    OwnerDepth(d, p, b);
    LastSpec(d, p, b - 1);
    LastSpec(d, p, b);
    var owner := Last(d, p, b - 1);
    NxtSpec(d, owner + 1, d[owner]);
    if p != owner + 1 { assert StepDown(d, owner + 1); }
  }

  lemma PrevOutside(d: Depths, i: nat)
    requires WellFormed(d) && 0 < i < |d|
    ensures PrevSiblingC(d, i) <= i || End(d, i) <= PrevSiblingC(d, i)
  {
    ParentDepth(d, i);
    var up, n := Parent(d, i), End(d, Parent(d, i));
    if i == up + 1 {
      NxtSpec(d, i + 1, d[i]);
      LastSpec(d, n, d[i]);
    }
  }

  /** The links between the neighbours of a slot while it is empty. */
  lemma EmptySlot(d: Depths, p: nat, b: nat)
    requires Slot(d, p, b)
    ensures var owner, before := Last(d, p, b - 1), Last(d, p, b);
            var next := if p < |d| && d[p] == b then p else -1;
            && 0 <= owner <= before
            && (p == owner + 1 ==> FirstChild(d, owner) == next)
            && (before != owner ==> NextSibling(d, before) == next)
            && (p != owner + 1 && next == p ==> PrevSiblingC(d, p) == before)
            && (p != owner + 1 && next == -1 ==> PrevSiblingC(d, owner + 1) == before)
  {
    OwnerDepth(d, p, b);
    SlotNeighbours(d, p, b);
    var owner, before := Last(d, p, b - 1), Last(d, p, b);
    LastSpec(d, p, b);
    if before != owner { BeforeSlot(d, p, b, before); }
    if p < |d| && d[p] == b {
      FrontSlot(d, p);
    } else {
      AppendSlot(d, owner);
    }
  }

  /** Cutting the subtree at p out of r leaves a tree, the subtree is one, and grafting it back restores r. */
  lemma CutShape(r: Depths, p: nat)
    requires WellFormed(r) && 0 < p < |r|
    ensures var d, e := CutRest(r, p), CutTree(r, p);
            && Slot(d, p, r[p]) && WellFormed(e) && Grafted(d, p, e, r[p], r)
  {
    var d, e := CutRest(r, p), CutTree(r, p);
    NxtSpec(r, p + 1, r[p]);
    forall i | 0 < i < |d| ensures StepDown(d, i) {
      if i < p { assert StepDown(r, i); } else {
        assert StepDown(r, i + |e|);
        if i == p { assert StepDown(r, p); }
      }
    }
    forall k | 0 < k < |e| ensures StepDown(e, k) {
      assert StepDown(r, p + k);
    }
    assert StepDown(r, p);
  }

  /** The elements of s except those from i up to j. */
  function Without<T>(s: seq<T>, i: nat, j: nat): (r: seq<T>)
    requires i <= j <= |s|
    ensures |r| == |s| - (j - i)
    ensures forall k {:trigger r[k]} :: 0 <= k < |r| ==> r[k] == s[Shift(k, i, j - i)]
  {
    s[..i] + s[j..]
  }

  /** The shape of a tree without the subtree of p, and the shape of that subtree. */
  function CutRest(r: Depths, p: nat): Depths
    requires p < |r|
  {
    Without(r, p, End(r, p))
  }

  function CutTree(r: Depths, p: nat): (e: Depths)
    requires p < |r|
    ensures |e| == End(r, p) - p
  {
    seq(End(r, p) - p, k requires 0 <= k < End(r, p) - p => if r[p + k] < r[p] then 0 else r[p + k] - r[p])
  }

  /** The subtree of a last child ends where that of its parent does. */
  lemma EndOfLastChild(d: Depths, i: nat)
    requires WellFormed(d) && 0 < i < |d| && NextSibling(d, i) == -1
    ensures 0 <= Parent(d, i) && End(d, Parent(d, i)) == End(d, i)
  {
    ParentDepth(d, i);
    NxtSpec(d, i + 1, d[i]);
    LastSpec(d, i, d[i] as int - 1);
    NxtIs(d, Parent(d, i) + 1, d[Parent(d, i)], End(d, i));
  }

  /** The next sibling of a node below o is below o as well. */
  lemma NextInside(d: Depths, o: nat, i: nat)
    requires WellFormed(d) && o < |d| && o < i < End(d, o)
    ensures d[o] < d[i] && End(d, i) <= End(d, o)
    ensures NextSibling(d, i) != -1 ==> NextSibling(d, i) == End(d, i) < End(d, o)
  {
    NxtSpec(d, o + 1, d[o]);
    NxtSpec(d, i + 1, d[i]);
  }

  /** The parent of a node below o is o, exactly when it is one level down, or below o. */
  lemma ParentInside(d: Depths, o: nat, i: nat)
    requires WellFormed(d) && o < |d| && o < i < End(d, o)
    ensures o <= Parent(d, i) < i && d[Parent(d, i)] == d[i] - 1
    ensures Parent(d, i) == o <==> d[i] == d[o] + 1
  {
    ParentDepth(d, i);
    NxtSpec(d, o + 1, d[o]);
    LastSpec(d, i, d[i] as int - 1);
  }

  /** A node other than j is below j exactly when its parent is j or below it. */
  lemma AncestorStep(d: Depths, j: nat, c: nat)
    requires WellFormed(d) && j < |d| && c < |d| && c != j
    ensures j <= c < End(d, j) <==> j <= Parent(d, c) < End(d, j)
  {
    NxtSpec(d, j + 1, d[j]);
    LastSpec(d, c, d[c] as int - 1);
    if 0 < c { ParentDepth(d, c); }
  }

  /** The next node with the same parent is the next sibling. */
  lemma SiblingsApart(d: Depths, k: nat)
    requires WellFormed(d) && 0 < k < |d|
    ensures var n := NextSibling(d, k);
            && (n != -1 ==> k < n < |d| && Parent(d, n) == Parent(d, k))
            && forall y :: k < y < (if n == -1 then |d| else n) ==> Parent(d, y) != Parent(d, k)
  {
    var n, p := NextSibling(d, k), Parent(d, k);
    NxtSpec(d, k + 1, d[k]);
    ParentDepth(d, k);
    LastSpec(d, k, d[k] as int - 1);
    if n != -1 { LastIs(d, n, d[n] as int - 1, p); }
    forall y | k < y < (if n == -1 then |d| else n) ensures Parent(d, y) != p {
      ParentDepth(d, y);
      if y >= End(d, k) {
        LastSpec(d, y, d[y] as int - 1);
      }
    }
  }

  /** The last child ends where its parent does. */
  lemma LastChild(d: Depths, q: nat)
    requires WellFormed(d) && q < |d| && FirstChild(d, q) != -1
    ensures FirstChild(d, q) == q + 1 < |d|
    ensures var l := PrevSiblingC(d, q + 1); q < l < |d| && End(d, l) == End(d, q)
  {
    AppendSlot(d, q);
    var l, e := PrevSiblingC(d, q + 1), End(d, q);
    LastSpec(d, e, d[q] + 1);
    NxtSpec(d, q + 1, d[q]);
    NxtIs(d, l + 1, d[l], e);
  }

  /** The back pointer of a next sibling leads back. */
  lemma NextThenPrev(d: Depths, k: nat)
    requires WellFormed(d) && 0 < k < |d| && NextSibling(d, k) != -1
    ensures var n := NextSibling(d, k); k < n < |d| && Parent(d, n) == Parent(d, k) && PrevSiblingC(d, n) == k
  {
    var n := NextSibling(d, k);
    NxtSpec(d, k + 1, d[k]);
    SiblingsApart(d, k);
    ParentDepth(d, k);
    LastIs(d, n, d[n], k);
  }

  lemma LastChildParent(d: Depths, q: nat)
    requires WellFormed(d) && q < |d| && FirstChild(d, q) != -1
    ensures FirstChild(d, q) == q + 1 < |d| && Parent(d, q + 1) == q
    ensures var l := PrevSiblingC(d, q + 1); q < l < |d| && Parent(d, l) == q && NextSibling(d, l) == -1
  {
    LastChild(d, q);
    AppendSlot(d, q);
    var l, e := PrevSiblingC(d, q + 1), End(d, q);
    assert StepDown(d, q + 1);
    LastIs(d, q + 1, d[q + 1] as int - 1, q);
    TailHasNoNext(d, q + 1);
    LastSpec(d, e, d[q] + 1);
    NxtSpec(d, q + 1, d[q]);
    LastIs(d, l, d[l] as int - 1, q);
  }
}
