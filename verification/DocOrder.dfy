/** The comparison of two nodes or attributes of one document by document order, from the pointers alone. */
module DocOrder {
  import opened Basics
  import opened Shape
  import opened Dom
  import opened XPathData
  import opened Axes

  /** Of two siblings, the first one has a next sibling, not beyond the second one. */
  lemma SiblingAhead(d: Depths, a: nat, b: nat)
    requires WellFormed(d) && 0 < a < b < |d| && Parent(d, a) == Parent(d, b)
    ensures var n := NextSibling(d, a); a < n <= b && Parent(d, n) == Parent(d, a)
  {
    SiblingsApart(d, a);
  }

  /** node_is_before_sibling: two parallel walks along the siblings; whichever ends first started later. */
  method NodeIsBeforeSibling(ln: XmlNode, rn: XmlNode, ghost order: seq<XmlNode>, ghost d: Depths, ghost p: nat, ghost q: nat)
    returns (b: bool)
    requires Linked(order, d) && 0 < p < |order| && 0 < q < |order| && order[p] == ln && order[q] == rn
    requires p != q && Parent(d, p) == Parent(d, q)
    ensures b <==> p < q
  {
    var ls: XmlNode?, rs: XmlNode? := ln, rn;
    ghost var a: int, c: int := p, q;
    while ls != null && rs != null
      invariant -1 <= a < |d| && -1 <= c < |d| && ls == At(order, a) && rs == At(order, c)
      invariant a != -1 ==> p <= a && 0 < a && Parent(d, a) == Parent(d, p)
      invariant c != -1 ==> q <= c && 0 < c && Parent(d, c) == Parent(d, p)
      invariant p < q ==> a != -1 && (c == -1 || a < c)
      invariant q < p ==> c != -1 && (a == -1 || c < a)
      decreases if a == -1 then 0 else |d| - a, if c == -1 then 0 else |d| - c
    {
      Position(order, q, a);
      Position(order, p, c);
      if ls == rn { return true; }
      if rs == ln { return false; }
      LinksOfNode(order, d, a);
      LinksOfNode(order, d, c);
      SiblingsApart(d, a);
      SiblingsApart(d, c);
      if p < q { SiblingAhead(d, a, c); } else { SiblingAhead(d, c, a); }
      ls := ls.nextSibling;
      rs := rs.nextSibling;
      a, c := NextSibling(d, a), NextSibling(d, c);
    }
    return rs == null;
  }

  /** p is i or above it, h levels up. */
  ghost predicate Above(d: Depths, p: nat, i: nat, h: nat)
    requires p < |d| && i < |d|
  {
    p <= i < End(d, p) && d[i] == d[p] + h
  }

  lemma AboveStep(d: Depths, p: nat, i: nat, h: nat)
    requires WellFormed(d) && p < |d| && i < |d| && Above(d, p, i, h)
    ensures Parent(d, p) == -1 <==> p == 0
    ensures p == 0 <==> d[p] == 0
    ensures p != 0 ==> 0 <= Parent(d, p) < p && Above(d, Parent(d, p), i, h + 1)
  {
    if p != 0 {
      ParentDepth(d, p);
      NextInside(d, Parent(d, p), p);
    }
  }

  /** Two siblings decide the order of everything below them. */
  lemma SiblingsDecide(d: Depths, p: nat, q: nat, i: nat, j: nat, h: nat, h': nat)
    requires WellFormed(d) && 0 < p < |d| && 0 < q < |d| && i < |d| && j < |d|
    requires p != q && Parent(d, p) == Parent(d, q) && Above(d, p, i, h) && Above(d, q, j, h')
    ensures p < q <==> i < j
  {
    ParentDepth(d, p);
    ParentDepth(d, q);
    NxtSpec(d, p + 1, d[p]);
    NxtSpec(d, q + 1, d[q]);
  }

  lemma SameNode(order: seq<XmlNode>, p: nat, q: nat)
    requires Distinct(order) && p < |order| && q < |order|
    ensures order[p] == order[q] <==> p == q
  {
    Position(order, p, q);
  }

  lemma SameParent(order: seq<XmlNode>, d: Depths, p: nat, q: nat)
    requires Linked(order, d) && p < |order| && q < |order|
    ensures order[p].parent == order[q].parent <==> Parent(d, p) == Parent(d, q)
  {
    LinksOfNode(order, d, p);
    LinksOfNode(order, d, q);
    if 0 <= Parent(d, p) { Position(order, Parent(d, p), Parent(d, q)); }
    if 0 <= Parent(d, q) { Position(order, Parent(d, q), Parent(d, p)); }
  }

  /** Raises the deeper node `low` while `probe`, which has climbed as far as the other node could, goes on to the top. */
  method Raise(low0: XmlNode, probe0: XmlNode?, ghost order: seq<XmlNode>, ghost d: Depths, ghost j: nat, ghost m0: int)
    returns (low: XmlNode, ghost q: nat)
    requires Linked(order, d) && j < |order| && order[j] == low0 && -1 <= m0 < |order| && probe0 == At(order, m0)
    requires m0 != -1 ==> d[m0] < d[j]
    ensures q < |order| && low == order[q] && q <= j < End(d, q)
    ensures if m0 == -1 then q == j else d[q] == d[j] - d[m0] - 1
  {
    var probe := probe0;
    ghost var m := m0;
    low, q := low0, j;
    NxtSpec(d, j + 1, d[j]);
    while probe != null
      invariant -1 <= m < |order| && probe == At(order, m)
      invariant q < |order| && low == order[q] && q <= j < End(d, q)
      invariant m != -1 ==> d[m] < d[q] <= d[j]
      invariant m0 == -1 ==> q == j
      invariant d[q] - (if m == -1 then 0 else d[m] + 1) == d[j] - (if m0 == -1 then 0 else d[m0] + 1)
      decreases m
    {
      LinksOfNode(order, d, m);
      LinksOfNode(order, d, q);
      AboveStep(d, q, j, d[j] - d[q]);
      AboveStep(d, m, m, 0) by { NxtSpec(d, m + 1, d[m]); }
      if m != 0 { ParentDepth(d, m); }
      probe := probe.parent;
      low := low.parent;
      m := Parent(d, m);
      q := Parent(d, q);
    }
  }

  /** The last part of node_is_before: from two nodes at the same depth up to the children of a common parent. */
  method MeetBelow(ln0: XmlNode, rn0: XmlNode, ghost order: seq<XmlNode>, ghost d: Depths,
                   ghost p0: nat, ghost q0: nat, ghost i: nat, ghost j: nat)
    returns (b: bool)
    requires Linked(order, d) && p0 < |order| && q0 < |order| && i < |order| && j < |order|
    requires order[p0] == ln0 && order[q0] == rn0 && p0 != q0 && d[p0] == d[q0]
    requires p0 <= i < End(d, p0) && q0 <= j < End(d, q0) && d[p0] <= d[i] && d[q0] <= d[j]
    ensures b <==> i < j
  {
    var ln, rn := ln0, rn0;
    ghost var p, q := p0, q0;
    SameParent(order, d, p, q);
    while ln.parent != rn.parent
      invariant 0 <= p < |order| && 0 <= q < |order| && ln == order[p] && rn == order[q] && p != q && d[p] == d[q]
      invariant p <= i < End(d, p) && q <= j < End(d, q) && d[p] <= d[i] && d[q] <= d[j]
      invariant ln.parent == rn.parent <==> Parent(d, p) == Parent(d, q)
      decreases p
    {
      LinksOfNode(order, d, p);
      LinksOfNode(order, d, q);
      AboveStep(d, p, i, d[i] - d[p]);
      AboveStep(d, q, j, d[j] - d[q]);
      ln := ln.parent;
      rn := rn.parent;
      p, q := Parent(d, p), Parent(d, q);
      SameParent(order, d, p, q);
    }
    AboveStep(d, p, i, d[i] - d[p]);
    AboveStep(d, q, j, d[j] - d[q]);
    b := NodeIsBeforeSibling(ln, rn, order, d, p, q);
    SiblingsDecide(d, p, q, i, j, d[i] - d[p], d[j] - d[q]);
  }

  /** node_is_before, for two different nodes of a document */
  method NodeIsBefore(ln: XmlNode, rn: XmlNode, ghost order: seq<XmlNode>, ghost d: Depths, ghost i: nat, ghost j: nat)
    returns (b: bool)
    requires Linked(order, d) && i < |order| && j < |order| && order[i] == ln && order[j] == rn && i != j
    ensures b <==> i < j
  {
    var lp: XmlNode?, rp: XmlNode? := ln, rn;
    ghost var p: int, q: int, h: nat := i, j, 0;
    NxtSpec(d, i + 1, d[i]);
    NxtSpec(d, j + 1, d[j]);
    while lp != null && rp != null && lp.parent != rp.parent
      invariant -1 <= p < |order| && -1 <= q < |order| && lp == At(order, p) && rp == At(order, q) && p != q
      invariant if p == -1 then h == d[i] + 1 else Above(d, p, i, h)
      invariant if q == -1 then h == d[j] + 1 else Above(d, q, j, h)
      decreases p
    {
      SameParent(order, d, p, q);
      LinksOfNode(order, d, p);
      LinksOfNode(order, d, q);
      AboveStep(d, p, i, h);
      AboveStep(d, q, j, h);
      lp := lp.parent;
      rp := rp.parent;
      p, q, h := Parent(d, p), Parent(d, q), h + 1;
    }
    if lp != null && rp != null {
      SameParent(order, d, p, q);
      AboveStep(d, p, i, h);
      AboveStep(d, q, j, h);
      b := NodeIsBeforeSibling(lp, rp, order, d, p, q);
      SiblingsDecide(d, p, q, i, j, h, h);
      return;
    }
    var leftHigher := lp == null;
    var ln', rn' := ln, rn;
    ghost var x, y := i, j;
    ln', x := Raise(ln, lp, order, d, i, p);
    rn', y := Raise(rn, rp, order, d, j, q);
    SameNode(order, x, y);
    if ln' == rn' {
      return leftHigher;
    }
    b := MeetBelow(ln', rn', order, d, x, y, i, j);
  }

  /** An attribute is given by its element and its place in the list of attributes. */
  function RefOf(i: nat, attribute: Option<nat>): Ref {
    if attribute.Some? then A(i, attribute.value) else N(i)
  }

  /**
   document_order_comparator without the shortcut through the parse buffer. */
  method DocumentOrder(ln0: XmlNode, la: Option<nat>, rn0: XmlNode, ra: Option<nat>,
                       ghost order: seq<XmlNode>, ghost d: Depths, ghost i: nat, ghost j: nat)
    returns (b: bool)
    requires Linked(order, d) && i < |order| && j < |order| && order[i] == ln0 && order[j] == rn0
    requires (la.Some? ==> la.value < |ln0.attributes|) && (ra.Some? ==> ra.value < |rn0.attributes|)
    ensures b <==> Comparator(RefOf(i, la), RefOf(j, ra))
  {
    SameNode(order, i, j);
    if la.Some? && ra.Some? {
      if ln0 == rn0 {
        var a := la.value;
        while a < |ln0.attributes|
          invariant la.value <= a <= |ln0.attributes| && (ra.value < la.value || a <= ra.value)
        {
          if a == ra.value {
            return true;
          }
          a := a + 1;
        }
        return false;
      }
    } else if la.Some? {
      if ln0 == rn0 {
        return false;
      }
    } else if ra.Some? {
      if rn0 == ln0 {
        return true;
      }
    }
    if ln0 == rn0 {
      return false;
    }
    b := NodeIsBefore(ln0, rn0, order, d, i, j);
  }

  /**
   The relation the comparator decides is transitive and decides between any two different nodes
   or attributes, but it is not irreflexive: it holds between an element and itself exactly for
   the attributes.
   */
  lemma ComparatorLaws(x: Ref, y: Ref, z: Ref)
    ensures Comparator(x, x) <==> x.A?
    ensures x != y ==> (Comparator(x, y) <==> !Comparator(y, x))
    ensures Comparator(x, y) && Comparator(y, z) ==> Comparator(x, z)
  {
    Distinguish(x, y);
    Distinguish(y, z);
  }
}
