/**
 The axis traversals of step_fill.  They walk over the pointers of the tree without a stack;
 each is proved to visit exactly the nodes of its axis, in axis order.
 */
module Axes {
  import opened Shape
  import opened Dom
  import opened Sort
  import opened XPathData

  /** The document as a value. */
  function DocOf(order: seq<XmlNode>, d: Depths): Doc
    reads order
  {
    Doc(d, Contents(order))
  }

  /** The nodes at the positions of a list. */
  function Images(order: seq<XmlNode>, refs: seq<Ref>): (r: seq<XmlNode?>)
    ensures |r| == |refs|
    ensures forall k {:trigger r[k]} :: 0 <= k < |refs| ==> r[k] == At(order, Rank(refs[k]))
  {
    seq(|refs|, k requires 0 <= k < |refs| => At(order, Rank(refs[k])))
  }

  /** What a fill of the buffer ns0 from the candidates `list` gives. */
  ghost function Fill(order: seq<XmlNode>, doc: Doc, axis: Axis, test: Test, once: bool, ns0: seq<XmlNode?>, list: seq<Ref>): seq<XmlNode?> {
    ns0 + Images(order, Selected(doc, axis, test, list, once))
  }

  /** step_push */
  method StepPush(ns: seq<XmlNode?>, n: XmlNode, test: Test) returns (r: seq<XmlNode?>, pushed: bool)
    ensures pushed == NodePasses(ContentOf(n), test) && r == if pushed then ns + [n] else ns
  {
    pushed := NodePasses(ContentOf(n), test);
    r := if pushed then ns + [n] else ns;
  }

  lemma SelectedStep(doc: Doc, axis: Axis, test: Test, once: bool, c: nat, rest: seq<Ref>)
    requires c < |doc.nodes|
    ensures Selected(doc, axis, test, [N(c)] + rest, once) ==
              if !NodePasses(doc.nodes[c], test) then Selected(doc, axis, test, rest, once)
              else if once then [N(c)]
              else [N(c)] + Selected(doc, axis, test, rest, once)
  {
    assert ([N(c)] + rest)[1..] == rest;
  }

  lemma ImagesOf(order: seq<XmlNode>, c: nat, refs: seq<Ref>)
    requires c < |order|
    ensures Images(order, [N(c)] + refs) == [order[c]] + Images(order, refs)
    ensures Images(order, [N(c)]) == [order[c]]
  {
  }

  /** Dealing with the first candidate of the list. */
  lemma FillStep(order: seq<XmlNode>, doc: Doc, axis: Axis, test: Test, once: bool, ns: seq<XmlNode?>, c: nat, rest: seq<Ref>)
    requires |doc.nodes| == |order| && c < |order|
    ensures Fill(order, doc, axis, test, once, ns, [N(c)] + rest) ==
              if !NodePasses(doc.nodes[c], test) then Fill(order, doc, axis, test, once, ns, rest)
              else if once then ns + [order[c]]
              else Fill(order, doc, axis, test, once, ns + [order[c]], rest)
  {
    SelectedStep(doc, axis, test, once, c, rest);
    ImagesOf(order, c, Selected(doc, axis, test, rest, once));
    assert ns + ([order[c]] + Images(order, Selected(doc, axis, test, rest, once)))
        == ns + [order[c]] + Images(order, Selected(doc, axis, test, rest, once));
  }

  /** step_push of the first candidate; `stop` when the fill ends there. */
  method Visit(n: XmlNode, test: Test, once: bool, ns0: seq<XmlNode?>, ghost order: seq<XmlNode>, ghost doc: Doc, ghost axis: Axis,
               ghost c: nat, ghost rest: seq<Ref>, ghost total: seq<XmlNode?>)
    returns (ns: seq<XmlNode?>, stop: bool)
    requires doc.nodes == Contents(order) && c < |order| && order[c] == n
    requires Fill(order, doc, axis, test, once, ns0, [N(c)] + rest) == total
    ensures stop ==> ns == total
    ensures !stop ==> Fill(order, doc, axis, test, once, ns, rest) == total
  {
    FillStep(order, doc, axis, test, once, ns0, c, rest);
    var pushed;
    ns, pushed := StepPush(ns0, n, test);
    stop := pushed && once;
  }

  lemma FillNothing(order: seq<XmlNode>, doc: Doc, axis: Axis, test: Test, once: bool, ns: seq<XmlNode?>)
    ensures Fill(order, doc, axis, test, once, ns, []) == ns
  {
  }

  // Lists of the nodes on an axis, upwards from a position and downwards from it.

  lemma {:induction false} Skip(d: Depths, axis: Axis, x: Ref, a: nat, b: nat)
    requires a <= b <= |d| && forall y :: a <= y < b ==> !On(d, axis, x, y)
    ensures NodesOn(d, axis, x, a) == NodesOn(d, axis, x, b)
    decreases b - a
  {
    if a < b { Skip(d, axis, x, a + 1, b); }
  }

  /** The nodes on the axis before position k, last one first. */
  function NodesDown(d: Depths, axis: Axis, x: Ref, k: nat): seq<Ref>
    requires k <= |d|
  {
    if k == 0 then []
    else if On(d, axis, x, k - 1) then [N(k - 1)] + NodesDown(d, axis, x, k - 1)
    else NodesDown(d, axis, x, k - 1)
  }

  lemma {:induction false} SkipDown(d: Depths, axis: Axis, x: Ref, a: nat, b: nat)
    requires a <= b <= |d| && forall y :: a <= y < b ==> !On(d, axis, x, y)
    ensures NodesDown(d, axis, x, b) == NodesDown(d, axis, x, a)
  {
    if a < b { SkipDown(d, axis, x, a, b - 1); }
  }

  lemma {:induction false} DownIsReversed(d: Depths, axis: Axis, x: Ref, k: nat)
    requires k <= |d|
    ensures NodesDown(d, axis, x, |d|) == Reversed(NodesOn(d, axis, x, k)) + NodesDown(d, axis, x, k)
    decreases |d| - k
  {
    if k < |d| {
      DownIsReversed(d, axis, x, k + 1);
      var r := NodesOn(d, axis, x, k + 1);
      if On(d, axis, x, k) {
        assert Reversed([N(k)] + r) == Reversed(r) + [N(k)];
      }
    }
  }

  /** The candidates of a reverse axis. */
  lemma ReverseList(d: Depths, axis: Axis, x: Ref)
    ensures Reversed(NodesOn(d, axis, x, 0)) == NodesDown(d, axis, x, |d|)
  {
    DownIsReversed(d, axis, x, 0);
  }

  // Children and siblings

  lemma ChildFirst(d: Depths, i: nat)
    requires WellFormed(d) && i < |d|
    ensures var k := FirstChild(d, i);
            && (k == -1 ==> NodesOn(d, Child, N(i), 0) == [])
            && (k != -1 ==> k < |d| && Parent(d, k) == i && NodesOn(d, Child, N(i), 0) == NodesOn(d, Child, N(i), k))
  {
    var k := FirstChild(d, i);
    forall y | 0 < y < |d| && Parent(d, y) == i ensures k != -1 && k <= y {
      FirstDepth(d, y);
    }
    if k != -1 { LastIs(d, k, d[k] as int - 1, i) by { assert StepDown(d, k); } }
    Skip(d, Child, N(i), 0, if k == -1 then |d| else k);
  }

  lemma ChildNext(d: Depths, i: nat, k: nat)
    requires WellFormed(d) && i < |d| && k < |d| && Parent(d, k) == i
    ensures var n := NextSibling(d, k);
            && NodesOn(d, Child, N(i), k) == [N(k)] + NodesOn(d, Child, N(i), if n == -1 then |d| else n)
            && (n != -1 ==> k < n < |d| && Parent(d, n) == i)
  {
    var n := NextSibling(d, k);
    SiblingsApart(d, k);
    Skip(d, Child, N(i), k + 1, if n == -1 then |d| else n);
  }

  /** axis_child */
  method FillChild(n: XmlNode, test: Test, once: bool, ns0: seq<XmlNode?>, ghost order: seq<XmlNode>, ghost d: Depths, ghost i: nat)
    returns (ns: seq<XmlNode?>)
    requires Linked(order, d) && i < |order| && order[i] == n
    ensures ns == Fill(order, DocOf(order, d), Child, test, once, ns0, AxisOrder(DocOf(order, d), Child, N(i)))
  {
    ghost var doc, k := DocOf(order, d), FirstChild(d, i);
    ghost var total := Fill(order, doc, Child, test, once, ns0, AxisOrder(doc, Child, N(i)));
    LinksOfNode(order, d, i);
    ChildFirst(d, i);
    ns := ns0;
    var c := n.firstChild;
    while c != null
      invariant -1 <= k < |d| && c == At(order, k) && (k != -1 ==> Parent(d, k) == i)
      invariant Fill(order, doc, Child, test, once, ns, NodesOn(d, Child, N(i), if k == -1 then |d| else k)) == total
      decreases if k == -1 then 0 else |d| - k
    {
      LinksOfNode(order, d, k);
      ChildNext(d, i, k);
      ghost var next := NextSibling(d, k);
      var stop;
      ns, stop := Visit(c, test, once, ns, order, doc, Child, k, NodesOn(d, Child, N(i), if next == -1 then |d| else next), total);
      if stop {
        return;
      }
      c := c.nextSibling;
      k := next;
    }
    FillNothing(order, doc, Child, test, once, ns);
  }

  // Descendants and following nodes, in document order

  lemma SelfIsOutside(d: Depths, i: nat)
    requires WellFormed(d) && i < |d|
    ensures End(d, 0) == |d|
  {
    NxtIs(d, 1, d[0], |d|);
  }

  /** Up to the nearest node that has a next sibling, and over to it; null beyond `top`. */
  method Ahead(cur0: XmlNode, top: XmlNode?, ghost order: seq<XmlNode>, ghost d: Depths, ghost c: nat, ghost t: int)
    returns (cur: XmlNode?)
    requires Linked(order, d) && c < |order| && order[c] == cur0 && -1 <= t < |order| && top == At(order, t)
    requires if t == -1 then true else t < c < End(d, t)
    ensures var e := if t == -1 then |d| else End(d, t);
            && End(d, c) <= e && cur == if End(d, c) == e then top else At(order, End(d, c))
  {
    cur := cur0;
    ghost var y: nat := c;
    SelfIsOutside(d, 0);
    NxtSpec(d, c + 1, d[c]);
    if t != -1 { NextInside(d, t, c); }
    while cur.nextSibling == null
      invariant y <= c && y < |order| && cur == order[y] && End(d, y) == End(d, c)
      invariant t != -1 ==> t < y < End(d, t)
      decreases y
    {
      LinksOfNode(order, d, y);
      cur := cur.parent;
      if cur == top {
        Climbed(order, d, y, t);
        return;
      }
      Climbed(order, d, y, t);
      y := Parent(d, y);
    }
    LinksOfNode(order, d, y);
    if t != -1 { NextInside(d, t, y); }
    cur := cur.nextSibling;
    NxtSpec(d, y + 1, d[y]);
  }

  /** Going up from a last child does not change where the subtree ends. */
  lemma Climbed(order: seq<XmlNode>, d: Depths, y: nat, t: int)
    requires |order| == |d| && WellFormed(d) && Distinct(order) && y < |d| && NextSibling(d, y) == -1
    requires -1 <= t < |d| && (t != -1 ==> t < y < End(d, t))
    ensures var p := Parent(d, y);
            && (At(order, p) == At(order, t) <==> p == t)
            && (p == -1 ==> y == 0)
            && (p != -1 ==> p < y && End(d, p) == End(d, y))
            && (p != t && t != -1 ==> t < p < End(d, t))
            && (p == t == -1 ==> End(d, y) == |d|)
  {
    var p := Parent(d, y);
    if y == 0 {
      SelfIsOutside(d, 0);
    } else {
      EndOfLastChild(d, y);
      Position(order, p, t);
      if t != -1 { ParentInside(d, t, y); }
    }
  }

  /** One step of a preorder traversal: to the first child or, from a leaf, ahead; `top` when nothing is left below it. */
  method Onward(cur0: XmlNode, top: XmlNode?, ghost order: seq<XmlNode>, ghost d: Depths, ghost c: nat, ghost t: int)
    returns (cur: XmlNode?)
    requires Linked(order, d) && c < |order| && order[c] == cur0 && -1 <= t < |order| && top == At(order, t)
    requires if t == -1 then true else t < c < End(d, t)
    ensures var e := if t == -1 then |d| else End(d, t);
            c + 1 <= e && cur == if c + 1 == e then top else At(order, c + 1)
  {
    LinksOfNode(order, d, c);
    LeafEnd(d, c);
    if t != -1 { NextInside(d, t, c); }
    if cur0.firstChild != null {
      cur := cur0.firstChild;
    } else {
      cur := Ahead(cur0, top, order, d, c, t);
    }
  }

  lemma ForwardNext(d: Depths, axis: Axis, x: Ref, c: nat)
    requires c < |d| && On(d, axis, x, c)
    ensures NodesOn(d, axis, x, c) == [N(c)] + NodesOn(d, axis, x, c + 1)
  {
  }

  lemma DescendantEnds(d: Depths, axis: Axis, i: nat)
    requires WellFormed(d) && i < |d| && (axis == Descendant || axis == DescendantOrSelf)
    ensures NodesOn(d, axis, N(i), End(d, i)) == []
    ensures NodesOn(d, axis, N(i), 0) == NodesOn(d, axis, N(i), if axis == Descendant then i + 1 else i)
  {
    Skip(d, axis, N(i), End(d, i), |d|);
    Skip(d, axis, N(i), 0, if axis == Descendant then i + 1 else i);
  }

  /** The position behind a node in a preorder traversal. */
  lemma LeafEnd(d: Depths, c: nat)
    requires WellFormed(d) && c < |d|
    ensures FirstChild(d, c) == -1 <==> End(d, c) == c + 1
    ensures FirstChild(d, c) != -1 ==> FirstChild(d, c) == c + 1 < End(d, c)
  {
    AppendSlot(d, c);
  }

  /** axis_descendant and axis_descendant_or_self */
  method FillDescendant(n: XmlNode, self: bool, test: Test, once: bool, ns0: seq<XmlNode?>,
                        ghost order: seq<XmlNode>, ghost d: Depths, ghost i: nat)
    returns (ns: seq<XmlNode?>)
    requires Linked(order, d) && i < |order| && order[i] == n
    ensures var axis := if self then DescendantOrSelf else Descendant;
            ns == Fill(order, DocOf(order, d), axis, test, once, ns0, AxisOrder(DocOf(order, d), axis, N(i)))
  {
    ghost var doc, axis := DocOf(order, d), if self then DescendantOrSelf else Descendant;
    ghost var total := Fill(order, doc, axis, test, once, ns0, AxisOrder(doc, axis, N(i)));
    DescendantEnds(d, axis, i);
    ns := ns0;
    if self {
      ForwardNext(d, axis, N(i), i);
      var stop;
      ns, stop := Visit(n, test, once, ns, order, doc, axis, i, NodesOn(d, axis, N(i), i + 1), total);
      if stop {
        return;
      }
    }
    ns := FillBelow(n, test, once, ns, axis, order, d, i);
  }

  /** The loop shared by the descendant axes. */
  method FillBelow(n: XmlNode, test: Test, once: bool, ns0: seq<XmlNode?>, ghost axis: Axis,
                   ghost order: seq<XmlNode>, ghost d: Depths, ghost i: nat)
    returns (ns: seq<XmlNode?>)
    requires Linked(order, d) && i < |order| && order[i] == n && (axis == Descendant || axis == DescendantOrSelf)
    ensures ns == Fill(order, DocOf(order, d), axis, test, once, ns0, NodesOn(d, axis, N(i), i + 1))
  {
    ghost var doc := DocOf(order, d);
    ghost var total := Fill(order, doc, axis, test, once, ns0, NodesOn(d, axis, N(i), i + 1));
    DescendantEnds(d, axis, i);
    LinksOfNode(order, d, i);
    LeafEnd(d, i);
    ns := ns0;
    var cur := n.firstChild;
    ghost var c: nat := i + 1;
    while cur != null
      invariant i < c <= End(d, i) && cur == (if c < End(d, i) then order[c] else null)
      invariant Fill(order, doc, axis, test, once, ns, NodesOn(d, axis, N(i), c)) == total
      decreases End(d, i) - c
    {
      ForwardNext(d, axis, N(i), c);
      var stop;
      ns, stop := Visit(cur, test, once, ns, order, doc, axis, c, NodesOn(d, axis, N(i), c + 1), total);
      if stop {
        return;
      }
      cur := Onward(cur, n, order, d, c, i);
      Position(order, i, c + 1);
      c := c + 1;
      if cur == n {
        break;
      }
    }
    assert c == End(d, i);
    FillNothing(order, doc, axis, test, once, ns);
  }

  lemma FollowingStarts(d: Depths, x: Ref)
    requires WellFormed(d) && !x.Null? && x.i < |d|
    ensures NodesOn(d, Following, x, 0) == NodesOn(d, Following, x, if x.N? then End(d, x.i) else x.i + 1)
    ensures NodesOn(d, Following, x, |d|) == []
  {
    Skip(d, Following, x, 0, if x.N? then End(d, x.i) else x.i + 1);
  }

  /** axis_following for a node: first out of it, so that its descendants are left out. */
  method FillFollowing(n: XmlNode, test: Test, once: bool, ns0: seq<XmlNode?>,
                       ghost order: seq<XmlNode>, ghost d: Depths, ghost i: nat)
    returns (ns: seq<XmlNode?>)
    requires Linked(order, d) && i < |order| && order[i] == n
    ensures ns == Fill(order, DocOf(order, d), Following, test, once, ns0, AxisOrder(DocOf(order, d), Following, N(i)))
  {
    ghost var doc, x := DocOf(order, d), N(i);
    ghost var total := Fill(order, doc, Following, test, once, ns0, AxisOrder(doc, Following, x));
    FollowingStarts(d, x);
    ns := ns0;
    var cur := Ahead(n, null, order, d, i, -1);
    ghost var c: nat := End(d, i);
    while cur != null
      invariant End(d, i) <= c <= |d| && cur == (if c < |d| then order[c] else null)
      invariant Fill(order, doc, Following, test, once, ns, NodesOn(d, Following, x, c)) == total
      decreases |d| - c
    {
      ForwardNext(d, Following, x, c);
      var stop;
      ns, stop := Visit(cur, test, once, ns, order, doc, Following, c, NodesOn(d, Following, x, c + 1), total);
      if stop {
        return;
      }
      cur := Onward(cur, null, order, d, c, -1);
      c := c + 1;
    }
    FillNothing(order, doc, Following, test, once, ns);
  }

  /** axis_following for an attribute of p: the descendants of p follow it. */
  method FillFollowingAttribute(p: XmlNode, test: Test, once: bool, ns0: seq<XmlNode?>,
                                ghost order: seq<XmlNode>, ghost d: Depths, ghost i: nat, ghost j: nat)
    returns (ns: seq<XmlNode?>)
    requires Linked(order, d) && i < |order| && order[i] == p
    ensures ns == Fill(order, DocOf(order, d), Following, test, once, ns0, AxisOrder(DocOf(order, d), Following, A(i, j)))
  {
    ghost var doc, x := DocOf(order, d), A(i, j);
    ghost var total := Fill(order, doc, Following, test, once, ns0, AxisOrder(doc, Following, x));
    FollowingStarts(d, x);
    assert AxisOrder(doc, Following, x) == NodesOn(d, Following, x, 0);
    ns := ns0;
    var cur := p;
    ghost var c: nat := i;
    var stop := false;
    while !stop
      invariant if stop then ns == total
                else i <= c < |d| && cur == order[c]
                     && Fill(order, doc, Following, test, once, ns, NodesOn(d, Following, x, c + 1)) == total
      decreases !stop, |d| - c
    {
      cur, ns, stop, c := FollowOn(cur, test, once, ns, order, d, x, c, total);
    }
  }

  /** One round of that loop; `stop` when the fill ends there. */
  method FollowOn(cur0: XmlNode, test: Test, once: bool, ns0: seq<XmlNode?>,
                  ghost order: seq<XmlNode>, ghost d: Depths, ghost x: Ref, ghost c0: nat, ghost total: seq<XmlNode?>)
    returns (cur: XmlNode, ns: seq<XmlNode?>, stop: bool, ghost c: nat)
    requires Linked(order, d) && x.A? && x.i <= c0 < |order| && order[c0] == cur0
    requires Fill(order, DocOf(order, d), Following, test, once, ns0, NodesOn(d, Following, x, c0 + 1)) == total
    ensures c == c0 + 1 && (stop ==> ns == total)
    ensures !stop ==> c < |d| && cur == order[c]
                      && Fill(order, DocOf(order, d), Following, test, once, ns, NodesOn(d, Following, x, c + 1)) == total
  {
    ghost var doc := DocOf(order, d);
    c := c0 + 1;
    cur := cur0;
    var next := Onward(cur0, null, order, d, c0, -1);
    if next == null {
      FollowingStarts(d, x);
      FillNothing(order, doc, Following, test, once, ns0);
      return cur, ns0, true, c;
    }
    cur := next;
    ForwardNext(d, Following, x, c);
    ns, stop := Visit(cur, test, once, ns0, order, doc, Following, c, NodesOn(d, Following, x, c + 1), total);
  }

  /** axis_following_sibling */
  method FillFollowingSibling(n: XmlNode, test: Test, once: bool, ns0: seq<XmlNode?>,
                              ghost order: seq<XmlNode>, ghost d: Depths, ghost i: nat)
    returns (ns: seq<XmlNode?>)
    requires Linked(order, d) && i < |order| && order[i] == n
    ensures ns == Fill(order, DocOf(order, d), FollowingSibling, test, once, ns0, AxisOrder(DocOf(order, d), FollowingSibling, N(i)))
  {
    ghost var doc, x, k := DocOf(order, d), N(i), NextSibling(d, i);
    ghost var total := Fill(order, doc, FollowingSibling, test, once, ns0, AxisOrder(doc, FollowingSibling, x));
    LinksOfNode(order, d, i);
    SiblingNext(d, i, i);
    ns := ns0;
    var c := n.nextSibling;
    while c != null
      invariant (k == -1 || i < k < |d|) && c == At(order, k) && (k != -1 ==> Parent(d, k) == Parent(d, i))
      invariant Fill(order, doc, FollowingSibling, test, once, ns, NodesOn(d, FollowingSibling, x, if k == -1 then |d| else k)) == total
      decreases if k == -1 then 0 else |d| - k
    {
      LinksOfNode(order, d, k);
      SiblingNext(d, i, k);
      ForwardNext(d, FollowingSibling, x, k);
      ghost var next := NextSibling(d, k);
      var stop;
      ns, stop := Visit(c, test, once, ns, order, doc, FollowingSibling, k, NodesOn(d, FollowingSibling, x, k + 1), total);
      if stop {
        return;
      }
      c := c.nextSibling;
      k := next;
    }
    FillNothing(order, doc, FollowingSibling, test, once, ns);
  }

  lemma RootAlone(d: Depths)
    requires WellFormed(d)
    ensures NextSibling(d, 0) == -1
    ensures forall y :: 0 < y < |d| ==> Parent(d, y) != -1
  {
    NxtIs(d, 1, d[0], |d|);
    forall y | 0 < y < |d| ensures Parent(d, y) != -1 {
      ParentDepth(d, y);
    }
  }

  lemma SiblingNext(d: Depths, i: nat, k: nat)
    requires WellFormed(d) && i <= k < |d| && Parent(d, k) == Parent(d, i)
    ensures var n := NextSibling(d, k);
            && NodesOn(d, FollowingSibling, N(i), k + 1) == NodesOn(d, FollowingSibling, N(i), if n == -1 then |d| else n)
            && (n != -1 ==> k < n < |d| && Parent(d, n) == Parent(d, i))
    ensures NodesOn(d, FollowingSibling, N(i), 0) == NodesOn(d, FollowingSibling, N(i), i + 1)
  {
    var n := NextSibling(d, k);
    Skip(d, FollowingSibling, N(i), 0, i + 1);
    if k == 0 {
      RootAlone(d);
    } else {
      SiblingsApart(d, k);
    }
    Skip(d, FollowingSibling, N(i), k + 1, if n == -1 then |d| else n);
  }

  // Ancestors and preceding nodes, in reverse document order

  lemma AncestorNext(d: Depths, x: Ref, axis: Axis, c: nat)
    requires WellFormed(d) && !x.Null? && x.i < |d| && c <= x.i < End(d, c)
    requires axis == Ancestor || axis == AncestorOrSelf
    ensures var p := Parent(d, c);
            && NodesDown(d, axis, x, c) == NodesDown(d, axis, x, p + 1)
            && (p != -1 ==> p <= x.i < End(d, p) && On(d, axis, x, p)
                            && NodesDown(d, axis, x, p + 1) == [N(p)] + NodesDown(d, axis, x, p))
  {
    var p := Parent(d, c);
    LastSpec(d, c, d[c] as int - 1);
    if p != -1 {
      ParentDepth(d, c);
      NextInside(d, p, c);
    }
    forall y | p < y < c ensures !On(d, axis, x, y) {
      NxtSpec(d, y + 1, d[y]);
    }
    SkipDown(d, axis, x, p + 1, c);
  }

  lemma AncestorStarts(d: Depths, x: Ref, axis: Axis)
    requires WellFormed(d) && !x.Null? && x.i < |d| && (axis == Ancestor || axis == AncestorOrSelf)
    ensures NodesDown(d, axis, x, |d|) == NodesDown(d, axis, x, x.i + 1)
    ensures NodesDown(d, axis, x, x.i + 1) ==
            (if x.N? && axis == Ancestor then [] else [N(x.i)]) + NodesDown(d, axis, x, x.i)
  {
    SkipDown(d, axis, x, x.i + 1, |d|);
  }

  /** The loop shared by the ancestor axes: from node c upwards. */
  method FillUp(start: XmlNode?, test: Test, once: bool, ns0: seq<XmlNode?>, ghost axis: Axis, ghost x: Ref,
                ghost order: seq<XmlNode>, ghost d: Depths, ghost c0: nat)
    returns (ns: seq<XmlNode?>)
    requires Linked(order, d) && !x.Null? && c0 <= x.i < |d| && x.i < End(d, c0) && start == At(order, Parent(d, c0))
    requires axis == Ancestor || axis == AncestorOrSelf
    ensures ns == Fill(order, DocOf(order, d), axis, test, once, ns0, NodesDown(d, axis, x, c0))
  {
    ghost var doc, p := DocOf(order, d), Parent(d, c0);
    ghost var total := Fill(order, doc, axis, test, once, ns0, NodesDown(d, axis, x, c0));
    AncestorNext(d, x, axis, c0);
    ns := ns0;
    var cur := start;
    while cur != null
      invariant -1 <= p < |d| && cur == At(order, p) && (p != -1 ==> p <= x.i < End(d, p) && On(d, axis, x, p))
      invariant Fill(order, doc, axis, test, once, ns, NodesDown(d, axis, x, p + 1)) == total
      decreases p
    {
      LinksOfNode(order, d, p);
      AncestorNext(d, x, axis, p);
      var stop;
      ns, stop := Visit(cur, test, once, ns, order, doc, axis, p, NodesDown(d, axis, x, p), total);
      if stop {
        return;
      }
      cur := cur.parent;
      p := Parent(d, p);
    }
    FillNothing(order, doc, axis, test, once, ns);
  }

  lemma AncestorOrder(doc: Doc, axis: Axis, i: nat)
    requires WellFormed(doc.d) && i < |doc.d| && (axis == Ancestor || axis == AncestorOrSelf)
    ensures var down := NodesDown(doc.d, axis, N(i), i);
            AxisOrder(doc, axis, N(i)) == if axis == AncestorOrSelf then [N(i)] + down else down
  {
    ReverseList(doc.d, axis, N(i));
    AncestorStarts(doc.d, N(i), axis);
    assert [] + NodesDown(doc.d, axis, N(i), i) == NodesDown(doc.d, axis, N(i), i);
  }

  /** axis_ancestor and axis_ancestor_or_self for a node */
  method FillAncestor(n: XmlNode, self: bool, test: Test, once: bool, ns0: seq<XmlNode?>,
                      ghost order: seq<XmlNode>, ghost d: Depths, ghost i: nat)
    returns (ns: seq<XmlNode?>)
    requires Linked(order, d) && i < |order| && order[i] == n
    ensures var axis := if self then AncestorOrSelf else Ancestor;
            ns == Fill(order, DocOf(order, d), axis, test, once, ns0, AxisOrder(DocOf(order, d), axis, N(i)))
  {
    AncestorOrder(DocOf(order, d), if self then AncestorOrSelf else Ancestor, i);
    LinksOfNode(order, d, i);
    if self {
      ns := FillSelfAndUp(n, test, once, ns0, order, d, i);
    } else {
      ns := FillUp(n.parent, test, once, ns0, Ancestor, N(i), order, d, i);
    }
  }

  method FillSelfAndUp(n: XmlNode, test: Test, once: bool, ns0: seq<XmlNode?>, ghost order: seq<XmlNode>, ghost d: Depths, ghost i: nat)
    returns (ns: seq<XmlNode?>)
    requires Linked(order, d) && i < |order| && order[i] == n && n.parent == At(order, Parent(d, i))
    ensures ns == Fill(order, DocOf(order, d), AncestorOrSelf, test, once, ns0, [N(i)] + NodesDown(d, AncestorOrSelf, N(i), i))
  {
    ghost var doc, down := DocOf(order, d), NodesDown(d, AncestorOrSelf, N(i), i);
    ghost var total := Fill(order, doc, AncestorOrSelf, test, once, ns0, [N(i)] + down);
    var stop;
    ns, stop := Visit(n, test, once, ns0, order, doc, AncestorOrSelf, i, down, total);
    if !stop {
      ns := FillUp(n.parent, test, once, ns, AncestorOrSelf, N(i), order, d, i);
    }
  }

  /** The nodes of axis_ancestor and axis_ancestor_or_self for an attribute of p: p and its ancestors. */
  method FillAncestorAttribute(p: XmlNode, test: Test, once: bool, ns0: seq<XmlNode?>, ghost axis: Axis,
                               ghost order: seq<XmlNode>, ghost d: Depths, ghost i: nat, ghost j: nat)
    returns (ns: seq<XmlNode?>)
    requires Linked(order, d) && i < |order| && order[i] == p && (axis == Ancestor || axis == AncestorOrSelf)
    ensures ns == Fill(order, DocOf(order, d), axis, test, once, ns0, Reversed(NodesOn(d, axis, A(i, j), 0)))
  {
    ghost var doc, x := DocOf(order, d), A(i, j);
    ghost var total := Fill(order, doc, axis, test, once, ns0, Reversed(NodesOn(d, axis, x, 0)));
    ReverseList(d, axis, x);
    AncestorStarts(d, x, axis);
    LinksOfNode(order, d, i);
    var stop;
    ns, stop := Visit(p, test, once, ns0, order, doc, axis, i, NodesDown(d, axis, x, i), total);
    if stop {
      return;
    }
    ns := FillUp(p.parent, test, once, ns, axis, x, order, d, i);
  }

  lemma PrecedingSiblingNext(d: Depths, i: nat, k: nat)
    requires WellFormed(d) && k <= i < |d| && Parent(d, k) == Parent(d, i)
    ensures NodesDown(d, PrecedingSibling, N(i), |d|) == NodesDown(d, PrecedingSibling, N(i), i)
    ensures var q := PrevSiblingC(d, k);
            && 0 <= q < |d|
            && (k == 0 || k == Parent(d, k) + 1 ==> NextSibling(d, q) == -1 && NodesDown(d, PrecedingSibling, N(i), k) == [])
            && (k != 0 && k != Parent(d, k) + 1 ==>
                  && NextSibling(d, q) == k && q < k && Parent(d, q) == Parent(d, i)
                  && NodesDown(d, PrecedingSibling, N(i), k) == [N(q)] + NodesDown(d, PrecedingSibling, N(i), q))
  {
    var q, x := PrevSiblingC(d, k), N(i);
    SkipDown(d, PrecedingSibling, x, i, |d|);
    if k == 0 {
      NxtIs(d, 1, d[0], |d|);
    } else {
      PrevSiblingExists(d, k);
      ParentDepth(d, k);
      if k == Parent(d, k) + 1 {
        TailHasNoNext(d, k);
        forall y | 0 <= y < k ensures Parent(d, y) != Parent(d, i) {
        }
        SkipDown(d, PrecedingSibling, x, 0, k);
      } else {
        PrevThenNext(d, k);
        PrevIsBefore(d, k);
        SiblingsApart(d, q);
        SkipDown(d, PrecedingSibling, x, q + 1, k);
      }
    }
  }

  lemma PrevIsBefore(d: Depths, k: nat)
    requires WellFormed(d) && 0 < k < |d| && k != Parent(d, k) + 1
    ensures var q := PrevSiblingC(d, k); 0 < q < k && Parent(d, q) == Parent(d, k) && End(d, q) == k
  {
    var q, p := PrevSiblingC(d, k), Parent(d, k);
    ParentDepth(d, k);
    PrevSiblingExists(d, k);
    PrevThenNext(d, k);
    LastSpec(d, k, d[k] as int - 1);
    LastSpec(d, k, d[k]);
    assert StepDown(d, p + 1);
    LastIs(d, q, d[q] as int - 1, p);
  }

  /** axis_preceding_sibling: against the back pointers, until the one that leads to the tail. */
  method FillPrecedingSibling(n: XmlNode, test: Test, once: bool, ns0: seq<XmlNode?>,
                              ghost order: seq<XmlNode>, ghost d: Depths, ghost i: nat)
    returns (ns: seq<XmlNode?>)
    requires Linked(order, d) && i < |order| && order[i] == n && order[0].prevSiblingC == order[0]
    ensures ns == Fill(order, DocOf(order, d), PrecedingSibling, test, once, ns0,
                       AxisOrder(DocOf(order, d), PrecedingSibling, N(i)))
  {
    ghost var doc, x, k := DocOf(order, d), N(i), i;
    ghost var total := Fill(order, doc, PrecedingSibling, test, once, ns0, AxisOrder(doc, PrecedingSibling, x));
    ReverseList(d, PrecedingSibling, x);
    PrecedingSiblingNext(d, i, i);
    LinksOfNode(order, d, i);
    ns := ns0;
    var c := n.prevSiblingC;
    LinksOfNode(order, d, PrevSiblingC(d, i));
    while c.nextSibling != null
      invariant 0 <= k <= i && Parent(d, k) == Parent(d, i) && 0 <= PrevSiblingC(d, k) < |d| && c == order[PrevSiblingC(d, k)]
      invariant Fill(order, doc, PrecedingSibling, test, once, ns, NodesDown(d, PrecedingSibling, x, k)) == total
      decreases k
    {
      PrecedingSiblingNext(d, i, k);
      ghost var q := PrevSiblingC(d, k);
      LinksOfNode(order, d, q);
      var stop;
      ns, stop := Visit(c, test, once, ns, order, doc, PrecedingSibling, q, NodesDown(d, PrecedingSibling, x, q), total);
      if stop {
        return;
      }
      c := c.prevSiblingC;
      PrecedingSiblingNext(d, i, q);
      k := q;
    }
    PrecedingSiblingNext(d, i, k);
    LinksOfNode(order, d, PrevSiblingC(d, k));
    FillNothing(order, doc, PrecedingSibling, test, once, ns);
  }

  /** node_is_ancestor; a node counts as its own ancestor. */
  method NodeIsAncestor(parent: XmlNode, node0: XmlNode, ghost order: seq<XmlNode>, ghost d: Depths, ghost p: nat, ghost i: nat)
    returns (b: bool)
    requires Linked(order, d) && p < |order| && i < |order| && order[p] == parent && order[i] == node0
    ensures b <==> p <= i < End(d, p)
  {
    var node: XmlNode? := node0;
    ghost var c: int := i;
    while node != null && node != parent
      invariant -1 <= c <= i && node == At(order, c)
      invariant p <= i < End(d, p) <==> p <= c < End(d, p)
      decreases c
    {
      Position(order, p, c);
      LinksOfNode(order, d, c);
      AncestorStep(d, p, c);
      node := node.parent;
      c := Parent(d, c);
    }
    Position(order, p, c);
    b := node == parent;
  }

  /** The back pointer of a node leads to a node without a next sibling exactly if there is no previous sibling. */
  lemma BackPointer(d: Depths, c: nat)
    requires WellFormed(d) && c < |d|
    ensures var q := PrevSiblingC(d, c);
            && 0 <= q < |d|
            && (NextSibling(d, q) == -1 <==> c == 0 || c == Parent(d, c) + 1)
            && (NextSibling(d, q) != -1 ==> q < c && End(d, q) == c)
  {
    if c == 0 {
      NxtIs(d, 1, d[0], |d|);
    } else if c == Parent(d, c) + 1 {
      TailHasNoNext(d, c);
    } else {
      PrevThenNext(d, c);
      PrevIsBefore(d, c);
    }
  }

  /** Whether there is a previous sibling, as the code asks for it. */
  lemma BackLinks(order: seq<XmlNode>, d: Depths, c: nat)
    requires Linked(order, d) && c < |order| && order[0].prevSiblingC == order[0]
    ensures var q := PrevSiblingC(d, c);
            && 0 <= q < |d| && order[c].prevSiblingC == order[q]
            && (order[q].nextSibling == null <==> c == 0 || c == Parent(d, c) + 1)
            && (order[q].nextSibling != null ==> q < c && End(d, q) == c)
    ensures order[c].parent == At(order, Parent(d, c))
  {
    BackPointer(d, c);
    LinksOfNode(order, d, c);
    LinksOfNode(order, d, PrevSiblingC(d, c));
  }

  /** For nodes before i, not preceding i means being above it. */
  lemma PrecedingOrAbove(d: Depths, i: nat, p: nat)
    requires p < i < |d|
    ensures On(d, Preceding, N(i), p) <==> !(p <= i < End(d, p))
  {
  }

  /**
   From a node that has been dealt with, up as long as there is no previous sibling; a node on
   the way is taken unless it is an ancestor of n.
   */
  method ClimbBack(cur0: XmlNode, n: XmlNode, test: Test, once: bool, ns0: seq<XmlNode?>, ghost order: seq<XmlNode>, ghost d: Depths,
                   ghost c0: nat, ghost i: nat, ghost total: seq<XmlNode?>)
    returns (ns: seq<XmlNode?>, cur: XmlNode?, ghost q: nat)
    requires Linked(order, d) && c0 < i < |order| && order[c0] == cur0 && order[i] == n && order[0].prevSiblingC == order[0]
    requires Fill(order, DocOf(order, d), Preceding, test, once, ns0, NodesDown(d, Preceding, N(i), c0)) == total
    ensures cur == null ==> ns == total
    ensures cur != null ==>
      && q < c0 && cur == order[q] && End(d, q) <= c0
      && Fill(order, DocOf(order, d), Preceding, test, once, ns, NodesDown(d, Preceding, N(i), End(d, q))) == total
  {
    ghost var doc := DocOf(order, d);
    ghost var c: nat := c0;
    ns, cur, q := ns0, cur0, 0;
    BackLinks(order, d, c);
    while cur.prevSiblingC.nextSibling == null
      invariant c <= c0 && cur == order[c] && cur.prevSiblingC != null
      invariant Fill(order, doc, Preceding, test, once, ns, NodesDown(d, Preceding, N(i), c)) == total
      decreases c
    {
      BackLinks(order, d, c);
      cur := cur.parent;
      if cur == null {
        FillNothing(order, doc, Preceding, test, once, ns);
        return;
      }
      PrecedingOrAbove(d, i, c - 1);
      var above := NodeIsAncestor(cur, n, order, d, c - 1, i);
      if !above {
        var stop;
        ns, stop := Visit(cur, test, once, ns, order, doc, Preceding, c - 1, NodesDown(d, Preceding, N(i), c - 1), total);
        if stop {
          return ns, null, 0;
        }
      }
      c := c - 1;
      BackLinks(order, d, c);
    }
    BackLinks(order, d, c);
    cur := cur.prevSiblingC;
    q := PrevSiblingC(d, c);
  }

  /** The first loop of axis_preceding: out of n to the nearest node with a previous sibling, and over to it. */
  method OutBackwards(n: XmlNode, ghost order: seq<XmlNode>, ghost d: Depths, ghost i: nat) returns (cur: XmlNode?, ghost q: nat)
    requires Linked(order, d) && i < |order| && order[i] == n && order[0].prevSiblingC == order[0]
    ensures cur == null ==> NodesDown(d, Preceding, N(i), |d|) == []
    ensures cur != null ==> q < i && cur == order[q] && End(d, q) <= i
                            && NodesDown(d, Preceding, N(i), |d|) == NodesDown(d, Preceding, N(i), End(d, q))
  {
    ghost var c: nat := i;
    cur, q := n, 0;
    NxtSpec(d, i + 1, d[i]);
    BackLinks(order, d, c);
    while cur.prevSiblingC.nextSibling == null
      invariant c <= i && cur == order[c] && cur.prevSiblingC != null
      invariant c <= i < End(d, c) && forall y :: c <= y < |d| ==> !On(d, Preceding, N(i), y)
      decreases c
    {
      BackLinks(order, d, c);
      cur := cur.parent;
      if cur == null {
        SkipDown(d, Preceding, N(i), 0, |d|);
        return;
      }
      AncestorNext(d, N(i), Ancestor, c);
      c := c - 1;
      BackLinks(order, d, c);
    }
    BackLinks(order, d, c);
    SkipDown(d, Preceding, N(i), c, |d|);
    cur := cur.prevSiblingC;
    q := PrevSiblingC(d, c);
  }

  /** axis_preceding, for a node and for the attributes of a node */
  method FillPreceding(n: XmlNode, test: Test, once: bool, ns0: seq<XmlNode?>,
                       ghost order: seq<XmlNode>, ghost d: Depths, ghost i: nat)
    returns (ns: seq<XmlNode?>)
    requires Linked(order, d) && i < |order| && order[i] == n && order[0].prevSiblingC == order[0]
    ensures ns == Fill(order, DocOf(order, d), Preceding, test, once, ns0, AxisOrder(DocOf(order, d), Preceding, N(i)))
  {
    ghost var doc := DocOf(order, d);
    ghost var total := Fill(order, doc, Preceding, test, once, ns0, AxisOrder(doc, Preceding, N(i)));
    ReverseList(d, Preceding, N(i));
    FillNothing(order, doc, Preceding, test, once, ns0);
    ns := ns0;
    var cur: XmlNode?;
    ghost var q: nat;
    cur, q := OutBackwards(n, order, d, i);
    while cur != null
      invariant cur != null ==>
        && q < i && cur == order[q] && End(d, q) <= i
        && Fill(order, doc, Preceding, test, once, ns, NodesDown(d, Preceding, N(i), End(d, q))) == total
      invariant cur == null ==> ns == total
      decreases if cur == null then 0 else End(d, q), |d| - q
    {
      LinksOfNode(order, d, q);
      LeafEnd(d, q);
      if cur.firstChild != null {
        LastChild(d, q);
        LinksOfNode(order, d, q + 1);
        cur := cur.firstChild.prevSiblingC;
        q := PrevSiblingC(d, q + 1);
      } else {
        var stop;
        ns, stop := Visit(cur, test, once, ns, order, doc, Preceding, q, NodesDown(d, Preceding, N(i), q), total);
        if stop {
          return;
        }
        ns, cur, q := ClimbBack(cur, n, test, once, ns, order, d, q, i, total);
      }
    }
  }

  /** The preceding nodes of an attribute are those of its element. */
  lemma {:induction false} PrecedingOfAttribute(d: Depths, i: nat, j: nat, k: nat)
    ensures NodesOn(d, Preceding, A(i, j), k) == NodesOn(d, Preceding, N(i), k)
    decreases |d| - k
  {
    if k < |d| { PrecedingOfAttribute(d, i, j, k + 1); }
  }

  predicate IsMain(axis: Axis) {
    axis == Self || axis == Ancestor || axis == Descendant || axis == Preceding || axis == Following
  }

  /**
   The self, ancestor, descendant, preceding and following axes of a node partition the document:
   every node is on exactly one of them.
   */
  lemma AxisPartition(d: Depths, i: nat, y: nat)
    requires WellFormed(d) && i < |d| && y < |d|
    ensures exists axis :: IsMain(axis) && OnAxis(d, axis, i, y)
    ensures forall a, b :: IsMain(a) && IsMain(b) && OnAxis(d, a, i, y) && OnAxis(d, b, i, y) ==> a == b
  {
    var axis := if y == i then Self else if y < i && i < End(d, y) then Ancestor else if y < i then Preceding
                else if y < End(d, i) then Descendant else Following;
    assert IsMain(axis) && OnAxis(d, axis, i, y);
  }
}
