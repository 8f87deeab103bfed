/**
 step_fill for every axis, from a node and from an attribute: what it pushes is the axis as XPath 1.0
 defines it (sections 2.2 and 2.4), in axis order, filtered by the node test.
 */
module StepFill {
  import opened Basics
  import opened Shape
  import opened Dom
  import opened XPathData
  import opened Axes

  /** xpath_node: a node, or an attribute given by its element and its place in the list of attributes. */
  datatype XPathNode = XPathNode(node: XmlNode?, attribute: Option<nat>)

  function NodeOf(order: seq<XmlNode>, x: Ref): XPathNode {
    XPathNode(At(order, Rank(x)), if x.A? then Some(x.j) else None)
  }

  function NodesOf(order: seq<XmlNode>, refs: seq<Ref>): (r: seq<XPathNode>)
    ensures |r| == |refs|
    ensures forall k {:trigger r[k]} :: 0 <= k < |refs| ==> r[k] == NodeOf(order, refs[k])
  {
    if refs == [] then [] else [NodeOf(order, refs[0])] + NodesOf(order, refs[1..])
  }

  /** What a step from x along an axis selects. */
  ghost function Step(order: seq<XmlNode>, d: Depths, axis: Axis, test: Test, once: bool, x: Ref): seq<XPathNode>
    reads order
  {
    NodesOf(order, Selected(DocOf(order, d), axis, test, AxisOrder(DocOf(order, d), axis, x), once))
  }

  ghost predicate ValidRef(order: seq<XmlNode>, x: Ref)
    reads order
  {
    !x.Null? ==> x.i < |order| && (x.A? ==> x.j < |order[x.i].attributes|)
  }

  ghost predicate AllNodes(refs: seq<Ref>) {
    forall k :: 0 <= k < |refs| ==> refs[k].N?
  }

  /** A list of nodes as XPath nodes. */
  function Wrapped(nodes: seq<XmlNode?>): (r: seq<XPathNode>)
    ensures |r| == |nodes|
    ensures forall k {:trigger r[k]} :: 0 <= k < |nodes| ==> r[k] == XPathNode(nodes[k], None)
  {
    if nodes == [] then [] else [XPathNode(nodes[0], None)] + Wrapped(nodes[1..])
  }

  lemma {:induction false} SelectedAreNodes(doc: Doc, axis: Axis, test: Test, list: seq<Ref>, once: bool)
    requires AllNodes(list)
    ensures AllNodes(Selected(doc, axis, test, list, once))
  {
    if list != [] { SelectedAreNodes(doc, axis, test, list[1..], once); }
  }

  /** An axis that holds nodes only. */
  lemma WrappedStep(order: seq<XmlNode>, d: Depths, axis: Axis, test: Test, once: bool, list: seq<Ref>, nodes: seq<XmlNode?>)
    requires AllNodes(list) && nodes == Fill(order, DocOf(order, d), axis, test, once, [], list)
    ensures Wrapped(nodes) == NodesOf(order, Selected(DocOf(order, d), axis, test, list, once))
  {
    SelectedAreNodes(DocOf(order, d), axis, test, list, once);
  }

  lemma AxisIsNodes(doc: Doc, axis: Axis, x: Ref)
    requires axis != AttributeAxis
    ensures AllNodes(NodesOn(doc.d, axis, x, 0)) && AllNodes(Reversed(NodesOn(doc.d, axis, x, 0)))
    ensures x.N? ==> AllNodes(AxisOrder(doc, axis, x))
  {
    var r := NodesOn(doc.d, axis, x, 0);
    NodesOnSpec(doc.d, axis, x, 0);
    forall k | 0 <= k < |r| ensures r[k].N? {
      assert r[k] in r;
    }
  }

  lemma SelfOnly(d: Depths, i: nat)
    requires i < |d|
    ensures NodesOn(d, Self, N(i), 0) == [N(i)]
  {
    Skip(d, Self, N(i), 0, i);
    Skip(d, Self, N(i), i + 1, |d|);
  }

  lemma ParentOnly(d: Depths, i: nat)
    requires i < |d|
    ensures NodesOn(d, ParentAxis, N(i), 0) == if Parent(d, i) == -1 then [] else [N(Parent(d, i))]
  {
    var p := Parent(d, i);
    if p == -1 {
      Skip(d, ParentAxis, N(i), 0, |d|);
    } else {
      Skip(d, ParentAxis, N(i), 0, p);
      Skip(d, ParentAxis, N(i), p + 1, |d|);
    }
  }

  /** The parent of an attribute is its element. */
  lemma OwnerOnly(d: Depths, i: nat, j: nat)
    requires i < |d|
    ensures NodesOn(d, ParentAxis, A(i, j), 0) == [N(i)]
  {
    Skip(d, ParentAxis, A(i, j), 0, i);
    Skip(d, ParentAxis, A(i, j), i + 1, |d|);
  }

  /** The attributes of node i from place j on. */
  function AttributesFrom(doc: Doc, i: nat, j: nat): (r: seq<Ref>)
    requires j <= |AttributesOf(doc, i)|
  {
    AttributesOf(doc, i)[j..]
  }

  /** Looking at one attribute. */
  lemma AttributeStep(doc: Doc, test: Test, once: bool, i: nat, j: nat)
    requires i < |doc.nodes| && j < |doc.nodes[i].attributes|
    ensures Selected(doc, AttributeAxis, test, AttributesFrom(doc, i, j), once) ==
            if !AttributePasses(doc.nodes[i].attributes[j], test) then
              Selected(doc, AttributeAxis, test, AttributesFrom(doc, i, j + 1), once)
            else if once then [A(i, j)]
            else [A(i, j)] + Selected(doc, AttributeAxis, test, AttributesFrom(doc, i, j + 1), once)
  {
    var list := AttributesFrom(doc, i, j);
    assert list[0] == A(i, j) && list[1..] == AttributesFrom(doc, i, j + 1);
  }

  /** What the buffer will hold when the attributes from place j on have been looked at. */
  ghost function Pending(order: seq<XmlNode>, doc: Doc, test: Test, once: bool, ns: seq<XPathNode>, i: nat, j: nat): seq<XPathNode>
    requires j <= |AttributesOf(doc, i)|
  {
    ns + NodesOf(order, Selected(doc, AttributeAxis, test, AttributesFrom(doc, i, j), once))
  }

  /** step_push for attribute j; `stop` when the fill ends there. */
  method VisitAttribute(n: XmlNode, j: nat, test: Test, once: bool, ns0: seq<XPathNode>,
                        ghost order: seq<XmlNode>, ghost doc: Doc, ghost i: nat, ghost next: nat)
    returns (ns: seq<XPathNode>, stop: bool)
    requires i < |order| && order[i] == n && doc.nodes == Contents(order) && j < |n.attributes| && next == j + 1
    ensures stop ==> ns == Pending(order, doc, test, once, ns0, i, j)
    ensures !stop ==> Pending(order, doc, test, once, ns, i, next) == Pending(order, doc, test, once, ns0, i, j)
  {
    assert doc.nodes[i] == ContentOf(n);
    AttributeStep(doc, test, once, i, j);
    ns, stop := ns0, false;
    if AttributePasses(n.attributes[j], test) {
      ghost var more := Selected(doc, AttributeAxis, test, AttributesFrom(doc, i, next), once);
      Front(order, A(i, j), more);
      Regroup(ns0, XPathNode(n, Some(j)), NodesOf(order, more));
      ns, stop := ns0 + [XPathNode(n, Some(j))], once;
    }
  }

  /** axis_attribute */
  method FillAttributes(n: XmlNode, test: Test, once: bool, ghost order: seq<XmlNode>, ghost d: Depths, ghost i: nat)
    returns (ns: seq<XPathNode>)
    requires i < |order| && order[i] == n
    ensures ns == Step(order, d, AttributeAxis, test, once, N(i))
  {
    ghost var doc := DocOf(order, d);
    PendingAtFirst(order, d, test, once, i);
    ns := [];
    var j := 0;
    while j < |n.attributes|
      invariant j <= |n.attributes| == |AttributesOf(doc, i)|
      invariant Pending(order, doc, test, once, ns, i, j) == Step(order, d, AttributeAxis, test, once, N(i))
    {
      var stop;
      ns, stop := VisitAttribute(n, j, test, once, ns, order, doc, i, j + 1);
      if stop {
        return;
      }
      j := j + 1;
    }
    PendingAtLast(order, doc, test, once, ns, i, j);
  }

  lemma PendingAtFirst(order: seq<XmlNode>, d: Depths, test: Test, once: bool, i: nat)
    requires i < |order|
    ensures Pending(order, DocOf(order, d), test, once, [], i, 0) == Step(order, d, AttributeAxis, test, once, N(i))
    ensures |AttributesOf(DocOf(order, d), i)| == |order[i].attributes|
  {
    assert DocOf(order, d).nodes[i] == ContentOf(order[i]);
    assert AttributesFrom(DocOf(order, d), i, 0) == AttributesOf(DocOf(order, d), i);
  }

  lemma PendingAtLast(order: seq<XmlNode>, doc: Doc, test: Test, once: bool, ns: seq<XPathNode>, i: nat, j: nat)
    requires j == |AttributesOf(doc, i)|
    ensures Pending(order, doc, test, once, ns, i, j) == ns
  {
  }

  lemma Regroup<T>(a: seq<T>, x: T, b: seq<T>)
    ensures a + ([x] + b) == a + [x] + b
  {
  }

  lemma Front(order: seq<XmlNode>, x: Ref, refs: seq<Ref>)
    ensures NodesOf(order, [x] + refs) == [NodeOf(order, x)] + NodesOf(order, refs)
    ensures NodesOf(order, [x]) == [NodeOf(order, x)]
  {
  }

  /** The axes of a node that hold at most one node. */
  method FillSingle(n: XmlNode?, axis: Axis, test: Test, once: bool, ghost order: seq<XmlNode>, ghost d: Depths, ghost c: int)
    returns (ns: seq<XPathNode>)
    requires -1 <= c < |order| && n == At(order, c)
    ensures ns == NodesOf(order, Selected(DocOf(order, d), axis, test, if c == -1 then [] else [N(c)], once))
  {
    ghost var doc := DocOf(order, d);
    ns := [];
    if n != null {
      assert [N(c)][1..] == [];
      if NodePasses(ContentOf(n), test) {
        ns := [XPathNode(n, None)];
      }
    }
  }

  /** step_fill for a node */
  method StepFillNode(n: XmlNode, axis: Axis, test: Test, once: bool, ghost order: seq<XmlNode>, ghost d: Depths, ghost i: nat)
    returns (ns: seq<XPathNode>)
    requires Linked(order, d) && i < |order| && order[i] == n && order[0].prevSiblingC == order[0]
    ensures ns == Step(order, d, axis, test, once, N(i))
  {
    ghost var doc := DocOf(order, d);
    if axis == AttributeAxis {
      ns := FillAttributes(n, test, once, order, d, i);
    } else if axis == Self {
      SelfOnly(d, i);
      ns := FillSingle(n, axis, test, once, order, d, i);
    } else if axis == ParentAxis {
      ParentOnly(d, i);
      LinksOfNode(order, d, i);
      ns := FillSingle(n.parent, axis, test, once, order, d, Parent(d, i));
    } else if axis == Namespace {
      Skip(d, axis, N(i), 0, |d|);
      ns := [];
    } else {
      AxisIsNodes(doc, axis, N(i));
      var nodes := FillMany(n, axis, test, once, order, d, i);
      WrappedStep(order, d, axis, test, once, AxisOrder(doc, axis, N(i)), nodes);
      ns := Wrapped(nodes);
    }
  }

  /** The axes of a node that hold any number of nodes. */
  method FillMany(n: XmlNode, axis: Axis, test: Test, once: bool, ghost order: seq<XmlNode>, ghost d: Depths, ghost i: nat)
    returns (ns: seq<XmlNode?>)
    requires Linked(order, d) && i < |order| && order[i] == n && order[0].prevSiblingC == order[0]
    requires axis != AttributeAxis && axis != Self && axis != ParentAxis && axis != Namespace
    ensures ns == Fill(order, DocOf(order, d), axis, test, once, [], AxisOrder(DocOf(order, d), axis, N(i)))
  {
    match axis {
      case Child => ns := FillChild(n, test, once, [], order, d, i);
      case Descendant => ns := FillDescendant(n, false, test, once, [], order, d, i);
      case DescendantOrSelf => ns := FillDescendant(n, true, test, once, [], order, d, i);
      case Following => ns := FillFollowing(n, test, once, [], order, d, i);
      case FollowingSibling => ns := FillFollowingSibling(n, test, once, [], order, d, i);
      case Preceding => ns := FillPreceding(n, test, once, [], order, d, i);
      case PrecedingSibling => ns := FillPrecedingSibling(n, test, once, [], order, d, i);
      case Ancestor => ns := FillAncestor(n, false, test, once, [], order, d, i);
      case AncestorOrSelf => ns := FillAncestor(n, true, test, once, [], order, d, i);
    }
  }

  /** The attribute itself, on the axes that contain it: only node() accepts it there. */
  method FillItself(p: XmlNode, j: nat, axis: Axis, test: Test, ghost once: bool, ghost order: seq<XmlNode>, ghost d: Depths, ghost i: nat)
    returns (ns: seq<XPathNode>)
    requires i < |order| && order[i] == p && j < |p.attributes| && axis != AttributeAxis
    ensures ns == NodesOf(order, Selected(DocOf(order, d), axis, test, [A(i, j)], once))
    ensures (ns != []) == Passes(DocOf(order, d), axis, test, A(i, j))
  {
    assert [A(i, j)][1..] == [];
    ns := if test == AnyNode && AttributePasses(p.attributes[j], test) then [XPathNode(p, Some(j))] else [];
  }

  /** step_fill for the attribute j of p */
  method StepFillAttribute(p: XmlNode, j: nat, axis: Axis, test: Test, once: bool, ghost order: seq<XmlNode>, ghost d: Depths, ghost i: nat)
    returns (ns: seq<XPathNode>)
    requires Linked(order, d) && i < |order| && order[i] == p && order[0].prevSiblingC == order[0] && j < |p.attributes|
    ensures ns == Step(order, d, axis, test, once, A(i, j))
  {
    ghost var doc, x := DocOf(order, d), A(i, j);
    if axis == Ancestor || axis == AncestorOrSelf {
      ns := FillUpwards(p, j, axis, test, once, order, d, i);
    } else if axis == DescendantOrSelf || axis == Self {
      Skip(d, axis, x, 0, |d|);
      assert AxisOrder(doc, axis, x) == [x];
      ns := FillItself(p, j, axis, test, once, order, d, i);
    } else if axis == Following {
      AxisIsNodes(doc, axis, x);
      assert AxisOrder(doc, axis, x) == NodesOn(d, axis, x, 0);
      var nodes := FillFollowingAttribute(p, test, once, [], order, d, i, j);
      WrappedStep(order, d, axis, test, once, AxisOrder(doc, axis, x), nodes);
      ns := Wrapped(nodes);
    } else if axis == ParentAxis {
      OwnerOnly(d, i, j);
      assert AxisOrder(doc, axis, x) == [N(i)];
      ns := FillSingle(p, axis, test, once, order, d, i);
    } else if axis == Preceding {
      PrecedingOfAttribute(d, i, j, 0);
      assert AxisOrder(doc, axis, x) == AxisOrder(doc, axis, N(i));
      ns := StepFillNode(p, axis, test, once, order, d, i);
    } else {
      Skip(d, axis, x, 0, |d|);
      assert AxisOrder(doc, axis, x) == [];
      ns := [];
    }
  }

  /** axis_ancestor and axis_ancestor_or_self for an attribute. */
  method FillUpwards(p: XmlNode, j: nat, axis: Axis, test: Test, once: bool, ghost order: seq<XmlNode>, ghost d: Depths, ghost i: nat)
    returns (ns: seq<XPathNode>)
    requires Linked(order, d) && i < |order| && order[i] == p && j < |p.attributes| && (axis == Ancestor || axis == AncestorOrSelf)
    ensures ns == Step(order, d, axis, test, once, A(i, j))
  {
    ghost var doc, x := DocOf(order, d), A(i, j);
    ghost var up := Reversed(NodesOn(d, axis, x, 0));
    UpwardsOrder(doc, axis, x);
    if axis == Ancestor {
      assert [] + up == up;
      ns := FillAbove(p, axis, test, once, order, d, i, j, up);
      return;
    }
    ns := FillItself(p, j, axis, test, once, order, d, i);
    ItselfFirst(order, doc, axis, test, once, x, up);
    if ns != [] && once {
      assert ns + [] == ns;
      return;
    }
    var above := FillAbove(p, axis, test, once, order, d, i, j, up);
    ns := ns + above;
  }

  /** The element of an attribute and its ancestors. */
  method FillAbove(p: XmlNode, ghost axis: Axis, test: Test, once: bool, ghost order: seq<XmlNode>, ghost d: Depths,
                   ghost i: nat, ghost j: nat, ghost up: seq<Ref>)
    returns (ns: seq<XPathNode>)
    requires Linked(order, d) && i < |order| && order[i] == p && (axis == Ancestor || axis == AncestorOrSelf)
    requires up == Reversed(NodesOn(d, axis, A(i, j), 0))
    ensures ns == NodesOf(order, Selected(DocOf(order, d), axis, test, up, once))
  {
    AxisIsNodes(DocOf(order, d), axis, A(i, j));
    var nodes := FillAncestorAttribute(p, test, once, [], axis, order, d, i, j);
    WrappedStep(order, d, axis, test, once, up, nodes);
    ns := Wrapped(nodes);
  }

  /** Upwards from an attribute: on the or-self axis the attribute itself comes first. */
  lemma UpwardsOrder(doc: Doc, axis: Axis, x: Ref)
    requires x.A? && (axis == Ancestor || axis == AncestorOrSelf)
    ensures AxisOrder(doc, axis, x) ==
            (if axis == AncestorOrSelf then [x] else []) + Reversed(NodesOn(doc.d, axis, x, 0))
  {
    assert NodesOn(doc.d, axis, x, 0) + [] == NodesOn(doc.d, axis, x, 0);
  }

  lemma ItselfFirst(order: seq<XmlNode>, doc: Doc, axis: Axis, test: Test, once: bool, x: Ref, rest: seq<Ref>)
    ensures NodesOf(order, Selected(doc, axis, test, [x] + rest, once)) ==
            NodesOf(order, Selected(doc, axis, test, [x], once))
            + if Passes(doc, axis, test, x) && once then [] else NodesOf(order, Selected(doc, axis, test, rest, once))
  {
    assert ([x] + rest)[1..] == rest && [x][1..] == [];
    Front(order, x, Selected(doc, axis, test, rest, once));
  }

  /** step_fill */
  method StepFill(n: XPathNode, axis: Axis, test: Test, ns0: seq<XPathNode>, once: bool,
                  ghost order: seq<XmlNode>, ghost d: Depths, ghost x: Ref)
    returns (ns: seq<XPathNode>)
    requires Linked(order, d) && order[0].prevSiblingC == order[0] && ValidRef(order, x) && n == NodeOf(order, x)
    ensures ns == ns0 + Step(order, d, axis, test, once, x)
  {
    if n.node == null {
      assert x.Null? && AxisOrder(DocOf(order, d), axis, x) == [];
      assert ns0 + [] == ns0;
      return ns0;
    }
    var found: seq<XPathNode>;
    if n.attribute.None? {
      found := StepFillNode(n.node, axis, test, once, order, d, x.i);
    } else {
      found := StepFillAttribute(n.node, n.attribute.value, axis, test, once, order, d, x.i);
    }
    ns := ns0 + found;
  }
}
