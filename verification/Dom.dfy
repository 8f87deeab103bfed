/**
 The node structure of pugixml and the routines that link nodes into and out of a
 child list.  A tree is described by its nodes in document order together with their
 depths; `Linked` says that the pointers of every node are the ones this description
 determines.
 */
module Dom {
  import opened Basics
  import opened Shape

  datatype NodeType = Document | Element | Pcdata | Cdata | Comment | Pi | Declaration | Doctype

  datatype Attribute = Attribute(name: Option<string>, value: Option<string>)

  class XmlNode {
    /** The document whose allocator holds the node; null in a document node itself. */
    const document: XmlNode?
    const kind: NodeType
    var name: Option<string>
    var value: Option<string>
    var attributes: seq<Attribute>
    var parent: XmlNode?
    var firstChild: XmlNode?
    var prevSiblingC: XmlNode?
    var nextSibling: XmlNode?

    constructor (kind: NodeType, document: XmlNode?)
      ensures this.kind == kind && this.document == document && name == None && value == None && attributes == []
      ensures parent == null && firstChild == null && prevSiblingC == null && nextSibling == null
    {
      this.kind, this.document := kind, document;
      name, value, attributes := None, None, [];
      parent, firstChild, prevSiblingC, nextSibling := null, null, null, null;
    }
  }

  /** What a node holds apart from its links. */
  datatype Content = Content(kind: NodeType, name: Option<string>, value: Option<string>, attributes: seq<Attribute>)

  function ContentOf(x: XmlNode): Content
    reads x
  {
    Content(x.kind, x.name, x.value, x.attributes)
  }

  function Contents(order: seq<XmlNode>): (r: seq<Content>)
    reads order
    ensures |r| == |order|
    ensures forall i {:trigger r[i]} :: 0 <= i < |order| ==> r[i] == ContentOf(order[i])
  {
    seq(|order|, i requires 0 <= i < |order| reads order => ContentOf(order[i]))
  }

  /** The node at position i; the null pointer for -1. */
  function At(order: seq<XmlNode>, i: int): XmlNode? {
    if 0 <= i < |order| then order[i] else null
  }

  ghost predicate Distinct(order: seq<XmlNode>) {
    forall i, j :: 0 <= i < j < |order| ==> Apart(order, i, j)
  }

  predicate Apart(order: seq<XmlNode>, i: nat, j: nat)
    requires i < |order| && j < |order|
  {
    order[i] != order[j]
  }

  /** In a list without repetitions a node determines its position. */
  lemma Position(order: seq<XmlNode>, i: nat, j: int)
    requires Distinct(order) && i < |order|
    ensures order[i] == At(order, j) <==> i == j
  {
    if i < j < |order| { assert Apart(order, i, j); }
    if 0 <= j < i { assert Apart(order, j, i); }
  }

  /** Apart from its root, no node of a detached tree is the root or a node of the other tree. */
  lemma Others(order: seq<XmlNode>, sub: seq<XmlNode>)
    requires Distinct(sub) && Disjoint(order, sub) && 0 < |sub|
    ensures sub[0] !in order
    ensures forall k :: 0 < k < |sub| ==> sub[k] != sub[0] && sub[k] !in order
  {
    forall k | 0 < k < |sub| ensures sub[k] != sub[0] {
      Position(sub, k, 0);
    }
  }

  ghost predicate Disjoint(a: seq<XmlNode>, b: seq<XmlNode>) {
    forall i :: 0 <= i < |a| ==> a[i] !in b
  }

  datatype Links = Links(parent: XmlNode?, first: XmlNode?, prev: XmlNode?, next: XmlNode?)

  function Nodes(order: seq<XmlNode>): set<XmlNode> {
    set x | x in order
  }

  /** The four pointers of every node of `order`, read from the heap. */
  function Snapshot(order: seq<XmlNode>): (links: seq<Links>)
    reads order
    ensures |links| == |order|
    ensures forall i {:trigger links[i]} :: 0 <= i < |order| ==>
              links[i] == LinksOf(order[i])
  {
    seq(|order|, i requires 0 <= i < |order| reads order => LinksOf(order[i]))
  }

  ghost predicate LinksAt(order: seq<XmlNode>, links: seq<Links>, d: Depths, i: nat)
    requires i < |order| == |d| == |links|
  {
    && links[i].parent == At(order, Parent(d, i))
    && links[i].first == At(order, FirstChild(d, i))
    && links[i].next == At(order, NextSibling(d, i))
    && (0 < i ==> links[i].prev == At(order, PrevSiblingC(d, i)))
  }

  /**
   The nodes `order`, with these pointers, form one tree of shape `d`.  The back pointer
   of the root is left open: a document points at itself, a detached subtree has none.
   */
  ghost predicate Shaped(order: seq<XmlNode>, links: seq<Links>, d: Depths) {
    && |order| == |d| == |links|
    && WellFormed(d)
    && Distinct(order)
    && forall i :: 0 <= i < |order| ==> LinksAt(order, links, d, i)
  }

  ghost predicate Linked(order: seq<XmlNode>, d: Depths)
    reads order
  {
    Shaped(order, Snapshot(order), d)
  }

  function Splice<T>(order: seq<T>, p: nat, sub: seq<T>): (r: seq<T>)
    requires p <= |order|
    ensures |r| == |order| + |sub|
    ensures forall i {:trigger r[i]} :: 0 <= i < |r| ==>
              r[i] == if i < p then order[i] else if i < p + |sub| then sub[i - p] else order[i - |sub|]
  {
    order[..p] + sub + order[p..]
  }

  // The nodes whose links change when a tree is linked in at the slot p at depth b.

  /** Its parent, when the new child comes first. */
  ghost function OwnerOf(order: seq<XmlNode>, d: Depths, p: nat, b: nat): XmlNode?
    requires |order| == |d| && p <= |d|
  {
    var owner := Last(d, p, b - 1);
    if p == owner + 1 then At(order, owner) else null
  }

  /** Its left neighbour. */
  ghost function LeftOf(order: seq<XmlNode>, d: Depths, p: nat, b: nat): XmlNode?
    requires |order| == |d| && p <= |d|
  {
    var owner := Last(d, p, b - 1);
    if p == owner + 1 then null else At(order, Last(d, p, b))
  }

  /** Its right neighbour or, when the new child comes last, the first child, which holds the tail pointer. */
  ghost function RightOf(order: seq<XmlNode>, d: Depths, p: nat, b: nat): XmlNode?
    requires |order| == |d| && p <= |d|
  {
    var owner := Last(d, p, b - 1);
    if p < |d| && d[p] == b then At(order, p) else if p == owner + 1 then null else At(order, owner + 1)
  }

  /** The pointers z of node x are those in a, except where x is one of the three nodes named. */
  ghost predicate Patch(x: XmlNode, a: Links, z: Links, child: XmlNode,
                        owner: XmlNode?, left: XmlNode?, right: XmlNode?) {
    z == Links(a.parent,
               if x == owner then child else a.first,
               if x == right then child else a.prev,
               if x == left then child else a.next)
  }

  /** The pointers of the root of the tree that was linked in. */
  ghost predicate RootLinked(order: seq<XmlNode>, before: seq<Links>, d: Depths, root: XmlNode, a: Links, z: Links,
                             p: nat, b: nat)
    requires |order| == |d| == |before| && p <= |d|
  {
    var owner := Last(d, p, b - 1);
    && z.parent == At(order, owner)
    && z.first == a.first
    && z.next == (if p < |d| && d[p] == b then At(order, p) else null)
    && z.prev == (if p != owner + 1 then At(order, Last(d, p, b))
                  else if p < |d| && d[p] == b then before[p].prev
                  else root)
  }

  /** What a link routine did: `before` and `subBefore` are the old pointers, `after` and `subAfter` the new ones. */
  ghost predicate LinkedIn(order: seq<XmlNode>, d: Depths, before: seq<Links>, after: seq<Links>,
                           sub: seq<XmlNode>, subBefore: seq<Links>, subAfter: seq<Links>, p: nat, b: nat)
    requires |order| == |d| == |before| == |after| && |sub| == |subBefore| == |subAfter| > 0 && Slot(d, p, b)
  {
    && (forall i :: 0 <= i < |order| ==>
          Patch(order[i], before[i], after[i], sub[0], OwnerOf(order, d, p, b), LeftOf(order, d, p, b), RightOf(order, d, p, b)))
    && (forall k :: 0 < k < |sub| ==> subAfter[k] == subBefore[k])
    && RootLinked(order, before, d, sub[0], subBefore[0], subAfter[0], p, b)
  }

  lemma Neighbours(order: seq<XmlNode>, d: Depths, p: nat, b: nat, i: nat)
    requires |order| == |d| && p <= |d| && Distinct(order) && i < |order|
    ensures var owner, before := Last(d, p, b - 1), Last(d, p, b);
            && (order[i] == OwnerOf(order, d, p, b) <==> i == owner && p == owner + 1)
            && (order[i] == LeftOf(order, d, p, b) <==> i == before && p != owner + 1)
            && (order[i] == RightOf(order, d, p, b) <==>
                  i == if p < |d| && d[p] == b then p else if p == owner + 1 then -1 else owner + 1)
  {
    var owner, before := Last(d, p, b - 1), Last(d, p, b);
    Position(order, i, owner);
    Position(order, i, before);
    Position(order, i, p);
    Position(order, i, owner + 1);
  }

  // Linking a subtree in pointer by pointer is the same as inserting its nodes in the document order.

  lemma OldNodeLinks(order: seq<XmlNode>, d: Depths, before: seq<Links>, after: seq<Links>,
                     sub: seq<XmlNode>, e: Depths, p: nat, b: nat, all: seq<XmlNode>, links: seq<Links>, r: Depths, i: nat)
    requires |order| == |d| == |before| == |after| && |sub| == |e| && i < |d|
    requires Slot(d, p, b) && WellFormed(e) && Distinct(order)
    requires all == Splice(order, p, sub) && Grafted(d, p, e, b, r) && |links| == |all|
    requires links[Shift(i, p, |e|)] == after[i]
    requires LinksAt(order, before, d, i)
    requires Patch(order[i], before[i], after[i], sub[0], OwnerOf(order, d, p, b), LeftOf(order, d, p, b), RightOf(order, d, p, b))
    ensures LinksAt(all, links, r, Shift(i, p, |e|))
  {
    GraftOld(d, p, e, b, r, i);
    OwnerDepth(d, p, b);
    SlotNeighbours(d, p, b);
    Neighbours(order, d, p, b, i);
    assert all[p] == sub[0];
    SpliceOld(order, p, sub, all, Parent(d, i));
    SpliceOld(order, p, sub, all, FirstChild(d, i));
    SpliceOld(order, p, sub, all, NextSibling(d, i));
    SpliceOld(order, p, sub, all, PrevSiblingC(d, i));
  }

  lemma MovedNodeLinks(order: seq<XmlNode>, d: Depths, sub: seq<XmlNode>, e: Depths, subLinks: seq<Links>,
                       p: nat, b: nat, all: seq<XmlNode>, links: seq<Links>, r: Depths, k: nat)
    requires |order| == |d| && |sub| == |e| == |subLinks| && 0 < k < |e|
    requires Slot(d, p, b) && WellFormed(e)
    requires all == Splice(order, p, sub) && Grafted(d, p, e, b, r) && |links| == |all| && links[p + k] == subLinks[k]
    ensures LinksAt(sub, subLinks, e, k) ==> LinksAt(all, links, r, p + k)
  {
    GraftMoved(d, p, e, b, r, k);
    ParentDepth(e, k);
    SpliceNew(order, p, sub, all, Parent(e, k));
    SpliceNew(order, p, sub, all, FirstChild(e, k));
    SpliceNew(order, p, sub, all, NextSibling(e, k));
    PrevSiblingExists(e, k);
    SpliceNew(order, p, sub, all, PrevSiblingC(e, k));
  }

  lemma RootNodeLinks(order: seq<XmlNode>, d: Depths, before: seq<Links>, sub: seq<XmlNode>, e: Depths, a: Links,
                      p: nat, b: nat, all: seq<XmlNode>, links: seq<Links>, r: Depths)
    requires |order| == |d| == |before| && |sub| == |e|
    requires Slot(d, p, b) && WellFormed(e)
    requires all == Splice(order, p, sub) && Grafted(d, p, e, b, r) && |links| == |all|
    requires p < |d| ==> LinksAt(order, before, d, p)
    requires a.first == At(sub, FirstChild(e, 0))
    requires RootLinked(order, before, d, sub[0], a, links[p], p, b)
    ensures LinksAt(all, links, r, p)
  {
    GraftRoot(d, p, e, b, r);
    OwnerDepth(d, p, b);
    SpliceNew(order, p, sub, all, 0);
    SpliceNew(order, p, sub, all, FirstChild(e, 0));
    SpliceOld(order, p, sub, all, Last(d, p, b - 1));
    SpliceOld(order, p, sub, all, Last(d, p, b));
    if p < |d| {
      SpliceOld(order, p, sub, all, p);
      SpliceOld(order, p, sub, all, PrevSiblingC(d, p));
    }
  }

  lemma SpliceOld(order: seq<XmlNode>, p: nat, sub: seq<XmlNode>, all: seq<XmlNode>, x: int)
    requires p <= |order| && all == Splice(order, p, sub) && -1 <= x < |order|
    ensures At(all, Shift(x, p, |sub|)) == At(order, x)
  {
  }

  lemma SpliceNew(order: seq<XmlNode>, p: nat, sub: seq<XmlNode>, all: seq<XmlNode>, x: int)
    requires p <= |order| && all == Splice(order, p, sub) && -1 <= x < |sub|
    ensures 0 <= x ==> At(all, p + x) == At(sub, x)
  {
  }

  lemma SpliceDistinct(order: seq<XmlNode>, p: nat, sub: seq<XmlNode>)
    requires p <= |order|
    ensures Distinct(Splice(order, p, sub)) <==> Distinct(order) && Distinct(sub) && Disjoint(order, sub)
  {
    var all, m := Splice(order, p, sub), |sub|;
    if Distinct(order) && Distinct(sub) && Disjoint(order, sub) {
      forall i, j | 0 <= i < j < |all| ensures Apart(all, i, j) {
        if p <= i && j < p + m {
          assert Apart(sub, i - p, j - p);
        } else if !(p <= i < p + m) && !(p <= j < p + m) {
          assert Apart(order, if i < p then i else i - m, if j < p then j else j - m);
        }
      }
    }
    if Distinct(all) {
      forall i, j | 0 <= i < j < |order| ensures Apart(order, i, j) {
        assert Apart(all, Shift(i, p, m), Shift(j, p, m));
      }
      forall i, j | 0 <= i < j < |sub| ensures Apart(sub, i, j) {
        assert Apart(all, p + i, p + j);
      }
      forall i | 0 <= i < |order| ensures order[i] !in sub {
        forall k | 0 <= k < |sub| ensures order[i] != sub[k] {
          if i < p { assert Apart(all, i, p + k); } else { assert Apart(all, p + k, i + m); }
        }
      }
    }
  }

  lemma LinkedInIsShaped(order: seq<XmlNode>, d: Depths, before: seq<Links>, after: seq<Links>,
                         sub: seq<XmlNode>, e: Depths, subBefore: seq<Links>, subAfter: seq<Links>, p: nat, b: nat)
    requires Shaped(order, before, d) && Shaped(sub, subBefore, e) && Disjoint(order, sub) && Slot(d, p, b)
    requires |after| == |order| && |subAfter| == |sub|
    requires LinkedIn(order, d, before, after, sub, subBefore, subAfter, p, b)
    ensures Shaped(Splice(order, p, sub), Splice(after, p, subAfter), Graft(d, p, e, b))
  {
    var all, links, r, m := Splice(order, p, sub), Splice(after, p, subAfter), Graft(d, p, e, b), |e|;
    GraftWellFormed(d, p, e, b, r);
    SpliceDistinct(order, p, sub);
    forall i | 0 <= i < |all| ensures LinksAt(all, links, r, i) {
      LinkedInAt(order, d, before, after, sub, e, subBefore, subAfter, p, b, all, links, r, i);
    }
  }

  /** One node of the tree that has grown: the root that was linked in, a node below it, or an old one. */
  lemma LinkedInAt(order: seq<XmlNode>, d: Depths, before: seq<Links>, after: seq<Links>,
                   sub: seq<XmlNode>, e: Depths, subBefore: seq<Links>, subAfter: seq<Links>, p: nat, b: nat,
                   all: seq<XmlNode>, links: seq<Links>, r: Depths, i: nat)
    requires Shaped(order, before, d) && Shaped(sub, subBefore, e) && Slot(d, p, b)
    requires |after| == |order| && |subAfter| == |sub|
    requires LinkedIn(order, d, before, after, sub, subBefore, subAfter, p, b)
    requires all == Splice(order, p, sub) && links == Splice(after, p, subAfter) && r == Graft(d, p, e, b) && i < |all|
    ensures LinksAt(all, links, r, i)
  {
    var m := |e|;
    if i == p {
      assert LinksAt(sub, subBefore, e, 0);
      assert p < |d| ==> LinksAt(order, before, d, p);
      RootNodeLinks(order, d, before, sub, e, subBefore[0], p, b, all, links, r);
    } else if p < i < p + m {
      LinkedInMoved(order, d, sub, e, subBefore, subAfter, p, b, all, links, r, i - p, i);
    } else {
      LinkedInOld(order, d, before, after, sub, e, p, b, all, links, r, if i < p then i else i - m, i);
    }
  }

  lemma LinkedInMoved(order: seq<XmlNode>, d: Depths, sub: seq<XmlNode>, e: Depths, subBefore: seq<Links>, subAfter: seq<Links>,
                      p: nat, b: nat, all: seq<XmlNode>, links: seq<Links>, r: Depths, k: nat, i: nat)
    requires |order| == |d| && Shaped(sub, subBefore, e) && Slot(d, p, b) && 0 < k < |e| && i == p + k
    requires all == Splice(order, p, sub) && Grafted(d, p, e, b, r) && |links| == |all|
    requires |subAfter| == |sub| && subAfter[k] == subBefore[k] && links[i] == subAfter[k]
    ensures LinksAt(all, links, r, i)
  {
    assert LinksAt(sub, subBefore, e, k);
    MovedNodeLinks(order, d, sub, e, subBefore, p, b, all, links, r, k);
  }

  lemma LinkedInOld(order: seq<XmlNode>, d: Depths, before: seq<Links>, after: seq<Links>, sub: seq<XmlNode>, e: Depths,
                    p: nat, b: nat, all: seq<XmlNode>, links: seq<Links>, r: Depths, o: nat, i: nat)
    requires Shaped(order, before, d) && |after| == |order| && |sub| == |e| && WellFormed(e) && Slot(d, p, b)
    requires o < |order| && i == Shift(o, p, |e|)
    requires all == Splice(order, p, sub) && Grafted(d, p, e, b, r) && |links| == |all| && links[i] == after[o]
    requires Patch(order[o], before[o], after[o], sub[0], OwnerOf(order, d, p, b), LeftOf(order, d, p, b), RightOf(order, d, p, b))
    ensures LinksAt(all, links, r, i)
  {
    assert LinksAt(order, before, d, o);
    OldNodeLinks(order, d, before, after, sub, e, p, b, all, links, r, o);
  }

  function LinksOf(x: XmlNode): Links
    reads x
  {
    Links(x.parent, x.firstChild, x.prevSiblingC, x.nextSibling)
  }

  lemma SnapshotSplice(order: seq<XmlNode>, p: nat, sub: seq<XmlNode>)
    requires p <= |order|
    ensures Snapshot(Splice(order, p, sub)) == Splice(Snapshot(order), p, Snapshot(sub))
  {
  }

  /** append_node: `child`, the root of the detached tree `sub`, becomes the last child of `node`. */
  method AppendNode(child: XmlNode, node: XmlNode,
                    ghost order: seq<XmlNode>, ghost d: Depths, ghost i: nat, ghost sub: seq<XmlNode>, ghost e: Depths)
    requires Linked(order, d) && Linked(sub, e) && Disjoint(order, sub)
    requires i < |order| && order[i] == node && sub[0] == child
    modifies Nodes(order)`firstChild, Nodes(order)`prevSiblingC, Nodes(order)`nextSibling
    modifies child`parent, child`prevSiblingC
    ensures Linked(Splice(order, End(d, i), sub), Graft(d, End(d, i), e, d[i] + 1))
    ensures order[0].prevSiblingC == old(order[0].prevSiblingC)
  {
    ghost var before, subBefore, p, b := Snapshot(order), Snapshot(sub), End(d, i), d[i] + 1;
    AppendPlaces(order, before, d, i);
    assert LinksAt(sub, subBefore, e, 0);
    Others(order, sub);

    child.parent := node;
    var head := node.firstChild;
    if head != null {
      var tail := head.prevSiblingC;
      tail.nextSibling := child;
      child.prevSiblingC := tail;
      head.prevSiblingC := child;
    } else {
      node.firstChild := child;
      child.prevSiblingC := child;
    }

    Relinked(order, d, before, sub, e, subBefore, p, b);
  }

  /** prepend_node: `child` becomes the first child of `node`. */
  method PrependNode(child: XmlNode, node: XmlNode,
                     ghost order: seq<XmlNode>, ghost d: Depths, ghost i: nat, ghost sub: seq<XmlNode>, ghost e: Depths)
    returns (ghost p: nat, ghost b: nat)
    requires Linked(order, d) && Linked(sub, e) && Disjoint(order, sub)
    requires i < |order| && order[i] == node && sub[0] == child
    modifies Nodes(order)`firstChild, Nodes(order)`prevSiblingC, Nodes(order)`nextSibling
    modifies child`parent, child`prevSiblingC, child`nextSibling
    ensures p == i + 1 && b == d[i] + 1 && Linked(Splice(order, p, sub), Graft(d, p, e, b))
    ensures order[0].prevSiblingC == old(order[0].prevSiblingC)
  {
    ghost var before, subBefore := Snapshot(order), Snapshot(sub);
    p, b := i + 1, d[i] + 1;
    PrependPlaces(order, before, d, i);
    assert LinksAt(sub, subBefore, e, 0);
    Others(order, sub);

    child.parent := node;
    var head := node.firstChild;
    if head != null {
      child.prevSiblingC := head.prevSiblingC;
      head.prevSiblingC := child;
    } else {
      child.prevSiblingC := child;
    }
    child.nextSibling := head;
    node.firstChild := child;

    Relinked(order, d, before, sub, e, subBefore, p, b);
  }

  /** insert_node_after: `child` becomes the next sibling of `node`. */
  method InsertNodeAfter(child: XmlNode, node: XmlNode,
                         ghost order: seq<XmlNode>, ghost d: Depths, ghost i: nat, ghost sub: seq<XmlNode>, ghost e: Depths)
    requires Linked(order, d) && Linked(sub, e) && Disjoint(order, sub)
    requires 0 < i < |order| && order[i] == node && sub[0] == child
    modifies Nodes(order)`firstChild, Nodes(order)`prevSiblingC, Nodes(order)`nextSibling
    modifies child`parent, child`prevSiblingC, child`nextSibling
    ensures Linked(Splice(order, End(d, i), sub), Graft(d, End(d, i), e, d[i]))
    ensures order[0].prevSiblingC == old(order[0].prevSiblingC)
  {
    ghost var before, subBefore, p, b := Snapshot(order), Snapshot(sub), End(d, i), d[i];
    BehindPlaces(order, before, d, i);
    assert LinksAt(sub, subBefore, e, 0);
    Others(order, sub);

    var parent := node.parent;
    child.parent := parent;
    if node.nextSibling != null {
      node.nextSibling.prevSiblingC := child;
    } else {
      parent.firstChild.prevSiblingC := child;
    }
    child.nextSibling := node.nextSibling;
    child.prevSiblingC := node;
    node.nextSibling := child;

    Relinked(order, d, before, sub, e, subBefore, p, b);
  }

  /** insert_node_before: `child` becomes the previous sibling of `node`. */
  method InsertNodeBefore(child: XmlNode, node: XmlNode,
                          ghost order: seq<XmlNode>, ghost d: Depths, ghost i: nat, ghost sub: seq<XmlNode>, ghost e: Depths)
    requires Linked(order, d) && Linked(sub, e) && Disjoint(order, sub)
    requires 0 < i < |order| && order[i] == node && sub[0] == child
    modifies Nodes(order)`firstChild, Nodes(order)`prevSiblingC, Nodes(order)`nextSibling
    modifies child`parent, child`prevSiblingC, child`nextSibling
    ensures Linked(Splice(order, i, sub), Graft(d, i, e, d[i]))
    ensures order[0].prevSiblingC == old(order[0].prevSiblingC)
  {
    ghost var before, subBefore, p, b := Snapshot(order), Snapshot(sub), i, d[i];
    FrontPlaces(order, before, d, i);
    assert LinksAt(sub, subBefore, e, 0);
    Others(order, sub);

    var parent := node.parent;
    child.parent := parent;
    if node.prevSiblingC.nextSibling != null {
      node.prevSiblingC.nextSibling := child;
    } else {
      parent.firstChild := child;
    }
    child.prevSiblingC := node.prevSiblingC;
    child.nextSibling := node;
    node.prevSiblingC := child;

    Relinked(order, d, before, sub, e, subBefore, p, b);
  }

  /** If the pointers now in the heap are those of `LinkedIn`, the two trees have become one. */
  lemma Relinked(order: seq<XmlNode>, d: Depths, before: seq<Links>,
                 sub: seq<XmlNode>, e: Depths, subBefore: seq<Links>, p: nat, b: nat)
    requires Shaped(order, before, d) && Shaped(sub, subBefore, e) && Disjoint(order, sub) && Slot(d, p, b)
    requires forall i :: 0 <= i < |order| ==>
               Patch(order[i], before[i], LinksOf(order[i]), sub[0],
                     OwnerOf(order, d, p, b), LeftOf(order, d, p, b), RightOf(order, d, p, b))
    requires forall k :: 0 < k < |sub| ==> LinksOf(sub[k]) == subBefore[k]
    requires RootLinked(order, before, d, sub[0], subBefore[0], LinksOf(sub[0]), p, b)
    ensures Linked(Splice(order, p, sub), Graft(d, p, e, b))
    ensures order[0].prevSiblingC == before[0].prev
  {
    OwnerDepth(d, p, b);
    Neighbours(order, d, p, b, 0);
    LinkedInIsShaped(order, d, before, Snapshot(order), sub, e, subBefore, Snapshot(sub), p, b);
    SnapshotSplice(order, p, sub);
  }

  // Where the link routines find the nodes to change.

  lemma AppendPlaces(order: seq<XmlNode>, links: seq<Links>, d: Depths, i: nat)
    requires Shaped(order, links, d) && i < |order|
    ensures Slot(d, End(d, i), d[i] + 1)
    ensures End(d, i) < |d| ==> d[End(d, i)] != d[i] + 1
    ensures Last(d, End(d, i), d[i]) == i
    ensures var p, b := End(d, i), d[i] + 1;
            && (links[i].first == null <==> p == i + 1)
            && (links[i].first != null ==> links[i + 1].prev == At(order, Last(d, p, b)))
    ensures var p, b := End(d, i), d[i] + 1;
            var owner, left, right := OwnerOf(order, d, p, b), LeftOf(order, d, p, b), RightOf(order, d, p, b);
            if links[i].first == null then
              owner == order[i] && left == null && right == null
            else
              && owner == null && right == links[i].first && i + 1 < |order| && right == order[i + 1]
              && left == links[i + 1].prev && left != null && left in order
  {
    AppendSlot(d, i);
    assert LinksAt(order, links, d, i);
    if i + 1 < |d| { assert LinksAt(order, links, d, i + 1); }
  }

  lemma PrependPlaces(order: seq<XmlNode>, links: seq<Links>, d: Depths, i: nat)
    requires Shaped(order, links, d) && i < |order|
    ensures Slot(d, i + 1, d[i] + 1)
    ensures Last(d, i + 1, d[i]) == i
    ensures links[i].first == if i + 1 < |d| && d[i + 1] == d[i] + 1 then order[i + 1] else null
    ensures var p, b := i + 1, d[i] + 1;
            && OwnerOf(order, d, p, b) == order[i] && LeftOf(order, d, p, b) == null
            && RightOf(order, d, p, b) == links[i].first
            && (links[i].first != null ==> i + 1 < |order| && links[i].first == order[i + 1])
  {
    PrependSlot(d, i);
    assert LinksAt(order, links, d, i);
  }

  lemma BehindPlaces(order: seq<XmlNode>, links: seq<Links>, d: Depths, i: nat)
    requires Shaped(order, links, d) && 0 < i < |order|
    ensures Slot(d, End(d, i), d[i])
    ensures Last(d, End(d, i), d[i] as int - 1) == Parent(d, i) && Parent(d, i) + 1 != End(d, i)
    ensures Last(d, End(d, i), d[i]) == i
    ensures links[i].next == if End(d, i) < |d| && d[End(d, i)] == d[i] then order[End(d, i)] else null
    ensures var p, b := End(d, i), d[i];
            var up := Parent(d, i);
            && OwnerOf(order, d, p, b) == null && LeftOf(order, d, p, b) == order[i]
            && 0 <= up && links[i].parent == order[up] && links[up].first == order[up + 1]
            && RightOf(order, d, p, b) == (if links[i].next != null then links[i].next else links[up].first)
            && (links[i].next != null ==> p < |order| && links[i].next == order[p])
  {
    BehindSlot(d, i);
    assert LinksAt(order, links, d, i);
    assert LinksAt(order, links, d, Parent(d, i));
  }

  lemma FrontPlaces(order: seq<XmlNode>, links: seq<Links>, d: Depths, i: nat)
    requires Shaped(order, links, d) && 0 < i < |order|
    ensures Slot(d, i, d[i])
    ensures Last(d, i, d[i] as int - 1) == Parent(d, i)
    ensures i != Parent(d, i) + 1 ==> links[i].prev == At(order, Last(d, i, d[i]))
    ensures var p, b := i, d[i];
            var up, prev := Parent(d, i), PrevSiblingC(d, i);
            && 0 <= up && links[i].parent == order[up] && links[up].first == order[up + 1]
            && 0 <= prev < |order| && links[i].prev == order[prev]
            && RightOf(order, d, p, b) == order[i]
            && (links[prev].next != null ==> links[prev].next == order[i])
            && OwnerOf(order, d, p, b) == (if links[prev].next == null then order[up] else null)
            && LeftOf(order, d, p, b) == (if links[prev].next == null then null else order[prev])
            && (links[prev].next == null <==> i == up + 1)
  {
    FrontSlot(d, i);
    assert LinksAt(order, links, d, i);
    assert LinksAt(order, links, d, Parent(d, i));
    assert LinksAt(order, links, d, PrevSiblingC(d, i));
  }

  /** The pointers node i has in a tree of shape d; `rootPrev` stands for the open back pointer of the root. */
  ghost function Ideal(order: seq<XmlNode>, d: Depths, i: nat, rootPrev: XmlNode?): Links
    requires i < |order| == |d|
  {
    Links(At(order, Parent(d, i)), At(order, FirstChild(d, i)),
          if i == 0 then rootPrev else At(order, PrevSiblingC(d, i)), At(order, NextSibling(d, i)))
  }

  /** Inside a document the nodes outside the subtree at p have their ideal links, except for those into the subtree. */
  lemma CutNodeLinks(order: seq<XmlNode>, d: Depths, sub: seq<XmlNode>, e: Depths, p: nat, b: nat,
                     all: seq<XmlNode>, links: seq<Links>, r: Depths, i: nat)
    requires |order| == |d| && |sub| == |e| && i < |d|
    requires Slot(d, p, b) && WellFormed(e) && Distinct(order)
    requires all == Splice(order, p, sub) && Grafted(d, p, e, b, r) && |links| == |all|
    requires LinksAt(all, links, r, Shift(i, p, |e|))
    ensures Patch(order[i], Ideal(order, d, i, links[0].prev), links[Shift(i, p, |e|)], sub[0],
                  OwnerOf(order, d, p, b), LeftOf(order, d, p, b), RightOf(order, d, p, b))
  {
    GraftOld(d, p, e, b, r, i);
    OwnerDepth(d, p, b);
    SlotNeighbours(d, p, b);
    Neighbours(order, d, p, b, i);
    assert all[p] == sub[0];
    SpliceOld(order, p, sub, all, Parent(d, i));
    SpliceOld(order, p, sub, all, FirstChild(d, i));
    SpliceOld(order, p, sub, all, NextSibling(d, i));
    SpliceOld(order, p, sub, all, PrevSiblingC(d, i));
  }

  /** Undoing a patch: the three neighbours get the links of the removed node. */
  lemma UnpatchIsIdeal(order: seq<XmlNode>, d: Depths, p: nat, b: nat, i: nat, rootPrev: XmlNode?, removed: Links)
    requires |order| == |d| && Slot(d, p, b) && Distinct(order) && i < |d|
    requires removed.next == if p < |d| && d[p] == b then At(order, p) else null
    requires var owner := Last(d, p, b - 1);
             if p != owner + 1 then removed.prev == At(order, Last(d, p, b))
             else p < |d| && d[p] == b ==> removed.prev == At(order, PrevSiblingC(d, p))
    ensures var z := Ideal(order, d, i, rootPrev);
            && (order[i] == OwnerOf(order, d, p, b) ==> z.first == removed.next)
            && (order[i] == LeftOf(order, d, p, b) ==> z.next == removed.next)
            && (order[i] == RightOf(order, d, p, b) ==> z.prev == removed.prev)
  {
    EmptySlot(d, p, b);
    SlotNeighbours(d, p, b);
    Neighbours(order, d, p, b, i);
  }

  /** What is known of every node outside the subtree at p before it is cut out. */
  ghost predicate CutAt(order: seq<XmlNode>, d: Depths, links: seq<Links>, p: nat, b: nat, m: nat, i: nat)
    requires |order| == |d| && Slot(d, p, b) && i < |d| && p < |links| == |order| + m && 0 < m
  {
    var z := Ideal(order, d, i, links[0].prev);
    var a := links[Shift(i, p, m)];
    var x := order[i];
    var owner, left, right := OwnerOf(order, d, p, b), LeftOf(order, d, p, b), RightOf(order, d, p, b);
    && z == Links(a.parent, if x == owner then links[p].next else a.first,
                  if x == right then links[p].prev else a.prev, if x == left then links[p].next else a.next)
  }

  lemma CutLinks(order: seq<XmlNode>, links: seq<Links>, r: Depths, p: nat, i: nat, rest: seq<XmlNode>, d: Depths, m: nat)
    requires Shaped(order, links, r) && 0 < p < |order| && i + m < |order| && m == End(r, p) - p
    requires rest == Without(order, p, End(r, p)) && d == CutRest(r, p)
    ensures Slot(d, p, r[p]) && Distinct(rest)
    ensures CutAt(rest, d, links, p, r[p], m, i)
  {
    var sub, e := order[p..End(r, p)], CutTree(r, p);
    CutShape(r, p);
    CutSplice(order, r, p);
    assert LinksAt(order, links, r, p);
    assert LinksAt(order, links, r, Shift(i, p, m));
    CutLinksAt(rest, d, sub, e, p, r[p], order, links, r, m, i);
  }

  lemma CutSplice(order: seq<XmlNode>, r: Depths, p: nat)
    requires |order| == |r| && p < |r| && Distinct(order)
    ensures var rest, sub := Without(order, p, End(r, p)), order[p..End(r, p)];
            && order == Splice(rest, p, sub)
            && Distinct(rest) && Distinct(sub) && Disjoint(rest, sub)
            && (forall i {:trigger rest[i]} :: 0 <= i < |rest| ==> rest[i] == order[Shift(i, p, |sub|)])
  {
    var rest, sub := Without(order, p, End(r, p)), order[p..End(r, p)];
    assert order == Splice(rest, p, sub);
    SpliceDistinct(rest, p, sub);
  }

  lemma CutLinksAt(order: seq<XmlNode>, d: Depths, sub: seq<XmlNode>, e: Depths, p: nat, b: nat,
                   all: seq<XmlNode>, links: seq<Links>, r: Depths, m: nat, i: nat)
    requires |order| == |d| && |sub| == |e| == m && i < |d|
    requires Slot(d, p, b) && WellFormed(e) && Distinct(order)
    requires all == Splice(order, p, sub) && Grafted(d, p, e, b, r) && |links| == |all|
    requires LinksAt(all, links, r, Shift(i, p, m)) && LinksAt(all, links, r, p)
    ensures CutAt(order, d, links, p, b, m, i)
  {
    CutRoot(order, d, sub, e, p, b, all, links, r);
    CutNodeLinks(order, d, sub, e, p, b, all, links, r, i);
    UnpatchIsIdeal(order, d, p, b, i, links[0].prev, links[p]);
  }

  /** The links of the root of the subtree, in terms of the rest of the tree. */
  lemma CutRoot(order: seq<XmlNode>, d: Depths, sub: seq<XmlNode>, e: Depths, p: nat, b: nat,
                all: seq<XmlNode>, links: seq<Links>, r: Depths)
    requires |order| == |d| && |sub| == |e| && Slot(d, p, b) && WellFormed(e)
    requires all == Splice(order, p, sub) && Grafted(d, p, e, b, r) && |links| == |all|
    requires LinksAt(all, links, r, p)
    ensures links[p].next == if p < |d| && d[p] == b then At(order, p) else null
    ensures var owner := Last(d, p, b - 1);
            if p != owner + 1 then links[p].prev == At(order, Last(d, p, b))
            else p < |d| && d[p] == b ==> links[p].prev == At(order, PrevSiblingC(d, p))
  {
    GraftRoot(d, p, e, b, r);
    SpliceOld(order, p, sub, all, Last(d, p, b));
    if p < |d| {
      SpliceOld(order, p, sub, all, p);
      SpliceOld(order, p, sub, all, PrevSiblingC(d, p));
    }
  }

  /** The neighbours of the slot a subtree leaves behind are the nodes remove_node touches. */
  lemma RemovePlaces(order: seq<XmlNode>, links: seq<Links>, r: Depths, p: nat)
    requires Shaped(order, links, r) && 0 < p < |order|
    ensures var rest, d, b := Without(order, p, End(r, p)), CutRest(r, p), r[p];
            var up := Parent(r, p);
            && Slot(d, p, b) && 0 <= up < p
            && OwnerOf(rest, d, p, b) == (if p == up + 1 then order[up] else null)
            && LeftOf(rest, d, p, b) == (if p == up + 1 then null else links[p].prev)
            && RightOf(rest, d, p, b) == (if links[p].next != null then links[p].next
                                          else if p == up + 1 then null else order[up + 1])
  {
    RemoveNeighbours(order, links, r, p);
    FrontSlot(r, p);
  }

  /** The slot a subtree leaves behind. */
  lemma CutOwner(r: Depths, p: nat)
    requires WellFormed(r) && 0 < p < |r|
    ensures p <= |CutRest(r, p)| && Slot(CutRest(r, p), p, r[p]) && 0 <= Parent(r, p) < p
    ensures Last(CutRest(r, p), p, r[p] as int - 1) == Parent(r, p)
    ensures Grafted(CutRest(r, p), p, CutTree(r, p), r[p], r) && WellFormed(CutTree(r, p))
  {
    CutShape(r, p);
    FrontSlot(r, p);
    var d, e, b, v := CutRest(r, p), CutTree(r, p), r[p], r[p] as int - 1;
    LastOuterAt(d, p, e, b, r, v);
  }

  /** The slot a subtree leaves behind, and the links of the root of the subtree. */
  lemma RemoveNeighbours(order: seq<XmlNode>, links: seq<Links>, r: Depths, p: nat)
    requires Shaped(order, links, r) && 0 < p < |order|
    ensures var rest, d, b, up := Without(order, p, End(r, p)), CutRest(r, p), r[p], Parent(r, p);
            && |rest| == |d| && p <= |d| && Slot(d, p, b)
            && 0 <= up < p && Last(d, p, b - 1) == up && order[up] == At(rest, up)
            && (p != up + 1 ==> order[up + 1] == At(rest, up + 1) && links[p].prev == At(rest, Last(d, p, b)))
            && links[p].next == (if p < |d| && d[p] == b then At(rest, p) else null)
            && (links[p].next == null <==> !(p < |d| && d[p] == b))
  {
    var rest, d, sub, e, b := Without(order, p, End(r, p)), CutRest(r, p), order[p..End(r, p)], CutTree(r, p), r[p];
    CutOwner(r, p);
    CutSplice(order, r, p);
    RootLinks(order, links, r, p, rest, d, sub, e, b);
    assert rest[..p] == order[..p];
    if p < |rest| {
      var x: XmlNode := rest[p];
    }
  }

  lemma RootLinks(order: seq<XmlNode>, links: seq<Links>, r: Depths, p: nat,
                  rest: seq<XmlNode>, d: Depths, sub: seq<XmlNode>, e: Depths, b: nat)
    requires Shaped(order, links, r) && p < |order| && |rest| == |d| && |sub| == |e| && Slot(d, p, b) && WellFormed(e)
    requires order == Splice(rest, p, sub) && Grafted(d, p, e, b, r)
    ensures links[p].next == (if p < |d| && d[p] == b then At(rest, p) else null)
    ensures p != Last(d, p, b - 1) + 1 ==> links[p].prev == At(rest, Last(d, p, b))
  {
    assert LinksAt(order, links, r, p);
    CutRoot(rest, d, sub, e, p, b, order, links, r);
  }

  lemma CutMoved(order: seq<XmlNode>, d: Depths, sub: seq<XmlNode>, e: Depths, links: seq<Links>,
                 p: nat, b: nat, all: seq<XmlNode>, r: Depths, k: nat)
    requires |order| == |d| && |sub| == |e| && 0 < k < |e|
    requires Slot(d, p, b) && WellFormed(e)
    requires all == Splice(order, p, sub) && Grafted(d, p, e, b, r) && |links| == |all|
    requires LinksAt(all, links, r, p + k)
    ensures links[p + k] == Ideal(sub, e, k, null)
  {
    GraftMoved(d, p, e, b, r, k);
    ParentDepth(e, k);
    SpliceNew(order, p, sub, all, Parent(e, k));
    SpliceNew(order, p, sub, all, FirstChild(e, k));
    SpliceNew(order, p, sub, all, NextSibling(e, k));
    PrevSiblingExists(e, k);
    SpliceNew(order, p, sub, all, PrevSiblingC(e, k));
  }

  /** The nodes remove_node dereferences: its own neighbours, all outside the subtree unless they are the node itself. */
  lemma RemoveReads(order: seq<XmlNode>, links: seq<Links>, r: Depths, p: nat)
    requires Shaped(order, links, r) && 0 < p < |order|
    ensures var up, prev := Parent(r, p), PrevSiblingC(r, p);
            && 0 <= up < p && 0 <= prev < |order|
            && links[p].parent == order[up] && links[up].first == order[up + 1]
            && links[p].prev == order[prev]
            && (links[prev].next == null <==> p == up + 1)
    ensures var up, prev := Parent(r, p), PrevSiblingC(r, p);
            var rest := Without(order, p, End(r, p));
            && order[up] in rest
            && (order[up + 1] == order[p] || order[up + 1] in rest)
            && (order[prev] == order[p] || order[prev] in rest)
            && (links[p].next != null ==> links[p].next in rest)
  {
    var up, prev := Parent(r, p), PrevSiblingC(r, p);
    var rest := Without(order, p, End(r, p));
    FrontPlaces(order, links, r, p);
    BehindPlaces(order, links, r, p);
    assert forall i :: 0 <= i < p ==> order[i] == rest[i];
    assert forall i :: End(r, p) <= i < |order| ==> order[i] == rest[i - (End(r, p) - p)];
    PrevOutside(r, p);
  }

  /** The links remove_node leaves in the node at position j of the old document order. */
  ghost function Removed(order: seq<XmlNode>, links: seq<Links>, r: Depths, p: nat, j: nat): Links
    requires |order| == |links| == |r| && 0 < p < |order| && j < |order| && 0 <= Parent(r, p)
  {
    var x, a, removed, up := order[j], links[j], links[p], Parent(r, p);
    if j == p then Links(null, a.first, null, null)
    else
      Links(a.parent,
            if p == up + 1 && x == order[up] then removed.next else a.first,
            if x == (if removed.next != null then removed.next else order[up + 1]) then removed.prev else a.prev,
            if p != up + 1 && x == removed.prev then removed.next else a.next)
  }

  /** A node outside the subtree is left with its ideal links. */
  lemma RemovedIsIdeal(order: seq<XmlNode>, links: seq<Links>, r: Depths, p: nat, i: nat)
    requires Shaped(order, links, r) && 0 < p < |order| && i < |order| - (End(r, p) - p)
    ensures var rest, d, m := Without(order, p, End(r, p)), CutRest(r, p), End(r, p) - p;
            && 0 <= Parent(r, p) && |rest| == |d|
            && Removed(order, links, r, p, Shift(i, p, m)) == Ideal(rest, d, i, links[0].prev)
  {
    var rest, d, m := Without(order, p, End(r, p)), CutRest(r, p), End(r, p) - p;
    RemovePlaces(order, links, r, p);
    CutLinks(order, links, r, p, i, rest, d, m);
    Position(order, Shift(i, p, m), p);
  }

  lemma RemovedLeavesTree(order: seq<XmlNode>, links: seq<Links>, r: Depths, p: nat, after: seq<Links>)
    requires Shaped(order, links, r) && 0 < p < |order| && 0 <= Parent(r, p)
    requires |after| == |order| && forall j :: 0 <= j < |order| ==> after[j] == Removed(order, links, r, p, j)
    ensures Shaped(Without(order, p, End(r, p)), Without(after, p, End(r, p)), CutRest(r, p))
    ensures after[0].prev == links[0].prev
  {
    var rest, d, m := Without(order, p, End(r, p)), CutRest(r, p), End(r, p) - p;
    var now := Without(after, p, End(r, p));
    CutShape(r, p);
    CutSplice(order, r, p);
    forall i | 0 <= i < |rest| ensures now[i] == Ideal(rest, d, i, links[0].prev) && LinksAt(rest, now, d, i) {
      RemovedIsIdeal(order, links, r, p, i);
    }
    assert now[0] == Ideal(rest, d, 0, links[0].prev);
  }

  lemma RemovedTreeIsWhole(order: seq<XmlNode>, links: seq<Links>, r: Depths, p: nat, after: seq<Links>)
    requires Shaped(order, links, r) && 0 < p < |order| && 0 <= Parent(r, p)
    requires |after| == |order| && forall j :: 0 <= j < |order| ==> after[j] == Removed(order, links, r, p, j)
    ensures Shaped(order[p..End(r, p)], after[p..End(r, p)], CutTree(r, p))
  {
    var sub, e, now := order[p..End(r, p)], CutTree(r, p), after[p..End(r, p)];
    CutShape(r, p);
    CutSplice(order, r, p);
    forall k | 0 <= k < |sub| ensures LinksAt(sub, now, e, k) {
      if k == 0 { RemovedRoot(order, links, r, p); } else { RemovedBelow(order, links, r, p, k); }
      assert now[k] == Removed(order, links, r, p, p + k);
    }
  }

  lemma RemovedRoot(order: seq<XmlNode>, links: seq<Links>, r: Depths, p: nat)
    requires Shaped(order, links, r) && 0 < p < |order| && 0 <= Parent(r, p)
    ensures Removed(order, links, r, p, p) == Ideal(order[p..End(r, p)], CutTree(r, p), 0, null)
  {
    var rest, d, sub, e := Without(order, p, End(r, p)), CutRest(r, p), order[p..End(r, p)], CutTree(r, p);
    CutShape(r, p);
    CutSplice(order, r, p);
    assert LinksAt(order, links, r, p);
    GraftRoot(d, p, e, r[p], r);
    SpliceNew(rest, p, sub, order, FirstChild(e, 0));
    NxtSpec(e, 1, 0);
  }

  lemma RemovedBelow(order: seq<XmlNode>, links: seq<Links>, r: Depths, p: nat, k: nat)
    requires Shaped(order, links, r) && 0 < p < |order| && 0 < k < End(r, p) - p && 0 <= Parent(r, p)
    ensures Removed(order, links, r, p, p + k) == Ideal(order[p..End(r, p)], CutTree(r, p), k, null)
  {
    BelowIsIdeal(order, links, r, p, k);
    NotNeighbour(order, links, r, p, p + k);
  }

  lemma BelowIsIdeal(order: seq<XmlNode>, links: seq<Links>, r: Depths, p: nat, k: nat)
    requires Shaped(order, links, r) && 0 < p < |order| && 0 < k < End(r, p) - p && 0 <= Parent(r, p)
    ensures links[p + k] == Ideal(order[p..End(r, p)], CutTree(r, p), k, null)
  {
    CutShape(r, p);
    CutSplice(order, r, p);
    assert LinksAt(order, links, r, p + k);
    CutMoved(Without(order, p, End(r, p)), CutRest(r, p), order[p..End(r, p)], CutTree(r, p), links, p, r[p], order, r, k);
  }

  /** No node below the removed one is a neighbour of it, so its links stay. */
  lemma NotNeighbour(order: seq<XmlNode>, links: seq<Links>, r: Depths, p: nat, j: nat)
    requires Shaped(order, links, r) && 0 < p < |order| && p < j < End(r, p) && 0 <= Parent(r, p)
    ensures Removed(order, links, r, p, j) == links[j]
  {
    RemoveReads(order, links, r, p);
    assert LinksAt(order, links, r, p);
    PrevOutside(r, p);
    Position(order, j, Parent(r, p));
    Position(order, j, Parent(r, p) + 1);
    Position(order, j, PrevSiblingC(r, p));
    Position(order, j, NextSibling(r, p));
  }

  /** remove_node: cuts the subtree of `node` out and leaves it detached. */
  method RemoveNode(node: XmlNode, ghost order: seq<XmlNode>, ghost r: Depths, ghost p: nat)
    requires Linked(order, r) && 0 < p < |order| && order[p] == node
    modifies Nodes(order)`firstChild, Nodes(order)`prevSiblingC, Nodes(order)`nextSibling, node`parent
    ensures Linked(Without(order, p, End(r, p)), CutRest(r, p))
    ensures Linked(order[p..End(r, p)], CutTree(r, p))
    ensures node.parent == null && node.prevSiblingC == null && node.nextSibling == null
    ensures order[0].prevSiblingC == old(order[0].prevSiblingC)
  {
    ghost var links := Snapshot(order);
    Unhook(node, order, links, r, p);
    RemovedIsLinked(order, links, r, p);
  }

  /** The pointer updates of remove_node. */
  method Unhook(node: XmlNode, ghost order: seq<XmlNode>, ghost links: seq<Links>, ghost r: Depths, ghost p: nat)
    requires Linked(order, r) && 0 < p < |order| && order[p] == node && links == Snapshot(order)
    modifies Nodes(order)`firstChild, Nodes(order)`prevSiblingC, Nodes(order)`nextSibling, node`parent
    ensures 0 <= Parent(r, p)
    ensures forall j :: 0 <= j < |order| ==> LinksOf(order[j]) == Removed(order, links, r, p, j)
    ensures node.parent == null && node.prevSiblingC == null && node.nextSibling == null
  {
    RemoveReads(order, links, r, p);
    Position(order, p, Parent(r, p));
    UnhookBack(node, order);
    UnhookForward(node, order);
    node.parent := null;
    node.prevSiblingC := null;
    node.nextSibling := null;

    forall j | 0 <= j < |order| ensures LinksOf(order[j]) == Removed(order, links, r, p, j) {
      Position(order, j, p);
      assert old(LinksOf(order[j])) == links[j];
    }
  }

  /** The back pointer of the next sibling or, for the last child, the tail pointer in the first child. */
  method UnhookBack(node: XmlNode, ghost order: seq<XmlNode>)
    requires node in order && (node.nextSibling != null ==> node.nextSibling in order)
    requires node.parent != null && node.parent.firstChild != null && node.parent.firstChild in order
    modifies Nodes(order)`prevSiblingC
    ensures var right := if node.nextSibling != null then node.nextSibling else node.parent.firstChild;
            forall x <- order :: x.prevSiblingC == if x == right then old(node.prevSiblingC) else old(x.prevSiblingC)
  {
    var parent := node.parent;
    if node.nextSibling != null {
      node.nextSibling.prevSiblingC := node.prevSiblingC;
    } else {
      parent.firstChild.prevSiblingC := node.prevSiblingC;
    }
  }

  /** The forward pointer of the previous sibling or, for the first child, that of the parent. */
  method UnhookForward(node: XmlNode, ghost order: seq<XmlNode>)
    requires node.prevSiblingC != null && node.prevSiblingC in order
    requires node.parent != null && node.parent in order
    modifies Nodes(order)`nextSibling, Nodes(order)`firstChild
    ensures var first := old(node.prevSiblingC.nextSibling) == null;
            forall x <- order ::
              && x.nextSibling == (if !first && x == node.prevSiblingC then old(node.nextSibling) else old(x.nextSibling))
              && x.firstChild == (if first && x == node.parent then old(node.nextSibling) else old(x.firstChild))
  {
    var parent := node.parent;
    if node.prevSiblingC.nextSibling != null {
      node.prevSiblingC.nextSibling := node.nextSibling;
    } else {
      parent.firstChild := node.nextSibling;
    }
  }

  lemma RemovedIsLinked(order: seq<XmlNode>, links: seq<Links>, r: Depths, p: nat)
    requires Shaped(order, links, r) && 0 < p < |order| && 0 <= Parent(r, p)
    requires forall j :: 0 <= j < |order| ==> LinksOf(order[j]) == Removed(order, links, r, p, j)
    ensures Linked(Without(order, p, End(r, p)), CutRest(r, p))
    ensures Linked(order[p..End(r, p)], CutTree(r, p))
    ensures order[0].prevSiblingC == links[0].prev
  {
    var after := Snapshot(order);
    RemovedLeavesTree(order, links, r, p, after);
    RemovedTreeIsWhole(order, links, r, p, after);
    assert Snapshot(order[p..End(r, p)]) == after[p..End(r, p)];
    assert Snapshot(Without(order, p, End(r, p))) == Without(after, p, End(r, p));
    assert after[0] == LinksOf(order[0]);
  }

  /** A new node is a tree of its own. */
  lemma Singleton(node: XmlNode)
    requires node.parent == null && node.firstChild == null && node.nextSibling == null
    ensures Linked([node], [0])
  {
    assert LinksAt([node], Snapshot([node]), [0], 0);
  }

  /** The pointers of the node at position i of a tree. */
  lemma LinksOfNode(order: seq<XmlNode>, d: Depths, i: nat)
    requires Linked(order, d) && i < |order|
    ensures order[i].parent == At(order, Parent(d, i))
    ensures order[i].firstChild == At(order, FirstChild(d, i)) && (order[i].firstChild == null <==> FirstChild(d, i) == -1)
    ensures order[i].nextSibling == At(order, NextSibling(d, i)) && (order[i].nextSibling == null <==> NextSibling(d, i) == -1)
    ensures 0 < i ==> order[i].prevSiblingC == At(order, PrevSiblingC(d, i))
  {
    assert LinksAt(order, Snapshot(order), d, i);
  }
}
