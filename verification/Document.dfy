/**
 The public editing interface of a document: inserting new nodes, removing subtrees,
 moving and copying them.  Every operation is an edit of the document order.
 */
module Document {
  import opened Basics
  import opened Shape
  import opened Dom
  import opened Copy
  import opened Guard

  // The guarded definition below has a number of its own.
  const CUT: nat := 1

  /** allow_insert_child; a null handle has no type and is never a parent. */
  predicate AllowInsertChild(parent: Option<NodeType>, child: Option<NodeType>) {
    match (parent, child)
    case (Some(p), Some(c)) =>
      && (p == NodeType.Document || p == Element)
      && c != NodeType.Document
      && !(p != NodeType.Document && (c == Declaration || c == Doctype))
    case _ => false
  }

  /** Which children each type of node may have. */
  lemma InsertTable(parent: NodeType, child: NodeType)
    ensures AllowInsertChild(Some(parent), Some(child)) <==>
            match parent
            case Document => child in {Element, Pcdata, Cdata, Comment, Pi, Declaration, Doctype}
            case Element => child in {Element, Pcdata, Cdata, Comment, Pi}
            case _ => false
    ensures !AllowInsertChild(None, Some(child)) && !AllowInsertChild(Some(parent), None)
  {
  }

  function KindOf(node: XmlNode?): Option<NodeType> {
    if node == null then None else Some(node.kind)
  }

  function RootOf(node: XmlNode): XmlNode {
    if node.document == null then node else node.document
  }

  /** Where the element at position i is once those from p up to n are gone. */
  function Unshift(i: nat, p: nat, n: nat): nat
    requires p <= n && (i < p || n <= i)
  {
    if i < p then i else i - (n - p)
  }

  /** All nodes belong to the document `root`, which is the only node of its type and comes first. */
  ghost predicate Members(order: seq<XmlNode>, root: XmlNode) {
    forall i :: 0 <= i < |order| ==> RootOf(order[i]) == root && (order[i].kind == NodeType.Document <==> i == 0)
  }

  /** Nodes of the document `root` other than the document itself. */
  ghost predicate Guests(sub: seq<XmlNode>, root: XmlNode) {
    forall k :: 0 <= k < |sub| ==> RootOf(sub[k]) == root && sub[k].kind != NodeType.Document
  }

  lemma MembersSplice(order: seq<XmlNode>, root: XmlNode, p: nat, sub: seq<XmlNode>)
    requires 0 < p <= |order| && Members(order, root)
    requires Guests(sub, root)
    ensures Members(Splice(order, p, sub), root)
  {
    var all := Splice(order, p, sub);
    forall i | 0 <= i < |all| ensures RootOf(all[i]) == root && (all[i].kind == NodeType.Document <==> i == 0) {
      if !(p <= i < p + |sub|) { assert all[i] == order[if i < p then i else i - |sub|]; }
    }
  }

  /** Where a new child goes, relative to its parent or to one of its future siblings. */
  datatype Place = AsLast | AsFirst | Behind | InFront

  /** The position in the document order, and the depth, of a node put at `place` relative to node i. */
  function SlotAt(d: Depths, i: nat, place: Place): (p: nat)
    requires i < |d|
    ensures p <= |d|
  {
    match place
    case AsLast => End(d, i)
    case AsFirst => i + 1
    case Behind => End(d, i)
    case InFront => i
  }

  function LevelAt(d: Depths, i: nat, place: Place): nat
    requires i < |d|
  {
    if place.AsLast? || place.AsFirst? then d[i] + 1 else d[i]
  }

  /** The document order after `child` has been put at `place` relative to node i. */
  ghost function InsertedOrder(order: seq<XmlNode>, d: Depths, child: XmlNode, i: nat, place: Place): seq<XmlNode>
    requires i < |order| == |d|
  {
    Splice(order, SlotAt(d, i, place), [child])
  }

  ghost function InsertedDepths(d: Depths, i: nat, place: Place): Depths
    requires i < |d|
  {
    Graft(d, SlotAt(d, i, place), [0], LevelAt(d, i, place))
  }

  /** The document order after the subtree of node j has been moved to `place` relative to node i outside of it. */
  ghost function MovedOrder(order: seq<XmlNode>, d: Depths, j: nat, i: nat, place: Place): seq<XmlNode>
    requires j < |order| == |d| && i < |d| && (i < j || End(d, j) <= i)
  {
    Splice(Without(order, j, End(d, j)), SlotAt(CutRest(d, j), Unshift(i, j, End(d, j)), place), order[j..End(d, j)])
  }

  ghost function MovedDepths(d: Depths, j: nat, i: nat, place: Place): Depths
    requires j < |d| && i < |d| && (i < j || End(d, j) <= i)
  {
    var rest, to := CutRest(d, j), Unshift(i, j, End(d, j));
    Graft(rest, SlotAt(rest, to, place), CutTree(d, j), LevelAt(rest, to, place))
  }

  /** From the document `was` of shape d to `now` of shape r, the subtree of node s of a document of shape sd has been
      copied to `place` relative to node i. */
  ghost predicate Copied(was: seq<XmlNode>, d: Depths, now: seq<XmlNode>, r: Depths, copies: seq<XmlNode>,
                         sd: Depths, s: nat, i: nat, place: Place) {
    && i < |was| == |d| && s < |sd|
    && now == Splice(was, SlotAt(d, i, place), copies)
    && r == Graft(d, SlotAt(d, i, place), CutTree(sd, s), LevelAt(d, i, place))
  }

  /** Every place is a slot. */
  lemma PlaceIsSlot(d: Depths, i: nat, place: Place)
    requires WellFormed(d) && i < |d| && (place.Behind? || place.InFront? ==> 0 < i)
    ensures Slot(d, SlotAt(d, i, place), LevelAt(d, i, place)) && 0 < SlotAt(d, i, place)
  {
    match place
    case AsLast => AppendSlot(d, i);
    case AsFirst => PrependSlot(d, i);
    case Behind => BehindSlot(d, i);
    case InFront => FrontSlot(d, i);
  }

  ghost predicate Beside(child: XmlNode, anchor: XmlNode, place: Place)
    reads child, anchor
  {
    match place
    case AsLast => child.parent == anchor && child.nextSibling == null
    case AsFirst => child.parent == anchor && anchor.firstChild == child
    case Behind => anchor.nextSibling == child
    case InFront => child.nextSibling == anchor
  }

  /** A tree linked in at `place` has its root last or first among the children of node i, or right behind or in front of node i. */
  lemma StandsAt(order: seq<XmlNode>, d: Depths, i: nat, place: Place, sub: seq<XmlNode>, e: Depths)
    requires WellFormed(d) && i < |order| == |d| && (place.Behind? || place.InFront? ==> 0 < i)
    requires WellFormed(e) && |sub| == |e|
    requires Linked(Splice(order, SlotAt(d, i, place), sub), Graft(d, SlotAt(d, i, place), e, LevelAt(d, i, place)))
    ensures Beside(sub[0], order[i], place)
  {
    var p, r := SlotAt(d, i, place), Graft(d, SlotAt(d, i, place), e, LevelAt(d, i, place));
    var all := Splice(order, p, sub);
    StandsAtShape(d, i, place, e);
    LinksOfNode(all, r, p);
    LinksOfNode(all, r, Shift(i, p, |e|));
  }

  lemma StandsAtShape(d: Depths, i: nat, place: Place, e: Depths)
    requires WellFormed(d) && i < |d| && (place.Behind? || place.InFront? ==> 0 < i) && WellFormed(e)
    ensures var p, r := SlotAt(d, i, place), Graft(d, SlotAt(d, i, place), e, LevelAt(d, i, place));
            var k := Shift(i, p, |e|);
            match place
            case AsLast => Parent(r, p) == k && NextSibling(r, p) == -1
            case AsFirst => Parent(r, p) == k && FirstChild(r, k) == p
            case Behind => NextSibling(r, k) == p
            case InFront => NextSibling(r, p) == k
  {
    var p, b := SlotAt(d, i, place), LevelAt(d, i, place);
    var r := Graft(d, p, e, b);
    PlaceIsSlot(d, i, place);
    PlaceOwner(d, i, place);
    GraftRoot(d, p, e, b, r);
    GraftOld(d, p, e, b, r, i);
  }

  /** The nodes a slot lies between. */
  lemma PlaceOwner(d: Depths, i: nat, place: Place)
    requires WellFormed(d) && i < |d| && (place.Behind? || place.InFront? ==> 0 < i)
    ensures var p, b := SlotAt(d, i, place), LevelAt(d, i, place);
            match place
            case AsLast => Last(d, p, b - 1) == i && !(p < |d| && d[p] == b)
            case AsFirst => Last(d, p, b - 1) == i && p == i + 1
            case Behind => Last(d, p, b) == i != Last(d, p, b - 1)
            case InFront => p == i && d[p] == b
  {
    match place
    case AsLast => AppendSlot(d, i);
    case AsFirst => PrependSlot(d, i);
    case Behind => BehindSlot(d, i);
    case InFront => FrontSlot(d, i);
  }

  /** Copies of nodes below the root are guests like the originals. */
  lemma CopiesAreGuests(so: seq<XmlNode>, origin: XmlNode, s: nat, copies: seq<XmlNode>, root: XmlNode)
    requires Members(so, origin) && 0 < s && s + |copies| <= |so| && LiveIn(copies, root)
    requires Contents(copies) == Contents(so)[s..s + |copies|]
    ensures Guests(copies, root)
  {
    forall k | 0 <= k < |copies| ensures RootOf(copies[k]) == root && copies[k].kind != NodeType.Document {
      assert copies[k] in copies;
      assert Contents(copies)[k] == Contents(so)[s + k];
    }
  }

  class XmlDocument {
    var root: XmlNode
    ghost var order: seq<XmlNode>
    ghost var depths: Depths

    ghost predicate Valid()
      reads this, order
    {
      Linked(order, depths) && order[0] == root && root.prevSiblingC == root && Members(order, root)
    }

    /** _create */
    constructor ()
      ensures Valid() && fresh(root) && order == [root] && depths == [0]
    {
      var node := new XmlNode(NodeType.Document, null);
      root := node;
      order, depths := [node], [0];
      new;
      node.prevSiblingC := node;
    }

    /** Records that the pointers now describe the document with one more node. */
    ghost method Grow(i: nat, place: Place, child: XmlNode)
      requires i < |order| == |depths| && 0 < SlotAt(depths, i, place)
      requires WellFormed(depths) && (place.Behind? || place.InFront? ==> 0 < i)
      requires Linked(Splice(order, SlotAt(depths, i, place), [child]),
                      Graft(depths, SlotAt(depths, i, place), [0], LevelAt(depths, i, place)))
      requires order[0] == root && root.prevSiblingC == root && Members(order, root)
      requires RootOf(child) == root && child.kind != NodeType.Document
      modifies this`order, this`depths
      ensures Valid() && root == old(root)
      ensures order == InsertedOrder(old(order), old(depths), child, i, place)
      ensures depths == InsertedDepths(old(depths), i, place)
      ensures Beside(child, old(order)[i], place)
    {
      StandsAt(order, depths, i, place, [child], [0]);
      MembersSplice(order, root, SlotAt(depths, i, place), [child]);
      order, depths := InsertedOrder(order, depths, child, i, place), InsertedDepths(depths, i, place);
    }

    /** append_child */
    method AppendChild(node: XmlNode?, kind: NodeType) returns (child: XmlNode?, ghost i: nat)
      requires Valid() && (node != null ==> node in order)
      modifies this`order, this`depths
      modifies Nodes(order)`firstChild, Nodes(order)`prevSiblingC, Nodes(order)`nextSibling
      ensures Valid()
      ensures child != null <==> AllowInsertChild(KindOf(node), Some(kind))
      ensures child == null ==> unchanged(this, old(order))
      ensures child != null ==>
        && fresh(child) && child.kind == kind && i < |old(order)| && old(order)[i] == node
        && order == InsertedOrder(old(order), old(depths), child, i, AsLast) && depths == InsertedDepths(old(depths), i, AsLast)
        && root == old(root)
      ensures child != null ==> child.parent == node && child.nextSibling == null
    {
      if !AllowInsertChild(KindOf(node), Some(kind)) {
        return null, 0;
      }
      i := PositionOf(order, node);
      child := NewNode(kind, node);
      assert RootOf(node) == root;
      AppendNode(child, node, order, depths, i, [child], [0]);
      Grow(i, AsLast, child);
    }

    /** allocate_node in the document of `node`; a declaration is named right away. */
    method NewNode(kind: NodeType, node: XmlNode) returns (child: XmlNode)
      requires kind != NodeType.Document
      ensures fresh(child) && child.kind == kind && RootOf(child) == RootOf(node)
      ensures Linked([child], [0])
    {
      child := new XmlNode(kind, RootOf(node));
      if kind == Declaration {
        child.name := Some("xml");
      }
      Singleton(child);
    }
  
    /** prepend_child */
    method PrependChild(node: XmlNode?, kind: NodeType) returns (child: XmlNode?, ghost i: nat)
      requires Valid() && (node != null ==> node in order)
      modifies this`order, this`depths
      modifies Nodes(order)`firstChild, Nodes(order)`prevSiblingC, Nodes(order)`nextSibling
      ensures Valid()
      ensures child != null <==> AllowInsertChild(KindOf(node), Some(kind))
      ensures child == null ==> unchanged(this, old(order))
      ensures child != null ==>
        && fresh(child) && child.kind == kind && i < |old(order)| && old(order)[i] == node
        && order == InsertedOrder(old(order), old(depths), child, i, AsFirst) && depths == InsertedDepths(old(depths), i, AsFirst)
        && root == old(root)
      ensures child != null ==> child.parent == node && node.firstChild == child
    {
      if !AllowInsertChild(KindOf(node), Some(kind)) {
        return null, 0;
      }
      i := PositionOf(order, node);
      child := NewNode(kind, node);
      assert RootOf(node) == root;
      ghost var _, _ := PrependNode(child, node, order, depths, i, [child], [0]);
      Grow(i, AsFirst, child);
    }

    /** insert_child_after */
    method InsertChildAfter(node: XmlNode?, kind: NodeType, place: XmlNode?) returns (child: XmlNode?, ghost i: nat)
      requires Valid() && (node != null ==> node in order) && (place != null ==> place in order)
      modifies this`order, this`depths
      modifies Nodes(order)`firstChild, Nodes(order)`prevSiblingC, Nodes(order)`nextSibling
      ensures Valid()
      ensures child != null <==>
        AllowInsertChild(KindOf(node), Some(kind)) && place != null && old(place.parent) == node
      ensures child == null ==> unchanged(this, old(order))
      ensures child != null ==>
        && fresh(child) && child.kind == kind && i < |old(order)| && old(order)[i] == place
        && order == InsertedOrder(old(order), old(depths), child, i, Behind) && depths == InsertedDepths(old(depths), i, Behind)
        && root == old(root)
      ensures child != null ==> place.nextSibling == child
    {
      if !AllowInsertChild(KindOf(node), Some(kind)) || place == null || place.parent != node {
        return null, 0;
      }
      i := ChildPosition(order, depths, place);
      child := NewNode(kind, node);
      assert RootOf(node) == root;
      InsertNodeAfter(child, place, order, depths, i, [child], [0]);
      Grow(i, Behind, child);
    }

    /** insert_child_before */
    method InsertChildBefore(node: XmlNode?, kind: NodeType, place: XmlNode?) returns (child: XmlNode?, ghost i: nat)
      requires Valid() && (node != null ==> node in order) && (place != null ==> place in order)
      modifies this`order, this`depths
      modifies Nodes(order)`firstChild, Nodes(order)`prevSiblingC, Nodes(order)`nextSibling
      ensures Valid()
      ensures child != null <==>
        AllowInsertChild(KindOf(node), Some(kind)) && place != null && old(place.parent) == node
      ensures child == null ==> unchanged(this, old(order))
      ensures child != null ==>
        && fresh(child) && child.kind == kind && i < |old(order)| && old(order)[i] == place
        && order == InsertedOrder(old(order), old(depths), child, i, InFront) && depths == InsertedDepths(old(depths), i, InFront)
        && root == old(root)
      ensures child != null ==> child.nextSibling == place
    {
      if !AllowInsertChild(KindOf(node), Some(kind)) || place == null || place.parent != node {
        return null, 0;
      }
      i := ChildPosition(order, depths, place);
      child := NewNode(kind, node);
      assert RootOf(node) == root;
      InsertNodeBefore(child, place, order, depths, i, [child], [0]);
      Grow(i, InFront, child);
    }

    /** allocate_node in the document of `node` */
    method BlankNode(kind: NodeType, node: XmlNode) returns (child: XmlNode)
      ensures fresh(child) && child.kind == kind && child.document == RootOf(node)
      ensures child.name == None && child.value == None && child.attributes == []
      ensures Linked([child], [0])
    {
      child := new XmlNode(kind, RootOf(node));
      Singleton(child);
    }

    /** A document to copy from: this one, or one of its own. */
    ghost predicate CopiesFrom(from: XmlDocument)
      reads this, from
    {
      from == this || Foreign(from.order, order)
    }

    /** node_copy_tree into the node `child`, which has just been linked in at `place` relative to node i. */
    method FillCopy(child: XmlNode, proto: XmlNode, ghost so: seq<XmlNode>, ghost sc: Scene, ghost origin: XmlNode,
                    ghost i: nat, ghost place: Place)
      returns (ghost copies: seq<XmlNode>)
      requires i < |order| == |depths| && 0 < sc.s && Staged(order, so, sc, child, proto)
      requires place.Behind? || place.InFront? ==> 0 < i
      requires sc.d == depths && sc.q == SlotAt(depths, i, place) && sc.b == LevelAt(depths, i, place)
      requires order[0] == root && root.prevSiblingC == root && Members(order, root) && Members(so, origin)
      requires child.kind == proto.kind && child.document == root
      requires child.name == None && child.value == None && child.attributes == []
      modifies this`order, this`depths, Nodes(order)`firstChild, Nodes(order)`prevSiblingC, Nodes(order)`nextSibling
      modifies child`firstChild, child`prevSiblingC, child`nextSibling, child`name, child`value, child`attributes
      ensures Valid() && root == old(root)
      ensures Copied(old(order), old(depths), order, depths, copies, sc.sd, sc.s, i, place)
      ensures 0 < |copies| && copies[0] == child && forall k :: 0 < k < |copies| ==> fresh(copies[k])
      ensures Contents(copies) == old(Contents(so)[sc.s..End(sc.sd, sc.s)])
      ensures Beside(child, old(order)[i], place)
    {
      ghost var contents := Contents(so);
      copies := NodeCopyTree(child, proto, order, so, sc);
      assert Contents(so) == contents && End(sc.sd, sc.s) == sc.s + |copies|;
      CopiesAreGuests(so, origin, sc.s, copies, root);
      MembersSplice(order, root, sc.q, copies);
      CutShape(sc.sd, sc.s);
      StandsAt(order, depths, i, place, copies, CutTree(sc.sd, sc.s));
      order, depths := Splice(order, sc.q, copies), Graft(depths, sc.q, CutTree(sc.sd, sc.s), sc.b);
    }

    /** What is to be copied: the contents of the subtree of node s. */
    ghost function Original(s: nat): seq<Content>
      requires |order| == |depths| && s < |order|
      reads this`order, this`depths, order
    {
      Contents(order)[s..End(depths, s)]
    }

    /** The link function for each place. */
    method LinkAt(child: XmlNode, anchor: XmlNode, place: Place, ghost i: nat, ghost q: nat, ghost b: nat)
      requires Valid() && i < |order| && order[i] == anchor && (place.Behind? || place.InFront? ==> 0 < i)
      requires q == SlotAt(depths, i, place) && b == LevelAt(depths, i, place)
      requires Linked([child], [0]) && child !in order
      modifies Nodes(order)`firstChild, Nodes(order)`prevSiblingC, Nodes(order)`nextSibling
      modifies child`parent, child`prevSiblingC, child`nextSibling
      ensures Linked(Splice(order, q, [child]), Graft(depths, q, [0], b)) && root.prevSiblingC == root
    {
      match place
      case AsLast => AppendNode(child, anchor, order, depths, i, [child], [0]);
      case AsFirst => ghost var _, _ := PrependNode(child, anchor, order, depths, i, [child], [0]);
      case Behind => InsertNodeAfter(child, anchor, order, depths, i, [child], [0]);
      case InFront => InsertNodeBefore(child, anchor, order, depths, i, [child], [0]);
    }

    /** A new node at `place` relative to `anchor`, and the subtree of `proto` copied into it. */
    method Paste(anchor: XmlNode, proto: XmlNode, place: Place, ghost from: XmlDocument, ghost i: nat, ghost s: nat)
      returns (child: XmlNode, ghost copies: seq<XmlNode>)
      requires Valid() && i < |order| && order[i] == anchor && (place.Behind? || place.InFront? ==> 0 < i)
      requires from.Valid() && CopiesFrom(from) && 0 < s < |from.order| && from.order[s] == proto
      modifies this`order, this`depths
      modifies Nodes(order)`firstChild, Nodes(order)`prevSiblingC, Nodes(order)`nextSibling
      ensures Valid() && root == old(root)
      ensures Copied(old(order), old(depths), order, depths, copies, old(from.depths), s, i, place)
      ensures copies != [] && copies[0] == child && fresh(copies) && Contents(copies) == old(from.Original(s))
      ensures Beside(child, anchor, place)
    {
      ghost var so, origin, contents := from.order, from.root, Contents(from.order);
      ghost var sc := Scene(depths, SlotAt(depths, i, place), LevelAt(depths, i, place), from.depths, s, from == this);
      PlaceIsSlot(depths, i, place);
      child := BlankNode(proto.kind, anchor);
      LinkAt(child, anchor, place, i, sc.q, sc.b);
      assert Contents(so) == contents;
      copies := FillCopy(child, proto, so, sc, origin, i, place);
    }

    /** append_copy: the new subtree is that of `proto` as it was before, even when `node` is inside of it; `proto` may also
        belong to another document. */
    method AppendCopy(node: XmlNode?, proto: XmlNode?, ghost from: XmlDocument)
      returns (child: XmlNode?, ghost i: nat, ghost s: nat, ghost copies: seq<XmlNode>)
      requires Valid() && (node != null ==> node in order) && (proto != null ==> proto in from.order)
      requires from.Valid() && CopiesFrom(from)
      modifies this`order, this`depths
      modifies Nodes(order)`firstChild, Nodes(order)`prevSiblingC, Nodes(order)`nextSibling
      ensures Valid() && root == old(root)
      ensures child != null <==> AllowInsertChild(KindOf(node), KindOf(proto))
      ensures child == null ==> unchanged(this, old(order))
      ensures from != this ==> from.Valid() && unchanged(from, from.order)
      ensures child != null ==>
        && Copied(old(order), old(depths), order, depths, copies, old(from.depths), s, i, AsLast)
        && old(order)[i] == node && old(from.order)[s] == proto
        && copies != [] && copies[0] == child && fresh(copies) && Contents(copies) == old(from.Original(s))
      ensures child != null ==> child.parent == node && child.nextSibling == null
    {
      if !AllowInsertChild(KindOf(node), KindOf(proto)) {
        return null, 0, 0, [];
      }
      i := PositionOf(order, node);
      s := PositionOf(from.order, proto);
      child, copies := Paste(node, proto, AsLast, from, i, s);
    }

    /** prepend_copy */
    method PrependCopy(node: XmlNode?, proto: XmlNode?, ghost from: XmlDocument)
      returns (child: XmlNode?, ghost i: nat, ghost s: nat, ghost copies: seq<XmlNode>)
      requires Valid() && (node != null ==> node in order) && (proto != null ==> proto in from.order)
      requires from.Valid() && CopiesFrom(from)
      modifies this`order, this`depths
      modifies Nodes(order)`firstChild, Nodes(order)`prevSiblingC, Nodes(order)`nextSibling
      ensures Valid() && root == old(root)
      ensures child != null <==> AllowInsertChild(KindOf(node), KindOf(proto))
      ensures child == null ==> unchanged(this, old(order))
      ensures from != this ==> from.Valid() && unchanged(from, from.order)
      ensures child != null ==>
        && Copied(old(order), old(depths), order, depths, copies, old(from.depths), s, i, AsFirst)
        && old(order)[i] == node && old(from.order)[s] == proto
        && copies != [] && copies[0] == child && fresh(copies) && Contents(copies) == old(from.Original(s))
      ensures child != null ==> child.parent == node && node.firstChild == child
    {
      if !AllowInsertChild(KindOf(node), KindOf(proto)) {
        return null, 0, 0, [];
      }
      i := PositionOf(order, node);
      s := PositionOf(from.order, proto);
      child, copies := Paste(node, proto, AsFirst, from, i, s);
    }

    /** insert_copy_after */
    method InsertCopyAfter(node: XmlNode?, proto: XmlNode?, place: XmlNode?, ghost from: XmlDocument)
      returns (child: XmlNode?, ghost i: nat, ghost s: nat, ghost copies: seq<XmlNode>)
      requires Valid() && (node != null ==> node in order) && (proto != null ==> proto in from.order) && (place != null ==> place in order)
      requires from.Valid() && CopiesFrom(from)
      modifies this`order, this`depths
      modifies Nodes(order)`firstChild, Nodes(order)`prevSiblingC, Nodes(order)`nextSibling
      ensures Valid() && root == old(root)
      ensures child != null <==> AllowInsertChild(KindOf(node), KindOf(proto)) && place != null && old(place.parent) == node
      ensures child == null ==> unchanged(this, old(order))
      ensures from != this ==> from.Valid() && unchanged(from, from.order)
      ensures child != null ==>
        && Copied(old(order), old(depths), order, depths, copies, old(from.depths), s, i, Behind)
        && old(order)[i] == place && old(from.order)[s] == proto
        && copies != [] && copies[0] == child && fresh(copies) && Contents(copies) == old(from.Original(s))
      ensures child != null ==> place.nextSibling == child
    {
      if !AllowInsertChild(KindOf(node), KindOf(proto)) || place == null || place.parent != node {
        return null, 0, 0, [];
      }
      i := ChildPosition(order, depths, place);
      s := PositionOf(from.order, proto);
      child, copies := Paste(place, proto, Behind, from, i, s);
    }

    /** insert_copy_before */
    method InsertCopyBefore(node: XmlNode?, proto: XmlNode?, place: XmlNode?, ghost from: XmlDocument)
      returns (child: XmlNode?, ghost i: nat, ghost s: nat, ghost copies: seq<XmlNode>)
      requires Valid() && (node != null ==> node in order) && (proto != null ==> proto in from.order) && (place != null ==> place in order)
      requires from.Valid() && CopiesFrom(from)
      modifies this`order, this`depths
      modifies Nodes(order)`firstChild, Nodes(order)`prevSiblingC, Nodes(order)`nextSibling
      ensures Valid() && root == old(root)
      ensures child != null <==> AllowInsertChild(KindOf(node), KindOf(proto)) && place != null && old(place.parent) == node
      ensures child == null ==> unchanged(this, old(order))
      ensures from != this ==> from.Valid() && unchanged(from, from.order)
      ensures child != null ==>
        && Copied(old(order), old(depths), order, depths, copies, old(from.depths), s, i, InFront)
        && old(order)[i] == place && old(from.order)[s] == proto
        && copies != [] && copies[0] == child && fresh(copies) && Contents(copies) == old(from.Original(s))
      ensures child != null ==> child.nextSibling == place
    {
      if !AllowInsertChild(KindOf(node), KindOf(proto)) || place == null || place.parent != node {
        return null, 0, 0, [];
      }
      i := ChildPosition(order, depths, place);
      s := PositionOf(from.order, proto);
      child, copies := Paste(place, proto, InFront, from, i, s);
    }

    /** remove_child: the subtree leaves the document; the nodes themselves are given back to the allocator. */
    method RemoveChild(node: XmlNode?, child: XmlNode?) returns (ok: bool, ghost j: nat)
      requires Valid() && (node != null ==> node in order) && (child != null ==> child in order)
      modifies this`order, this`depths
      modifies Nodes(order)`firstChild, Nodes(order)`prevSiblingC, Nodes(order)`nextSibling, Nodes(order)`parent
      ensures Valid() && root == old(root)
      ensures ok <==> node != null && child != null && old(child.parent) == node
      ensures !ok ==> unchanged(this, old(order))
      ensures ok ==>
        && j < |old(order)| && old(order)[j] == child
        && order == Without(old(order), j, End(old(depths), j)) && depths == CutRest(old(depths), j)
    {
      if node == null || child == null || child.parent != node {
        return false, 0;
      }
      j := ChildPosition(order, depths, child);
      RemoveNode(child, order, depths, j);
      order, depths := Without(order, j, End(depths, j)), CutRest(depths, j);
      ok := true;
    }

    /** allow_move: the type of the child fits, both nodes are in this document and the child is not above the parent. */
    method AllowMove(parent: XmlNode?, child: XmlNode?) returns (ok: bool)
      requires Valid() && (parent != null ==> parent in order)
      requires child != null ==> (child in order <==> RootOf(child) == root)
      ensures ok <==> Movable(parent, child)
    {
      if !AllowInsertChild(KindOf(parent), KindOf(child)) {
        return false;
      }
      if RootOf(parent) != RootOf(child) {
        return false;
      }
      ghost var i := PositionOf(order, parent);
      ghost var j := PositionOf(order, child);
      var cur := parent;
      ghost var c: int := i;
      while cur != null
        invariant -1 <= c < |order| && cur == At(order, c)
        invariant j <= i < End(depths, j) <==> j <= c < End(depths, j)
        decreases c
      {
        if cur == child {
          Position(order, j, c);
          return false;
        }
        Position(order, j, c);
        LinksOfNode(order, depths, c);
        AncestorStep(depths, j, c);
        cur := cur.parent;
        c := Parent(depths, c);
      }
      forall a, b | 0 <= a < |order| && 0 <= b < |order| && order[a] == child && order[b] == parent
        ensures !(a <= b < End(depths, a))
      {
        Position(order, a, j);
        Position(order, b, i);
      }
      return true;
    }

    /** append_move */
    method AppendMove(node: XmlNode?, moved: XmlNode?) returns (ok: bool, ghost j: nat, ghost i: nat)
      requires Valid() && (node != null ==> node in order)
      requires moved != null ==> (moved in order <==> RootOf(moved) == root)
      modifies this`order, this`depths
      modifies Nodes(order)`firstChild, Nodes(order)`prevSiblingC, Nodes(order)`nextSibling, Nodes(order)`parent
      ensures Valid()
      ensures ok <==> old(Movable(node, moved))
      ensures !ok ==> unchanged(this, old(order))
      ensures ok ==> old(CanMove(moved, j, node, i)) && root == old(root)
      ensures ok ==> order == MovedOrder(old(order), old(depths), j, i, AsLast) && depths == MovedDepths(old(depths), j, i, AsLast)
      ensures ok ==> moved.parent == node && moved.nextSibling == null
    {
      i, j := 0, 0;
      ok := AllowMove(node, moved);
      if !ok {
        return;
      }
      j, i := MoveReady(moved, node);
      MoveToBack(moved, node, j, i);
    }

    /** remove_node, then append_node */
    method MoveToBack(moved: XmlNode, node: XmlNode, ghost j: nat, ghost i: nat)
      requires Linked(order, depths) && order[0] == root && root.prevSiblingC == root
      requires i < |order| && CanMove(moved, j, node, i) && CutReady(order, depths, root, j, i)
      modifies this`order, this`depths
      modifies Nodes(order)`firstChild, Nodes(order)`prevSiblingC, Nodes(order)`nextSibling, moved`parent
      ensures Valid() && root == old(root)
      ensures order == MovedOrder(old(order), old(depths), j, i, AsLast) && depths == MovedDepths(old(depths), j, i, AsLast)
      ensures moved.parent == node && moved.nextSibling == null
    {
      ghost var rest, d, sub, e, to := Detach(moved, j, i);
      AttachLast(moved, node, j, i, rest, d, sub, e, to);
    }

    /** append_node for a subtree that has been cut out. */
    method AttachLast(moved: XmlNode, node: XmlNode, ghost j: nat, ghost i: nat,
                ghost rest: seq<XmlNode>, ghost d: Depths, ghost sub: seq<XmlNode>, ghost e: Depths, ghost to: nat)
      requires CutInto(order, depths, root, j, i, rest, d, sub, e, to) && order[j] == moved && order[i] == node
      requires Linked(rest, d) && Linked(sub, e) && root.prevSiblingC == root
      modifies this`order, this`depths
      modifies Nodes(order)`firstChild, Nodes(order)`prevSiblingC, Nodes(order)`nextSibling, moved`parent
      ensures Valid() && root == old(root)
      ensures order == MovedOrder(old(order), old(depths), j, i, AsLast) && depths == MovedDepths(old(depths), j, i, AsLast)
      ensures moved.parent == node && moved.nextSibling == null
    {
      ghost var p, b := End(d, to), d[to] + 1;
      CutFacts(order, depths, root, j, i, rest, d, sub, e, to);
      AppendNode(moved, node, rest, d, to, sub, e);
      Settle(j, i, AsLast, rest, d, sub, e, to, p, b);
      StandsAt(rest, d, to, AsLast, sub, e);
    }

    /** prepend_move */
    method PrependMove(node: XmlNode?, moved: XmlNode?) returns (ok: bool, ghost j: nat, ghost i: nat)
      requires Valid() && (node != null ==> node in order)
      requires moved != null ==> (moved in order <==> RootOf(moved) == root)
      modifies this`order, this`depths
      modifies Nodes(order)`firstChild, Nodes(order)`prevSiblingC, Nodes(order)`nextSibling, Nodes(order)`parent
      ensures Valid()
      ensures ok <==> old(Movable(node, moved))
      ensures !ok ==> unchanged(this, old(order))
      ensures ok ==> old(CanMove(moved, j, node, i)) && root == old(root)
      ensures ok ==> order == MovedOrder(old(order), old(depths), j, i, AsFirst) && depths == MovedDepths(old(depths), j, i, AsFirst)
      ensures ok ==> moved.parent == node && node.firstChild == moved
    {
      i, j := 0, 0;
      ok := AllowMove(node, moved);
      if !ok {
        return;
      }
      j, i := MoveReady(moved, node);
      MoveToFront(moved, node, j, i);
    }

    /** remove_node, then prepend_node */
    method MoveToFront(moved: XmlNode, node: XmlNode, ghost j: nat, ghost i: nat)
      requires Linked(order, depths) && order[0] == root && root.prevSiblingC == root
      requires i < |order| && CanMove(moved, j, node, i) && CutReady(order, depths, root, j, i)
      modifies this`order, this`depths
      modifies Nodes(order)`firstChild, Nodes(order)`prevSiblingC, Nodes(order)`nextSibling, moved`parent
      ensures Valid() && root == old(root)
      ensures order == MovedOrder(old(order), old(depths), j, i, AsFirst) && depths == MovedDepths(old(depths), j, i, AsFirst)
      ensures moved.parent == node && node.firstChild == moved
    {
      ghost var rest, d, sub, e, to := Detach(moved, j, i);
      AttachFirst(moved, node, j, i, rest, d, sub, e, to);
    }

    /** prepend_node for a subtree that has been cut out. */
    method AttachFirst(moved: XmlNode, node: XmlNode, ghost j: nat, ghost i: nat,
                ghost rest: seq<XmlNode>, ghost d: Depths, ghost sub: seq<XmlNode>, ghost e: Depths, ghost to: nat)
      requires CutInto(order, depths, root, j, i, rest, d, sub, e, to) && order[j] == moved && order[i] == node
      requires Linked(rest, d) && Linked(sub, e) && root.prevSiblingC == root
      modifies this`order, this`depths
      modifies Nodes(order)`firstChild, Nodes(order)`prevSiblingC, Nodes(order)`nextSibling, moved`parent
      ensures Valid() && root == old(root)
      ensures order == MovedOrder(old(order), old(depths), j, i, AsFirst) && depths == MovedDepths(old(depths), j, i, AsFirst)
      ensures moved.parent == node && node.firstChild == moved
    {
      CutFacts(order, depths, root, j, i, rest, d, sub, e, to);
      ghost var p, b := PrependNode(moved, node, rest, d, to, sub, e);
      Settle(j, i, AsFirst, rest, d, sub, e, to, p, b);
      StandsAt(rest, d, to, AsFirst, sub, e);
    }

    /** insert_move_after */
    method InsertMoveAfter(node: XmlNode?, moved: XmlNode?, place: XmlNode?) returns (ok: bool, ghost j: nat, ghost i: nat)
      requires Valid() && (node != null ==> node in order) && (place != null ==> place in order)
      requires moved != null ==> (moved in order <==> RootOf(moved) == root)
      modifies this`order, this`depths
      modifies Nodes(order)`firstChild, Nodes(order)`prevSiblingC, Nodes(order)`nextSibling, Nodes(order)`parent
      ensures Valid()
      ensures ok <==> old(Movable(node, moved)) && place != null && old(place.parent) == node && moved != place
      ensures !ok ==> unchanged(this, old(order))
      ensures ok ==> old(CanMove(moved, j, place, i)) && root == old(root)
      ensures ok ==> order == MovedOrder(old(order), old(depths), j, i, Behind) && depths == MovedDepths(old(depths), j, i, Behind)
      ensures ok ==> place.nextSibling == moved
    {
      i, j := 0, 0;
      ok := AllowMove(node, moved);
      if !ok || place == null || place.parent != node || moved == place {
        return false, 0, 0;
      }
      j, i := MoveReadyBeside(moved, node, place);
      ghost var rest, d, sub, e, to := Detach(moved, j, i);
      CutFacts(order, depths, root, j, i, rest, d, sub, e, to);
      InsertNodeAfter(moved, place, rest, d, to, sub, e);
      Settle(j, i, Behind, rest, d, sub, e, to, End(d, to), d[to]);
      StandsAt(rest, d, to, Behind, sub, e);
    }

    /** insert_move_before */
    method InsertMoveBefore(node: XmlNode?, moved: XmlNode?, place: XmlNode?) returns (ok: bool, ghost j: nat, ghost i: nat)
      requires Valid() && (node != null ==> node in order) && (place != null ==> place in order)
      requires moved != null ==> (moved in order <==> RootOf(moved) == root)
      modifies this`order, this`depths
      modifies Nodes(order)`firstChild, Nodes(order)`prevSiblingC, Nodes(order)`nextSibling, Nodes(order)`parent
      ensures Valid()
      ensures ok <==> old(Movable(node, moved)) && place != null && old(place.parent) == node && moved != place
      ensures !ok ==> unchanged(this, old(order))
      ensures ok ==> old(CanMove(moved, j, place, i)) && root == old(root)
      ensures ok ==> order == MovedOrder(old(order), old(depths), j, i, InFront) && depths == MovedDepths(old(depths), j, i, InFront)
      ensures ok ==> moved.nextSibling == place
    {
      i, j := 0, 0;
      ok := AllowMove(node, moved);
      if !ok || place == null || place.parent != node || moved == place {
        return false, 0, 0;
      }
      j, i := MoveReadyBeside(moved, node, place);
      ghost var rest, d, sub, e, to := Detach(moved, j, i);
      CutFacts(order, depths, root, j, i, rest, d, sub, e, to);
      InsertNodeBefore(moved, place, rest, d, to, sub, e);
      Settle(j, i, InFront, rest, d, sub, e, to, to, d[to]);
      StandsAt(rest, d, to, InFront, sub, e);
    }

    /** When a move of `moved` below `node` is allowed. */
    ghost predicate Movable(node: XmlNode?, moved: XmlNode?)
      requires |order| == |depths|
      reads this
    {
      AllowInsertChild(KindOf(node), KindOf(moved)) && moved in order && !Contains(order, depths, moved, node)
    }

    /** j is the position of `moved`, i that of a node outside its subtree. */
    ghost predicate CanMove(moved: XmlNode?, j: nat, node: XmlNode?, i: nat)
      requires |order| == |depths|
      reads this
    {
      0 < j < |order| && i < |order| && order[j] == moved && order[i] == node && (i < j || End(depths, j) <= i)
    }

    ghost method MoveReady(moved: XmlNode, node: XmlNode) returns (j: nat, i: nat)
      requires Valid() && node in order && Movable(node, moved)
      ensures CanMove(moved, j, node, i)
      ensures CutReady(order, depths, root, j, i)
    {
      i := PositionOf(order, node);
      j := PositionOf(order, moved);
      CutIsReady(order, depths, root, j, i);
    }

    ghost method MoveReadyBeside(moved: XmlNode, node: XmlNode, place: XmlNode) returns (j: nat, i: nat)
      requires Valid() && node in order && Movable(node, moved)
      requires place in order && place.parent == node && place != moved
      ensures CanMove(moved, j, place, i) && 0 < i
      ensures CutReady(order, depths, root, j, i) && 0 < Unshift(i, j, End(depths, j))
    {
      i := ChildPosition(order, depths, place);
      j := PositionOf(order, moved);
      LinksOfNode(order, depths, i);
      AncestorStep(depths, j, i);
      assert !(j <= Parent(depths, i) < End(depths, j));
      CutIsReady(order, depths, root, j, i);
    }

    /** remove_node on the subtree at j; `to` is where node i is found in the rest. */
    method Detach(moved: XmlNode, ghost j: nat, ghost i: nat)
      returns (ghost rest: seq<XmlNode>, ghost d: Depths, ghost sub: seq<XmlNode>, ghost e: Depths, ghost to: nat)
      requires Linked(order, depths) && order[0] == root && root.prevSiblingC == root
      requires i < |order| && CanMove(moved, j, order[i], i) && CutReady(order, depths, root, j, i)
      modifies Nodes(order)`firstChild, Nodes(order)`prevSiblingC, Nodes(order)`nextSibling, moved`parent
      ensures CutInto(order, depths, root, j, i, rest, d, sub, e, to)
      ensures Linked(rest, d) && Linked(sub, e) && root.prevSiblingC == root
    {
      rest, d, to := Without(order, j, End(depths, j)), CutRest(depths, j), Unshift(i, j, End(depths, j));
      sub, e := order[j..End(depths, j)], CutTree(depths, j);
      RemoveNode(moved, order, depths, j);
    }

    /** Records the new document order after the subtree that was detached has been linked back in. */
    ghost method Settle(j: nat, i: nat, place: Place,
                        rest: seq<XmlNode>, d: Depths, sub: seq<XmlNode>, e: Depths, to: nat, p: nat, b: nat)
      requires CutInto(order, depths, root, j, i, rest, d, sub, e, to) && root.prevSiblingC == root
      requires to < |d| == |rest| && |sub| == |e| && p == SlotAt(d, to, place) && b == LevelAt(d, to, place) && 0 < p
      requires Linked(Splice(rest, p, sub), Graft(d, p, e, b))
      modifies this`order, this`depths
      ensures Valid() && root == old(root)
      ensures order == MovedOrder(old(order), old(depths), j, i, place)
      ensures depths == MovedDepths(old(depths), j, i, place)
    {
      assert Unfold(CUT);
      MembersSplice(rest, root, p, sub);
      order, depths := Splice(rest, p, sub), Graft(d, p, e, b);
    }
  }

  /** What cutting the subtree at j out of a document gives. */
  ghost predicate CutReady(order: seq<XmlNode>, d: Depths, root: XmlNode, j: nat, i: nat)
    requires 0 < j < |order| == |d| && i < |order| && (i < j || End(d, j) <= i)
  {
    forall k :: Unfold(k) && k == CUT ==>
    var rest, sub, n := Without(order, j, End(d, j)), order[j..End(d, j)], End(d, j);
    && rest[0] == root && rest[Unshift(i, j, n)] == order[i] && sub[0] == order[j]
    && Members(rest, root) && Disjoint(rest, sub)
    && Guests(sub, root)
    && (forall x :: x in rest ==> x in order) && (forall x :: x in sub ==> x in order)
  }

  /** The two parts of a document whose subtree at j has been cut out; node i is at `to` in the rest. */
  ghost predicate CutInto(order: seq<XmlNode>, depths: Depths, root: XmlNode, j: nat, i: nat,
                          rest: seq<XmlNode>, d: Depths, sub: seq<XmlNode>, e: Depths, to: nat) {
    && 0 < j < |order| == |depths| && i < |order| && (i < j || End(depths, j) <= i)
    && rest == Without(order, j, End(depths, j)) && d == CutRest(depths, j) && to == Unshift(i, j, End(depths, j))
    && sub == order[j..End(depths, j)] && e == CutTree(depths, j)
    && CutReady(order, depths, root, j, i)
  }

  /** The nodes the two parts meet at. */
  lemma CutFacts(order: seq<XmlNode>, depths: Depths, root: XmlNode, j: nat, i: nat,
                 rest: seq<XmlNode>, d: Depths, sub: seq<XmlNode>, e: Depths, to: nat)
    requires CutInto(order, depths, root, j, i, rest, d, sub, e, to)
    ensures to < |rest| && rest[to] == order[i] && rest[0] == root && sub[0] == order[j] && Disjoint(rest, sub)
    ensures (forall x :: x in rest ==> x in order) && (forall x :: x in sub ==> x in order)
  {
    assert Unfold(CUT);
  }

  lemma CutIsReady(order: seq<XmlNode>, d: Depths, root: XmlNode, j: nat, i: nat)
    requires 0 < j < |order| == |d| && i < |order| && (i < j || End(d, j) <= i)
    requires Distinct(order) && Members(order, root) && order[0] == root
    ensures CutReady(order, d, root, j, i)
  {
    var rest, sub := Without(order, j, End(d, j)), order[j..End(d, j)];
    CutSplice(order, d, j);
    forall k | 0 <= k < |rest| ensures RootOf(rest[k]) == root && (rest[k].kind == NodeType.Document <==> k == 0) {
      assert rest[k] == order[Shift(k, j, End(d, j) - j)];
    }
    forall k | 0 <= k < |sub| ensures RootOf(sub[k]) == root && sub[k].kind != NodeType.Document {
      assert sub[k] == order[j + k];
    }
  }

  /** `inner` is in the subtree of `outer`. */
  ghost predicate Contains(order: seq<XmlNode>, d: Depths, outer: XmlNode, inner: XmlNode)
    requires |order| == |d|
  {
    exists j, i :: 0 <= j < |order| && 0 <= i < |order| && order[j] == outer && order[i] == inner && j <= i < End(d, j)
  }

  ghost method PositionOf(order: seq<XmlNode>, node: XmlNode) returns (i: nat)
    requires node in order
    ensures i < |order| && order[i] == node
  {
    i :| 0 <= i < |order| && order[i] == node;
  }

  /** The position of a node that has a parent; it is not the root. */
  ghost method ChildPosition(order: seq<XmlNode>, d: Depths, node: XmlNode) returns (i: nat)
    requires Linked(order, d) && node in order && node.parent != null
    ensures 0 < i < |order| && order[i] == node
  {
    i :| 0 <= i < |order| && order[i] == node;
    LinksOfNode(order, d, i);
  }

  /**
   The half-cyclic child lists.  In a linked tree the first child points back at the last one,
   whose next pointer is null; forward and back pointers of the others are inverse; all children
   point at their parent; and the parent comes earlier in document order, so there is no cycle.
   */
  lemma HalfCyclicLists(order: seq<XmlNode>, d: Depths, i: nat)
    requires Linked(order, d) && i < |order|
    ensures var head := order[i].firstChild;
            head != null ==>
              && head.parent == order[i] && head.prevSiblingC != null
              && head.prevSiblingC.parent == order[i] && head.prevSiblingC.nextSibling == null
    ensures var next := order[i].nextSibling;
            0 < i && next != null ==> next.prevSiblingC == order[i] && next.parent == order[i].parent
    ensures if i == 0 then order[i].parent == null && order[i].nextSibling == null
            else exists p :: 0 <= p < i && order[i].parent == order[p]
  {
    LinksOfNode(order, d, i);
    if FirstChild(d, i) != -1 {
      LastChildParent(d, i);
      LinksOfNode(order, d, i + 1);
      LinksOfNode(order, d, PrevSiblingC(d, i + 1));
    }
    if 0 < i {
      ParentDepth(d, i);
      if NextSibling(d, i) != -1 {
        NextThenPrev(d, i);
        LinksOfNode(order, d, NextSibling(d, i));
      }
    } else {
      NxtIs(d, 1, d[0], |d|);
    }
  }
}
