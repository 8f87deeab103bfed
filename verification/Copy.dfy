/** Deep copy of a subtree, also into a place inside that subtree. */
module Copy {
  import opened Basics
  import opened Guard
  import opened Shape
  import opened Dom

  // Each guarded definition below has its own number.
  const VISITING: nat := 1
  const CLIMBING: nat := 2
  const ARRIVED: nat := 3
  const COPY_STATE: nat := 4

  /** node_copy_contents; neither the links of the tree nor the contents of other nodes are touched. */
  method NodeCopyContents(dn: XmlNode, sn: XmlNode, ghost order: seq<XmlNode>, ghost d: Depths, ghost kept: seq<XmlNode>,
                          ghost so: seq<XmlNode>)
    requires dn != sn && dn.kind == sn.kind
    requires dn.name == None && dn.value == None && dn.attributes == []
    requires Linked(order, d) && dn !in kept && dn !in so
    modifies dn`name, dn`value, dn`attributes
    ensures ContentOf(dn) == ContentOf(sn)
    ensures Linked(order, d) && Contents(kept) == old(Contents(kept))
    ensures Snapshot(so) == old(Snapshot(so)) && Contents(so) == old(Contents(so))
  {
    ghost var links, contents, links', contents' := Snapshot(order), Contents(kept), Snapshot(so), Contents(so);
    if sn.name.Some? { dn.name := sn.name; }
    if sn.value.Some? { dn.value := sn.value; }
    for k := 0 to |sn.attributes|
      invariant dn.name == sn.name && dn.value == sn.value
      invariant dn.attributes == sn.attributes[..k]
    {
      dn.attributes := dn.attributes + [sn.attributes[k]];
    }
    assert Snapshot(order) == links && Snapshot(so) == links';
    assert Contents(kept) == contents && Contents(so) == contents';
  }

  /** The shape of the subtree of i is a tree. */
  lemma TreeShape(d: Depths, i: nat)
    requires WellFormed(d) && i < |d|
    ensures WellFormed(CutTree(d, i))
    ensures forall k :: 0 <= k < End(d, i) - i ==> CutTree(d, i)[k] + d[i] == d[i + k]
  {
    var e := CutTree(d, i);
    NxtSpec(d, i + 1, d[i]);
    forall k | 0 < k < |e| ensures StepDown(e, k) {
      assert StepDown(d, i + k);
    }
  }

  /**
   A copy: of the node s of a document of shape sd, to the slot q of a document that had the shape d
   before the new node was linked in.  `here` if it is one and the same document; then the slot may
   even lie inside the subtree of s.
   */
  datatype Scene = Scene(d: Depths, q: nat, b: nat, sd: Depths, s: nat, here: bool)

  /** The state of a copy in progress: e is the shape of the copy so far, always a prefix of the shape of the original. */
  ghost predicate Copying(sc: Scene, e: Depths) {
    && Slot(sc.d, sc.q, sc.b) && WellFormed(sc.sd) && sc.s < |sc.sd| && (sc.here ==> sc.sd == sc.d)
    && 0 < |e| <= End(sc.sd, sc.s) - sc.s
    && e == CutTree(sc.sd, sc.s)[..|e|]
  }

  /** The document with the copy in it. */
  ghost function Now(d: Depths, q: nat, b: nat, e: Depths): Depths
    requires q <= |d|
  {
    Graft(d, q, e, b)
  }

  /** The document copied from, as it is now, and the position of the original there. */
  ghost function There(sc: Scene, e: Depths): Depths
    requires sc.q <= |sc.d|
  {
    if sc.here then Now(sc.d, sc.q, sc.b, e) else sc.sd
  }

  ghost function Origin(sc: Scene, m: nat): nat {
    if sc.here then Shift(sc.s, sc.q, m) else sc.s
  }

  /** Position w of the document copied from is that of the new node. */
  ghost predicate AtSlot(sc: Scene, w: nat) {
    sc.here && w == sc.q
  }

  /** Position w of the document copied from is where the traversal is when the next original to copy is x. */
  ghost predicate Reached(sc: Scene, w: nat, x: nat, m: nat) {
    if !sc.here || w <= sc.q then x == w else sc.q + m <= w && x == w - m
  }

  ghost predicate Visiting(sc: Scene, e: Depths, w: nat)
    requires Copying(sc, e)
  {
    && w < |There(sc, e)|
    && forall k :: Unfold(k) && k == VISITING ==>
      var r, o := There(sc, e), Origin(sc, |e|);
      o < w < End(r, o) && Reached(sc, w, sc.s + |e|, |e|)
  }

  /** The copy under which the copy of a node `level` levels below the original goes. */
  ghost function Target(e: Depths, level: int): int {
    Last(e, |e|, level - 1)
  }

  lemma CopyShape(sc: Scene, e: Depths)
    requires Copying(sc, e)
    ensures WellFormed(e) && WellFormed(Now(sc.d, sc.q, sc.b, e)) && WellFormed(There(sc, e))
    ensures Origin(sc, |e|) < |There(sc, e)| && There(sc, e)[Origin(sc, |e|)] == sc.sd[sc.s]
    ensures forall k :: 0 <= k < |e| ==> e[k] + sc.sd[sc.s] == sc.sd[sc.s + k]
  {
    TreeShape(sc.sd, sc.s);
    var t := CutTree(sc.sd, sc.s);
    forall k | 0 < k < |e| ensures StepDown(e, k) {
      assert StepDown(t, k);
    }
    GraftWellFormed(sc.d, sc.q, e, sc.b, Now(sc.d, sc.q, sc.b, e));
  }

  ghost function Level(sc: Scene, e: Depths, w: nat): int
    requires Copying(sc, e) && w < |There(sc, e)|
  {
    There(sc, e)[w] as int - sc.sd[sc.s]
  }

  /** Where the subtree of the original ends now. */
  lemma OriginEnd(sc: Scene, e: Depths)
    requires Copying(sc, e)
    ensures var r, o := There(sc, e), Origin(sc, |e|);
            o < |r| && End(r, o) == if !sc.here || (sc.s < sc.q && sc.b <= sc.sd[sc.s]) then End(sc.sd, sc.s)
                                     else Shift(End(sc.sd, sc.s), sc.q, |e|)
    ensures sc.here && sc.s < sc.q && sc.b <= sc.sd[sc.s] ==> End(sc.sd, sc.s) <= sc.q
  {
    CopyShape(sc, e);
    if sc.here { GraftEnd(sc.d, sc.q, e, sc.b, There(sc, e), sc.s); }
  }

  /** The traversal never leaves the original, and is below its root. */
  lemma VisitInside(sc: Scene, e: Depths, w: nat)
    requires Copying(sc, e) && Visiting(sc, e, w)
    ensures 0 < Level(sc, e, w)
    ensures !AtSlot(sc, w) ==> sc.s + |e| < End(sc.sd, sc.s) && There(sc, e)[w] == sc.sd[sc.s + |e|]
  {
    assert Unfold(VISITING);
    var r, o := There(sc, e), Origin(sc, |e|);
    CopyShape(sc, e);
    NxtSpec(r, o + 1, r[o]);
    OriginEnd(sc, e);
  }

  /** The next copy is attached to the last copy one level above it. */
  lemma TargetFound(sc: Scene, e: Depths, w: nat)
    requires Copying(sc, e) && Visiting(sc, e, w)
    ensures var level := Level(sc, e, w);
            0 < level <= e[|e| - 1] + 1
            && (!AtSlot(sc, w) ==> sc.s + |e| < End(sc.sd, sc.s) && level == CutTree(sc.sd, sc.s)[|e|])
  {
    VisitInside(sc, e, w);
    if AtSlot(sc, w) {
      TargetAtSlot(sc, e);
    } else {
      TreeShape(sc.sd, sc.s);
      assert StepDown(CutTree(sc.sd, sc.s), |e|);
    }
  }

  lemma TargetAtSlot(sc: Scene, e: Depths)
    requires Copying(sc, e) && sc.here && Visiting(sc, e, sc.q)
    ensures Level(sc, e, sc.q) <= e[|e| - 1] + 1
  {
    assert Unfold(VISITING);
    CopyShape(sc, e);
  }

  lemma TargetLevel(e: Depths, level: nat)
    requires WellFormed(e) && 0 < level <= e[|e| - 1] + 1
    ensures var j := Target(e, level);
            && 0 <= j < |e| && e[j] == level - 1
            && (forall k :: j < k < |e| ==> level <= e[k])
  {
    OwnerDepth(e, |e|, level);
    LastSpec(e, |e|, level - 1);
  }

  /** Going up one level in the original goes up one level in the copy. */
  lemma TargetParent(e: Depths, level: nat)
    requires WellFormed(e) && 1 < level <= e[|e| - 1] + 1
    ensures 0 < Target(e, level) < |e| && Parent(e, Target(e, level)) == Target(e, level - 1)
  {
    TargetLevel(e, level);
    TargetLevel(e, level - 1);
    var j := Target(e, level);
    LastSpec(e, j, level - 2);
    LastIs(e, |e|, level - 2, Last(e, j, level - 2));
  }

  /** Node y of the original has been dealt with, and so has everything below it; nx is the position behind it. */
  ghost predicate Climbing(sc: Scene, e: Depths, y: nat, nx: nat)
    requires Copying(sc, e)
  {
    && y < |There(sc, e)|
    && forall k :: Unfold(k) && k == CLIMBING ==>
      var r, o := There(sc, e), Origin(sc, |e|);
      && o <= y < End(r, o)
      && End(r, y) == nx && Reached(sc, nx, sc.s + |e|, |e|)
      && (y != o ==> 0 < Level(sc, e, y) <= e[|e| - 1] + 1)
  }

  /** One more node copied: the copy is the next longer prefix of the original. */
  lemma CopyGrows(sc: Scene, e: Depths, w: nat)
    requires Copying(sc, e) && Visiting(sc, e, w) && !AtSlot(sc, w)
    ensures var level := Level(sc, e, w); 0 < level && 0 <= Target(e, level) < |e| && Copying(sc, e + [level])
  {
    TargetFound(sc, e, w);
    var level: nat := Level(sc, e, w);
    CopyShape(sc, e);
    TargetLevel(e, level);
    assert e + [level] == CutTree(sc.sd, sc.s)[..|e| + 1];
  }

  lemma AppendedShape(d: Depths, q: nat, b: nat, e: Depths, j: nat, level: nat)
    requires Slot(d, q, b) && WellFormed(e) && j < |e| && e[j] + 1 == level
    requires forall k :: j < k < |e| ==> level <= e[k]
    ensures var r := Now(d, q, b, e);
            && End(r, q + j) == q + |e|
            && Now(d, q, b, e + [level]) == Graft(r, End(r, q + j), [0], r[q + j] + 1)
  {
    var r := Now(d, q, b, e);
    NxtIs(r, q + j + 1, r[q + j], q + |e|);
    var x, y := Graft(r, q + |e|, [0], b + level), Graft(d, q, e + [level], b);
    forall k | 0 <= k < |x| ensures x[k] == y[k] {
    }
  }

  /** w is the place of the node whose copy is the last one made. */
  ghost predicate Arrived(sc: Scene, e: Depths, w: nat)
    requires Copying(sc, e)
  {
    && w < |There(sc, e)|
    && forall k :: Unfold(k) && k == ARRIVED ==>
      var r, o := There(sc, e), Origin(sc, |e|);
      && !AtSlot(sc, w) && 1 < |e| && o < w < End(r, o) && Reached(sc, w, sc.s + |e| - 1, |e|)
      && e[|e| - 1] == Level(sc, e, w)
  }

  /** Where position w of the document copied from is after one more copy. */
  ghost function Moved(sc: Scene, w: nat): nat {
    if sc.here && sc.q <= w then w + 1 else w
  }

  /** The position of the node just copied, in the document with its copy. */
  lemma CopyMoves(sc: Scene, e: Depths, w: nat, level: nat, e': Depths, w': nat)
    requires Copying(sc, e) && Visiting(sc, e, w) && !AtSlot(sc, w) && level == Level(sc, e, w)
    requires e' == e + [level] && Copying(sc, e') && w' == Moved(sc, w)
    ensures Arrived(sc, e', w') && !AtSlot(sc, w')
  {
    if sc.here {
      CopyMovesHere(sc, e, w, level, e', w');
    } else {
      assert Unfold(VISITING) && Unfold(ARRIVED);
    }
  }

  lemma CopyMovesHere(sc: Scene, e: Depths, w: nat, level: nat, e': Depths, w': nat)
    requires Copying(sc, e) && Visiting(sc, e, w) && w != sc.q && level == Level(sc, e, w)
    requires e' == e + [level] && Copying(sc, e') && w' == if w < sc.q then w else w + 1
    requires sc.here
    ensures Arrived(sc, e', w') && w' != sc.q
  {
    assert Unfold(VISITING) && Unfold(ARRIVED);
    OriginEnd(sc, e);
    OriginEnd(sc, e');
  }

  /** Behind a node that was just copied comes its first child or, if it has none, whatever follows it. */
  lemma CopyContinues(sc: Scene, e: Depths, w: nat, nx: nat)
    requires Copying(sc, e) && Arrived(sc, e, w) && nx == w + 1
    ensures if FirstChild(There(sc, e), w) != -1 then
              FirstChild(There(sc, e), w) == nx && Visiting(sc, e, nx) && Target(e, Level(sc, e, nx)) == |e| - 1
            else Climbing(sc, e, w, nx)
  {
    CopyShape(sc, e);
    if FirstChild(There(sc, e), w) != -1 {
      CopyDescends(sc, e, w, nx);
    } else {
      assert Unfold(CLIMBING) && Unfold(ARRIVED);
    }
  }

  lemma CopyDescends(sc: Scene, e: Depths, w: nat, nx: nat)
    requires Copying(sc, e) && Arrived(sc, e, w) && nx == w + 1 && FirstChild(There(sc, e), w) != -1
    ensures FirstChild(There(sc, e), w) == nx && Visiting(sc, e, nx) && Target(e, Level(sc, e, nx)) == |e| - 1
  {
    assert Unfold(VISITING) && Unfold(ARRIVED);
    CopyShape(sc, e);
    FirstInside(There(sc, e), Origin(sc, |e|), w, nx);
    LastIs(e, |e|, e[|e| - 1], |e| - 1);
  }

  lemma FirstInside(r: Depths, o: nat, w: nat, nx: nat)
    requires WellFormed(r) && o < w < |r| && w < End(r, o) && nx == w + 1 && FirstChild(r, w) != -1
    ensures FirstChild(r, w) == nx < End(r, o) && r[nx] == r[w] + 1
  {
    NxtSpec(r, o + 1, r[o]);
    assert StepDown(r, nx);
  }

  lemma CopySkips(sc: Scene, e: Depths)
    requires Copying(sc, e) && sc.here && Visiting(sc, e, sc.q)
    ensures Climbing(sc, e, sc.q, sc.q + |e|)
  {
    assert Unfold(VISITING) && Unfold(CLIMBING);
    CopyShape(sc, e);
    TargetFound(sc, e, sc.q);
    NxtIs(There(sc, e), sc.q + 1, sc.b, sc.q + |e|);
  }

  lemma ClimbForward(sc: Scene, e: Depths, y: nat, nx: nat)
    requires Copying(sc, e) && Climbing(sc, e, y, nx) && y != Origin(sc, |e|)
    requires NextSibling(There(sc, e), y) != -1
    ensures NextSibling(There(sc, e), y) == nx > Origin(sc, |e|) && Visiting(sc, e, nx)
    ensures Level(sc, e, nx) == Level(sc, e, y)
  {
    assert Unfold(VISITING) && Unfold(CLIMBING);
    var r, o := There(sc, e), Origin(sc, |e|);
    CopyShape(sc, e);
    NextInside(r, o, y);
  }

  lemma ClimbLevel(sc: Scene, e: Depths, y: nat, nx: nat)
    requires Copying(sc, e) && Climbing(sc, e, y, nx) && y != Origin(sc, |e|)
    ensures 0 < y && 0 < Level(sc, e, y) <= e[|e| - 1] + 1
  {
    assert Unfold(CLIMBING);
  }

  lemma ClimbUp(sc: Scene, e: Depths, y: nat, nx: nat)
    requires Copying(sc, e) && Climbing(sc, e, y, nx) && y != Origin(sc, |e|)
    requires NextSibling(There(sc, e), y) == -1
    ensures var p := Parent(There(sc, e), y);
            && 0 <= p < y && Climbing(sc, e, p, nx)
            && Level(sc, e, p) == Level(sc, e, y) - 1
            && (p == Origin(sc, |e|) <==> Level(sc, e, y) == 1)
  {
    assert Unfold(CLIMBING);
    var r, o := There(sc, e), Origin(sc, |e|);
    CopyShape(sc, e);
    ParentInside(r, o, y);
    EndOfLastChild(r, y);
  }

  /** Back at the original, everything has been copied. */
  lemma CopyDone(sc: Scene, e: Depths, nx: nat)
    requires Copying(sc, e) && Climbing(sc, e, Origin(sc, |e|), nx)
    ensures e == CutTree(sc.sd, sc.s)
  {
    assert Unfold(CLIMBING);
    CopyShape(sc, e);
    OriginEnd(sc, e);
  }

  lemma LastPrefix(t: Depths, m: nat, v: int)
    requires m <= |t|
    ensures Last(t[..m], m, v) == Last(t, m, v)
  {
    LastSpec(t, m, v);
    LastIs(t[..m], m, v, Last(t, m, v));
  }

  /** Nodes of the document whose root is `home`. */
  ghost predicate LiveIn(copies: seq<XmlNode>, home: XmlNode?) {
    home != null && forall x <- copies :: x.document == home
  }

  /** append_new_node on the copy j: the new node goes behind all copies made so far. */
  method AppendNewNode(dit: XmlNode, kind: NodeType, ghost order: seq<XmlNode>, ghost d: Depths, ghost q: nat, ghost b: nat,
                       ghost copies: seq<XmlNode>, ghost e: Depths, ghost j: nat, ghost level: nat, ghost so: seq<XmlNode>)
    returns (copy: XmlNode)
    requires |order| == |d| && |copies| == |e| && Slot(d, q, b) && WellFormed(e)
    requires Linked(Splice(order, q, copies), Now(d, q, b, e))
    requires j < |e| && dit == copies[j] && e[j] + 1 == level && forall k :: j < k < |e| ==> level <= e[k]
    modifies Nodes(order)`firstChild, Nodes(order)`prevSiblingC, Nodes(order)`nextSibling
    modifies Nodes(copies)`firstChild, Nodes(copies)`prevSiblingC, Nodes(copies)`nextSibling
    ensures fresh(copy) && copy.kind == kind && copy.name == None && copy.value == None && copy.attributes == []
    ensures Contents(so) == old(Contents(so)) && Contents(copies) == old(Contents(copies))
    ensures Foreign(so, order) && Foreign(so, copies) ==> Snapshot(so) == old(Snapshot(so))
    ensures Linked(Splice(order, q, copies + [copy]), Now(d, q, b, e + [level]))
    ensures copy.document == (if dit.document == null then dit else dit.document)
    ensures order != [] && order[0].prevSiblingC == old(order[0].prevSiblingC)
  {
    copy := new XmlNode(kind, if dit.document == null then dit else dit.document);
    PlaceNode(copy, dit, order, d, q, b, copies, e, j, level);
  }

  method PlaceNode(copy: XmlNode, dit: XmlNode, ghost order: seq<XmlNode>, ghost d: Depths, ghost q: nat, ghost b: nat,
                   ghost copies: seq<XmlNode>, ghost e: Depths, ghost j: nat, ghost level: nat)
    requires |order| == |d| && |copies| == |e| && Slot(d, q, b) && WellFormed(e)
    requires Linked(Splice(order, q, copies), Now(d, q, b, e))
    requires j < |e| && dit == copies[j] && e[j] + 1 == level && forall k :: j < k < |e| ==> level <= e[k]
    requires copy !in Splice(order, q, copies) && Linked([copy], [0])
    modifies Nodes(order)`firstChild, Nodes(order)`prevSiblingC, Nodes(order)`nextSibling
    modifies Nodes(copies)`firstChild, Nodes(copies)`prevSiblingC, Nodes(copies)`nextSibling
    modifies copy`parent, copy`prevSiblingC, copy`nextSibling
    ensures Linked(Splice(order, q, copies + [copy]), Now(d, q, b, e + [level]))
    ensures order != [] && order[0].prevSiblingC == old(order[0].prevSiblingC)
  {
    RootStays(order, d, q, b, copies);
    SpliceNodes(order, q, copies);
    AppendNode(copy, dit, Splice(order, q, copies), Now(d, q, b, e), q + j, [copy], [0]);
    AppendedOrder(order, d, q, b, copies, e, j, level, copy);
  }

  lemma RootStays(order: seq<XmlNode>, d: Depths, q: nat, b: nat, copies: seq<XmlNode>)
    requires |order| == |d| && Slot(d, q, b)
    ensures order != [] && Splice(order, q, copies)[0] == order[0]
  {
    SlotNeighbours(d, q, b);
  }

  lemma AppendedOrder(order: seq<XmlNode>, d: Depths, q: nat, b: nat, copies: seq<XmlNode>, e: Depths, j: nat, level: nat,
                      copy: XmlNode)
    requires |order| == |d| && |copies| == |e| && Slot(d, q, b) && WellFormed(e)
    requires j < |e| && e[j] + 1 == level && forall k :: j < k < |e| ==> level <= e[k]
    requires var all, r, i := Splice(order, q, copies), Now(d, q, b, e), q + j;
             Linked(Splice(all, End(r, i), [copy]), Graft(r, End(r, i), [0], r[i] + 1))
    ensures Linked(Splice(order, q, copies + [copy]), Now(d, q, b, e + [level]))
  {
    AppendedShape(d, q, b, e, j, level);
    SpliceGrows(order, q, copies, copy, End(Now(d, q, b, e), q + j));
  }

  lemma SpliceNodes(order: seq<XmlNode>, q: nat, copies: seq<XmlNode>)
    requires q <= |order|
    ensures forall x :: x in Splice(order, q, copies) ==> x in order || x in copies
  {
  }

  lemma SpliceGrows(order: seq<XmlNode>, q: nat, copies: seq<XmlNode>, copy: XmlNode, p: nat)
    requires q <= |order| && p == q + |copies|
    ensures Splice(Splice(order, q, copies), p, [copy]) == Splice(order, q, copies + [copy])
  {
  }

  /** The parent of the target of a level is the target of the level above. */
  lemma TargetLinks(order: seq<XmlNode>, d: Depths, q: nat, b: nat, copies: seq<XmlNode>, e: Depths, level: nat)
    requires |order| == |d| && |copies| == |e| && Slot(d, q, b) && WellFormed(e)
    requires Linked(Splice(order, q, copies), Now(d, q, b, e))
    requires 0 < level <= e[|e| - 1] + 1
    ensures 0 <= Target(e, level) < |e|
    ensures level != 1 ==> copies[Target(e, level)].parent == At(copies, Target(e, level - 1))
  {
    TargetLevel(e, level);
    if level != 1 {
      TargetParent(e, level);
      TargetLevel(e, level - 1);
      var j := Target(e, level);
      assert Splice(order, q, copies)[q + j] == copies[j];
      GraftMoved(d, q, e, b, Now(d, q, b, e), j);
      SpliceNew(order, q, copies, Splice(order, q, copies), Parent(e, j));
      LinksOfNode(Splice(order, q, copies), Now(d, q, b, e), q + j);
    }
  }

  // The document copied from

  /** Its nodes in document order, as it is now. */
  ghost function Current(order: seq<XmlNode>, so: seq<XmlNode>, sc: Scene, copies: seq<XmlNode>): seq<XmlNode>
    requires sc.q <= |order|
  {
    if sc.here then Splice(order, sc.q, copies) else so
  }

  ghost predicate Foreign(a: seq<XmlNode>, b: seq<XmlNode>) {
    forall x <- a :: x !in b
  }

  /** The copies so far are linked in, and the document copied from is the same one or one of its own. */
  ghost predicate Placed(order: seq<XmlNode>, so: seq<XmlNode>, sc: Scene, copies: seq<XmlNode>, e: Depths)
    reads order, so, copies
  {
    && |order| == |sc.d| && |so| == |sc.sd| && |copies| == |e| && Copying(sc, e)
    && Linked(Splice(order, sc.q, copies), Now(sc.d, sc.q, sc.b, e))
    && (sc.here ==> so == order)
    && (!sc.here ==> Linked(so, sc.sd) && Foreign(so, order) && Foreign(so, copies))
  }

  lemma CurrentLinked(order: seq<XmlNode>, so: seq<XmlNode>, sc: Scene, copies: seq<XmlNode>, e: Depths)
    requires Placed(order, so, sc, copies, e)
    ensures var all, r, o := Current(order, so, sc, copies), There(sc, e), Origin(sc, |e|);
            |all| == |r| && Linked(all, r) && o < |all| && all[o] == so[sc.s]
  {
    CopyShape(sc, e);
  }

  /** Where the second half of the copying loop is: at node y, with the copy under which its next sibling would go. */
  ghost predicate OnTheWay(order: seq<XmlNode>, so: seq<XmlNode>, sc: Scene, copies: seq<XmlNode>, e: Depths,
                           y: nat, nx: nat, sit: XmlNode, dit: XmlNode?)
    reads order, so, copies
  {
    && Placed(order, so, sc, copies, e)
    && Climbing(sc, e, y, nx) && y != Origin(sc, |e|)
    && sit == At(Current(order, so, sc, copies), y) && dit == At(copies, Target(e, Level(sc, e, y)))
  }

  /** A next sibling is where the traversal goes on. */
  lemma ClimbAcross(order: seq<XmlNode>, so: seq<XmlNode>, sc: Scene, copies: seq<XmlNode>, e: Depths,
                    y: nat, nx: nat, sit: XmlNode, dit: XmlNode?)
    requires OnTheWay(order, so, sc, copies, e, y, nx, sit, dit)
    requires sit.nextSibling != null
    ensures Visiting(sc, e, nx) && sit.nextSibling == At(Current(order, so, sc, copies), nx) != so[sc.s]
    ensures dit == At(copies, Target(e, Level(sc, e, nx)))
  {
    var all := Current(order, so, sc, copies);
    CurrentLinked(order, so, sc, copies, e);
    LinksOfNode(all, There(sc, e), y);
    ClimbForward(sc, e, y, nx);
    Position(all, nx, Origin(sc, |e|));
  }

  /** A last child leads to its parent. */
  lemma ClimbOut(order: seq<XmlNode>, so: seq<XmlNode>, sc: Scene, copies: seq<XmlNode>, e: Depths,
                 y: nat, nx: nat, sit: XmlNode, dit: XmlNode?)
    requires OnTheWay(order, so, sc, copies, e, y, nx, sit, dit)
    requires sit.nextSibling == null
    ensures sit.parent != null && dit != null
    ensures sit.parent == so[sc.s] ==> e == CutTree(sc.sd, sc.s)
    ensures sit.parent != so[sc.s] ==>
              var p := Parent(There(sc, e), y);
              0 <= p < y && OnTheWay(order, so, sc, copies, e, p, nx, sit.parent, dit.parent)
  {
    var all, r, o := Current(order, so, sc, copies), There(sc, e), Origin(sc, |e|);
    CurrentLinked(order, so, sc, copies, e);
    LinksOfNode(all, r, y);
    ClimbUp(sc, e, y, nx);
    Position(all, Parent(r, y), o);
    if Parent(r, y) == o { CopyDone(sc, e, nx); }
    ClimbTarget(order, so, sc, copies, e, y, nx);
  }

  lemma ClimbTarget(order: seq<XmlNode>, so: seq<XmlNode>, sc: Scene, copies: seq<XmlNode>, e: Depths, y: nat, nx: nat)
    requires Placed(order, so, sc, copies, e)
    requires Climbing(sc, e, y, nx) && y != Origin(sc, |e|)
    ensures var level := Level(sc, e, y);
            && 0 <= Target(e, level) < |e|
            && (level != 1 ==> copies[Target(e, level)].parent == At(copies, Target(e, level - 1)))
  {
    CopyShape(sc, e);
    ClimbLevel(sc, e, y, nx);
    TargetLinks(order, sc.d, sc.q, sc.b, copies, e, Level(sc, e, y));
  }

  /** The second half of the copying loop: on to the next sibling of the nearest ancestor that has one. */
  method Climb(sit0: XmlNode, dit0: XmlNode?, sn: XmlNode,
               ghost order: seq<XmlNode>, ghost so: seq<XmlNode>, ghost sc: Scene,
               ghost copies: seq<XmlNode>, ghost e: Depths, ghost y0: nat, ghost nx: nat)
    returns (sit: XmlNode, dit: XmlNode?)
    requires OnTheWay(order, so, sc, copies, e, y0, nx, sit0, dit0) && so[sc.s] == sn
    ensures if sit == sn then e == CutTree(sc.sd, sc.s)
            else Visiting(sc, e, nx) && sit == At(Current(order, so, sc, copies), nx)
                 && dit == At(copies, Target(e, Level(sc, e, nx)))
  {
    ghost var y: nat := y0;
    sit, dit := sit0, dit0;
    while true
      invariant OnTheWay(order, so, sc, copies, e, y, nx, sit, dit)
      decreases y
    {
      if sit.nextSibling != null {
        ClimbAcross(order, so, sc, copies, e, y, nx, sit, dit);
        sit := sit.nextSibling;
        return;
      }
      ClimbOut(order, so, sc, copies, e, y, nx, sit, dit);
      sit := sit.parent;
      dit := dit.parent;
      if sit == sn {
        return;
      }
      y := Parent(There(sc, e), y);
    }
  }

  /** Of the nodes the traversal comes to, only the new root is at the slot, and none is the original itself. */
  lemma CopyVisits(order: seq<XmlNode>, so: seq<XmlNode>, sc: Scene, copies: seq<XmlNode>, e: Depths, w: nat)
    requires Placed(order, so, sc, copies, e) && Visiting(sc, e, w)
    ensures var all := Current(order, so, sc, copies);
            w < |all| && (all[w] == copies[0] <==> AtSlot(sc, w)) && all[w] != so[sc.s] && Origin(sc, |e|) < w
  {
    assert Unfold(VISITING);
    var all := Current(order, so, sc, copies);
    CurrentLinked(order, so, sc, copies, e);
    Position(all, w, Origin(sc, |e|));
    if sc.here {
      Position(all, w, sc.q);
    } else {
      assert all[w] in so && copies[0] in copies;
    }
  }

  // Copying one node

  lemma CopyPrepared(order: seq<XmlNode>, so: seq<XmlNode>, sc: Scene, copies: seq<XmlNode>, e: Depths, w: nat)
    requires Placed(order, so, sc, copies, e)
    requires Visiting(sc, e, w) && !AtSlot(sc, w)
    ensures WellFormed(e)
    ensures sc.s + |e| < |so| && At(Current(order, so, sc, copies), w) == so[sc.s + |e|]
    ensures var level := Level(sc, e, w);
            var j := Target(e, level);
            && 0 < level && 0 <= j < |e| && e[j] + 1 == level && (forall k :: j < k < |e| ==> level <= e[k])
            && Copying(sc, e + [level])
  {
    TargetFound(sc, e, w);
    CopyShape(sc, e);
    TargetLevel(e, Level(sc, e, w));
    CopyGrows(sc, e, w);
    VisitedNode(order, so, sc, copies, e, w);
  }

  lemma VisitedNode(order: seq<XmlNode>, so: seq<XmlNode>, sc: Scene, copies: seq<XmlNode>, e: Depths, w: nat)
    requires Placed(order, so, sc, copies, e)
    requires Visiting(sc, e, w) && !AtSlot(sc, w)
    ensures sc.s + |e| < |so| && At(Current(order, so, sc, copies), w) == so[sc.s + |e|]
  {
    assert Unfold(VISITING);
    VisitInside(sc, e, w);
  }

  /** The original just copied is still found, one place further if the copies come before it. */
  lemma CopyMovesNode(order: seq<XmlNode>, so: seq<XmlNode>, sc: Scene, copies: seq<XmlNode>, e: Depths, w: nat, copy: XmlNode)
    requires |order| == |sc.d| && |so| == |sc.sd| && |copies| == |e| && Copying(sc, e)
    requires Visiting(sc, e, w) && !AtSlot(sc, w)
    ensures At(Current(order, so, sc, copies + [copy]), Moved(sc, w)) == At(Current(order, so, sc, copies), w) != null
  {
    VisitInside(sc, e, w);
    assert Unfold(VISITING);
  }

  /** The copy just made is not its own target. */
  lemma TargetStays(sc: Scene, e: Depths, level: nat, w': nat)
    requires Copying(sc, e + [level]) && Arrived(sc, e + [level], w')
    ensures Target(e + [level], Level(sc, e + [level], w')) == Target(e, level)
  {
    assert Unfold(ARRIVED);
    assert (e + [level])[..|e|] == e;
    LastPrefix(e + [level], |e|, level - 1);
  }

  /** Copies one node of the original; afterwards the copies are those of the next longer prefix. */
  method CopyNode(dit: XmlNode?, sit: XmlNode, dn: XmlNode,
                  ghost order: seq<XmlNode>, ghost so: seq<XmlNode>, ghost sc: Scene,
                  ghost copies: seq<XmlNode>, ghost e: Depths, ghost w: nat)
    returns (copy: XmlNode, ghost copies': seq<XmlNode>, ghost e': Depths, ghost w': nat)
    requires Placed(order, so, sc, copies, e)
    requires sc.s + |copies| <= |so| && Contents(copies) == Contents(so)[sc.s..sc.s + |copies|]
    requires Visiting(sc, e, w) && !AtSlot(sc, w) && sit == At(Current(order, so, sc, copies), w)
    requires dit == At(copies, Target(e, Level(sc, e, w)))
    modifies Nodes(order)`firstChild, Nodes(order)`prevSiblingC, Nodes(order)`nextSibling
    modifies Nodes(copies)`firstChild, Nodes(copies)`prevSiblingC, Nodes(copies)`nextSibling
    ensures fresh(copy) && copies' == copies + [copy]
    ensures sc.s + |copies'| <= |so| && Contents(copies') == Contents(so)[sc.s..sc.s + |copies'|]
    ensures Contents(so) == old(Contents(so))
    ensures LiveIn(copies, dn.document) ==> LiveIn(copies', dn.document)
    ensures order[0].prevSiblingC == old(order[0].prevSiblingC)
    ensures Placed(order, so, sc, copies', e')
    ensures sit == At(Current(order, so, sc, copies'), w') && !AtSlot(sc, w')
    ensures Arrived(sc, e', w')
    ensures dit == At(copies', Target(e', Level(sc, e', w')))
  {
    CopyPrepared(order, so, sc, copies, e, w);
    ghost var level: nat := Level(sc, e, w);
    copy := AppendNewNode(dit, sit.kind, order, sc.d, sc.q, sc.b, copies, e, Target(e, level), level, so);
    copies', e', w' := copies + [copy], e + [level], Moved(sc, w);
    NodeCopyContents(copy, sit, Splice(order, sc.q, copies'), Now(sc.d, sc.q, sc.b, e'), copies, so);
    CopyMoves(sc, e, w, level, e', w');
    TargetStays(sc, e, level, w');
    CopyMovesNode(order, so, sc, copies, e, w, copy);
    assert Contents(copies') == Contents(copies) + [ContentOf(copy)];
  }

  // The copying loop

  /** What holds before each round of the copying loop. */
  ghost predicate CopyState(order: seq<XmlNode>, so: seq<XmlNode>, sc: Scene, copies: seq<XmlNode>, e: Depths,
                            sn: XmlNode, sit: XmlNode?, dit: XmlNode?, w: nat)
    reads order, so, copies
  {
    && sc.s < |so| == |sc.sd| && sc.q <= |sc.d| == |order| && 0 < |copies| == |e| <= End(sc.sd, sc.s) - sc.s
    && forall k :: Unfold(k) && k == COPY_STATE ==>
      && Placed(order, so, sc, copies, e) && so[sc.s] == sn
      && Contents(copies) == Contents(so)[sc.s..sc.s + |copies|]
      && if sit == null || sit == sn then e == CutTree(sc.sd, sc.s)
         else Visiting(sc, e, w) && sit == At(Current(order, so, sc, copies), w)
              && dit == At(copies, Target(e, Level(sc, e, w)))
  }

  lemma StateOf(order: seq<XmlNode>, so: seq<XmlNode>, sc: Scene, copies: seq<XmlNode>, e: Depths,
                sn: XmlNode, sit: XmlNode, dit: XmlNode?, w: nat)
    requires Placed(order, so, sc, copies, e) && so[sc.s] == sn
    requires sc.s + |copies| <= |so| && Contents(copies) == Contents(so)[sc.s..sc.s + |copies|]
    requires if sit == sn then e == CutTree(sc.sd, sc.s)
             else Visiting(sc, e, w) && sit == At(Current(order, so, sc, copies), w)
                  && dit == At(copies, Target(e, Level(sc, e, w)))
    ensures CopyState(order, so, sc, copies, e, sn, sit, dit, w)
  {
    assert Unfold(COPY_STATE);
  }

  /** After the copy of node w: down to its first child or, if it has none, on behind it. */
  method GoOn(copy: XmlNode, sit0: XmlNode, dit0: XmlNode?, dn: XmlNode, sn: XmlNode,
              ghost order: seq<XmlNode>, ghost so: seq<XmlNode>, ghost sc: Scene,
              ghost copies: seq<XmlNode>, ghost e: Depths, ghost w: nat, ghost nx: nat)
    returns (sit: XmlNode?, dit: XmlNode?)
    requires Placed(order, so, sc, copies, e) && so[sc.s] == sn && nx == w + 1
    requires sc.s + |copies| <= |so| && Contents(copies) == Contents(so)[sc.s..sc.s + |copies|]
    requires Arrived(sc, e, w) && sit0 == At(Current(order, so, sc, copies), w) && copy == copies[|copies| - 1]
    requires dit0 == At(copies, Target(e, Level(sc, e, w)))
    ensures CopyState(order, so, sc, copies, e, sn, sit, dit, nx)
  {
    CopyContinues(sc, e, w, nx);
    CurrentLinked(order, so, sc, copies, e);
    LinksOfNode(Current(order, so, sc, copies), There(sc, e), w);
    if sit0.firstChild != null {
      sit, dit := sit0.firstChild, copy;
      CopyVisits(order, so, sc, copies, e, nx);
      StateOf(order, so, sc, copies, e, sn, sit, dit, nx);
    } else {
      ArrivedBelow(sc, e, w);
      sit, dit := Climb(sit0, dit0, sn, order, so, sc, copies, e, w, nx);
      StateOf(order, so, sc, copies, e, sn, sit, dit, nx);
    }
  }

  /** One round of the copying loop at a node of the original: it is copied, and the traversal goes on. */
  method CopyRound(sit0: XmlNode, dit0: XmlNode?, dn: XmlNode, sn: XmlNode,
                   ghost order: seq<XmlNode>, ghost so: seq<XmlNode>, ghost sc: Scene,
                   ghost copies0: seq<XmlNode>, ghost e0: Depths, ghost w0: nat)
    returns (sit: XmlNode?, dit: XmlNode?, ghost copies: seq<XmlNode>, ghost e: Depths, ghost w: nat)
    requires CopyState(order, so, sc, copies0, e0, sn, sit0, dit0, w0) && sit0 != sn && copies0[0] == dn && sit0 != dn
    requires order != []
    modifies Nodes(order)`firstChild, Nodes(order)`prevSiblingC, Nodes(order)`nextSibling
    modifies Nodes(copies0)`firstChild, Nodes(copies0)`prevSiblingC, Nodes(copies0)`nextSibling
    ensures CopyState(order, so, sc, copies, e, sn, sit, dit, w)
    ensures |copies| == |copies0| + 1 && copies0 <= copies && fresh(copies[|copies0|])
    ensures Contents(so) == old(Contents(so))
    ensures LiveIn(copies0, dn.document) ==> LiveIn(copies, dn.document)
    ensures order[0].prevSiblingC == old(order[0].prevSiblingC)
  {
    assert Unfold(COPY_STATE);
    CopyVisits(order, so, sc, copies0, e0, w0);
    var copy;
    copy, copies, e, w := CopyNode(dit0, sit0, dn, order, so, sc, copies0, e0, w0);
    ghost var nx := w + 1;
    sit, dit := GoOn(copy, sit0, dit0, dn, sn, order, so, sc, copies, e, w, nx);
    w := nx;
  }

  /** One round of the copying loop at the new node, whose subtree is not part of the original. */
  method SkipRound(dn: XmlNode, dit0: XmlNode?, sn: XmlNode,
                   ghost order: seq<XmlNode>, ghost so: seq<XmlNode>, ghost sc: Scene,
                   ghost copies: seq<XmlNode>, ghost e: Depths, ghost w0: nat)
    returns (sit: XmlNode?, dit: XmlNode?, ghost w: nat)
    requires CopyState(order, so, sc, copies, e, sn, dn, dit0, w0) && dn != sn && copies[0] == dn
    ensures CopyState(order, so, sc, copies, e, sn, sit, dit, w) && AtSlot(sc, w0) && !AtSlot(sc, w)
  {
    assert Unfold(COPY_STATE);
    CopyVisits(order, so, sc, copies, e, w0);
    CopySkips(sc, e);
    w := sc.q + |e|;
    sit, dit := Climb(dn, dit0, sn, order, so, sc, copies, e, sc.q, w);
  }

  lemma ArrivedBelow(sc: Scene, e: Depths, w: nat)
    requires Copying(sc, e) && Arrived(sc, e, w)
    ensures Origin(sc, |e|) < w && Target(e, Level(sc, e, w)) == Target(e, e[|e| - 1])
  {
    assert Unfold(ARRIVED);
  }

  /** The scene of a copy: a node has been linked in at a slot, and another tree, or a node of the same, is to be copied to it. */
  ghost predicate Staged(order: seq<XmlNode>, so: seq<XmlNode>, sc: Scene, dn: XmlNode, sn: XmlNode)
    reads order, so, dn
  {
    && |order| == |sc.d| && |so| == |sc.sd| && Slot(sc.d, sc.q, sc.b) && sc.s < |so| && so[sc.s] == sn
    && Linked(Splice(order, sc.q, [dn]), Graft(sc.d, sc.q, [0], sc.b))
    && (if sc.here then so == order && sc.sd == sc.d else Linked(so, sc.sd) && Foreign(so, order) && dn !in so)
  }

  /**
   node_copy_tree.  The empty node dn has been linked in at a slot, which may lie inside the subtree
   of the node to be copied.  Afterwards the subtree of dn has the shape and the contents the subtree
   of sn had then; a document copied from stays as it was, except for the copies if it is the same one.
   */
  method NodeCopyTree(dn: XmlNode, sn: XmlNode, ghost order: seq<XmlNode>, ghost so: seq<XmlNode>, ghost sc: Scene)
    returns (ghost copies: seq<XmlNode>)
    requires Staged(order, so, sc, dn, sn)
    requires dn.kind == sn.kind && dn.name == None && dn.value == None && dn.attributes == []
    modifies Nodes(order)`firstChild, Nodes(order)`prevSiblingC, Nodes(order)`nextSibling
    modifies dn`firstChild, dn`prevSiblingC, dn`nextSibling, dn`name, dn`value, dn`attributes
    ensures 0 < |copies| && copies[0] == dn && forall k :: 0 < k < |copies| ==> fresh(copies[k])
    ensures Linked(Splice(order, sc.q, copies), Graft(sc.d, sc.q, CutTree(sc.sd, sc.s), sc.b))
    ensures |copies| == End(sc.sd, sc.s) - sc.s && Contents(copies) == old(Contents(so)[sc.s..End(sc.sd, sc.s)])
    ensures Contents(so) == old(Contents(so)) && (!sc.here ==> Linked(so, sc.sd))
    ensures dn.document != null ==> LiveIn(copies, dn.document)
    ensures order[0].prevSiblingC == old(order[0].prevSiblingC)
  {
    ghost var e: Depths := [0];
    ghost var contents := Contents(so);
    copies := [dn];
    var dit: XmlNode? := dn;
    ghost var w: nat := Origin(sc, 1) + 1;
    var sit := BeginCopy(dn, sn, order, so, sc, w);
    while sit != null && sit != sn
      invariant CopyState(order, so, sc, copies, e, sn, sit, dit, w)
      invariant 0 < |copies| && copies[0] == dn && forall k :: 0 < k < |copies| ==> fresh(copies[k])
      invariant Contents(so) == contents
      invariant dn.document != null ==> LiveIn(copies, dn.document)
      invariant order[0].prevSiblingC == old(order[0].prevSiblingC)
      decreases End(sc.sd, sc.s) - sc.s - |copies|, if sit != sn && AtSlot(sc, w) then 1 else 0
    {
      if sit != dn {
        sit, dit, copies, e, w := CopyRound(sit, dit, dn, sn, order, so, sc, copies, e, w);
      } else {
        sit, dit, w := SkipRound(dn, dit, sn, order, so, sc, copies, e, w);
      }
    }
    CopyFinished(order, so, sc, copies, e, sn, sit, dit, w);
  }

  /** The contents of the new root, and where the traversal begins. */
  method BeginCopy(dn: XmlNode, sn: XmlNode, ghost order: seq<XmlNode>, ghost so: seq<XmlNode>, ghost sc: Scene, ghost w: nat)
    returns (sit: XmlNode?)
    requires Staged(order, so, sc, dn, sn) && w == Origin(sc, 1) + 1
    requires dn.kind == sn.kind && dn.name == None && dn.value == None && dn.attributes == []
    modifies dn`name, dn`value, dn`attributes
    ensures CopyState(order, so, sc, [dn], [0], sn, sit, dn, w) && sit != sn && order != []
    ensures Contents(so) == old(Contents(so))
  {
    NewIsOutside(order, so, sc, dn, sn);
    NodeCopyContents(dn, sn, Splice(order, sc.q, [dn]), Graft(sc.d, sc.q, [0], sc.b), [], so);
    sit := sn.firstChild;
    CopyStartState(order, so, sc, dn, sn, sit, w);
  }

  lemma NewIsOutside(order: seq<XmlNode>, so: seq<XmlNode>, sc: Scene, dn: XmlNode, sn: XmlNode)
    requires Staged(order, so, sc, dn, sn)
    ensures dn !in order && dn !in so && sn != dn
  {
    SpliceDistinct(order, sc.q, [dn]);
  }

  lemma CopyStartState(order: seq<XmlNode>, so: seq<XmlNode>, sc: Scene, dn: XmlNode, sn: XmlNode, sit: XmlNode?, w: nat)
    requires Staged(order, so, sc, dn, sn) && sit == sn.firstChild && dn !in so && w == Origin(sc, 1) + 1
    requires ContentOf(dn) == ContentOf(sn)
    ensures CopyState(order, so, sc, [dn], [0], sn, sit, dn, w) && sit != sn && order != []
  {
    assert Contents([dn]) == Contents(so)[sc.s..sc.s + 1];
    assert Placed(order, so, sc, [dn], [0]);
    CopyStarts(order, so, sc, dn, w);
  }

  lemma CopyStarts(order: seq<XmlNode>, so: seq<XmlNode>, sc: Scene, dn: XmlNode, w: nat)
    requires Placed(order, so, sc, [dn], [0]) && w == Origin(sc, 1) + 1
    ensures var all, sn := Current(order, so, sc, [dn]), so[sc.s];
            && sn.firstChild != sn
            && if sn.firstChild == null then [0] == CutTree(sc.sd, sc.s)
               else Visiting(sc, [0], w) && sn.firstChild == At(all, w) && Target([0], Level(sc, [0], w)) == 0
  {
    var all, r, o := Current(order, so, sc, [dn]), There(sc, [0]), Origin(sc, 1);
    CurrentLinked(order, so, sc, [dn], [0]);
    LinksOfNode(all, r, o);
    VisitStarts(sc, w);
    if w < |all| { Position(all, o, w); }
  }

  lemma VisitStarts(sc: Scene, w: nat)
    requires Copying(sc, [0]) && w == Origin(sc, 1) + 1
    ensures Origin(sc, 1) < |There(sc, [0])|
    ensures var c := FirstChild(There(sc, [0]), Origin(sc, 1));
            if c == -1 then [0] == CutTree(sc.sd, sc.s)
            else c == w && Visiting(sc, [0], w) && Target([0], Level(sc, [0], w)) == 0
  {
    var r, o := There(sc, [0]), Origin(sc, 1);
    CopyShape(sc, [0]);
    OriginEnd(sc, [0]);
    if sc.here { GraftFirstChild(sc.d, sc.q, [0], sc.b, r, sc.s); }
    NxtSpec(r, o + 1, r[o]);
    assert Unfold(VISITING);
  }

  lemma CopyFinished(order: seq<XmlNode>, so: seq<XmlNode>, sc: Scene, copies: seq<XmlNode>, e: Depths,
                     sn: XmlNode, sit: XmlNode?, dit: XmlNode?, w: nat)
    requires CopyState(order, so, sc, copies, e, sn, sit, dit, w) && (sit == null || sit == sn)
    ensures Linked(Splice(order, sc.q, copies), Graft(sc.d, sc.q, CutTree(sc.sd, sc.s), sc.b))
    ensures |copies| == End(sc.sd, sc.s) - sc.s && Contents(copies) == Contents(so)[sc.s..End(sc.sd, sc.s)]
    ensures !sc.here ==> Linked(so, sc.sd)
  {
    assert Unfold(COPY_STATE);
  }
}
