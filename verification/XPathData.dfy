/**
 What XPath expressions are about: nodes and attributes of a document, their order, the
 axes of section 2.2 of XPath 1.0, node tests, and the four types of value.
 */
module XPathData {
  import opened Basics
  import opened Shape
  import opened Dom
  import opened Sort

  /** A document by its shape and, in document order, the contents of its nodes. */
  datatype Doc = Doc(d: Depths, nodes: seq<Content>)

  ghost predicate ValidDoc(doc: Doc) {
    |doc.nodes| == |doc.d| && WellFormed(doc.d)
  }

  /** xpath_node: nothing, the node at position i, or attribute j of that node. */
  datatype Ref = Null | N(i: nat) | A(i: nat, j: nat)

  function Rank(x: Ref): int {
    match x
    case Null => -1
    case N(i) => i
    case A(i, _) => i
  }

  function Minor(x: Ref): int {
    match x
    case Null => 0
    case N(_) => 0
    case A(_, j) => j + 1
  }

  /** Document order: an attribute comes after its element and before the children of the element. */
  predicate Precedes(x: Ref, y: Ref) {
    Rank(x) < Rank(y) || (Rank(x) == Rank(y) && Minor(x) < Minor(y))
  }

  /** What document_order_comparator decides: document order, except that an attribute comes out as before itself. */
  predicate Comparator(l: Ref, r: Ref) {
    Precedes(l, r) || (l == r && l.A?)
  }

  predicate Follows(x: Ref, y: Ref) {
    Precedes(y, x)
  }

  ghost predicate InOrder(s: seq<Ref>) {
    StrictlySorted(Precedes, s)
  }

  lemma PrecedesIsTotal()
    ensures StrictTotal(Precedes)
  {
    forall x: Ref, y: Ref, z: Ref ensures Law(Precedes, x, y, z) {
      Distinguish(x, y);
    }
  }

  lemma Distinguish(x: Ref, y: Ref)
    ensures Rank(x) == Rank(y) && Minor(x) == Minor(y) ==> x == y
  {
  }

  datatype Axis = Ancestor | AncestorOrSelf | AttributeAxis | Child | Descendant | DescendantOrSelf | Following
                | FollowingSibling | Namespace | ParentAxis | Preceding | PrecedingSibling | Self

  predicate IsReverse(axis: Axis) {
    axis.Ancestor? || axis.AncestorOrSelf? || axis.Preceding? || axis.PrecedingSibling?
  }

  /** Node y is on the axis of node i. */
  predicate OnAxis(d: Depths, axis: Axis, i: nat, y: nat)
    requires i < |d| && y < |d|
  {
    match axis
    case Ancestor => y < i < End(d, y)
    case AncestorOrSelf => y <= i < End(d, y)
    case Child => Parent(d, y) == i
    case Descendant => i < y < End(d, i)
    case DescendantOrSelf => i <= y < End(d, i)
    case Following => End(d, i) <= y
    case FollowingSibling => i < y && Parent(d, y) == Parent(d, i)
    case ParentAxis => y == Parent(d, i)
    case Preceding => End(d, y) <= i
    case PrecedingSibling => y < i && Parent(d, y) == Parent(d, i)
    case Self => y == i
    case _ => false
  }

  /** Node y is on the axis of an attribute of node i. */
  predicate OnAttributeAxis(d: Depths, axis: Axis, i: nat, y: nat)
    requires i < |d| && y < |d|
  {
    match axis
    case Ancestor => y <= i < End(d, y)
    case AncestorOrSelf => y <= i < End(d, y)
    case ParentAxis => y == i
    case Following => i < y
    case Preceding => End(d, y) <= i
    case _ => false
  }

  predicate On(d: Depths, axis: Axis, x: Ref, y: nat) {
    match x
    case Null => false
    case N(i) => i < |d| && y < |d| && OnAxis(d, axis, i, y)
    case A(i, _) => i < |d| && y < |d| && OnAttributeAxis(d, axis, i, y)
  }

  /** The nodes from position k on that are on the axis of x, in document order. */
  function NodesOn(d: Depths, axis: Axis, x: Ref, k: nat): seq<Ref>
    decreases |d| - k
  {
    if k >= |d| then []
    else if On(d, axis, x, k) then [N(k)] + NodesOn(d, axis, x, k + 1)
    else NodesOn(d, axis, x, k + 1)
  }

  function AttributesOf(doc: Doc, i: nat): seq<Ref> {
    if i < |doc.nodes| then seq(|doc.nodes[i].attributes|, j requires 0 <= j => A(i, j)) else []
  }

  /** The axis of x as a set, listed in document order. */
  function AxisSet(doc: Doc, axis: Axis, x: Ref): seq<Ref> {
    match x
    case Null => []
    case N(i) => if axis == AttributeAxis then AttributesOf(doc, i) else NodesOn(doc.d, axis, x, 0)
    case A(_, _) =>
      NodesOn(doc.d, axis, x, 0) + if axis == AncestorOrSelf || axis == DescendantOrSelf || axis == Self then [x] else []
  }

  function Reversed<T>(s: seq<T>): (r: seq<T>)
    ensures |r| == |s|
    ensures forall k {:trigger r[k]} :: 0 <= k < |s| ==> r[k] == s[|s| - 1 - k]
  {
    seq(|s|, k requires 0 <= k < |s| => s[|s| - 1 - k])
  }

  /** The axis of x in the order in which positions are counted (section 2.4). */
  function AxisOrder(doc: Doc, axis: Axis, x: Ref): seq<Ref> {
    if IsReverse(axis) then Reversed(AxisSet(doc, axis, x)) else AxisSet(doc, axis, x)
  }

  datatype Test = NameIs(name: string) | AnyNode | CommentTest | PiTest | TextTest | PiNamed(name: string)
                | AnyPrincipal | InNamespace(prefix: string)

  predicate StartsWith(s: string, prefix: string) {
    prefix <= s
  }

  /** Namespace declarations are not attributes in XPath. */
  predicate IsXPathAttribute(name: string) {
    !(StartsWith(name, "xmlns") && (|name| == 5 || name[5] == ':'))
  }

  function NameOr(name: Option<string>): string {
    if name.Some? then name.value else ""
  }

  /** step_push for a node */
  predicate NodePasses(node: Content, test: Test) {
    match test
    case NameIs(n) => node.kind == Element && node.name == Some(n)
    case AnyNode => true
    case CommentTest => node.kind == Comment
    case PiTest => node.kind == Pi
    case TextTest => node.kind == Pcdata || node.kind == Cdata
    case PiNamed(n) => node.kind == Pi && node.name == Some(n)
    case AnyPrincipal => node.kind == Element
    case InNamespace(p) => node.kind == Element && node.name.Some? && StartsWith(node.name.value, p)
  }

  /** step_push for an attribute */
  predicate AttributePasses(a: Attribute, test: Test) {
    match test
    case NameIs(n) => NameOr(a.name) == n && IsXPathAttribute(NameOr(a.name))
    case AnyNode => IsXPathAttribute(NameOr(a.name))
    case AnyPrincipal => IsXPathAttribute(NameOr(a.name))
    case InNamespace(p) => StartsWith(NameOr(a.name), p) && IsXPathAttribute(NameOr(a.name))
    case _ => false
  }

  /** Attributes on any other axis than their own are of the wrong principal type for a name test. */
  predicate Passes(doc: Doc, axis: Axis, test: Test, x: Ref) {
    match x
    case Null => false
    case N(i) => i < |doc.nodes| && NodePasses(doc.nodes[i], test)
    case A(i, j) =>
      && i < |doc.nodes| && j < |doc.nodes[i].attributes|
      && (axis == AttributeAxis || test == AnyNode)
      && AttributePasses(doc.nodes[i].attributes[j], test)
  }

  /** What step_fill pushes of a list of candidates; with `once` it stops after the first. */
  function Selected(doc: Doc, axis: Axis, test: Test, list: seq<Ref>, once: bool): seq<Ref> {
    if list == [] then []
    else if !Passes(doc, axis, test, list[0]) then Selected(doc, axis, test, list[1..], once)
    else if once then [list[0]]
    else [list[0]] + Selected(doc, axis, test, list[1..], once)
  }

  /** The node test looks for an attribute of one name. */
  predicate NamesAttribute(axis: Axis, test: Test) {
    axis == AttributeAxis && test.NameIs?
  }

  /** One step from one context node; of the attributes of one name, the first. */
  function StepFrom(doc: Doc, axis: Axis, test: Test, x: Ref): seq<Ref> {
    Selected(doc, axis, test, AxisOrder(doc, axis, x), NamesAttribute(axis, test))
  }

  /** The step as section 2.1 of XPath 1.0 has it: all nodes on the axis that pass the test. */
  function StandardStep(doc: Doc, axis: Axis, test: Test, x: Ref): seq<Ref> {
    Selected(doc, axis, test, AxisOrder(doc, axis, x), false)
  }

  // Values and their conversions (sections 4.2 to 4.4 of XPath 1.0).

  /** A double; zero has no sign here. */
  datatype Num = NaN | NegInf | PosInf | Fin(r: real)

  datatype Relation = Equal | NotEqual | Less | LessOrEqual

  predicate NumEqual(a: Num, b: Num) {
    a == b && a != NaN
  }

  predicate NumLess(a: Num, b: Num) {
    match (a, b)
    case (NaN, _) => false
    case (_, NaN) => false
    case (Fin(x), Fin(y)) => x < y
    case (NegInf, _) => b != NegInf
    case (_, PosInf) => a != PosInf
    case _ => false
  }

  predicate NumHolds(op: Relation, a: Num, b: Num) {
    match op
    case Equal => NumEqual(a, b)
    case NotEqual => !NumEqual(a, b)
    case Less => NumLess(a, b)
    case LessOrEqual => NumLess(a, b) || NumEqual(a, b)
  }

  predicate NumTruth(n: Num) {
    n != NaN && n != Fin(0.0)
  }

  /** The text of the nodes from i up to j. */
  function TextBetween(nodes: seq<Content>, i: nat, j: nat): string
    decreases j - i
  {
    if i >= j || i >= |nodes| then ""
    else (if nodes[i].kind == Pcdata || nodes[i].kind == Cdata then NameOr(nodes[i].value) else "") + TextBetween(nodes, i + 1, j)
  }

  /** string_value */
  function StringValue(doc: Doc, x: Ref): string {
    match x
    case Null => ""
    case A(i, j) => if i < |doc.nodes| && j < |doc.nodes[i].attributes| then NameOr(doc.nodes[i].attributes[j].value) else ""
    case N(i) =>
      if i >= |doc.nodes| || i >= |doc.d| then ""
      else
        var node := doc.nodes[i];
        match node.kind
        case Pcdata => NameOr(node.value)
        case Cdata => NameOr(node.value)
        case Comment => NameOr(node.value)
        case Pi => NameOr(node.value)
        case Document => NameOr(node.value) + TextBetween(doc.nodes, i + 1, End(doc.d, i))
        case Element => NameOr(node.value) + TextBetween(doc.nodes, i + 1, End(doc.d, i))
        case _ => ""
  }

  // Lists in document order, and in reverse.

  lemma Prepended<T>(less: (T, T) -> bool, x: T, s: seq<T>)
    requires StrictlySorted(less, s) && forall k :: 0 <= k < |s| ==> less(x, s[k])
    ensures StrictlySorted(less, [x] + s)
  {
    forall i, k | 0 <= i < k < |s| + 1 ensures Before(less, [x] + s, i, k) {
      if 0 < i { assert Before(less, s, i - 1, k - 1); }
    }
  }

  lemma Rest<T>(less: (T, T) -> bool, s: seq<T>)
    requires StrictlySorted(less, s) && 0 < |s|
    ensures StrictlySorted(less, s[1..]) && forall k :: 0 <= k < |s| - 1 ==> less(s[0], s[1..][k])
  {
    forall i, k | 0 <= i < k < |s| - 1 ensures Before(less, s[1..], i, k) {
      assert Before(less, s, i + 1, k + 1);
    }
    forall k | 0 <= k < |s| - 1 ensures less(s[0], s[1..][k]) {
      assert Before(less, s, 0, k + 1);
    }
  }

  /** Two lists in document order with the same elements are the same. */
  lemma {:induction false} SameElements(s: seq<Ref>, t: seq<Ref>)
    requires InOrder(s) && InOrder(t) && forall x :: x in s <==> x in t
    ensures s == t
  {
    assert 0 < |t| ==> t[0] in t;
    if s != [] {
      assert s[0] in t;
      FirstIsLeast(s, t);
      FirstIsLeast(t, s);
      Rest(Precedes, s);
      Rest(Precedes, t);
      forall x ensures x in s[1..] <==> x in t[1..] {
        InRest(s, x);
        InRest(t, x);
      }
      SameElements(s[1..], t[1..]);
    }
  }

  lemma InRest(s: seq<Ref>, x: Ref)
    requires InOrder(s) && 0 < |s|
    ensures x in s[1..] <==> x in s && x != s[0]
  {
    Rest(Precedes, s);
    assert s == [s[0]] + s[1..];
  }

  lemma FirstIsLeast(s: seq<Ref>, t: seq<Ref>)
    requires InOrder(s) && InOrder(t) && 0 < |s| && 0 < |t| && forall x :: x in s <==> x in t
    ensures s[0] == t[0] || Precedes(t[0], s[0])
  {
    assert s[0] in t;
    var k :| 0 <= k < |t| && t[k] == s[0];
    if 0 < k { assert Before(Precedes, t, 0, k); }
  }

  lemma {:induction false} NodesOnSpec(d: Depths, axis: Axis, x: Ref, k: nat)
    ensures StrictlySorted(Precedes, NodesOn(d, axis, x, k))
    ensures forall z :: z in NodesOn(d, axis, x, k) <==> z.N? && k <= z.i < |d| && On(d, axis, x, z.i)
    decreases |d| - k
  {
    if k < |d| {
      NodesOnSpec(d, axis, x, k + 1);
      var r := NodesOn(d, axis, x, k + 1);
      assert forall i :: 0 <= i < |r| ==> r[i] in r;
      Prepended(Precedes, N(k), r);
      if On(d, axis, x, k) { assert forall z :: z in [N(k)] + r <==> z == N(k) || z in r; }
    }
  }

  /** Every axis lists its nodes in document order. */
  lemma AxisInOrder(doc: Doc, axis: Axis, x: Ref)
    ensures InOrder(AxisSet(doc, axis, x))
    ensures IsReverse(axis) ==> StrictlySorted(Follows, AxisOrder(doc, axis, x))
  {
    var r, s := AxisSet(doc, axis, x), NodesOn(doc.d, axis, x, 0);
    NodesOnSpec(doc.d, axis, x, 0);
    forall i, k | 0 <= i < k < |r| ensures Before(Precedes, r, i, k) {
      if !(x.N? && axis == AttributeAxis) {
        assert s[i] in s;
        if k < |s| { assert Before(Precedes, s, i, k); }
      }
    }
    ReversedOrder(r);
  }

  lemma ReversedOrder(r: seq<Ref>)
    requires InOrder(r)
    ensures StrictlySorted(Follows, Reversed(r))
  {
    var t := Reversed(r);
    forall i, k | 0 <= i < k < |t| ensures Before(Follows, t, i, k) {
      assert Before(Precedes, r, |r| - 1 - k, |r| - 1 - i);
    }
  }

  /** Selecting keeps exactly what passes the test; `once` stops after the first. */
  lemma {:induction false} SelectedSpec(doc: Doc, axis: Axis, test: Test, list: seq<Ref>)
    ensures var r := Selected(doc, axis, test, list, false);
            && (forall x :: x in r <==> x in list && Passes(doc, axis, test, x))
            && Selected(doc, axis, test, list, true) == r[..if r == [] then 0 else 1]
  {
    if list != [] {
      SelectedSpec(doc, axis, test, list[1..]);
      assert list == [list[0]] + list[1..];
    }
  }

  /** Selecting keeps the order. */
  lemma {:induction false} SelectedOrder(doc: Doc, axis: Axis, test: Test, list: seq<Ref>, less: (Ref, Ref) -> bool)
    requires StrictlySorted(less, list)
    ensures StrictlySorted(less, Selected(doc, axis, test, list, false))
  {
    if list != [] {
      var r := Selected(doc, axis, test, list[1..], false);
      Rest(less, list);
      SelectedOrder(doc, axis, test, list[1..], less);
      SelectedSpec(doc, axis, test, list[1..]);
      assert forall k :: 0 <= k < |r| ==> r[k] in list[1..];
      Prepended(less, list[0], r);
    }
  }

  predicate Differ(x: Ref, y: Ref) {
    x != y
  }

  ghost predicate NoRepeats(s: seq<Ref>) {
    StrictlySorted(Differ, s)
  }

  lemma OrderedNoRepeats(s: seq<Ref>)
    requires InOrder(s) || StrictlySorted(Follows, s)
    ensures NoRepeats(s)
  {
    forall i, k | 0 <= i < k < |s| ensures Before(Differ, s, i, k) {
      if InOrder(s) { assert Before(Precedes, s, i, k); } else { assert Before(Follows, s, i, k); }
    }
  }
}
