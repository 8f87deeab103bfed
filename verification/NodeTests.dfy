/**
 What the steps of XPath select, said about the nodes themselves: their type, their name and their place.
 Sections 2.2, 2.3 and 5 of XPath 1.0.
 */
module NodeTests {
  import opened Basics
  import opened Shape
  import opened Dom
  import Sort
  import opened XPathData
  import opened XPathMeaning
  import opened XPathSets
  import opened XPathEval
  import XPathOptimize
  import Axes
  import StepFill

  /** Of the nodes on any axis but that of attributes, exactly these pass each test of names... */
  lemma NamedNodes(doc: Doc, axis: Axis, x: Ref, i: nat, name: string)
    requires axis != AttributeAxis && N(i) in AxisSet(doc, axis, x) && i < |doc.nodes|
    ensures var node := doc.nodes[i];
            && (N(i) in StepFrom(doc, axis, NameIs(name), x) <==> node.kind == Element && node.name == Some(name))
            && (N(i) in StepFrom(doc, axis, AnyPrincipal, x) <==> node.kind == Element)
            && (N(i) in StepFrom(doc, axis, InNamespace(name), x) <==>
                  node.kind == Element && node.name.Some? && |name| <= |node.name.value| && node.name.value[..|name|] == name)
            && (N(i) in StepFrom(doc, axis, PiNamed(name), x) <==> node.kind == Pi && node.name == Some(name))
  {
    StepFromSpec(doc, axis, NameIs(name), x);
    StepFromSpec(doc, axis, AnyPrincipal, x);
    StepFromSpec(doc, axis, InNamespace(name), x);
    StepFromSpec(doc, axis, PiNamed(name), x);
  }

  /** ... and of types. */
  lemma TypedNodes(doc: Doc, axis: Axis, x: Ref, i: nat)
    requires axis != AttributeAxis && N(i) in AxisSet(doc, axis, x) && i < |doc.nodes|
    ensures var kind := doc.nodes[i].kind;
            && (N(i) in StepFrom(doc, axis, TextTest, x) <==> kind in {Pcdata, Cdata})
            && (N(i) in StepFrom(doc, axis, CommentTest, x) <==> kind == Comment)
            && (N(i) in StepFrom(doc, axis, PiTest, x) <==> kind == Pi)
            && N(i) in StepFrom(doc, axis, AnyNode, x)
  {
    StepFromSpec(doc, axis, TextTest, x);
    StepFromSpec(doc, axis, CommentTest, x);
    StepFromSpec(doc, axis, PiTest, x);
    StepFromSpec(doc, axis, AnyNode, x);
  }

  /** Nothing else is selected. */
  lemma OnlyFromAxis(doc: Doc, axis: Axis, test: Test, x: Ref, y: Ref)
    requires y in StepFrom(doc, axis, test, x)
    ensures y in AxisSet(doc, axis, x) && !y.Null?
    ensures y.N? ==> y.i < |doc.nodes|
    ensures y.A? ==> y.i < |doc.nodes| && y.j < |doc.nodes[y.i].attributes|
  {
    StepFromSpec(doc, axis, test, x);
  }

  /** A namespace declaration: xmlns, or xmlns and a prefix. */
  predicate Declares(name: string) {
    name == "xmlns" || (6 <= |name| && name[..6] == "xmlns:")
  }

  function AttributeName(doc: Doc, i: nat, j: nat): string
    requires i < |doc.nodes| && j < |doc.nodes[i].attributes|
  {
    var a := doc.nodes[i].attributes[j];
    if a.name.Some? then a.name.value else ""
  }

  /** Of the attributes of an element, exactly these pass each node test; of those with the name asked for, the first. */
  lemma SelectedAttributes(doc: Doc, i: nat, j: nat, name: string)
    requires i < |doc.nodes| && j < |doc.nodes[i].attributes|
    ensures var own := AttributeName(doc, i, j);
            && (A(i, j) in StepFrom(doc, AttributeAxis, NameIs(name), N(i)) <==>
                  own == name && !Declares(name) && forall k :: 0 <= k < j ==> AttributeName(doc, i, k) != name)
            && (A(i, j) in StepFrom(doc, AttributeAxis, AnyPrincipal, N(i)) <==> !Declares(own))
            && (A(i, j) in StepFrom(doc, AttributeAxis, AnyNode, N(i)) <==> !Declares(own))
            && (A(i, j) in StepFrom(doc, AttributeAxis, InNamespace(name), N(i)) <==>
                  |name| <= |own| && own[..|name|] == name && !Declares(own))
            && A(i, j) !in StepFrom(doc, AttributeAxis, TextTest, N(i))
            && A(i, j) !in StepFrom(doc, AttributeAxis, CommentTest, N(i))
            && A(i, j) !in StepFrom(doc, AttributeAxis, PiTest, N(i))
            && A(i, j) !in StepFrom(doc, AttributeAxis, PiNamed(name), N(i))
  {
    assert AttributesOf(doc, i)[j] == A(i, j);
    DeclarationCodes(AttributeName(doc, i, j));
    StepFromSpec(doc, AttributeAxis, AnyPrincipal, N(i));
    StepFromSpec(doc, AttributeAxis, AnyNode, N(i));
    StepFromSpec(doc, AttributeAxis, InNamespace(name), N(i));
    StepFromSpec(doc, AttributeAxis, TextTest, N(i));
    StepFromSpec(doc, AttributeAxis, CommentTest, N(i));
    StepFromSpec(doc, AttributeAxis, PiTest, N(i));
    StepFromSpec(doc, AttributeAxis, PiNamed(name), N(i));
    FirstOfName(doc, i, j, name);
  }

  lemma DeclarationCodes(name: string)
    ensures IsXPathAttribute(name) <==> !Declares(name)
  {
    if |name| >= 6 {
      assert name[..6] == name[..5] + [name[5]];
    }
  }

  lemma FirstOfName(doc: Doc, i: nat, j: nat, name: string)
    requires i < |doc.nodes| && j < |doc.nodes[i].attributes|
    ensures A(i, j) in StepFrom(doc, AttributeAxis, NameIs(name), N(i)) <==>
            AttributeName(doc, i, j) == name && !Declares(name) && forall k :: 0 <= k < j ==> AttributeName(doc, i, k) != name
  {
    var list := AttributesOf(doc, i);
    DeclarationCodes(name);
    forall k | 0 <= k < |list|
      ensures Passes(doc, AttributeAxis, NameIs(name), list[k]) <==> AttributeName(doc, i, k) == name && !Declares(name)
    {
      assert list[k] == A(i, k);
    }
    var m := FirstPassing(doc, AttributeAxis, NameIs(name), list);
    assert list[j] == A(i, j);
    if m < |list| { assert list[m] == A(i, m); }
  }

  /** What a step that stops early selects. */
  lemma {:induction false} FirstPassing(doc: Doc, axis: Axis, test: Test, list: seq<Ref>) returns (m: nat)
    ensures m <= |list| && forall k :: 0 <= k < m ==> !Passes(doc, axis, test, list[k])
    ensures if m < |list| then Passes(doc, axis, test, list[m]) && Selected(doc, axis, test, list, true) == [list[m]]
            else Selected(doc, axis, test, list, true) == []
  {
    if list == [] || Passes(doc, axis, test, list[0]) {
      return 0;
    }
    m := FirstPassing(doc, axis, test, list[1..]);
    m := m + 1;
  }

  /** Attributes are selected on other axes by node() only. */
  lemma OtherAttributes(doc: Doc, axis: Axis, test: Test, x: Ref, i: nat, j: nat)
    requires axis != AttributeAxis && A(i, j) in StepFrom(doc, axis, test, x)
    ensures x == A(i, j) && test == AnyNode && axis in {Self, AncestorOrSelf, DescendantOrSelf}
  {
    StepFromSpec(doc, axis, test, x);
    NodesOnSpec(doc.d, axis, x, 0);
  }

  /** The same on the heap: the buffer of a step holds a node exactly if the step on the document as a value selects it. */
  lemma PushedNodes(order: seq<XmlNode>, d: Depths, axis: Axis, test: Test, x: Ref, i: nat)
    requires Linked(order, d) && i < |order| && axis != AttributeAxis
    ensures StepFill.XPathNode(order[i], None) in StepFill.Step(order, d, axis, test, false, x)
            <==> N(i) in StepFrom(Axes.DocOf(order, d), axis, test, x)
  {
    var doc := Axes.DocOf(order, d);
    var refs := StandardStep(doc, axis, test, x);
    var pushed := StepFill.NodesOf(order, refs);
    StepFromSpec(doc, axis, test, x);
    if N(i) in refs {
      var k :| 0 <= k < |refs| && refs[k] == N(i);
      assert pushed[k] == StepFill.XPathNode(order[i], None);
    }
    if StepFill.XPathNode(order[i], None) in pushed {
      var k :| 0 <= k < |pushed| && pushed[k] == StepFill.XPathNode(order[i], None);
      assert refs[k] in refs;
      OnlyFromAxis(doc, axis, test, x, refs[k]);
      Position(order, i, refs[k].i);
    }
  }

  /** child::name from an element: the first child element of that name. */
  method FirstChildNamed(w: World, i: nat, name: string) returns (r: Ref)
    requires ValidWorld(w) && i < |w.doc.d| && name != ""
    ensures r.Null? <==> forall k :: 0 <= k < |w.doc.d| ==> !IsChildNamed(w.doc, i, name, k)
    ensures !r.Null? ==> r.N? && IsChildNamed(w.doc, i, name, r.i) && forall k :: 0 <= k < r.i ==> !IsChildNamed(w.doc, i, name, k)
  {
    var e := Step(Here, Child, NameIs(name), NoPred);
    r := EvaluateNode(w, e, N(i));
    ghost var s := SetOf(Meaning(w, e, Context(N(i), 1, 1)));
    ChildrenNamed(w, i, name, e, s);
    FirstAmong(w.doc, i, name, s);
  }

  lemma ChildrenNamed(w: World, i: nat, name: string, e: Expr, s: seq<Ref>)
    requires ValidDoc(w.doc) && i < |w.doc.d| && e == Step(Here, Child, NameIs(name), NoPred)
    requires s == SetOf(Meaning(w, e, Context(N(i), 1, 1)))
    ensures InOrder(s) && forall y :: y in s <==> y.N? && IsChildNamed(w.doc, i, name, y.i)
  {
    XPathOptimize.NamedAttributes(w, e, Context(N(i), 1, 1));
    forall y ensures y in s <==> y.N? && IsChildNamed(w.doc, i, name, y.i) {
      ChildIs(w.doc, i, name, y);
    }
    var con := Contribution(w, Child, NameIs(name), NoPred);
    AsSetSpec(Gather(con, SetOf(Meaning(w, Here, Context(N(i), 1, 1)))));
  }

  lemma FirstAmong(doc: Doc, i: nat, name: string, s: seq<Ref>)
    requires InOrder(s) && forall y :: y in s <==> y.N? && IsChildNamed(doc, i, name, y.i)
    ensures var r := First(s);
            && (r.Null? <==> forall k :: 0 <= k < |doc.d| ==> !IsChildNamed(doc, i, name, k))
            && (!r.Null? ==> r.N? && IsChildNamed(doc, i, name, r.i) && forall k :: 0 <= k < r.i ==> !IsChildNamed(doc, i, name, k))
  {
    forall k: nat | IsChildNamed(doc, i, name, k) ensures N(k) in s {
    }
    if s != [] {
      LeastOf(s);
      assert s[0] in s;
    }
  }

  predicate IsChildNamed(doc: Doc, i: nat, name: string, k: nat) {
    && k < |doc.d| && k < |doc.nodes| && Parent(doc.d, k) == i
    && doc.nodes[k].kind == Element && doc.nodes[k].name == Some(name)
  }

  lemma ChildIs(doc: Doc, i: nat, name: string, y: Ref)
    requires ValidDoc(doc) && i < |doc.d|
    ensures y in StepFrom(doc, Child, NameIs(name), N(i)) <==> y.N? && IsChildNamed(doc, i, name, y.i)
  {
    NodesOnSpec(doc.d, Child, N(i), 0);
    if y in StepFrom(doc, Child, NameIs(name), N(i)) { OnlyFromAxis(doc, Child, NameIs(name), N(i), y); }
    if y in AxisSet(doc, Child, N(i)) { NamedNodes(doc, Child, N(i), y.i, name); }
  }

  lemma LeastOf(s: seq<Ref>)
    requires InOrder(s) && s != []
    ensures forall x :: x in s ==> x == s[0] || Precedes(s[0], x)
  {
    forall x | x in s ensures x == s[0] || Precedes(s[0], x) {
      var k :| 0 <= k < |s| && s[k] == x;
      if 0 < k { assert Sort.Before(Precedes, s, 0, k); }
    }
  }
}
