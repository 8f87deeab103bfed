/**
 Relational comparison of a boolean with a node set.  XPath 1.0 (section 3.4) converts the node set
 to a boolean first; compare_rel compares the boolean, as a number, with each of the nodes.
 */
module XPathRelations {
  import opened XPathData
  import opened XPathMeaning

  /** The comparison as section 3.4 defines it. */
  predicate AsDefined(op: Relation, b: bool, ns: seq<Ref>, nodeFirst: bool) {
    var nodes, value := if ns != [] then Fin(1.0) else Fin(0.0), if b then Fin(1.0) else Fin(0.0);
    if nodeFirst then NumHolds(op, nodes, value) else NumHolds(op, value, nodes)
  }

  predicate AsCoded(w: World, op: Relation, b: bool, ns: seq<Ref>, nodeFirst: bool) {
    if nodeFirst then Compared(w, op, Nodes(ns), Bool(b)) else Compared(w, op, Bool(b), Nodes(ns))
  }

  /** The number that the string value of a node stands for. */
  function NodeNumber(w: World, x: Ref): Num {
    ToNum(w, Str(StringValue(w.doc, x)))
  }

  /** Some node holds a number that compares with the bound. */
  predicate SomeAbove(w: World, op: Relation, bound: real, ns: seq<Ref>) {
    exists x :: x in ns && NumHolds(op, Fin(bound), NodeNumber(w, x))
  }

  predicate SomeBelow(w: World, op: Relation, bound: real, ns: seq<Ref>) {
    exists x :: x in ns && NumHolds(op, NodeNumber(w, x), Fin(bound))
  }

  /** When the code meets the definition. */
  predicate Agrees(w: World, op: Relation, b: bool, ns: seq<Ref>, nodeFirst: bool) {
    match (op, b)
    case (Less, true) => if nodeFirst then ns != [] && !SomeBelow(w, Less, 1.0, ns) else !SomeAbove(w, Less, 1.0, ns)
    case (Less, false) => if nodeFirst then !SomeBelow(w, Less, 0.0, ns) else ns == [] || SomeAbove(w, Less, 0.0, ns)
    case (LessOrEqual, true) =>
      if nodeFirst then SomeBelow(w, LessOrEqual, 1.0, ns) else ns == [] || SomeAbove(w, LessOrEqual, 1.0, ns)
    case (LessOrEqual, false) =>
      if nodeFirst then ns != [] && !SomeBelow(w, LessOrEqual, 0.0, ns) else SomeAbove(w, LessOrEqual, 0.0, ns)
    case _ => true
  }

  /** The code meets the definition exactly in these cases. */
  lemma BooleanAgainstNodes(w: World, op: Relation, b: bool, ns: seq<Ref>, nodeFirst: bool)
    requires !IsEquality(op)
    ensures AsCoded(w, op, b, ns, nodeFirst) == AsDefined(op, b, ns, nodeFirst) <==> Agrees(w, op, b, ns, nodeFirst)
  {
    var bound := if b then 1.0 else 0.0;
    if nodeFirst {
      BelowIsSome(w, op, b, bound, ns);
    } else {
      AboveIsSome(w, op, b, bound, ns);
    }
  }

  lemma AboveIsSome(w: World, op: Relation, b: bool, bound: real, ns: seq<Ref>)
    requires !IsEquality(op) && bound == if b then 1.0 else 0.0
    ensures Compared(w, op, Bool(b), Nodes(ns)) == SomeAbove(w, op, bound, ns)
  {
    forall x | x in ns ensures Against(w, op, Bool(b), x, false) == NumHolds(op, Fin(bound), NodeNumber(w, x)) {
    }
  }

  lemma BelowIsSome(w: World, op: Relation, b: bool, bound: real, ns: seq<Ref>)
    requires !IsEquality(op) && bound == if b then 1.0 else 0.0
    ensures Compared(w, op, Nodes(ns), Bool(b)) == SomeBelow(w, op, bound, ns)
  {
    forall x | x in ns ensures Against(w, op, Bool(b), x, true) == NumHolds(op, NodeNumber(w, x), Fin(bound)) {
    }
  }

  /** true() < a set whose only node holds the number 2: true in the code, false by the definition. */
  lemma TrueIsLessThanTwo(w: World, x: Ref)
    requires NodeNumber(w, x) == Fin(2.0)
    ensures AsCoded(w, Less, true, [x], false) && !AsDefined(Less, true, [x], false)
  {
    AboveIsSome(w, Less, true, 1.0, [x]);
    assert x in [x];
  }
}
