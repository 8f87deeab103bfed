/**
 The evaluator: it works on unordered buffers with a tag that says how they are sorted, cuts
 evaluation short where only the first or any node is wanted, and takes shortcuts for the
 predicates the optimizer has tagged.  Every result is tied to `Meaning`.
 */
module XPathEval {
  import opened Guard
  import opened Shape
  import opened Dom
  import opened Sort
  import opened XPathData
  import opened XPathMeaning
  import opened XPathSets

  // Predicates

  lemma JudgeIs(w: World, pred: Expr, x: Ref, p: nat, n: nat)
    ensures Judge(w, pred)(x, p, n) == Holds(w, pred, Context(x, p, n))
  {
  }

  lemma JudgePosInv(w: World, pred: Expr)
    requires WellTyped(pred) && TagOk(PosInv, pred)
    ensures forall x, p, n :: Judge(w, pred)(x, p, n) == Judge(w, pred)(x, 1, 1)
  {
    forall x: Ref, p: nat, n: nat ensures Judge(w, pred)(x, p, n) == Judge(w, pred)(x, 1, 1) {
      PosInvMeaning(w, pred, Context(x, p, n), Context(x, 1, 1));
    }
  }

  lemma JudgeOne(w: World, list: seq<Ref>)
    ensures Keep(Judge(w, Number(Fin(1.0))), list, 0) == list[..if list == [] then 0 else 1]
  {
    KeepAt(Judge(w, Number(Fin(1.0))), list, 1, 0);
  }

  lemma KeepAllNothing(w: World, preds: Preds)
    ensures KeepAll(w, preds, []) == []
  {
    KeepAllOrder(w, preds, [], Differ);
    Inhabited(KeepAll(w, preds, []));
  }

  method TestBoolean(w: World, pred: Expr, x: Ref, position: nat, size: nat) returns (b: bool)
    requires Ready(w, pred) && KindOf(pred) != NumKind
    ensures b == Judge(w, pred)(x, position, size)
    decreases pred, 8, 0
  {
    b := EvalBool(w, pred, Context(x, position, size));
    JudgeIs(w, pred, x, position, size);
  }

  method TestNumber(w: World, pred: Expr, x: Ref, position: nat, size: nat) returns (b: bool)
    requires Ready(w, pred) && KindOf(pred) == NumKind
    ensures b == Judge(w, pred)(x, position, size)
    decreases pred, 8, 0
  {
    var n := EvalNum(w, pred, Context(x, position, size));
    JudgeIs(w, pred, x, position, size);
    b := NumEqual(n, FromSize(position));
  }

  /** apply_predicate_boolean: the survivors are moved to the front in place. */
  method ApplyPredicateBoolean(w: World, pred: Expr, ns0: seq<Ref>, first: nat, once: bool) returns (ns: seq<Ref>)
    requires Ready(w, pred) && first <= |ns0| && KindOf(pred) != NumKind
    ensures Applied(Judge(w, pred), ns0, first, once, ns)
    decreases pred, 8
  {
    ghost var judge := Judge(w, pred);
    ns := ns0;
    var i, size, last, it := 1, |ns| - first, first, first;
    FilteringStart(judge, ns0, first, once);
    while it != |ns|
      invariant first <= last <= it <= |ns| == |ns0| && i == it - first + 1
      invariant Filtering(judge, ns0, first, ns, last, it, once)
    {
      var b := TestBoolean(w, pred, ns[it], i, size);
      ns, last, it := Sift(judge, ns0, first, ns, last, it, once, b, i, size);
      if once && b {
        return ns[..last];
      }
      i := i + 1;
    }
    FilteringEnd(judge, ns0, first, ns, last, once);
    ns := ns[..last];
  }

  /** apply_predicate_number */
  method ApplyPredicateNumber(w: World, pred: Expr, ns0: seq<Ref>, first: nat, once: bool) returns (ns: seq<Ref>)
    requires Ready(w, pred) && first <= |ns0| && KindOf(pred) == NumKind
    ensures Applied(Judge(w, pred), ns0, first, once, ns)
    decreases pred, 8
  {
    ghost var judge := Judge(w, pred);
    ns := ns0;
    var i, size, last, it := 1, |ns| - first, first, first;
    FilteringStart(judge, ns0, first, once);
    while it != |ns|
      invariant first <= last <= it <= |ns| == |ns0| && i == it - first + 1
      invariant Filtering(judge, ns0, first, ns, last, it, once)
    {
      var b := TestNumber(w, pred, ns[it], i, size);
      ns, last, it := Sift(judge, ns0, first, ns, last, it, once, b, i, size);
      if once && b {
        return ns[..last];
      }
      i := i + 1;
    }
    FilteringEnd(judge, ns0, first, ns, last, once);
    ns := ns[..last];
  }

  lemma ConstantMeaning(w: World, pred: Expr, c: Context, c': Context)
    requires TagOk(Constant, pred) && c.size == c'.size
    ensures Meaning(w, pred, c) == Meaning(w, pred, c')
  {
  }

  /** apply_predicate_number_const: the position is computed once, without a context node. */
  method ApplyPredicateNumberConst(w: World, pred: Expr, ns: seq<Ref>, first: nat, ghost once: bool) returns (r: seq<Ref>)
    requires Ready(w, pred) && first <= |ns| && TagOk(Constant, pred)
    ensures Applied(Judge(w, pred), ns, first, once, r)
    decreases pred, 8
  {
    var size := |ns| - first;
    var er := EvalNum(w, pred, Context(Null, 1, size));
    ghost var block, m := ns[first..], 0;
    forall x: Ref, p: nat ensures Judge(w, pred)(x, p, size) == NumEqual(er, FromSize(p)) {
      JudgeIs(w, pred, x, p, size);
      ConstantMeaning(w, pred, Context(Null, 1, size), Context(x, p, size));
    }
    r := ns[..first];
    if er.Fin? && 1.0 <= er.r && er.r <= size as real {
      var eri := er.r.Floor;
      if er.r == eri as real {
        m := eri;
        r := r + [ns[first + eri - 1]];
      }
    }
    KeepAt(Judge(w, pred), block, m, 0);
    assert Unfold(APPLIED);
  }

  /** apply_predicate */
  method ApplyPredicate(w: World, pred: Expr, tag: Tag, ns: seq<Ref>, first: nat, once: bool) returns (r: seq<Ref>)
    requires Ready(w, pred) && TagOk(tag, pred) && first <= |ns|
    ensures Applied(Judge(w, pred), ns, first, once, r)
    decreases pred, 9
  {
    if |ns| == first {
      return ns;
    }
    if tag == Constant || tag == ConstantOne {
      r := ApplyPredicateNumberConst(w, pred, ns, first, once);
    } else if KindOf(pred) == NumKind {
      r := ApplyPredicateNumber(w, pred, ns, first, once);
    } else {
      r := ApplyPredicateBoolean(w, pred, ns, first, once);
    }
  }

  /** apply_predicates */
  method ApplyPredicates(w: World, preds: Preds, ns: seq<Ref>, first: nat, order: Order, mode: Mode)
    returns (r: seq<Ref>, ghost once: bool)
    requires ValidWorld(w) && PredsTyped(preds) && PredTagsOk(preds) && preds.Pred? && first <= |ns|
    ensures r == ns[..first] + Cut(KeepAll(w, preds, ns[first..]), once)
    ensures once ==> EvalOnce(order, mode)
    decreases preds, 1
  {
    once := false;
    if |ns| == first {
      KeepAllNothing(w, preds);
      return ns, false;
    }
    var lastOnce := EvalOnce(order, mode);
    ghost var all := KeepAll(w, preds, ns[first..]);
    var cur := preds;
    r := ns;
    while cur.Pred?
      invariant cur == preds || cur < preds
      invariant PredsTyped(cur) && PredTagsOk(cur)
      invariant first <= |r| && r[..first] == ns[..first]
      invariant if cur.Pred? then KeepAll(w, cur, r[first..]) == all else r[first..] == Cut(all, once)
      invariant once ==> lastOnce
      decreases cur
    {
      once := cur.next.NoPred? && lastOnce;
      ghost var was := r;
      r := ApplyPredicate(w, cur.expr, cur.tag, r, first, cur.next.NoPred? && lastOnce);
      assert r[..first] == was[..first] && r[first..] == Cut(Keep(Judge(w, cur.expr), was[first..], 0), once) by {
        assert Unfold(APPLIED);
      }
      cur := cur.next;
    }
    assert r == r[..first] + r[first..];
  }

  // Steps

  /** step_fill, over the axis as a list: pushes what passes the node test, in axis order; with `once` only the first. */
  method PushSelected(w: World, axis: Axis, test: Test, ns0: seq<Ref>, x: Ref, once: bool) returns (ns: seq<Ref>)
    ensures ns == ns0 + Selected(w.doc, axis, test, AxisOrder(w.doc, axis, x), once)
  {
    var list := AxisOrder(w.doc, axis, x);
    ns := ns0;
    for k := 0 to |list|
      invariant ns + Selected(w.doc, axis, test, list[k..], once) == ns0 + Selected(w.doc, axis, test, list, once)
    {
      assert list[k..][0] == list[k] && list[k..][1..] == list[k + 1..];
      if Passes(w.doc, axis, test, list[k]) {
        ns := ns + [list[k]];
        if once {
          return;
        }
      }
    }
  }

  lemma StandardSpec(doc: Doc, axis: Axis, test: Test, x: Ref)
    ensures NoRepeats(StandardStep(doc, axis, test, x))
    ensures Tagged(AxisType(axis), StandardStep(doc, axis, test, x))
    ensures forall y :: y in StandardStep(doc, axis, test, x) <==> y in AxisSet(doc, axis, x) && Passes(doc, axis, test, y)
    ensures var r := StandardStep(doc, axis, test, x);
            Selected(doc, axis, test, AxisOrder(doc, axis, x), true) == r[..if r == [] then 0 else 1]
  {
    var list := AxisOrder(doc, axis, x);
    AxisInOrder(doc, axis, x);
    SelectedSpec(doc, axis, test, list);
    if IsReverse(axis) {
      SelectedOrder(doc, axis, test, list, Follows);
      forall y ensures y in list <==> y in AxisSet(doc, axis, x) {
        var s := AxisSet(doc, axis, x);
        if y in s {
          var k :| 0 <= k < |s| && s[k] == y;
          assert list[|s| - 1 - k] == y;
        }
      }
    } else {
      SelectedOrder(doc, axis, test, list, Precedes);
    }
    OrderedNoRepeats(StandardStep(doc, axis, test, x));
  }

  lemma StepFromSpec(doc: Doc, axis: Axis, test: Test, x: Ref)
    ensures NoRepeats(StepFrom(doc, axis, test, x))
    ensures Tagged(AxisType(axis), StepFrom(doc, axis, test, x))
    ensures forall y :: y in StepFrom(doc, axis, test, x) ==> y in AxisSet(doc, axis, x) && Passes(doc, axis, test, y)
    ensures !NamesAttribute(axis, test) ==> StepFrom(doc, axis, test, x) == StandardStep(doc, axis, test, x)
    ensures !NamesAttribute(axis, test) ==>
              forall y :: y in AxisSet(doc, axis, x) && Passes(doc, axis, test, y) ==> y in StepFrom(doc, axis, test, x)
    ensures var r := StepFrom(doc, axis, test, x);
            Selected(doc, axis, test, AxisOrder(doc, axis, x), true) == r[..if r == [] then 0 else 1]
  {
    StandardSpec(doc, axis, test, x);
  }

  lemma ContributionIs(w: World, axis: Axis, test: Test, preds: Preds, x: Ref)
    ensures Contribution(w, axis, test, preds)(x) == KeepAll(w, preds, StepFrom(w.doc, axis, test, x))
    ensures preds.NoPred? ==> Contribution(w, axis, test, preds)(x) == StepFrom(w.doc, axis, test, x)
  {
  }

  /** What a context node contributes comes in axis order and passes the node test. */
  lemma ContributionSpec(w: World, axis: Axis, test: Test, preds: Preds, x: Ref)
    ensures var r := Contribution(w, axis, test, preds)(x);
            && NoRepeats(r) && Tagged(AxisType(axis), r)
            && (forall y :: y in r ==> y in StepFrom(w.doc, axis, test, x))
  {
    var list := StepFrom(w.doc, axis, test, x);
    StepFromSpec(w.doc, axis, test, x);
    ContributionIs(w, axis, test, preds, x);
    KeepAllOrder(w, preds, list, Differ);
    if IsReverse(axis) {
      KeepAllOrder(w, preds, list, Follows);
    } else {
      KeepAllOrder(w, preds, list, Precedes);
    }
  }

  /** No element has two attributes of the same name. */
  ghost predicate UniqueAttributes(doc: Doc) {
    forall i, j, k :: Twins(doc, i, j, k) ==> j == k
  }

  /** Attributes j and k of node i have the same name. */
  predicate Twins(doc: Doc, i: nat, j: nat, k: nat) {
    && i < |doc.nodes| && j < |doc.nodes[i].attributes| && k < |doc.nodes[i].attributes|
    && NameOr(doc.nodes[i].attributes[j].name) == NameOr(doc.nodes[i].attributes[k].name) != ""
    && IsXPathAttribute(NameOr(doc.nodes[i].attributes[j].name))
  }

  /** Every step is the one of XPath 1.0 exactly if no element has two attributes of the same name. */
  lemma StepsAreStandard(doc: Doc)
    ensures UniqueAttributes(doc) <==>
            forall axis, test: Test, x :: (test.NameIs? ==> test.name != "") ==> StepFrom(doc, axis, test, x) == StandardStep(doc, axis, test, x)
  {
    if UniqueAttributes(doc) {
      forall axis, test: Test, x | test.NameIs? ==> test.name != ""
        ensures StepFrom(doc, axis, test, x) == StandardStep(doc, axis, test, x)
      {
        NamedStepIsStandard(doc, axis, test, x);
      }
    }
    forall i, j, k | Twins(doc, i, j, k) && j != k
      ensures exists axis, test: Test, x :: (test.NameIs? ==> test.name != "") && StepFrom(doc, axis, test, x) != StandardStep(doc, axis, test, x)
    {
      TwinsAreLost(doc, i, j, k);
    }
  }

  lemma NamedStepIsStandard(doc: Doc, axis: Axis, test: Test, x: Ref)
    requires UniqueAttributes(doc) && (test.NameIs? ==> test.name != "")
    ensures StepFrom(doc, axis, test, x) == StandardStep(doc, axis, test, x)
  {
    StepFromSpec(doc, axis, test, x);
    if NamesAttribute(axis, test) {
      var r := StandardStep(doc, axis, test, x);
      StandardSpec(doc, axis, test, x);
      NodesOnSpec(doc.d, axis, x, 0);
      AtMostOne(r);
      forall y, z | y in r && z in r ensures y == z {
        assert Twins(doc, x.i, y.j, z.j);
      }
    }
  }

  /** Of two attributes of one name, the step finds one. */
  lemma TwinsAreLost(doc: Doc, i: nat, j: nat, k: nat)
    requires Twins(doc, i, j, k) && j != k
    ensures var test := NameIs(NameOr(doc.nodes[i].attributes[j].name));
            test.name != "" && |StepFrom(doc, AttributeAxis, test, N(i))| == 1 < |StandardStep(doc, AttributeAxis, test, N(i))|
  {
    var test := NameIs(NameOr(doc.nodes[i].attributes[j].name));
    var r := StandardStep(doc, AttributeAxis, test, N(i));
    StandardSpec(doc, AttributeAxis, test, N(i));
    assert AttributesOf(doc, i)[j] == A(i, j) && AttributesOf(doc, i)[k] == A(i, k);
    assert A(i, j) in r && A(i, k) in r;
    var a :| 0 <= a < |r| && r[a] == A(i, j);
    var b :| 0 <= b < |r| && r[b] == A(i, k);
    assert a != b;
  }

  /** The axes on which different context nodes never contribute the same node. */
  predicate Separate(axis: Axis) {
    axis == Child || axis == AttributeAxis || axis == Self
  }

  lemma SeparateNodes(doc: Doc, axis: Axis, test: Test, a: Ref, b: Ref, y: Ref)
    requires Separate(axis) && y in StepFrom(doc, axis, test, a) && y in StepFrom(doc, axis, test, b)
    ensures a == b
  {
    StepFromSpec(doc, axis, test, a);
    StepFromSpec(doc, axis, test, b);
    NodesOnSpec(doc.d, axis, a, 0);
    NodesOnSpec(doc.d, axis, b, 0);
  }

  lemma SelfIsSingle(doc: Doc, test: Test, x: Ref)
    ensures StepFrom(doc, Self, test, x) == [] || StepFrom(doc, Self, test, x) == [x]
  {
    var r := StepFrom(doc, Self, test, x);
    StepFromSpec(doc, Self, test, x);
    NodesOnSpec(doc.d, Self, x, 0);
    AtMostOne(r);
    Inhabited(r);
  }

  /** The `once` of step_do. */
  predicate StepOnce(axis: Axis, test: Test, preds: Preds, mode: Mode) {
    || NamesAttribute(axis, test)
    || (preds.NoPred? && EvalOnce(AxisType(axis), mode))
    || (preds.Pred? && preds.next.NoPred? && preds.tag == ConstantOne)
  }

  /** A predicate that asks for the first node loses nothing if there are no others. */
  lemma OnceFirst(w: World, preds: Preds, r: seq<Ref>)
    requires PredTagsOk(preds) && preds.Pred? && preds.next.NoPred? && preds.tag == ConstantOne
    ensures KeepAll(w, preds, r[..if r == [] then 0 else 1]) == KeepAll(w, preds, r)
  {
    var s := r[..if r == [] then 0 else 1];
    JudgeOne(w, r);
    JudgeOne(w, s);
    assert KeepAll(w, preds, r) == Keep(Judge(w, preds.expr), r, 0);
    assert KeepAll(w, preds, s) == Keep(Judge(w, preds.expr), s, 0);
  }

  /** Stopping early in step_fill cuts something off only where there are no predicates. */
  lemma OnceSelected(w: World, axis: Axis, test: Test, preds: Preds, x: Ref, mode: Mode)
    requires PredTagsOk(preds)
    ensures var once := StepOnce(axis, test, preds, mode);
            KeepAll(w, preds, Selected(w.doc, axis, test, AxisOrder(w.doc, axis, x), once))
            == Cut(Contribution(w, axis, test, preds)(x), preds.NoPred? && once && !NamesAttribute(axis, test))
  {
    var r := StepFrom(w.doc, axis, test, x);
    StepFromSpec(w.doc, axis, test, x);
    ContributionIs(w, axis, test, preds, x);
    if preds.Pred? && !NamesAttribute(axis, test) && StepOnce(axis, test, preds, mode) {
      OnceFirst(w, preds, r);
    }
  }

  /** What one context node adds to the buffer of step_do. */
  method StepOne(w: World, axis: Axis, test: Test, preds: Preds, ns0: seq<Ref>, x: Ref, order: Order, mode: Mode)
    returns (ns: seq<Ref>, ghost cut: bool)
    requires ValidWorld(w) && PredsTyped(preds) && PredTagsOk(preds)
    ensures ns == ns0 + Cut(Contribution(w, axis, test, preds)(x), cut)
    ensures cut ==> EvalOnce(order, mode) || EvalOnce(AxisType(axis), mode)
    decreases preds, 2
  {
    var once := StepOnce(axis, test, preds, mode);
    ns := PushSelected(w, axis, test, ns0, x, once);
    OnceSelected(w, axis, test, preds, x, mode);
    cut := preds.NoPred? && once && !NamesAttribute(axis, test);
    if preds.Pred? {
      TwoParts(ns0, Selected(w.doc, axis, test, AxisOrder(w.doc, axis, x), once), ns);
      ns, cut := ApplyPredicates(w, preds, ns, |ns0|, order, mode);
    }
  }

  lemma ContributionsBehave(w: World, axis: Axis, test: Test, preds: Preds)
    ensures WellBehaved(Contribution(w, axis, test, preds), AxisType(axis), axis == Self, Separate(axis))
  {
    var con := Contribution(w, axis, test, preds);
    forall x ensures NoRepeats(con(x)) && Tagged(AxisType(axis), con(x))
      ensures axis == Self ==> forall y :: y in con(x) ==> y == x
    {
      ContributionSpec(w, axis, test, preds, x);
      SelfIsSingle(w.doc, test, x);
    }
    forall a, b, y | Separate(axis) && y in con(a) && y in con(b) ensures a == b {
      ContributionSpec(w, axis, test, preds, a);
      ContributionSpec(w, axis, test, preds, b);
      SeparateNodes(w.doc, axis, test, a, b, y);
    }
  }

  /** step_do */
  method StepDo(w: World, e: Expr, c: Context, mode: Mode) returns (ns: seq<Ref>, order: Order)
    requires Ready(w, e) && e.Step?
    ensures Answer(mode, ns, order, SetOf(Meaning(w, e, c)))
    decreases e, 1
  {
    ghost var con, t, single, separate := Contribution(w, e.axis, e.test, e.preds), AxisType(e.axis), e.axis == Self, Separate(e.axis);
    ContributionsBehave(w, e.axis, e.test, e.preds);
    ns, order := [], AxisType(e.axis);
    var s, sOrder := if c.n.Null? then [] else [c.n], order;
    if !e.left.Here? {
      s, sOrder := EvalSet(w, e.left, c, All);
      if e.axis == Self { order := sOrder; }
    }
    StepStart(con, t, single, separate, s, sOrder, mode, order);
    for k := 0 to |s|
      invariant Stepping(con, t, single, separate, s, sOrder, k, mode, ns, order)
    {
      ghost var before, was := order, ns;
      if e.axis != Self && |ns| != 0 { order := Unsorted; }
      ghost var cut;
      ns, cut := StepOne(w, e.axis, e.test, e.preds, ns, s[k], order, mode);
      StepForward(con, t, single, separate, s, sOrder, k, mode, was, before, cut, order);
    }
    ghost var was := ns;
    if e.axis != Child && e.axis != AttributeAxis && e.axis != Self && order == Unsorted {
      ns := RemoveDuplicates(w.address, ns, order);
    }
    StepDone(con, t, single, separate, s, sOrder, SetOf(Meaning(w, e.left, c)), mode, was, order, ns);
  }

  // Node sets

  lemma NoNamespaceStep(doc: Doc, test: Test, x: Ref)
    ensures StepFrom(doc, Namespace, test, x) == []
  {
    StepFromSpec(doc, Namespace, test, x);
    NodesOnSpec(doc.d, Namespace, x, 0);
    Inhabited(StepFrom(doc, Namespace, test, x));
  }

  lemma NoNamespaceNodes(w: World, test: Test, preds: Preds, C: seq<Ref>)
    ensures Gather(Contribution(w, Namespace, test, preds), C) == []
  {
    var con := Contribution(w, Namespace, test, preds);
    forall x ensures con(x) == [] {
      NoNamespaceStep(w.doc, test, x);
      ContributionIs(w, Namespace, test, preds, x);
      KeepAllNothing(w, preds);
    }
    GatherNothing(con, C);
  }

  /** The filter case of eval_node_set. */
  method EvalFilter(w: World, e: Expr, c: Context, mode: Mode) returns (ns: seq<Ref>, order: Order)
    requires Ready(w, e) && e.Filter?
    ensures Answer(mode, ns, order, SetOf(Meaning(w, e, c)))
    decreases e, 1
  {
    ns, order := EvalSet(w, e.left, c, if e.tag == ConstantOne then FirstOnly else All);
    ghost var S := SetOf(Meaning(w, e.left, c));
    MeaningKind(w, e.left, c);
    if e.tag != PosInv {
      ns, order := SortDo(ns, order);
    }
    var once := EvalOnce(order, mode);
    ghost var sorted := ns;
    ns := ApplyPredicate(w, e.pred, e.tag, ns, 0, once);
    assert ns == Cut(Keep(Judge(w, e.pred), sorted, 0), once) by {
      assert Unfold(APPLIED) && sorted[..0] == [] && sorted[0..] == sorted;
    }
    FilterResult(w, e.pred, e.tag, mode, sorted, order, S, once);
  }

  /** A filter gives the answer asked for, whichever way its left operand was evaluated. */
  lemma FilterResult(w: World, pred: Expr, tag: Tag, mode: Mode, ns: seq<Ref>, order: Order, S: seq<Ref>, once: bool)
    requires WellTyped(pred) && TagOk(tag, pred) && InOrder(S) && (once ==> EvalOnce(order, mode))
    requires if tag == PosInv then Answer(All, ns, order, S)
             else order == Order.Sorted && InOrder(ns) && (forall x :: x in ns ==> x in S)
                  && Complete(if tag == ConstantOne then FirstOnly else All, ns, S)
    ensures Answer(mode, Cut(Keep(Judge(w, pred), ns, 0), once), order, Keep(Judge(w, pred), S, 0))
  {
    var judge := Judge(w, pred);
    if tag == PosInv {
      JudgePosInv(w, pred);
      FilterAnywhere(judge, ns, order, S, mode, once);
    } else {
      if tag == ConstantOne {
        FirstOfPart(ns, S);
        JudgeOne(w, ns);
        JudgeOne(w, S);
      } else {
        SameElements(ns, S);
      }
      FilterSorted(judge, ns, S, mode, once);
    }
  }

  /** The union case of eval_node_set. */
  method EvalUnion(w: World, e: Expr, c: Context, mode: Mode) returns (ns: seq<Ref>, order: Order)
    requires Ready(w, e) && e.Union?
    ensures Answer(mode, ns, order, SetOf(Meaning(w, e, c)))
    decreases e, 1
  {
    var ls, lo := EvalSet(w, e.left, c, mode);
    var rs, ro := EvalSet(w, e.right, c, mode);
    ns, order := rs + ls, Unsorted;
    ns := RemoveDuplicates(w.address, ns, order);
    MeaningKind(w, e.left, c);
    MeaningKind(w, e.right, c);
    UnionAnswer(mode, ls, lo, SetOf(Meaning(w, e.left, c)), rs, ro, SetOf(Meaning(w, e.right, c)), ns);
  }

  lemma SingleAnswer(mode: Mode, x: Ref)
    ensures Answer(mode, [x], Order.Sorted, [x])
    ensures Answer(mode, [], Order.Sorted, []) && Answer(mode, [], Unsorted, [])
  {
  }

  lemma WholeAnswer(mode: Mode, ns: seq<Ref>, order: Order)
    requires NoRepeats(ns) && Tagged(order, ns)
    ensures Answer(mode, ns, order, AsSet(ns))
  {
    AsSetSpec(ns);
    Inhabited(AsSet(ns));
    if AsSet(ns) != [] { assert AsSet(ns)[0] in ns; }
  }

  /** eval_node_set */
  method EvalSet(w: World, e: Expr, c: Context, mode: Mode) returns (ns: seq<Ref>, order: Order)
    requires Ready(w, e) && KindOf(e) == SetKind
    ensures Answer(mode, ns, order, SetOf(Meaning(w, e, c)))
    decreases e, 2
  {
    SingleAnswer(mode, N(0));
    match e
    case Union(_, _) =>
      ns, order := EvalUnion(w, e, c, mode);
    case Filter(_, _, _) =>
      ns, order := EvalFilter(w, e, c, mode);
    case Id(_) =>
      ns, order := [], Unsorted;
    case Step(left, axis, test, preds) =>
      if axis == Namespace {
        ns, order := [], Unsorted;
        NoNamespaceNodes(w, test, preds, SetOf(Meaning(w, left, c)));
      } else {
        ns, order := StepDo(w, e, c, mode);
      }
    case Root =>
      ns, order := if c.n.Null? then [] else [N(0)], Order.Sorted;
    case Variable(name, _) =>
      ns, order := w.setOf(name), w.orderOf(name);
      WholeAnswer(mode, ns, order);
  }

  // Strings

  /** eval_string for an expression that is a string */
  method EvalStrNative(w: World, e: Expr, c: Context) returns (s: string)
    requires Ready(w, e) && KindOf(e) == StrKind
    ensures s == ToStr(w, Meaning(w, e, c))
    decreases e, 4
  {
    match e
    case Literal(t) =>
      s := t;
    case Name0(op) =>
      s := w.nameFn(op, c.n);
    case Name1(op, left) =>
      var ns, order := EvalSet(w, left, c, FirstOnly);
      MeaningKind(w, left, c);
      var x := FirstOf(ns, order, SetOf(Meaning(w, left, c)));
      s := w.nameFn(op, x);
    case String0 =>
      s := StringValue(w.doc, c.n);
    case String1(left) =>
      s := EvalStr(w, left, c);
    case TextCall(op, args) =>
      var strings := EvalArgs(w, args, c);
      s := w.textFn(op, strings);
    case Translate(left, from, to) =>
      var t := EvalStr(w, left, c);
      var f := EvalStr(w, from, c);
      var r := EvalStr(w, to, c);
      s := Translated(t, f, r);
    case TranslateTable(left, _, _, table) =>
      var t := EvalStr(w, left, c);
      s := TranslatedByTable(t, table);
    case Variable(name, _) =>
      s := w.strOf(name);
  }

  method EvalArgs(w: World, args: Args, c: Context) returns (strings: seq<string>)
    requires ValidWorld(w) && ArgsTyped(args) && ArgTagsOk(args)
    ensures strings == Strings(w, args, c)
    decreases args, 0
  {
    strings := [];
    if args.Arg? {
      var s := EvalStr(w, args.head, c);
      var rest := EvalArgs(w, args.next, c);
      strings := [s] + rest;
    }
  }

  /** eval_string */
  method EvalStr(w: World, e: Expr, c: Context) returns (s: string)
    requires Ready(w, e)
    ensures s == ToStr(w, Meaning(w, e, c))
    decreases e, 6
  {
    MeaningKind(w, e, c);
    match KindOf(e)
    case StrKind =>
      s := EvalStrNative(w, e, c);
    case BoolKind =>
      var b := EvalBoolNative(w, e, c);
      s := if b then "true" else "false";
    case NumKind =>
      var n := EvalNumNative(w, e, c);
      s := w.show(n);
    case SetKind =>
      var ns, order := EvalSet(w, e, c, FirstOnly);
      if |ns| == 0 {
        s := "";
      } else {
        var x := FirstOf(ns, order, SetOf(Meaning(w, e, c)));
        s := StringValue(w.doc, x);
      }
  }

  // Numbers

  /** eval_number for an expression that is a number */
  method EvalNumNative(w: World, e: Expr, c: Context) returns (n: Num)
    requires Ready(w, e) && KindOf(e) == NumKind
    ensures n == ToNum(w, Meaning(w, e, c))
    decreases e, 4
  {
    match e
    case Arith(op, left, right) =>
      var l := EvalNum(w, left, c);
      var r := EvalNum(w, right, c);
      n := w.arith(op, l, r);
    case NumCall(op, left) =>
      var l := EvalNum(w, left, c);
      n := w.numFn(op, l);
    case Number(v) =>
      n := v;
    case LastFn =>
      n := FromSize(c.size);
    case PositionFn =>
      n := FromSize(c.position);
    case Count(left) =>
      n := EvalCount(w, left, c);
    case StringLength0 =>
      n := FromSize(|StringValue(w.doc, c.n)|);
    case StringLength1(left) =>
      var s := EvalStr(w, left, c);
      n := FromSize(|s|);
    case Number0 =>
      n := w.parse(StringValue(w.doc, c.n));
    case Number1(left) =>
      n := EvalNum(w, left, c);
    case Variable(name, _) =>
      n := w.numOf(name);
  }

  method EvalCount(w: World, e: Expr, c: Context) returns (n: Num)
    requires Ready(w, e) && KindOf(e) == SetKind
    ensures n == FromSize(|SetOf(Meaning(w, e, c))|)
    decreases e, 3
  {
    var ns, order := EvalSet(w, e, c, All);
    MeaningKind(w, e, c);
    OrderedNoRepeats(SetOf(Meaning(w, e, c)));
    SameSize(ns, SetOf(Meaning(w, e, c)));
    n := FromSize(|ns|);
  }

  lemma SameSize(ns: seq<Ref>, S: seq<Ref>)
    requires NoRepeats(ns) && NoRepeats(S) && forall x :: x in ns <==> x in S
    ensures |ns| == |S|
  {
    SizeOf(ns);
    SizeOf(S);
    assert (set x | x in ns) == (set x | x in S);
  }

  lemma {:induction false} SizeOf(s: seq<Ref>)
    requires NoRepeats(s)
    ensures |set x | x in s| == |s|
  {
    if s != [] {
      Rest(Differ, s);
      SizeOf(s[1..]);
      assert s == [s[0]] + s[1..];
      assert s[0] !in s[1..];
      assert (set x | x in s) == (set x | x in s[1..]) + {s[0]};
    }
  }

  /** eval_number */
  method EvalNum(w: World, e: Expr, c: Context) returns (n: Num)
    requires Ready(w, e)
    ensures n == ToNum(w, Meaning(w, e, c))
    decreases e, 7
  {
    MeaningKind(w, e, c);
    match KindOf(e)
    case NumKind =>
      n := EvalNumNative(w, e, c);
    case BoolKind =>
      var b := EvalBoolNative(w, e, c);
      n := if b then Fin(1.0) else Fin(0.0);
    case _ =>
      var s := EvalStr(w, e, c);
      n := w.parse(s);
  }

  // Booleans

  /** eval_boolean */
  method EvalBool(w: World, e: Expr, c: Context) returns (b: bool)
    requires Ready(w, e)
    ensures b == ToBool(Meaning(w, e, c))
    decreases e, 7
  {
    MeaningKind(w, e, c);
    match KindOf(e)
    case BoolKind =>
      b := EvalBoolNative(w, e, c);
    case NumKind =>
      var n := EvalNumNative(w, e, c);
      b := NumTruth(n);
    case StrKind =>
      var s := EvalStrNative(w, e, c);
      b := s != "";
    case SetKind =>
      var ns, _ := EvalSet(w, e, c, Any);
      Inhabited(ns);
      b := ns != [];
  }

  /** The right operand is only looked at when the left one leaves the answer open. */
  method EvalLogic(w: World, e: Expr, c: Context) returns (b: bool)
    requires Ready(w, e) && (e.Or? || e.And?)
    ensures b == ToBool(Meaning(w, e, c))
    decreases e, 3
  {
    b := EvalBool(w, e.left, c);
    if b == e.And? { b := EvalBool(w, e.right, c); }
  }

  /** eval_boolean for an expression that is a boolean */
  method EvalBoolNative(w: World, e: Expr, c: Context) returns (b: bool)
    requires Ready(w, e) && KindOf(e) == BoolKind
    ensures b == ToBool(Meaning(w, e, c))
    decreases e, 4
  {
    match e
    case Or(_, _) =>
      b := EvalLogic(w, e, c);
    case And(_, _) =>
      b := EvalLogic(w, e, c);
    case Compare(_, _, _, _) =>
      b := EvalCompare(w, e, c);
    case BooleanFn(left) =>
      b := EvalBool(w, left, c);
    case Not(left) =>
      b := EvalBool(w, left, c);
      b := !b;
    case True =>
      b := true;
    case False =>
      b := false;
    case TextHolds(op, left, right) =>
      var l := EvalStr(w, left, c);
      var r := EvalStr(w, right, c);
      b := w.textTest(op, l, r);
    case CompareAttribute(left, right) =>
      var value := if right.Literal? then right.s else w.strOf(right.name);
      var attr := Attr(w.doc, c.n, left.test.name);
      b := attr.Some? && attr.value == value && IsXPathAttribute(left.test.name);
    case Variable(name, _) =>
      b := w.boolOf(name);
  }

  method EvalCompare(w: World, e: Expr, c: Context) returns (b: bool)
    requires Ready(w, e) && e.Compare?
    ensures b == ToBool(Meaning(w, e, c))
    decreases e, 3
  {
    var left, right := if e.greater then e.right else e.left, if e.greater then e.left else e.right;
    if IsEquality(e.op) {
      b := CompareEq(w, e, e.op, left, right, c);
    } else {
      b := CompareRel(w, e, e.op, left, right, c);
    }
  }

  lemma SomeNodeSame(w: World, op: Relation, v: Value, ns: seq<Ref>, S: seq<Ref>, nodeFirst: bool)
    requires forall x :: x in ns <==> x in S
    ensures SomeNode(w, op, v, ns, nodeFirst) == SomeNode(w, op, v, S, nodeFirst)
  {
  }

  /** One of the loops of compare_eq and compare_rel over the nodes of a set. */
  method AnyNode(w: World, op: Relation, v: Value, ns: seq<Ref>, nodeFirst: bool) returns (b: bool)
    ensures b == SomeNode(w, op, v, ns, nodeFirst)
  {
    for k := 0 to |ns|
      invariant forall j :: 0 <= j < k ==> !Against(w, op, v, ns[j], nodeFirst)
    {
      if Against(w, op, v, ns[k], nodeFirst) {
        return true;
      }
    }
    return false;
  }

  /** Two node sets, node by node. */
  method AnyPair(w: World, op: Relation, ls: seq<Ref>, rs: seq<Ref>, ghost L: seq<Ref>, ghost R: seq<Ref>) returns (b: bool)
    requires (forall x :: x in ls <==> x in L) && forall x :: x in rs <==> x in R
    ensures b == SomePair(w, op, L, R)
  {
    for k := 0 to |ls|
      invariant forall j :: 0 <= j < k ==> !SomeNode(w, op, Str(StringValue(w.doc, ls[j])), R, false)
    {
      var v := Str(StringValue(w.doc, ls[k]));
      b := AnyNode(w, op, v, rs, false);
      SomeNodeSame(w, op, v, rs, R, false);
      if b {
        assert ls[k] in L;
        return true;
      }
    }
    return false;
  }

  /** compare_eq and compare_rel for two node sets */
  method CompareSets(w: World, ghost e: Expr, op: Relation, left: Expr, right: Expr, c: Context) returns (b: bool)
    requires Ready(w, left) && Ready(w, right) && left < e && right < e
    requires KindOf(left) == SetKind && KindOf(right) == SetKind
    ensures b == Compared(w, op, Meaning(w, left, c), Meaning(w, right, c))
    decreases e, 0
  {
    var ls, lo := EvalSet(w, left, c, All);
    var rs, ro := EvalSet(w, right, c, All);
    MeaningKind(w, left, c);
    MeaningKind(w, right, c);
    b := AnyPair(w, op, ls, rs, SetOf(Meaning(w, left, c)), SetOf(Meaning(w, right, c)));
  }

  /** compare_eq and compare_rel for a value and a node set, in either order */
  method CompareSet(w: World, ghost e: Expr, op: Relation, v: Value, other: Expr, c: Context, nodeFirst: bool) returns (b: bool)
    requires Ready(w, other) && other < e && KindOf(other) == SetKind
    ensures b == SomeNode(w, op, v, SetOf(Meaning(w, other, c)), nodeFirst)
    decreases e, 0
  {
    var ns, order := EvalSet(w, other, c, All);
    b := AnyNode(w, op, v, ns, nodeFirst);
    SomeNodeSame(w, op, v, ns, SetOf(Meaning(w, other, c)), nodeFirst);
  }

  /** compare_eq: a node set on the left is exchanged with the other operand. */
  method CompareEq(w: World, ghost e: Expr, op: Relation, left: Expr, right: Expr, c: Context) returns (b: bool)
    requires Ready(w, left) && Ready(w, right) && left < e && right < e && IsEquality(op)
    ensures b == Compared(w, op, Meaning(w, left, c), Meaning(w, right, c))
    decreases e, 2
  {
    MeaningKind(w, left, c);
    MeaningKind(w, right, c);
    var lt, rt := KindOf(left), KindOf(right);
    if lt == SetKind && rt == SetKind {
      b := CompareSets(w, e, op, left, right, c);
    } else if lt != SetKind && rt != SetKind {
      b := CompareScalars(w, e, op, left, right, c);
    } else if lt == SetKind {
      b := CompareEqSet(w, e, op, right, left, c);
      EqualityIsSymmetric(w, op, Meaning(w, left, c), Meaning(w, right, c));
    } else {
      b := CompareEqSet(w, e, op, left, right, c);
    }
  }

  lemma EqualityIsSymmetric(w: World, op: Relation, l: Value, r: Value)
    requires IsEquality(op) && l.Nodes? && !r.Nodes?
    ensures Compared(w, op, l, r) == Compared(w, op, r, l)
  {
    forall x ensures Against(w, op, r, x, true) == Against(w, op, r, x, false) {
    }
  }

  method CompareEqSet(w: World, ghost e: Expr, op: Relation, left: Expr, right: Expr, c: Context) returns (b: bool)
    requires Ready(w, left) && Ready(w, right) && left < e && right < e && IsEquality(op)
    requires KindOf(left) != SetKind && KindOf(right) == SetKind
    ensures b == Compared(w, op, Meaning(w, left, c), Meaning(w, right, c))
    decreases e, 1
  {
    MeaningKind(w, left, c);
    MeaningKind(w, right, c);
    var lt := KindOf(left);
    if lt == BoolKind {
      var l := EvalBool(w, left, c);
      var r := EvalBool(w, right, c);
      b := BoolHolds(op, l, r);
    } else if lt == NumKind {
      var n := EvalNum(w, left, c);
      b := CompareSet(w, e, op, Num(n), right, c, false);
    } else {
      var s := EvalStr(w, left, c);
      b := CompareSet(w, e, op, Str(s), right, c, false);
    }
  }

  lemma ScalarsByKind(w: World, op: Relation, l: Value, r: Value, lt: Kind, rt: Kind)
    requires HasKind(l, lt) && HasKind(r, rt) && lt != SetKind && rt != SetKind
    ensures IsEquality(op) ==>
      Compared(w, op, l, r) == if lt == BoolKind || rt == BoolKind then BoolHolds(op, ToBool(l), ToBool(r))
                               else if lt == NumKind || rt == NumKind then NumHolds(op, ToNum(w, l), ToNum(w, r))
                               else StrHolds(op, ToStr(w, l), ToStr(w, r))
    ensures !IsEquality(op) ==> Compared(w, op, l, r) == NumHolds(op, ToNum(w, l), ToNum(w, r))
  {
  }

  lemma SetByKind(w: World, op: Relation, v: Value, S: Value, kind: Kind)
    requires HasKind(v, kind) && kind != SetKind && S.Nodes? && !IsEquality(op)
    ensures Compared(w, op, v, S) == SomeNode(w, op, Num(ToNum(w, v)), S.ns, false)
    ensures Compared(w, op, S, v) == SomeNode(w, op, Num(ToNum(w, v)), S.ns, true)
  {
    NumberAgainst(w, op, v, S.ns, false);
    NumberAgainst(w, op, v, S.ns, true);
  }

  method CompareScalars(w: World, ghost e: Expr, op: Relation, left: Expr, right: Expr, c: Context) returns (b: bool)
    requires Ready(w, left) && Ready(w, right) && left < e && right < e && IsEquality(op)
    requires KindOf(left) != SetKind && KindOf(right) != SetKind
    ensures b == Compared(w, op, Meaning(w, left, c), Meaning(w, right, c))
    decreases e, 1
  {
    MeaningKind(w, left, c);
    MeaningKind(w, right, c);
    var lt, rt := KindOf(left), KindOf(right);
    ScalarsByKind(w, op, Meaning(w, left, c), Meaning(w, right, c), lt, rt);
    if lt == BoolKind || rt == BoolKind {
      var l := EvalBool(w, left, c);
      var r := EvalBool(w, right, c);
      b := BoolHolds(op, l, r);
    } else if lt == NumKind || rt == NumKind {
      var l := EvalNum(w, left, c);
      var r := EvalNum(w, right, c);
      b := NumHolds(op, l, r);
    } else {
      var l := EvalStr(w, left, c);
      var r := EvalStr(w, right, c);
      b := StrHolds(op, l, r);
    }
  }

  /** compare_rel */
  method CompareRel(w: World, ghost e: Expr, op: Relation, left: Expr, right: Expr, c: Context) returns (b: bool)
    requires Ready(w, left) && Ready(w, right) && left < e && right < e && !IsEquality(op)
    ensures b == Compared(w, op, Meaning(w, left, c), Meaning(w, right, c))
    decreases e, 2
  {
    var lt, rt := KindOf(left), KindOf(right);
    if lt != SetKind && rt != SetKind {
      b := CompareNumbers(w, e, op, left, right, c);
    } else if lt == SetKind && rt == SetKind {
      b := CompareSets(w, e, op, left, right, c);
    } else if lt != SetKind {
      b := CompareNumberSet(w, e, op, left, right, c, false);
    } else {
      b := CompareNumberSet(w, e, op, right, left, c, true);
    }
  }

  method CompareNumbers(w: World, ghost e: Expr, op: Relation, left: Expr, right: Expr, c: Context) returns (b: bool)
    requires Ready(w, left) && Ready(w, right) && left < e && right < e && !IsEquality(op)
    requires KindOf(left) != SetKind && KindOf(right) != SetKind
    ensures b == Compared(w, op, Meaning(w, left, c), Meaning(w, right, c))
    decreases e, 1
  {
    var l := EvalNum(w, left, c);
    var r := EvalNum(w, right, c);
    MeaningKind(w, left, c);
    MeaningKind(w, right, c);
    ScalarsByKind(w, op, Meaning(w, left, c), Meaning(w, right, c), KindOf(left), KindOf(right));
    b := NumHolds(op, l, r);
  }

  /** The operand that is not a node set is converted to a number once. */
  method CompareNumberSet(w: World, ghost e: Expr, op: Relation, left: Expr, right: Expr, c: Context, nodeFirst: bool)
    returns (b: bool)
    requires Ready(w, left) && Ready(w, right) && left < e && right < e && !IsEquality(op)
    requires KindOf(left) != SetKind && KindOf(right) == SetKind
    ensures b == if nodeFirst then Compared(w, op, Meaning(w, right, c), Meaning(w, left, c))
                 else Compared(w, op, Meaning(w, left, c), Meaning(w, right, c))
    decreases e, 1
  {
    var l := EvalNum(w, left, c);
    MeaningKind(w, left, c);
    MeaningKind(w, right, c);
    SetByKind(w, op, Meaning(w, left, c), Meaning(w, right, c), KindOf(left));
    b := CompareSet(w, e, op, Num(l), right, c, nodeFirst);
  }

  lemma NumberAgainst(w: World, op: Relation, v: Value, ns: seq<Ref>, nodeFirst: bool)
    requires !IsEquality(op)
    ensures SomeNode(w, op, Num(ToNum(w, v)), ns, nodeFirst) == SomeNode(w, op, v, ns, nodeFirst)
  {
    forall x ensures Against(w, op, Num(ToNum(w, v)), x, nodeFirst) == Against(w, op, v, x, nodeFirst) {
    }
  }

  /**
   xpath_query::evaluate_node: although evaluation stops at the first node that could matter,
   the result is the first node, in document order, of the whole node set.
   */
  method EvaluateNode(w: World, e: Expr, n: Ref) returns (r: Ref)
    requires Ready(w, e) && KindOf(e) == SetKind
    ensures r == First(SetOf(Meaning(w, e, Context(n, 1, 1))))
  {
    var ns, order := EvalSet(w, e, Context(n, 1, 1), FirstOnly);
    MeaningKind(w, e, Context(n, 1, 1));
    r := FirstOf(ns, order, SetOf(Meaning(w, e, Context(n, 1, 1))));
  }

  /** xpath_query::evaluate_node_set, sorted by the caller. */
  method EvaluateNodeSet(w: World, e: Expr, n: Ref) returns (ns: seq<Ref>)
    requires Ready(w, e) && KindOf(e) == SetKind
    ensures ns == SetOf(Meaning(w, e, Context(n, 1, 1)))
  {
    var order;
    ns, order := EvalSet(w, e, Context(n, 1, 1), All);
    ns, order := SortDo(ns, order);
    MeaningKind(w, e, Context(n, 1, 1));
    SameElements(ns, SetOf(Meaning(w, e, Context(n, 1, 1))));
  }
}
