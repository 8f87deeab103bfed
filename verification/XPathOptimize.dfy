/**
 The optimizer: a rewriting of the expression tree that tags predicates, merges the two steps
 of `//`, and replaces some comparisons and translations by faster forms.  The result means
 the same and is ready for the evaluator.
 */
module XPathOptimize {
  import opened Basics
  import opened Shape
  import opened Dom
  import opened XPathData
  import opened XPathSets
  import opened XPathMeaning
  import opened XPathEval

  /** [position() = e] becomes [e]. */
  function WithoutPosition(pred: Expr): Expr {
    if pred.Compare? && pred.op == Equal && !pred.greater && pred.left.PositionFn? && KindOf(pred.right) == NumKind
    then pred.right else pred
  }

  function Classify(pred: Expr): Tag {
    if pred == Number(Fin(1.0)) then ConstantOne
    else if KindOf(pred) == NumKind && (pred.Number? || pred.Variable? || pred.LastFn?) then Constant
    else if KindOf(pred) != NumKind && IsPosInv(pred) then PosInv
    else Default
  }

  /** is_posinv_step */
  predicate AllPosInv(preds: Preds) {
    preds.Pred? ==> preds.tag == PosInv && AllPosInv(preds.next)
  }

  predicate Downward(axis: Axis) {
    axis == Child || axis == Self || axis == Descendant || axis == DescendantOrSelf
  }

  function Merged(axis: Axis): Axis {
    if axis == Child || axis == Descendant then Descendant else DescendantOrSelf
  }

  /** descendant-or-self::node()/child::foo becomes descendant::foo, if no predicate counts positions. */
  function MergeStep(left: Expr, axis: Axis, test: Test, preds: Preds): Expr {
    if Downward(axis) && left.Step? && left.axis == DescendantOrSelf && left.test == AnyNode && left.preds.NoPred?
       && AllPosInv(preds)
    then Step(left.left, Merged(axis), test, preds)
    else Step(left, axis, test, preds)
  }

  /** @attr = 'value' and @attr = $value need no node set. */
  function AttributeShortcut(op: Relation, greater: bool, left: Expr, right: Expr): Expr {
    if op == Equal && !greater && left.Step? && left.axis == AttributeAxis && left.test.NameIs? && left.left.Here?
       && left.preds.NoPred? && (right.Literal? || (right.Variable? && right.kind == StrKind))
    then CompareAttribute(left, right)
    else Compare(op, greater, left, right)
  }

  predicate Ascii(s: string) {
    forall k :: 0 <= k < |s| ==> s[k] as int < 128
  }

  /** A table exists if the characters to be replaced, and their counterparts, are ASCII. */
  predicate HasTable(from: string, to: string) {
    Ascii(from) && Ascii(if |to| <= |from| then to else to[..|from|])
  }

  function TableEntry(from: string, to: string, i: nat): nat
    requires i < 128
  {
    var pos := Find(from, i as char);
    if pos == |from| then i else if pos < |to| then to[pos] as nat else 128
  }

  /** The table of translate_table_generate; 128 says that the character is dropped. */
  function TableOf(from: string, to: string): (table: seq<nat>)
    ensures |table| == 128
  {
    seq(128, i requires 0 <= i < 128 => TableEntry(from, to, i))
  }

  function TranslateShortcut(left: Expr, from: Expr, to: Expr): Expr {
    if from.Literal? && to.Literal? && HasTable(from.s, to.s)
    then TranslateTable(left, from, to, TableOf(from.s, to.s))
    else Translate(left, from, to)
  }

  /** optimize: the operands first, then the node itself. */
  function Optimize(e: Expr): Expr
    decreases e, 0
  {
    match e
    case Step(left, axis, test, preds) => MergeStep(Optimize(left), axis, test, OptimizePreds(preds))
    case Filter(left, pred, _) => var p := WithoutPosition(Optimize(pred)); Filter(Optimize(left), p, Classify(p))
    case Union(left, right) => Union(Optimize(left), Optimize(right))
    case Id(left) => Id(Optimize(left))
    case Or(left, right) => Or(Optimize(left), Optimize(right))
    case And(left, right) => And(Optimize(left), Optimize(right))
    case Compare(op, greater, left, right) => AttributeShortcut(op, greater, Optimize(left), Optimize(right))
    case BooleanFn(left) => BooleanFn(Optimize(left))
    case Not(left) => Not(Optimize(left))
    case TextHolds(op, left, right) => TextHolds(op, Optimize(left), Optimize(right))
    case Arith(op, left, right) => Arith(op, Optimize(left), Optimize(right))
    case NumCall(op, left) => NumCall(op, Optimize(left))
    case Count(left) => Count(Optimize(left))
    case StringLength1(left) => StringLength1(Optimize(left))
    case Number1(left) => Number1(Optimize(left))
    case Name1(op, left) => Name1(op, Optimize(left))
    case String1(left) => String1(Optimize(left))
    case TextCall(op, args) => TextCall(op, OptimizeArgs(args))
    case Translate(left, from, to) => TranslateShortcut(Optimize(left), Optimize(from), Optimize(to))
    case _ => e
  }

  function OptimizePreds(preds: Preds): Preds
    decreases preds, 0
  {
    match preds
    case NoPred => NoPred
    case Pred(expr, _, next) => var p := WithoutPosition(Optimize(expr)); Pred(p, Classify(p), OptimizePreds(next))
  }

  function OptimizeArgs(args: Args): Args
    decreases args, 0
  {
    match args
    case NoArg => NoArg
    case Arg(head, next) => Arg(Optimize(head), OptimizeArgs(next))
  }

  /** An expression as the parser builds it: no tags, and none of the nodes only the optimizer makes. */
  predicate Raw(e: Expr)
    decreases e, 0
  {
    match e
    case Step(left, _, _, preds) => Raw(left) && RawPreds(preds)
    case Filter(left, pred, tag) => Raw(left) && Raw(pred) && tag == Default
    case Union(left, right) => Raw(left) && Raw(right)
    case Id(left) => Raw(left)
    case Or(left, right) => Raw(left) && Raw(right)
    case And(left, right) => Raw(left) && Raw(right)
    case Compare(_, _, left, right) => Raw(left) && Raw(right)
    case BooleanFn(left) => Raw(left)
    case Not(left) => Raw(left)
    case TextHolds(_, left, right) => Raw(left) && Raw(right)
    case CompareAttribute(_, _) => false
    case Arith(_, left, right) => Raw(left) && Raw(right)
    case NumCall(_, left) => Raw(left)
    case Count(left) => Raw(left)
    case StringLength1(left) => Raw(left)
    case Number1(left) => Raw(left)
    case Name1(_, left) => Raw(left)
    case String1(left) => Raw(left)
    case TextCall(_, args) => RawArgs(args)
    case Translate(left, from, to) => Raw(left) && Raw(from) && Raw(to)
    case TranslateTable(_, _, _, _) => false
    case _ => true
  }

  predicate RawPreds(preds: Preds)
    decreases preds, 0
  {
    preds.Pred? ==> Raw(preds.expr) && preds.tag == Default && RawPreds(preds.next)
  }

  predicate RawArgs(args: Args)
    decreases args, 0
  {
    args.Arg? ==> Raw(args.head) && RawArgs(args.next)
  }

  // The translation table

  lemma {:induction false} FindSpec(s: string, c: char)
    ensures var pos := Find(s, c); (pos < |s| ==> s[pos] == c) && forall k :: 0 <= k < pos ==> s[k] != c
  {
    if s != "" && s[0] != c {
      FindSpec(s[1..], c);
      forall k | 0 <= k < Find(s, c) ensures s[k] != c {
        if 0 < k { assert s[1..][k - 1] == s[k]; }
      }
    }
  }

  /** The table does to a string what translate() does. */
  lemma {:induction false} TableTranslates(s: string, from: string, to: string)
    requires HasTable(from, to)
    ensures TranslatedByTable(s, TableOf(from, to)) == Translated(s, from, to)
  {
    if s != "" {
      TableTranslates(s[1..], from, to);
      var pos := Find(from, s[0]);
      FindSpec(from, s[0]);
      if s[0] as int < 128 {
        assert TableOf(from, to)[s[0] as int] == TableEntry(from, to, s[0] as int);
        if pos < |from| && pos < |to| {
          assert (if |to| <= |from| then to else to[..|from|])[pos] == to[pos];
        }
      }
    }
  }

  /** The entry for i when the first k characters of `from` have been dealt with; 0 where nothing is known yet. */
  function Entry(from: string, to: string, k: nat, i: nat): nat
    requires k <= |from| && i < 128
  {
    if Find(from[..k], i as char) == k then 0 else TableEntry(from[..k], to, i)
  }

  /** translate_table_generate: one pass over `from`, which stops at a character that has no place in the table. */
  method TranslateTableGenerate(from: string, to: string) returns (table: Option<seq<nat>>)
    requires '\0' !in from && '\0' !in to
    ensures table == if HasTable(from, to) then Some(TableOf(from, to)) else None
  {
    var t: array<nat> := new nat[128](_ => 0);
    var k, m := 0, 0;
    while k < |from|
      invariant k <= |from| && m == if k <= |to| then k else |to|
      invariant Ascii(from[..k]) && Ascii(to[..m])
      invariant forall i :: 0 <= i < 128 ==> t[i] == Entry(from, to, k, i)
    {
      var fc := from[k] as int;
      var tc := if m < |to| then to[m] as int else 0;
      if fc >= 128 || tc >= 128 {
        NoTable(from, to, k);
        return None;
      }
      SetEntry(t, fc, tc, from, to, k);
      assert from[..k + 1] == from[..k] + [from[k]];
      k := k + 1;
      if tc != 0 {
        assert to[..m + 1] == to[..m] + [to[m]];
        m := m + 1;
      }
    }
    assert from[..k] == from;
    FillRest(t, from, to);
    assert t[..] == TableOf(from, to);
    return Some(t[..]);
  }

  /** The first occurrence of a character decides its entry. */
  method SetEntry(t: array<nat>, fc: nat, tc: nat, ghost from: string, ghost to: string, ghost k: nat)
    requires t.Length == 128 && k < |from| && '\0' !in from && '\0' !in to
    requires fc == from[k] as int < 128 && tc == (if k < |to| then to[k] as int else 0) < 128
    requires forall i :: 0 <= i < 128 ==> t[i] == Entry(from, to, k, i)
    modifies t
    ensures forall i :: 0 <= i < 128 ==> t[i] == Entry(from, to, k + 1, i)
  {
    ghost var was := t[..];
    TableStep(from, to, k);
    if t[fc] == 0 {
      t[fc] := if tc != 0 then tc else 128;
    }
    forall i | 0 <= i < 128
      ensures t[i] == Entry(from, to, k + 1, i)
    {
      assert EntryStep(from, to, k, i) && was[i] == Entry(from, to, k, i);
      assert (i as char) as int == i && (i as char == from[k] <==> i == fc);
    }
  }

  /** Characters that `from` does not contain stand for themselves. */
  method FillRest(t: array<nat>, ghost from: string, ghost to: string)
    requires t.Length == 128 && '\0' !in to
    requires forall j :: 0 <= j < 128 ==> t[j] == if Find(from, j as char) == |from| then 0 else TableEntry(from, to, j)
    modifies t
    ensures forall j :: 0 <= j < 128 ==> t[j] == TableEntry(from, to, j)
  {
    for i := 0 to 128
      invariant forall j :: 0 <= j < i ==> t[j] == TableEntry(from, to, j)
      invariant forall j :: i <= j < 128 ==> t[j] == if Find(from, j as char) == |from| then 0 else TableEntry(from, to, j)
    {
      NotZero(from, to, i);
      if t[i] == 0 {
        t[i] := i;
      }
    }
  }

  lemma NotZero(from: string, to: string, i: nat)
    requires i < 128 && '\0' !in to
    ensures Find(from, i as char) < |from| ==> TableEntry(from, to, i) != 0
    ensures Find(from, i as char) == |from| ==> TableEntry(from, to, i) == i
  {
    var pos := Find(from, i as char);
    if pos < |to| { assert to[pos] in to; }
  }

  lemma NoTable(from: string, to: string, k: nat)
    requires k < |from| && (from[k] as int >= 128 || (k < |to| && to[k] as int >= 128))
    ensures !HasTable(from, to)
  {
    if k < |to| { assert (if |to| <= |from| then to else to[..|from|])[k] == to[k]; }
  }

  lemma FindIn(s: string, c: char, k: nat)
    requires k < |s|
    ensures Find(s[..k + 1], c) == if Find(s[..k], c) < k then Find(s[..k], c) else if s[k] == c then k else k + 1
  {
    FindSpec(s[..k], c);
    FindSpec(s[..k + 1], c);
    var p, q := Find(s[..k], c), Find(s[..k + 1], c);
    assert p < k ==> s[..k + 1][p] == c;
    assert q < k ==> s[..k][q] == c;
  }

  /** What the next character of `from` changes in the table. */
  lemma TableStep(from: string, to: string, k: nat)
    requires k < |from| && '\0' !in from && '\0' !in to
    ensures forall i :: 0 <= i < 128 ==> EntryStep(from, to, k, i)
  {
    forall i | 0 <= i < 128 ensures EntryStep(from, to, k, i) {
      FindIn(from, i as char, k);
      var pos := Find(from[..k], i as char);
      if pos < k && pos < |to| { assert to[pos] in to; }
    }
  }

  ghost predicate EntryStep(from: string, to: string, k: nat, i: nat)
    requires k < |from| && i < 128
  {
    var p, q := Find(from[..k], i as char), Find(from[..k + 1], i as char);
    && (p < k ==> q == p && TableEntry(from[..k], to, i) != 0 && TableEntry(from[..k + 1], to, i) == TableEntry(from[..k], to, i))
    && (p == k ==> q == if from[k] == i as char then k else k + 1)
  }

  // What the optimizer keeps: types, and the truth of the tags.

  /** e' can take the place of e, and can be evaluated. */
  ghost predicate Replaces(e': Expr, e: Expr) {
    KindOf(e') == KindOf(e) && WellTyped(e') && TagsOk(e')
  }

  lemma WithoutPositionReplaces(pred: Expr)
    requires WellTyped(pred) && TagsOk(pred)
    ensures var p := WithoutPosition(pred); WellTyped(p) && TagsOk(p) && TagOk(Classify(p), p)
  {
  }

  lemma {:induction false} OptimizedReplaces(e: Expr)
    requires WellTyped(e) && Raw(e)
    ensures Replaces(Optimize(e), e)
    decreases e, 2
  {
    match KindOf(e)
    case SetKind => SetReplaces(e);
    case BoolKind => BoolReplaces(e);
    case NumKind => NumReplaces(e);
    case StrKind => StrReplaces(e);
  }

  lemma {:induction false} SetReplaces(e: Expr)
    requires WellTyped(e) && Raw(e) && KindOf(e) == SetKind
    ensures Replaces(Optimize(e), e)
    decreases e, 0
  {
    match e
    case Step(left, axis, test, preds) =>
      if !left.Here? { OptimizedReplaces(left); }
      PredsReplace(preds);
    case Filter(left, pred, _) =>
      OptimizedReplaces(left);
      OptimizedReplaces(pred);
      WithoutPositionReplaces(Optimize(pred));
    case Union(left, right) =>
      OptimizedReplaces(left);
      OptimizedReplaces(right);
    case Id(left) =>
      OptimizedReplaces(left);
    case _ =>
  }

  lemma {:induction false} BoolReplaces(e: Expr)
    requires WellTyped(e) && Raw(e) && KindOf(e) == BoolKind
    ensures Replaces(Optimize(e), e)
    decreases e, 0
  {
    match e
    case Or(_, _) => PairReplaces(e);
    case And(_, _) => PairReplaces(e);
    case Compare(_, _, left, right) => OptimizedReplaces(left); OptimizedReplaces(right);
    case BooleanFn(left) => OptimizedReplaces(left);
    case Not(left) => OptimizedReplaces(left);
    case TextHolds(_, _, _) => PairReplaces(e);
    case _ =>
  }

  lemma {:induction false} PairReplaces(e: Expr)
    requires WellTyped(e) && Raw(e) && (e.Or? || e.And? || e.TextHolds?)
    ensures Replaces(Optimize(e), e)
    decreases e, 0, 0
  {
    OptimizedReplaces(e.left);
    OptimizedReplaces(e.right);
  }

  lemma {:induction false} NumReplaces(e: Expr)
    requires WellTyped(e) && Raw(e) && KindOf(e) == NumKind
    ensures Replaces(Optimize(e), e)
    decreases e, 0
  {
    match e
    case Arith(_, left, right) => OptimizedReplaces(left); OptimizedReplaces(right);
    case NumCall(_, left) => OptimizedReplaces(left);
    case Count(left) => OptimizedReplaces(left);
    case StringLength1(left) => OptimizedReplaces(left);
    case Number1(left) => OptimizedReplaces(left);
    case _ =>
  }

  lemma {:induction false} StrReplaces(e: Expr)
    requires WellTyped(e) && Raw(e) && KindOf(e) == StrKind
    ensures Replaces(Optimize(e), e)
    decreases e, 1
  {
    match e
    case Name1(_, left) => OptimizedReplaces(left);
    case String1(left) => OptimizedReplaces(left);
    case TextCall(_, args) => ArgsReplace(args);
    case Translate(_, _, _) => TranslateReplaces(e);
    case _ =>
  }

  lemma {:induction false} TranslateReplaces(e: Expr)
    requires WellTyped(e) && Raw(e) && e.Translate?
    ensures Replaces(Optimize(e), e)
    decreases e, 0
  {
    OptimizedReplaces(e.left);
    OptimizedReplaces(e.from);
    OptimizedReplaces(e.to);
  }

  lemma {:induction false} PredsReplace(preds: Preds)
    requires PredsTyped(preds) && RawPreds(preds)
    ensures PredsTyped(OptimizePreds(preds)) && PredTagsOk(OptimizePreds(preds))
    decreases preds, 0
  {
    if preds.Pred? {
      OptimizedReplaces(preds.expr);
      WithoutPositionReplaces(Optimize(preds.expr));
      PredsReplace(preds.next);
    }
  }

  lemma {:induction false} ArgsReplace(args: Args)
    requires ArgsTyped(args) && RawArgs(args)
    ensures ArgsTyped(OptimizeArgs(args)) && ArgTagsOk(OptimizeArgs(args))
    decreases args, 0
  {
    if args.Arg? {
      OptimizedReplaces(args.head);
      ArgsReplace(args.next);
    }
  }

  // Meaning is preserved by each of the rewritings...

  lemma {:induction false} KeepSame(judge: (Ref, nat, nat) -> bool, judge': (Ref, nat, nat) -> bool, list: seq<Ref>, i: nat)
    requires forall x, p, n :: judge(x, p, n) == judge'(x, p, n)
    ensures Keep(judge, list, i) == Keep(judge', list, i)
    decreases |list| - i
  {
    if i < |list| { KeepSame(judge, judge', list, i + 1); }
  }

  lemma {:induction false} GatherSame(con: Ref -> seq<Ref>, con': Ref -> seq<Ref>, C: seq<Ref>)
    requires forall x :: con(x) == con'(x)
    ensures Gather(con, C) == Gather(con', C)
  {
    if C != [] { GatherSame(con, con', C[1..]); }
  }

  lemma PositionEquals(w: World, n: Num, p: nat)
    ensures Compared(w, Equal, Num(FromSize(p)), Num(n)) == NumEqual(n, FromSize(p))
  {
  }

  /** [position() = e] and [e] hold at the same positions. */
  lemma WithoutPositionHolds(w: World, pred: Expr, c: Context)
    requires WellTyped(pred)
    ensures Holds(w, WithoutPosition(pred), c) == Holds(w, pred, c)
  {
    var p := WithoutPosition(pred);
    if p != pred {
      MeaningKind(w, p, c);
      var v := Meaning(w, p, c);
      PositionEquals(w, v.n, c.position);
      assert Meaning(w, pred.left, c) == Num(FromSize(c.position));
      assert Meaning(w, pred, c) == Bool(Compared(w, Equal, Num(FromSize(c.position)), v));
    }
  }

  /** The predicates of a positionally invariant step, for one node. */
  predicate PassesAll(w: World, preds: Preds, x: Ref) {
    preds.Pred? ==> Judge(w, preds.expr)(x, 1, 1) && PassesAll(w, preds.next, x)
  }

  lemma {:induction false} KeepAllPosInv(w: World, preds: Preds, list: seq<Ref>)
    requires PredsTyped(preds) && PredTagsOk(preds) && AllPosInv(preds)
    ensures forall x :: x in KeepAll(w, preds, list) <==> x in list && PassesAll(w, preds, x)
  {
    if preds.Pred? {
      JudgePosInv(w, preds.expr);
      KeepAnywhere(Judge(w, preds.expr), list, 0);
      assert list[0..] == list;
      KeepAllPosInv(w, preds.next, Keep(Judge(w, preds.expr), list, 0));
    }
  }

  /** y is reached from l by descendant-or-self::node(), and x from y by the step. */
  ghost predicate Via(doc: Doc, axis: Axis, test: Test, l: Ref, y: Ref, x: Ref) {
    y in StepFrom(doc, DescendantOrSelf, AnyNode, l) && x in StepFrom(doc, axis, test, y)
  }

  /** The two steps of `//` together reach what the merged step reaches. */
  lemma MergedAxis(doc: Doc, axis: Axis, test: Test, l: Ref, x: Ref)
    requires ValidDoc(doc) && Downward(axis)
    ensures (exists y :: Via(doc, axis, test, l, y, x)) <==> x in StepFrom(doc, Merged(axis), test, l)
  {
    if y :| Via(doc, axis, test, l, y, x) { ViaMerged(doc, axis, test, l, y, x); }
    if x in StepFrom(doc, Merged(axis), test, l) { MergedVia(doc, axis, test, l, x); }
  }

  /** What a downward axis holds; attributes only reach themselves. */
  lemma DownwardSpec(doc: Doc, axis: Axis, test: Test, l: Ref, x: Ref)
    requires Downward(axis)
    ensures x in StepFrom(doc, axis, test, l) <==>
            Passes(doc, axis, test, x) &&
            (if l.N? then x.N? && l.i < |doc.d| && x.i < |doc.d| && OnAxis(doc.d, axis, l.i, x.i)
             else l.A? && x == l && (axis == Self || axis == DescendantOrSelf))
  {
    StepFromSpec(doc, axis, test, l);
    NodesOnSpec(doc.d, axis, l, 0);
  }

  lemma ViaMerged(doc: Doc, axis: Axis, test: Test, l: Ref, y: Ref, x: Ref)
    requires ValidDoc(doc) && Downward(axis) && Via(doc, axis, test, l, y, x)
    ensures x in StepFrom(doc, Merged(axis), test, l)
  {
    DownwardSpec(doc, DescendantOrSelf, AnyNode, l, y);
    DownwardSpec(doc, axis, test, y, x);
    DownwardSpec(doc, Merged(axis), test, l, x);
    if l.N? { BelowBelow(doc.d, axis, l.i, y.i, x.i); }
  }

  lemma MergedVia(doc: Doc, axis: Axis, test: Test, l: Ref, x: Ref)
    requires ValidDoc(doc) && Downward(axis) && x in StepFrom(doc, Merged(axis), test, l)
    ensures exists y :: Via(doc, axis, test, l, y, x)
  {
    DownwardSpec(doc, Merged(axis), test, l, x);
    var y := if x.N? then N(Between(doc.d, axis, l.i, x.i)) else x;
    if x.N? { BetweenSpec(doc.d, axis, l.i, x.i); }
    DownwardSpec(doc, DescendantOrSelf, AnyNode, l, y);
    DownwardSpec(doc, axis, test, y, x);
    assert Via(doc, axis, test, l, y, x);
  }

  lemma BelowBelow(d: Depths, axis: Axis, i: nat, y: nat, x: nat)
    requires WellFormed(d) && i < |d| && y < |d| && x < |d| && Downward(axis)
    requires OnAxis(d, DescendantOrSelf, i, y) && OnAxis(d, axis, y, x)
    ensures OnAxis(d, Merged(axis), i, x)
  {
    if i < y { NextInside(d, i, y); }
    if axis == Child { ParentDepth(d, x); }
  }

  /** The node in the middle. */
  function Between(d: Depths, axis: Axis, i: nat, x: nat): nat {
    if axis == Child && x < |d| && 0 <= Parent(d, x) then Parent(d, x)
    else if axis == Self then x
    else i
  }

  lemma BetweenSpec(d: Depths, axis: Axis, i: nat, x: nat)
    requires WellFormed(d) && i < |d| && x < |d| && Downward(axis) && OnAxis(d, Merged(axis), i, x)
    ensures var y := Between(d, axis, i, x); y < |d| && OnAxis(d, DescendantOrSelf, i, y) && OnAxis(d, axis, y, x)
  {
    if axis == Child { ParentInside(d, i, x); }
  }

  /** Merging the two steps of `//` does not change the node set. */
  lemma MergeStepMeaning(w: World, left: Expr, axis: Axis, test: Test, preds: Preds, c: Context)
    requires ValidDoc(w.doc) && PredsTyped(preds) && PredTagsOk(preds)
    ensures Meaning(w, MergeStep(left, axis, test, preds), c) == Meaning(w, Step(left, axis, test, preds), c)
  {
    var merged := MergeStep(left, axis, test, preds);
    if merged != Step(left, axis, test, preds) {
      var C := SetOf(Meaning(w, left.left, c));
      var dos, con, con' := Contribution(w, DescendantOrSelf, AnyNode, NoPred), Contribution(w, axis, test, preds),
                            Contribution(w, Merged(axis), test, preds);
      var D := AsSet(Gather(dos, C));
      assert Meaning(w, left, c) == Nodes(D);
      assert Meaning(w, Step(left, axis, test, preds), c) == Nodes(AsSet(Gather(con, D)));
      assert Meaning(w, merged, c) == Nodes(AsSet(Gather(con', C)));
      forall x ensures x in Gather(con, D) <==> x in Gather(con', C) {
        MergedNode(w, axis, test, preds, C, x);
      }
      AsSetSpec(Gather(con, D));
      AsSetSpec(Gather(con', C));
      SameElements(AsSet(Gather(con, D)), AsSet(Gather(con', C)));
    }
  }

  lemma MergedNode(w: World, axis: Axis, test: Test, preds: Preds, C: seq<Ref>, x: Ref)
    requires ValidDoc(w.doc) && PredsTyped(preds) && PredTagsOk(preds) && AllPosInv(preds) && Downward(axis)
    ensures x in Gather(Contribution(w, axis, test, preds), AsSet(Gather(Contribution(w, DescendantOrSelf, AnyNode, NoPred), C)))
            <==> x in Gather(Contribution(w, Merged(axis), test, preds), C)
  {
    var dos, con, con' := Contribution(w, DescendantOrSelf, AnyNode, NoPred), Contribution(w, axis, test, preds),
                          Contribution(w, Merged(axis), test, preds);
    var D := AsSet(Gather(dos, C));
    AsSetSpec(Gather(dos, C));
    if x in Gather(con, D) {
      var k := GatheredFrom(con, D, x);
      assert D[k] in D;
      var m := GatheredFrom(dos, C, D[k]);
      NodeVia(w, axis, test, preds, C[m], D[k], x);
      Gathered(con', C, m, x);
    }
    if x in Gather(con', C) {
      var m := GatheredFrom(con', C, x);
      var y := NodeBetween(w, axis, test, preds, C[m], x);
      Gathered(dos, C, m, y);
      assert y in D;
      var k :| 0 <= k < |D| && D[k] == y;
      Gathered(con, D, k, x);
    }
  }

  lemma NodeVia(w: World, axis: Axis, test: Test, preds: Preds, l: Ref, y: Ref, x: Ref)
    requires ValidDoc(w.doc) && PredsTyped(preds) && PredTagsOk(preds) && AllPosInv(preds) && Downward(axis)
    requires y in Contribution(w, DescendantOrSelf, AnyNode, NoPred)(l) && x in Contribution(w, axis, test, preds)(y)
    ensures x in Contribution(w, Merged(axis), test, preds)(l)
  {
    ContributionIs(w, DescendantOrSelf, AnyNode, NoPred, l);
    InContribution(w, axis, test, preds, y, x);
    InContribution(w, Merged(axis), test, preds, l, x);
    assert Via(w.doc, axis, test, l, y, x);
    MergedAxis(w.doc, axis, test, l, x);
  }

  lemma NodeBetween(w: World, axis: Axis, test: Test, preds: Preds, l: Ref, x: Ref) returns (y: Ref)
    requires ValidDoc(w.doc) && PredsTyped(preds) && PredTagsOk(preds) && AllPosInv(preds) && Downward(axis)
    requires x in Contribution(w, Merged(axis), test, preds)(l)
    ensures y in Contribution(w, DescendantOrSelf, AnyNode, NoPred)(l) && x in Contribution(w, axis, test, preds)(y)
  {
    InContribution(w, Merged(axis), test, preds, l, x);
    MergedAxis(w.doc, axis, test, l, x);
    y :| Via(w.doc, axis, test, l, y, x);
    ContributionIs(w, DescendantOrSelf, AnyNode, NoPred, l);
    InContribution(w, axis, test, preds, y, x);
  }

  lemma InContribution(w: World, axis: Axis, test: Test, preds: Preds, y: Ref, x: Ref)
    requires PredsTyped(preds) && PredTagsOk(preds) && AllPosInv(preds)
    ensures x in Contribution(w, axis, test, preds)(y) <==> x in StepFrom(w.doc, axis, test, y) && PassesAll(w, preds, x)
  {
    ContributionIs(w, axis, test, preds, y);
    KeepAllPosInv(w, preds, StepFrom(w.doc, axis, test, y));
  }

  lemma {:induction false} FindAttributeSpec(attributes: seq<Attribute>, name: string) returns (j: nat)
    ensures j <= |attributes| && forall k :: 0 <= k < j ==> attributes[k].name != Some(name)
    ensures if j == |attributes| then FindAttribute(attributes, name) == None
            else attributes[j].name == Some(name) && FindAttribute(attributes, name) == Some(NameOr(attributes[j].value))
  {
    if attributes == [] || attributes[0].name == Some(name) {
      return 0;
    }
    j := FindAttributeSpec(attributes[1..], name);
    j := j + 1;
    forall k | 0 <= k < j ensures attributes[k].name != Some(name) {
      if 0 < k { assert attributes[1..][k - 1] == attributes[k]; }
    }
  }

  /** The first of a list that passes is what a step with `once` selects. */
  lemma {:induction false} SelectedFirst(doc: Doc, axis: Axis, test: Test, list: seq<Ref>, j: nat)
    requires j <= |list| && (j < |list| ==> Passes(doc, axis, test, list[j]))
    requires forall k :: 0 <= k < j ==> !Passes(doc, axis, test, list[k])
    ensures Selected(doc, axis, test, list, true) == if j < |list| then [list[j]] else []
  {
    if 0 < j { SelectedFirst(doc, axis, test, list[1..], j - 1); }
  }

  /** What @name selects: the first attribute of that name, whose value xml_node::attribute finds. */
  lemma NamedStep(doc: Doc, x: Ref, name: string)
    requires name != ""
    ensures var r := StepFrom(doc, AttributeAxis, NameIs(name), x);
            && (r == [] <==> Attr(doc, x, name) == None || !IsXPathAttribute(name))
            && (r != [] ==> |r| == 1 && Attr(doc, x, name) == Some(StringValue(doc, r[0])))
  {
    var list := AxisOrder(doc, AttributeAxis, x);
    NodesOnSpec(doc.d, AttributeAxis, x, 0);
    Inhabited(NodesOn(doc.d, AttributeAxis, x, 0));
    var j := |list|;
    if x.N? && x.i < |doc.nodes| {
      j := FindAttributeSpec(doc.nodes[x.i].attributes, name);
      if !IsXPathAttribute(name) { j := |list|; }
    }
    SelectedFirst(doc, AttributeAxis, NameIs(name), list, j);
  }

  /** The node set @name holds a node with this string value exactly if the shortcut finds it. */
  lemma AttributeLookup(doc: Doc, x: Ref, name: string, value: string)
    requires name != ""
    ensures (exists y :: y in StepFrom(doc, AttributeAxis, NameIs(name), x) && StringValue(doc, y) == value)
            <==> Attr(doc, x, name) == Some(value) && IsXPathAttribute(name)
  {
    NamedStep(doc, x, name);
    var r := StepFrom(doc, AttributeAxis, NameIs(name), x);
    if r != [] {
      assert r[0] in r;
      assert forall y :: y in r ==> y == r[0];
    }
  }

  /** @name = value and the shortcut for it agree. */
  lemma AttributeShortcutMeaning(w: World, op: Relation, greater: bool, left: Expr, right: Expr, c: Context)
    requires (left.Step? && left.test.NameIs? ==> left.test.name != "")
    ensures Meaning(w, AttributeShortcut(op, greater, left, right), c) == Meaning(w, Compare(op, greater, left, right), c)
  {
    var e := AttributeShortcut(op, greater, left, right);
    if e == Compare(op, greater, left, right) {
      return;
    }
    assert e == CompareAttribute(left, right) && op == Equal && !greater;
    NamedAttributes(w, left, c);
    CompareIs(w, left, right, c);
    CompareAttributeIs(w, left, right, c);
    AttributeCompared(w, left.test.name, SetOf(Meaning(w, left, c)), Meaning(w, right, c), c.n);
  }

  lemma CompareIs(w: World, left: Expr, right: Expr, c: Context)
    ensures Meaning(w, Compare(Equal, false, left, right), c) == Bool(Compared(w, Equal, Meaning(w, left, c), Meaning(w, right, c)))
  {
  }

  lemma CompareAttributeIs(w: World, left: Expr, right: Expr, c: Context)
    requires left.Step? && left.test.NameIs? && Meaning(w, right, c).Str?
    ensures Meaning(w, CompareAttribute(left, right), c) ==
            Bool(IsXPathAttribute(left.test.name) && Attr(w.doc, c.n, left.test.name) == Some(Meaning(w, right, c).s))
  {
  }

  /** The node set @name in a context. */
  lemma NamedAttributes(w: World, e: Expr, c: Context)
    requires e.Step? && e.left.Here? && e.preds.NoPred?
    ensures Meaning(w, e, c).Nodes?
    ensures forall y :: y in SetOf(Meaning(w, e, c)) <==> y in StepFrom(w.doc, e.axis, e.test, c.n)
  {
    var con, C := Contribution(w, e.axis, e.test, NoPred), SetOf(Meaning(w, Here, c));
    AsSetSpec(Gather(con, C));
    ContributionIs(w, e.axis, e.test, NoPred, c.n);
    assert C == if c.n.Null? then [] else [c.n];
    assert Gather(con, C) == if c.n.Null? then [] else con(c.n) + [];
  }

  lemma AttributeCompared(w: World, name: string, ns: seq<Ref>, v: Value, x: Ref)
    requires name != "" && v.Str?
    requires forall y :: y in ns <==> y in StepFrom(w.doc, AttributeAxis, NameIs(name), x)
    ensures Compared(w, Equal, Nodes(ns), v) == (Attr(w.doc, x, name) == Some(v.s) && IsXPathAttribute(name))
  {
    AttributeLookup(w.doc, x, name, v.s);
    forall y ensures Against(w, Equal, v, y, true) == (StringValue(w.doc, y) == v.s) {
    }
  }

  // ... and so by all of them together.

  /** Optimizer soundness: the optimized expression means the same in every context. */
  lemma {:induction false} OptimizedMeaning(w: World, e: Expr, c: Context)
    requires ValidWorld(w) && WellTyped(e) && Raw(e)
    ensures Meaning(w, Optimize(e), c) == Meaning(w, e, c)
    decreases e, 1
  {
    match KindOf(e)
    case SetKind => SetMeaning(w, e, c);
    case BoolKind => BoolMeaning(w, e, c);
    case NumKind => NumMeaning(w, e, c);
    case StrKind => StrMeaning(w, e, c);
  }

  lemma {:induction false} SetMeaning(w: World, e: Expr, c: Context)
    requires ValidWorld(w) && WellTyped(e) && Raw(e) && KindOf(e) == SetKind
    ensures Meaning(w, Optimize(e), c) == Meaning(w, e, c)
    decreases e, 0
  {
    match e
    case Step(left, axis, test, preds) =>
      StepMeaning(w, e, c);
    case Filter(left, pred, _) =>
      OptimizedMeaning(w, left, c);
      PredicateMeaning(w, pred);
      KeepSame(Judge(w, WithoutPosition(Optimize(pred))), Judge(w, pred), SetOf(Meaning(w, left, c)), 0);
    case Union(left, right) =>
      OptimizedMeaning(w, left, c);
      OptimizedMeaning(w, right, c);
    case _ =>
  }

  lemma {:induction false} StepMeaning(w: World, e: Expr, c: Context)
    requires ValidWorld(w) && WellTyped(e) && Raw(e) && e.Step?
    ensures Meaning(w, Optimize(e), c) == Meaning(w, e, c)
    decreases e, 0, 0
  {
    var left, preds := Optimize(e.left), OptimizePreds(e.preds);
    if !e.left.Here? { OptimizedMeaning(w, e.left, c); }
    PredsReplace(e.preds);
    MergeStepMeaning(w, left, e.axis, e.test, preds, c);
    var con, con' := Contribution(w, e.axis, e.test, e.preds), Contribution(w, e.axis, e.test, preds);
    forall x ensures con'(x) == con(x) {
      PredsMeaning(w, e.preds, StepFrom(w.doc, e.axis, e.test, x));
      ContributionIs(w, e.axis, e.test, e.preds, x);
      ContributionIs(w, e.axis, e.test, preds, x);
    }
    GatherSame(con', con, SetOf(Meaning(w, e.left, c)));
  }

  /** A predicate means the same before and after, whatever the node, its position and the number of nodes. */
  lemma {:induction false} PredicateMeaning(w: World, pred: Expr)
    requires ValidWorld(w) && WellTyped(pred) && Raw(pred)
    ensures forall x, p, n :: Judge(w, WithoutPosition(Optimize(pred)))(x, p, n) == Judge(w, pred)(x, p, n)
    decreases pred, 3
  {
    forall x: Ref, p: nat, n: nat ensures Judge(w, WithoutPosition(Optimize(pred)))(x, p, n) == Judge(w, pred)(x, p, n) {
      PredicateAt(w, pred, x, p, n);
    }
  }

  lemma {:induction false} PredicateAt(w: World, pred: Expr, x: Ref, p: nat, n: nat)
    requires ValidWorld(w) && WellTyped(pred) && Raw(pred)
    ensures Judge(w, WithoutPosition(Optimize(pred)))(x, p, n) == Judge(w, pred)(x, p, n)
    decreases pred, 2
  {
    var p' := Optimize(pred);
    OptimizedReplaces(pred);
    OptimizedMeaning(w, pred, Context(x, p, n));
    WithoutPositionHolds(w, p', Context(x, p, n));
    JudgeIs(w, pred, x, p, n);
    JudgeIs(w, WithoutPosition(p'), x, p, n);
    HoldsSame(w, p', pred, Context(x, p, n));
  }

  lemma HoldsSame(w: World, p: Expr, q: Expr, c: Context)
    requires KindOf(p) == KindOf(q) && Meaning(w, p, c) == Meaning(w, q, c)
    ensures Holds(w, p, c) == Holds(w, q, c)
  {
  }

  lemma {:induction false} PredsMeaning(w: World, preds: Preds, list: seq<Ref>)
    requires ValidWorld(w) && PredsTyped(preds) && RawPreds(preds)
    ensures KeepAll(w, OptimizePreds(preds), list) == KeepAll(w, preds, list)
    decreases preds, 0
  {
    if preds.Pred? {
      PredicateMeaning(w, preds.expr);
      KeepSame(Judge(w, WithoutPosition(Optimize(preds.expr))), Judge(w, preds.expr), list, 0);
      PredsMeaning(w, preds.next, Keep(Judge(w, preds.expr), list, 0));
    }
  }

  lemma {:induction false} BoolMeaning(w: World, e: Expr, c: Context)
    requires ValidWorld(w) && WellTyped(e) && Raw(e) && KindOf(e) == BoolKind
    ensures Meaning(w, Optimize(e), c) == Meaning(w, e, c)
    decreases e, 0
  {
    match e
    case Or(_, _) => PairMeaning(w, e, c);
    case And(_, _) => PairMeaning(w, e, c);
    case Compare(_, _, _, _) => CompareMeaning(w, e, c);
    case BooleanFn(left) => OptimizedMeaning(w, left, c);
    case Not(left) => OptimizedMeaning(w, left, c);
    case TextHolds(_, _, _) => PairMeaning(w, e, c);
    case _ =>
  }

  lemma {:induction false} PairMeaning(w: World, e: Expr, c: Context)
    requires ValidWorld(w) && WellTyped(e) && Raw(e) && (e.Or? || e.And? || e.TextHolds?)
    ensures Meaning(w, Optimize(e), c) == Meaning(w, e, c)
    decreases e, 0, 0
  {
    OptimizedMeaning(w, e.left, c);
    OptimizedMeaning(w, e.right, c);
  }

  lemma {:induction false} CompareMeaning(w: World, e: Expr, c: Context)
    requires ValidWorld(w) && WellTyped(e) && Raw(e) && e.Compare?
    ensures Meaning(w, Optimize(e), c) == Meaning(w, e, c)
    decreases e, 0, 0
  {
    var left, right := Optimize(e.left), Optimize(e.right);
    OptimizedMeaning(w, e.left, c);
    OptimizedMeaning(w, e.right, c);
    OptimizedReplaces(e.left);
    AttributeShortcutMeaning(w, e.op, e.greater, left, right, c);
    CompareCongruence(w, e.op, e.greater, left, right, e.left, e.right, c);
  }

  lemma CompareCongruence(w: World, op: Relation, greater: bool, l: Expr, r: Expr, l': Expr, r': Expr, c: Context)
    requires Meaning(w, l, c) == Meaning(w, l', c) && Meaning(w, r, c) == Meaning(w, r', c)
    ensures Meaning(w, Compare(op, greater, l, r), c) == Meaning(w, Compare(op, greater, l', r'), c)
  {
    var v, u := Meaning(w, l, c), Meaning(w, r, c);
    CompareValues(w, op, greater, l, r, c, v, u);
    CompareValues(w, op, greater, l', r', c, v, u);
  }

  lemma CompareValues(w: World, op: Relation, greater: bool, l: Expr, r: Expr, c: Context, v: Value, u: Value)
    requires Meaning(w, l, c) == v && Meaning(w, r, c) == u
    ensures Meaning(w, Compare(op, greater, l, r), c) == Comparison(w, op, greater, v, u)
  {
  }

  lemma {:induction false} NumMeaning(w: World, e: Expr, c: Context)
    requires ValidWorld(w) && WellTyped(e) && Raw(e) && KindOf(e) == NumKind
    ensures Meaning(w, Optimize(e), c) == Meaning(w, e, c)
    decreases e, 0
  {
    match e
    case Arith(_, left, right) => OptimizedMeaning(w, left, c); OptimizedMeaning(w, right, c);
    case NumCall(_, left) => OptimizedMeaning(w, left, c);
    case Count(left) => OptimizedMeaning(w, left, c);
    case StringLength1(left) => OptimizedMeaning(w, left, c);
    case Number1(left) => OptimizedMeaning(w, left, c);
    case _ =>
  }

  lemma {:induction false} StrMeaning(w: World, e: Expr, c: Context)
    requires ValidWorld(w) && WellTyped(e) && Raw(e) && KindOf(e) == StrKind
    ensures Meaning(w, Optimize(e), c) == Meaning(w, e, c)
    decreases e, 0
  {
    match e
    case Name1(_, left) => OptimizedMeaning(w, left, c);
    case String1(left) => OptimizedMeaning(w, left, c);
    case TextCall(_, args) => ArgsMeaning(w, args, c);
    case Translate(left, from, to) => TranslateMeaning(w, e, c);
    case _ =>
  }

  lemma {:induction false} TranslateMeaning(w: World, e: Expr, c: Context)
    requires ValidWorld(w) && WellTyped(e) && Raw(e) && e.Translate?
    ensures Meaning(w, Optimize(e), c) == Meaning(w, e, c)
    decreases e, 0, 0
  {
    OptimizedMeaning(w, e.left, c);
    OptimizedMeaning(w, e.from, c);
    OptimizedMeaning(w, e.to, c);
    TranslateShortcutMeaning(w, Optimize(e.left), Optimize(e.from), Optimize(e.to), c);
  }

  lemma TranslateShortcutMeaning(w: World, left: Expr, from: Expr, to: Expr, c: Context)
    ensures Meaning(w, TranslateShortcut(left, from, to), c) ==
            Str(Translated(ToStr(w, Meaning(w, left, c)), ToStr(w, Meaning(w, from, c)), ToStr(w, Meaning(w, to, c))))
  {
    var e := TranslateShortcut(left, from, to);
    if e == Translate(left, from, to) {
      return;
    }
    assert e == TranslateTable(left, from, to, TableOf(from.s, to.s));
    LiteralIs(w, from, c);
    LiteralIs(w, to, c);
    TableTranslates(ToStr(w, Meaning(w, left, c)), from.s, to.s);
    TranslateTableIs(w, left, from, to, TableOf(from.s, to.s), c);
  }

  lemma TranslateTableIs(w: World, left: Expr, from: Expr, to: Expr, table: seq<nat>, c: Context)
    requires from.Literal? && to.Literal?
    ensures Meaning(w, TranslateTable(left, from, to, table), c) == Str(TranslatedByTable(ToStr(w, Meaning(w, left, c)), table))
  {
  }

  lemma LiteralIs(w: World, e: Expr, c: Context)
    requires e.Literal?
    ensures ToStr(w, Meaning(w, e, c)) == e.s
  {
  }

  lemma {:induction false} ArgsMeaning(w: World, args: Args, c: Context)
    requires ValidWorld(w) && ArgsTyped(args) && RawArgs(args)
    ensures Strings(w, OptimizeArgs(args), c) == Strings(w, args, c)
    decreases args, 0
  {
    if args.Arg? {
      OptimizedMeaning(w, args.head, c);
      ArgsMeaning(w, args.next, c);
    }
  }

  /**
   A query from end to end: optimized, and evaluated with early exits, it returns the first node
   in document order of the set the expression denotes.
   */
  method SelectNode(w: World, e: Expr, n: Ref) returns (r: Ref)
    requires ValidWorld(w) && WellTyped(e) && Raw(e) && KindOf(e) == SetKind
    ensures r == First(SetOf(Meaning(w, e, Context(n, 1, 1))))
  {
    OptimizedReplaces(e);
    OptimizedMeaning(w, e, Context(n, 1, 1));
    r := EvaluateNode(w, Optimize(e), n);
  }
}
