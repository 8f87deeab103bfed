/**
 XPath expressions and what they mean.  `Meaning` is the reference semantics: it evaluates
 every subexpression in full, keeps node sets in document order, ignores the tags the
 optimizer leaves in the tree, and converts between the four types as XPath 1.0 prescribes.
 */
module XPathMeaning {
  import opened Basics
  import opened XPathData
  import opened XPathSets
  import opened Sort
  import opened Dom

  datatype Kind = SetKind | NumKind | StrKind | BoolKind

  /** predicate_t */
  datatype Tag = Default | PosInv | Constant | ConstantOne

  datatype ArithOp = Add | Subtract | Multiply | Divide | Mod
  datatype NumFn = Negate | Floor | Ceiling | Round
  datatype NameFn = LocalName | QualifiedName | NamespaceUri
  datatype TextTest = StartsWithFn | ContainsFn
  datatype TextFn = Concat | SubstringBefore | SubstringAfter | NormalizeSpace

  /**
   xpath_ast_node.  `Here` stands for the missing left operand of the first step of a
   relative path; the operands of a greater-than comparison are exchanged on evaluation.
   */
  datatype Expr =
    | Here
    | Root
    | Step(left: Expr, axis: Axis, test: Test, preds: Preds)
    | Filter(left: Expr, pred: Expr, tag: Tag)
    | Union(left: Expr, right: Expr)
    | Id(left: Expr)
    | Variable(name: string, kind: Kind)
    | Or(left: Expr, right: Expr)
    | And(left: Expr, right: Expr)
    | Compare(op: Relation, greater: bool, left: Expr, right: Expr)
    | BooleanFn(left: Expr)
    | Not(left: Expr)
    | True
    | False
    | TextHolds(textTest: TextTest, left: Expr, right: Expr)
    | CompareAttribute(left: Expr, right: Expr)
    | Arith(arith: ArithOp, left: Expr, right: Expr)
    | NumCall(fn: NumFn, left: Expr)
    | Number(n: Num)
    | LastFn
    | PositionFn
    | Count(left: Expr)
    | StringLength0
    | StringLength1(left: Expr)
    | Number0
    | Number1(left: Expr)
    | Literal(s: string)
    | Name0(nameFn: NameFn)
    | Name1(nameFn: NameFn, left: Expr)
    | String0
    | String1(left: Expr)
    | TextCall(text: TextFn, args: Args)
    | Translate(left: Expr, from: Expr, to: Expr)
    | TranslateTable(left: Expr, from: Expr, to: Expr, table: seq<nat>)

  /** The predicates of a step, linked by _next. */
  datatype Preds = NoPred | Pred(expr: Expr, tag: Tag, next: Preds)

  datatype Args = NoArg | Arg(head: Expr, next: Args)

  function KindOf(e: Expr): Kind {
    match e
    case Here => SetKind
    case Root => SetKind
    case Step(_, _, _, _) => SetKind
    case Filter(_, _, _) => SetKind
    case Union(_, _) => SetKind
    case Id(_) => SetKind
    case Variable(_, kind) => kind
    case Or(_, _) => BoolKind
    case And(_, _) => BoolKind
    case Compare(_, _, _, _) => BoolKind
    case BooleanFn(_) => BoolKind
    case Not(_) => BoolKind
    case True => BoolKind
    case False => BoolKind
    case TextHolds(_, _, _) => BoolKind
    case CompareAttribute(_, _) => BoolKind
    case Arith(_, _, _) => NumKind
    case NumCall(_, _) => NumKind
    case Number(_) => NumKind
    case LastFn => NumKind
    case PositionFn => NumKind
    case Count(_) => NumKind
    case StringLength0 => NumKind
    case StringLength1(_) => NumKind
    case Number0 => NumKind
    case Number1(_) => NumKind
    case _ => StrKind
  }

  datatype Value = Bool(b: bool) | Num(n: Num) | Str(s: string) | Nodes(ns: seq<Ref>)

  /** What a query is evaluated against: a document, variables, the addresses of the nodes,
   and the parts of the library that only map strings and numbers to each other. */
  datatype World = World(
    doc: Doc,
    boolOf: string -> bool, numOf: string -> Num, strOf: string -> string, setOf: string -> seq<Ref>, orderOf: string -> Order,
    parse: string -> Num, show: Num -> string,
    arith: (ArithOp, Num, Num) -> Num, numFn: (NumFn, Num) -> Num,
    nameFn: (NameFn, Ref) -> string, textTest: (TextTest, string, string) -> bool, textFn: (TextFn, seq<string>) -> string,
    address: Ref -> int)

  datatype Context = Context(n: Ref, position: nat, size: nat)

  function FromSize(n: nat): Num {
    Fin(n as real)
  }

  function SetOf(v: Value): seq<Ref> {
    if v.Nodes? then v.ns else []
  }

  function ToBool(v: Value): bool {
    match v
    case Bool(b) => b
    case Num(n) => NumTruth(n)
    case Str(s) => s != ""
    case Nodes(ns) => ns != []
  }

  function ToStr(w: World, v: Value): string {
    match v
    case Bool(b) => if b then "true" else "false"
    case Num(n) => w.show(n)
    case Str(s) => s
    case Nodes(ns) => if ns == [] then "" else StringValue(w.doc, ns[0])
  }

  function ToNum(w: World, v: Value): Num {
    match v
    case Bool(b) => if b then Fin(1.0) else Fin(0.0)
    case Num(n) => n
    case Str(s) => w.parse(s)
    case Nodes(_) => w.parse(ToStr(w, v))
  }

  predicate StrHolds(op: Relation, s: string, t: string) {
    if op == Equal then s == t else s != t
  }

  predicate BoolHolds(op: Relation, a: bool, b: bool) {
    if op == Equal then a == b else a != b
  }

  predicate IsEquality(op: Relation) {
    op == Equal || op == NotEqual
  }

  /** Comparison of two values that are not node sets. */
  predicate Scalars(w: World, op: Relation, l: Value, r: Value) {
    if !IsEquality(op) then NumHolds(op, ToNum(w, l), ToNum(w, r))
    else if l.Bool? || r.Bool? then BoolHolds(op, ToBool(l), ToBool(r))
    else if l.Num? || r.Num? then NumHolds(op, ToNum(w, l), ToNum(w, r))
    else StrHolds(op, ToStr(w, l), ToStr(w, r))
  }

  /** Comparison of a value with the string value of a node. */
  predicate Against(w: World, op: Relation, v: Value, x: Ref, nodeFirst: bool) {
    var s := Str(StringValue(w.doc, x));
    if nodeFirst then Scalars(w, op, s, v) else Scalars(w, op, v, s)
  }

  predicate SomeNode(w: World, op: Relation, v: Value, ns: seq<Ref>, nodeFirst: bool) {
    exists x :: x in ns && Against(w, op, v, x, nodeFirst)
  }

  predicate SomePair(w: World, op: Relation, ls: seq<Ref>, rs: seq<Ref>) {
    exists x :: x in ls && SomeNode(w, op, Str(StringValue(w.doc, x)), rs, false)
  }

  /**
   Section 3.4: a node set compares like any of its nodes, except with a boolean in an equality.
   In a relational comparison with a boolean the code looks at the nodes one by one as well.
   */
  predicate Compared(w: World, op: Relation, l: Value, r: Value) {
    if l.Nodes? && r.Nodes? then SomePair(w, op, l.ns, r.ns)
    else if l.Nodes? && !(IsEquality(op) && r.Bool?) then SomeNode(w, op, r, l.ns, true)
    else if r.Nodes? && !(IsEquality(op) && l.Bool?) then SomeNode(w, op, l, r.ns, false)
    else Scalars(w, op, l, r)
  }

  function Comparison(w: World, op: Relation, greater: bool, l: Value, r: Value): Value {
    Bool(if greater then Compared(w, op, r, l) else Compared(w, op, l, r))
  }

  function Attr(doc: Doc, x: Ref, name: string): Option<string> {
    if x.N? && x.i < |doc.nodes| then FindAttribute(doc.nodes[x.i].attributes, name) else None
  }

  /** xml_node::attribute: the value of the first attribute with this name. */
  function FindAttribute(attributes: seq<Attribute>, name: string): Option<string> {
    if attributes == [] then None
    else if attributes[0].name == Some(name) then Some(NameOr(attributes[0].value))
    else FindAttribute(attributes[1..], name)
  }

  /** translate(): characters of `from` are replaced by, or dropped for want of, their counterparts in `to`. */
  function Translated(s: string, from: string, to: string): string {
    if s == "" then ""
    else
      var pos := Find(from, s[0]);
      (if pos == |from| then [s[0]] else if pos < |to| then [to[pos]] else []) + Translated(s[1..], from, to)
  }

  /** translate_table */
  function TranslatedByTable(s: string, table: seq<nat>): string {
    if s == "" then ""
    else
      var ch := s[0] as int;
      (if ch >= 128 || ch >= |table| then [s[0]] else if table[ch] >= 128 then [] else [table[ch] as char])
      + TranslatedByTable(s[1..], table)
  }

  function Meaning(w: World, e: Expr, c: Context): Value
    decreases e, 0
  {
    match e
    case Here => Nodes(if c.n.Null? then [] else [c.n])
    case Root => Nodes(if c.n.Null? then [] else [N(0)])
    case Step(left, axis, test, preds) => Nodes(AsSet(Gather(Contribution(w, axis, test, preds), SetOf(Meaning(w, left, c)))))
    case Filter(left, pred, _) => Nodes(Keep(Judge(w, pred), SetOf(Meaning(w, left, c)), 0))
    case Union(left, right) => Nodes(AsSet(SetOf(Meaning(w, left, c)) + SetOf(Meaning(w, right, c))))
    case Id(_) => Nodes([])
    case Variable(name, kind) =>
      (match kind
       case BoolKind => Bool(w.boolOf(name))
       case NumKind => Num(w.numOf(name))
       case StrKind => Str(w.strOf(name))
       case SetKind => Nodes(AsSet(w.setOf(name))))
    case Or(left, right) => Bool(ToBool(Meaning(w, left, c)) || ToBool(Meaning(w, right, c)))
    case And(left, right) => Bool(ToBool(Meaning(w, left, c)) && ToBool(Meaning(w, right, c)))
    case Compare(op, greater, left, right) =>
      Comparison(w, op, greater, Meaning(w, left, c), Meaning(w, right, c))
    case BooleanFn(left) => Bool(ToBool(Meaning(w, left, c)))
    case Not(left) => Bool(!ToBool(Meaning(w, left, c)))
    case True => Bool(true)
    case False => Bool(false)
    case TextHolds(op, left, right) => Bool(w.textTest(op, ToStr(w, Meaning(w, left, c)), ToStr(w, Meaning(w, right, c))))
    case CompareAttribute(left, right) =>
      Bool(left.Step? && left.test.NameIs? && IsXPathAttribute(left.test.name) &&
           Attr(w.doc, c.n, left.test.name) == Some(ToStr(w, Meaning(w, right, c))))
    case Arith(op, left, right) => Num(w.arith(op, ToNum(w, Meaning(w, left, c)), ToNum(w, Meaning(w, right, c))))
    case NumCall(op, left) => Num(w.numFn(op, ToNum(w, Meaning(w, left, c))))
    case Number(n) => Num(n)
    case LastFn => Num(FromSize(c.size))
    case PositionFn => Num(FromSize(c.position))
    case Count(left) => Num(FromSize(|SetOf(Meaning(w, left, c))|))
    case StringLength0 => Num(FromSize(|StringValue(w.doc, c.n)|))
    case StringLength1(left) => Num(FromSize(|ToStr(w, Meaning(w, left, c))|))
    case Number0 => Num(w.parse(StringValue(w.doc, c.n)))
    case Number1(left) => Num(ToNum(w, Meaning(w, left, c)))
    case Literal(s) => Str(s)
    case Name0(op) => Str(w.nameFn(op, c.n))
    case Name1(op, left) => Str(w.nameFn(op, First(SetOf(Meaning(w, left, c)))))
    case String0 => Str(StringValue(w.doc, c.n))
    case String1(left) => Str(ToStr(w, Meaning(w, left, c)))
    case TextCall(op, args) => Str(w.textFn(op, Strings(w, args, c)))
    case Translate(left, from, to) =>
      Str(Translated(ToStr(w, Meaning(w, left, c)), ToStr(w, Meaning(w, from, c)), ToStr(w, Meaning(w, to, c))))
    case TranslateTable(left, _, _, table) => Str(TranslatedByTable(ToStr(w, Meaning(w, left, c)), table))
  }

  function Strings(w: World, args: Args, c: Context): seq<string>
    decreases args, 0
  {
    match args
    case NoArg => []
    case Arg(head, next) => [ToStr(w, Meaning(w, head, c))] + Strings(w, next, c)
  }

  /** Section 2.4: a number is compared with the context position, anything else is converted to a boolean. */
  function Holds(w: World, pred: Expr, c: Context): bool
    decreases pred, 1
  {
    var v := Meaning(w, pred, c);
    if KindOf(pred) == NumKind then NumEqual(ToNum(w, v), FromSize(c.position)) else ToBool(v)
  }

  /** The predicate as a test of a node, its position and the number of nodes. */
  function Judge(w: World, pred: Expr): (Ref, nat, nat) -> bool
    decreases pred, 2
  {
    (x: Ref, position: nat, size: nat) => Holds(w, pred, Context(x, position, size))
  }

  /** The predicates of a step filter one after the other. */
  function KeepAll(w: World, preds: Preds, list: seq<Ref>): seq<Ref>
    decreases preds, 0
  {
    match preds
    case NoPred => list
    case Pred(expr, _, next) => KeepAll(w, next, Keep(Judge(w, expr), list, 0))
  }

  /** What one context node contributes to a step, in the order of the axis. */
  function Contribution(w: World, axis: Axis, test: Test, preds: Preds): Ref -> seq<Ref>
    decreases preds, 1
  {
    x => KeepAll(w, preds, StepFrom(w.doc, axis, test, x))
  }

  /** What the parser guarantees: operands that must be node sets are, and name tests have a name. */
  predicate WellTyped(e: Expr)
    decreases e, 0
  {
    match e
    case Here => false
    case Step(left, _, test, preds) =>
      && (left.Here? || (WellTyped(left) && KindOf(left) == SetKind))
      && (test.NameIs? ==> test.name != "") && PredsTyped(preds)
    case Filter(left, pred, _) => WellTyped(left) && KindOf(left) == SetKind && WellTyped(pred)
    case Union(left, right) => WellTyped(left) && WellTyped(right) && KindOf(left) == SetKind && KindOf(right) == SetKind
    case Id(left) => WellTyped(left)
    case Or(left, right) => WellTyped(left) && WellTyped(right)
    case And(left, right) => WellTyped(left) && WellTyped(right)
    case Compare(_, _, left, right) => WellTyped(left) && WellTyped(right)
    case BooleanFn(left) => WellTyped(left)
    case Not(left) => WellTyped(left)
    case TextHolds(_, left, right) => WellTyped(left) && WellTyped(right)
    case CompareAttribute(left, right) =>
      && left.Step? && left.axis == AttributeAxis && left.test.NameIs? && left.test.name != ""
      && (right.Literal? || (right.Variable? && right.kind == StrKind))
    case Arith(_, left, right) => WellTyped(left) && WellTyped(right)
    case NumCall(_, left) => WellTyped(left)
    case Count(left) => WellTyped(left) && KindOf(left) == SetKind
    case StringLength1(left) => WellTyped(left)
    case Number1(left) => WellTyped(left)
    case Name1(_, left) => WellTyped(left) && KindOf(left) == SetKind
    case String1(left) => WellTyped(left)
    case TextCall(_, args) => ArgsTyped(args)
    case Translate(left, from, to) => WellTyped(left) && WellTyped(from) && WellTyped(to)
    case TranslateTable(left, _, _, table) => WellTyped(left)
    case _ => true
  }

  predicate PredsTyped(preds: Preds)
    decreases preds, 0
  {
    preds.Pred? ==> WellTyped(preds.expr) && PredsTyped(preds.next)
  }

  predicate ArgsTyped(args: Args)
    decreases args, 0
  {
    args.Arg? ==> WellTyped(args.head) && ArgsTyped(args.next)
  }

  lemma {:induction false} KeepAllOrder(w: World, preds: Preds, list: seq<Ref>, less: (Ref, Ref) -> bool)
    requires StrictlySorted(less, list)
    ensures StrictlySorted(less, KeepAll(w, preds, list))
    ensures forall x :: x in KeepAll(w, preds, list) ==> x in list
  {
    if preds.Pred? {
      KeepOrder(Judge(w, preds.expr), list, 0, less);
      KeepAllOrder(w, preds.next, Keep(Judge(w, preds.expr), list, 0), less);
    }
  }

  ghost predicate HasKind(v: Value, kind: Kind) {
    match kind
    case BoolKind => v.Bool?
    case NumKind => v.Num?
    case StrKind => v.Str?
    case SetKind => v.Nodes? && InOrder(v.ns)
  }

  /** The value of an expression has the type of the expression; node sets come in document order. */
  lemma {:induction false} MeaningKind(w: World, e: Expr, c: Context)
    requires WellTyped(e)
    ensures HasKind(Meaning(w, e, c), KindOf(e))
  {
    if e.Filter? {
      MeaningKind(w, e.left, c);
      KeepOrder(Judge(w, e.pred), SetOf(Meaning(w, e.left, c)), 0, Precedes);
    } else if e.Step? {
      AsSetSpec(Gather(Contribution(w, e.axis, e.test, e.preds), SetOf(Meaning(w, e.left, c))));
    } else if e.Union? {
      AsSetSpec(SetOf(Meaning(w, e.left, c)) + SetOf(Meaning(w, e.right, c)));
    } else if e.Variable? {
      AsSetSpec(w.setOf(e.name));
    }
  }

  /** is_posinv_expr */
  predicate IsPosInv(e: Expr)
    decreases e, 0
  {
    match e
    case PositionFn => false
    case LastFn => false
    case Here => true
    case Root => true
    case Literal(_) => true
    case Number(_) => true
    case Variable(_, _) => true
    case Step(_, _, _, _) => true
    case Filter(_, _, _) => true
    case Union(left, right) => IsPosInv(left) && IsPosInv(right)
    case Id(left) => IsPosInv(left)
    case Or(left, right) => IsPosInv(left) && IsPosInv(right)
    case And(left, right) => IsPosInv(left) && IsPosInv(right)
    case Compare(_, _, left, right) => IsPosInv(left) && IsPosInv(right)
    case BooleanFn(left) => IsPosInv(left)
    case Not(left) => IsPosInv(left)
    case True => true
    case False => true
    case TextHolds(_, left, right) => IsPosInv(left) && IsPosInv(right)
    case CompareAttribute(left, right) => IsPosInv(left) && IsPosInv(right)
    case Arith(_, left, right) => IsPosInv(left) && IsPosInv(right)
    case NumCall(_, left) => IsPosInv(left)
    case Count(left) => IsPosInv(left)
    case StringLength0 => true
    case StringLength1(left) => IsPosInv(left)
    case Number0 => true
    case Number1(left) => IsPosInv(left)
    case Name0(_) => true
    case Name1(_, left) => IsPosInv(left)
    case String0 => true
    case String1(left) => IsPosInv(left)
    case TextCall(_, args) => ArgsPosInv(args)
    case Translate(left, from, to) => IsPosInv(left) && IsPosInv(from) && IsPosInv(to)
    case TranslateTable(left, from, to, _) => IsPosInv(left) && IsPosInv(from) && IsPosInv(to)
  }

  predicate ArgsPosInv(args: Args)
    decreases args, 0
  {
    args.Arg? ==> IsPosInv(args.head) && ArgsPosInv(args.next)
  }

  /** A node set never depends on the context position, and no positionally invariant expression does. */
  lemma {:induction false} PosInvMeaning(w: World, e: Expr, c: Context, c': Context)
    requires WellTyped(e) && c.n == c'.n && (KindOf(e) == SetKind || IsPosInv(e))
    ensures Meaning(w, e, c) == Meaning(w, e, c')
    decreases e, 2
  {
    match KindOf(e)
    case SetKind => PosInvSet(w, e, c, c');
    case BoolKind => PosInvBool(w, e, c, c');
    case NumKind => PosInvNum(w, e, c, c');
    case StrKind => PosInvStr(w, e, c, c');
  }

  lemma {:induction false} PosInvSet(w: World, e: Expr, c: Context, c': Context)
    requires WellTyped(e) && c.n == c'.n && KindOf(e) == SetKind
    ensures Meaning(w, e, c) == Meaning(w, e, c')
    decreases e, 0
  {
    match e
    case Step(left, _, _, _) => if !left.Here? { PosInvMeaning(w, left, c, c'); }
    case Filter(left, _, _) => PosInvMeaning(w, left, c, c');
    case Union(left, right) => PosInvMeaning(w, left, c, c'); PosInvMeaning(w, right, c, c');
    case _ =>
  }

  lemma {:induction false} PosInvBool(w: World, e: Expr, c: Context, c': Context)
    requires WellTyped(e) && c.n == c'.n && KindOf(e) == BoolKind && IsPosInv(e)
    ensures Meaning(w, e, c) == Meaning(w, e, c')
    decreases e, 1
  {
    match e
    case Or(_, _) => PosInvPair(w, e, c, c');
    case And(_, _) => PosInvPair(w, e, c, c');
    case Compare(_, _, _, _) => PosInvCompare(w, e, c, c');
    case BooleanFn(left) => PosInvMeaning(w, left, c, c');
    case Not(left) => PosInvMeaning(w, left, c, c');
    case TextHolds(_, _, _) => PosInvPair(w, e, c, c');
    case _ =>
  }

  lemma {:induction false} PosInvPair(w: World, e: Expr, c: Context, c': Context)
    requires WellTyped(e) && c.n == c'.n && (e.Or? || e.And? || e.TextHolds?) && IsPosInv(e)
    ensures Meaning(w, e, c) == Meaning(w, e, c')
    decreases e, 0
  {
    PosInvMeaning(w, e.left, c, c');
    PosInvMeaning(w, e.right, c, c');
  }

  lemma {:induction false} PosInvCompare(w: World, e: Expr, c: Context, c': Context)
    requires WellTyped(e) && c.n == c'.n && e.Compare? && IsPosInv(e)
    ensures Meaning(w, e, c) == Meaning(w, e, c')
    decreases e, 0
  {
    PosInvMeaning(w, e.left, c, c');
    PosInvMeaning(w, e.right, c, c');
  }

  lemma {:induction false} PosInvNum(w: World, e: Expr, c: Context, c': Context)
    requires WellTyped(e) && c.n == c'.n && KindOf(e) == NumKind && IsPosInv(e)
    ensures Meaning(w, e, c) == Meaning(w, e, c')
    decreases e, 0
  {
    match e
    case Arith(_, left, right) => PosInvMeaning(w, left, c, c'); PosInvMeaning(w, right, c, c');
    case NumCall(_, left) => PosInvMeaning(w, left, c, c');
    case Count(left) => PosInvMeaning(w, left, c, c');
    case StringLength1(left) => PosInvMeaning(w, left, c, c');
    case Number1(left) => PosInvMeaning(w, left, c, c');
    case _ =>
  }

  lemma {:induction false} PosInvStr(w: World, e: Expr, c: Context, c': Context)
    requires WellTyped(e) && c.n == c'.n && KindOf(e) == StrKind && IsPosInv(e)
    ensures Meaning(w, e, c) == Meaning(w, e, c')
    decreases e, 0
  {
    match e
    case Name1(_, left) => PosInvMeaning(w, left, c, c');
    case String1(left) => PosInvMeaning(w, left, c, c');
    case TextCall(_, args) => PosInvStrings(w, args, c, c');
    case Translate(left, from, to) => PosInvMeaning(w, left, c, c'); PosInvMeaning(w, from, c, c'); PosInvMeaning(w, to, c, c');
    case TranslateTable(left, _, _, _) => PosInvMeaning(w, left, c, c');
    case _ =>
  }

  lemma {:induction false} PosInvStrings(w: World, args: Args, c: Context, c': Context)
    requires ArgsTyped(args) && c.n == c'.n && ArgsPosInv(args)
    ensures Strings(w, args, c) == Strings(w, args, c')
    decreases args, 0
  {
    if args.Arg? {
      PosInvMeaning(w, args.head, c, c');
      PosInvStrings(w, args.next, c, c');
    }
  }

  /** What a tag claims about the predicate it is attached to. */
  predicate TagOk(tag: Tag, pred: Expr) {
    match tag
    case Default => true
    case PosInv => KindOf(pred) != NumKind && IsPosInv(pred)
    case Constant => KindOf(pred) == NumKind && (pred.Number? || pred.Variable? || pred.LastFn?)
    case ConstantOne => pred == Number(Fin(1.0))
  }

  predicate TagsOk(e: Expr)
    decreases e, 0
  {
    match e
    case Step(left, _, _, preds) => TagsOk(left) && PredTagsOk(preds)
    case Filter(left, pred, tag) => TagsOk(left) && TagsOk(pred) && TagOk(tag, pred)
    case Union(left, right) => TagsOk(left) && TagsOk(right)
    case Or(left, right) => TagsOk(left) && TagsOk(right)
    case And(left, right) => TagsOk(left) && TagsOk(right)
    case Compare(_, _, left, right) => TagsOk(left) && TagsOk(right)
    case BooleanFn(left) => TagsOk(left)
    case Not(left) => TagsOk(left)
    case TextHolds(_, left, right) => TagsOk(left) && TagsOk(right)
    case Arith(_, left, right) => TagsOk(left) && TagsOk(right)
    case NumCall(_, left) => TagsOk(left)
    case Count(left) => TagsOk(left)
    case StringLength1(left) => TagsOk(left)
    case Number1(left) => TagsOk(left)
    case Name1(_, left) => TagsOk(left)
    case String1(left) => TagsOk(left)
    case TextCall(_, args) => ArgTagsOk(args)
    case Translate(left, from, to) => TagsOk(left) && TagsOk(from) && TagsOk(to)
    case TranslateTable(left, _, _, _) => TagsOk(left)
    case _ => true
  }

  predicate PredTagsOk(preds: Preds)
    decreases preds, 0
  {
    preds.Pred? ==> TagsOk(preds.expr) && TagOk(preds.tag, preds.expr) && PredTagsOk(preds.next)
  }

  predicate ArgTagsOk(args: Args)
    decreases args, 0
  {
    args.Arg? ==> TagsOk(args.head) && ArgTagsOk(args.next)
  }

  /** An expression that can be evaluated. */
  ghost predicate Ready(w: World, e: Expr) {
    ValidWorld(w) && WellTyped(e) && TagsOk(e)
  }

  ghost predicate ValidWorld(w: World) {
    && ValidDoc(w.doc)
    && (forall v :: NoRepeats(w.setOf(v)) && Tagged(w.orderOf(v), w.setOf(v)))
    && ValidAddresses(w.address)
  }
}
