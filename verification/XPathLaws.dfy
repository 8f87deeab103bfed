/** Laws of XPath 1.0 for expressions, in the words of its sections 2.4, 3.3, 3.4 and 4. */
module XPathLaws {
  import opened Basics
  import opened Shape
  import opened Dom
  import Sort
  import opened XPathData
  import opened XPathSets
  import opened XPathMeaning
  import opened XPathEval
  import Events

  // Numbers: section 3.4, after IEEE 754

  lemma NumbersCompare(x: real, y: real)
    ensures NumHolds(Equal, Fin(x), Fin(y)) <==> x == y
    ensures NumHolds(NotEqual, Fin(x), Fin(y)) <==> x != y
    ensures NumHolds(Less, Fin(x), Fin(y)) <==> x < y
    ensures NumHolds(LessOrEqual, Fin(x), Fin(y)) <==> x <= y
  {
  }

  /** Infinities are beyond all numbers, and equal to themselves. */
  lemma InfinitiesCompare(x: real)
    ensures NumHolds(Less, NegInf, Fin(x)) && NumHolds(Less, Fin(x), PosInf) && NumHolds(Less, NegInf, PosInf)
    ensures !NumHolds(Less, Fin(x), NegInf) && !NumHolds(Less, PosInf, Fin(x)) && !NumHolds(Less, PosInf, NegInf)
    ensures forall n <- [NegInf, PosInf] :: NumHolds(Equal, n, n) && NumHolds(LessOrEqual, n, n) && !NumHolds(Less, n, n)
  {
  }

  lemma LessOrEqualIs(a: Num, b: Num)
    ensures NumHolds(LessOrEqual, a, b) <==> NumHolds(Less, a, b) || NumHolds(Equal, a, b)
    ensures NumHolds(NotEqual, a, b) <==> !NumHolds(Equal, a, b)
    ensures NumHolds(Equal, a, b) <==> NumHolds(Equal, b, a)
  {
  }

  /** Nothing holds of a NaN but that it is different. */
  lemma NaNCompares(n: Num)
    ensures forall op <- [Equal, Less, LessOrEqual] :: !NumHolds(op, NaN, n) && !NumHolds(op, n, NaN)
    ensures NumHolds(NotEqual, NaN, n) && NumHolds(NotEqual, n, NaN)
  {
  }

  // Conversions: sections 4.2, 4.3 and 4.4

  lemma BooleanOf(x: real, s: string, ns: seq<Ref>)
    ensures ToBool(Num(Fin(x))) <==> x != 0.0
    ensures !ToBool(Num(NaN)) && ToBool(Num(PosInf)) && ToBool(Num(NegInf))
    ensures ToBool(Str(s)) <==> |s| > 0
    ensures ToBool(Nodes(ns)) <==> |ns| > 0
    ensures ToBool(Bool(true)) && !ToBool(Bool(false))
  {
  }

  lemma StringOf(w: World, n: Num, s: string, ns: seq<Ref>)
    ensures ToStr(w, Bool(true)) == "true" && ToStr(w, Bool(false)) == "false"
    ensures ToStr(w, Num(n)) == w.show(n) && ToStr(w, Str(s)) == s
    ensures ToStr(w, Nodes([])) == "" && (ns != [] ==> ToStr(w, Nodes(ns)) == StringValue(w.doc, ns[0]))
  {
  }

  lemma NumberOf(w: World, n: Num, s: string, ns: seq<Ref>)
    ensures ToNum(w, Bool(true)) == Fin(1.0) && ToNum(w, Bool(false)) == Fin(0.0)
    ensures ToNum(w, Num(n)) == n && ToNum(w, Str(s)) == w.parse(s)
    ensures ToNum(w, Nodes(ns)) == w.parse(if ns == [] then "" else StringValue(w.doc, ns[0]))
  {
  }

  // Booleans: sections 3.4 and 4.3

  predicate True(w: World, e: Expr, c: Context) {
    ToBool(Meaning(w, e, c))
  }

  lemma OrAnd(w: World, e: Expr, f: Expr, c: Context)
    ensures True(w, Or(e, f), c) <==> True(w, e, c) || True(w, f, c)
    ensures True(w, And(e, f), c) <==> True(w, e, c) && True(w, f, c)
  {
  }

  lemma NotIs(w: World, e: Expr, c: Context)
    ensures True(w, Not(e), c) != True(w, e, c) && True(w, BooleanFn(e), c) == True(w, e, c)
    ensures True(w, Expr.True, c) && !True(w, Expr.False, c)
  {
  }

  // Comparisons: section 3.4

  /** Values that are not node sets: (in)equality of booleans first, then of numbers, then of strings; other relations of numbers. */
  lemma ScalarsCompare(w: World, a: bool, n: Num, m: Num, s: string, t: string, v: Value)
    requires !v.Nodes?
    ensures Compared(w, Equal, Bool(a), v) <==> a == ToBool(v)
    ensures Compared(w, Equal, v, Bool(a)) <==> a == ToBool(v)
    ensures Compared(w, Equal, Num(n), Num(m)) <==> NumHolds(Equal, n, m)
    ensures Compared(w, Equal, Num(n), Str(s)) <==> NumHolds(Equal, n, w.parse(s))
    ensures Compared(w, Equal, Str(s), Num(n)) <==> NumHolds(Equal, w.parse(s), n)
    ensures Compared(w, Equal, Str(s), Str(t)) <==> s == t
    ensures Compared(w, NotEqual, v, Str(s)) <==> !Compared(w, Equal, v, Str(s))
    ensures Compared(w, NotEqual, Str(s), v) <==> !Compared(w, Equal, Str(s), v)
    ensures Compared(w, NotEqual, v, Num(n)) <==> !Compared(w, Equal, v, Num(n))
    ensures Compared(w, NotEqual, v, Bool(a)) <==> !Compared(w, Equal, v, Bool(a))
    ensures Compared(w, Less, v, Str(s)) <==> NumHolds(Less, ToNum(w, v), w.parse(s))
    ensures Compared(w, LessOrEqual, v, Num(n)) <==> NumHolds(LessOrEqual, ToNum(w, v), n)
    ensures Compared(w, Less, Num(n), v) <==> NumHolds(Less, n, ToNum(w, v))
  {
  }

  /** A node set compares as any of its nodes does; in an (in)equality with a boolean it is converted to one. */
  lemma SetWithValue(w: World, op: Relation, ns: seq<Ref>, s: string, n: Num, a: bool)
    ensures Compared(w, Equal, Nodes(ns), Str(s)) <==> exists x <- ns :: StringValue(w.doc, x) == s
    ensures Compared(w, NotEqual, Nodes(ns), Str(s)) <==> exists x <- ns :: StringValue(w.doc, x) != s
    ensures Compared(w, op, Nodes(ns), Num(n)) <==> exists x <- ns :: NumHolds(op, w.parse(StringValue(w.doc, x)), n)
    ensures Compared(w, op, Num(n), Nodes(ns)) <==> exists x <- ns :: NumHolds(op, n, w.parse(StringValue(w.doc, x)))
    ensures Compared(w, Equal, Nodes(ns), Bool(a)) <==> (|ns| > 0) == a
  {
  }

  lemma SetWithSet(w: World, ns: seq<Ref>, ms: seq<Ref>)
    ensures Compared(w, Equal, Nodes(ns), Nodes(ms)) <==>
              exists x <- ns :: exists y <- ms :: StringValue(w.doc, x) == StringValue(w.doc, y)
    ensures Compared(w, Less, Nodes(ns), Nodes(ms)) <==>
              exists x <- ns :: exists y <- ms :: NumHolds(Less, w.parse(StringValue(w.doc, x)), w.parse(StringValue(w.doc, y)))
  {
  }

  /** The operands of > and >= are those of < and <= exchanged. */
  lemma GreaterIsLess(w: World, op: Relation, e: Expr, f: Expr, c: Context)
    ensures Meaning(w, Compare(op, true, e, f), c) == Meaning(w, Compare(op, false, f, e), c)
    ensures True(w, Compare(op, false, e, f), c) <==> Compared(w, op, Meaning(w, e, c), Meaning(w, f, c))
  {
  }

  // Axes: section 2.2

  /** All other axes from the parents, the ancestors and the order of the nodes. */
  lemma AxesFit(d: Depths, i: nat, y: nat)
    requires WellFormed(d) && i < |d| && y < |d|
    ensures OnAxis(d, ParentAxis, i, y) <==> y == Parent(d, i)
    ensures OnAxis(d, Child, i, y) <==> OnAxis(d, ParentAxis, y, i)
    ensures OnAxis(d, Descendant, i, y) <==> OnAxis(d, Ancestor, y, i)
    ensures OnAxis(d, Self, i, y) <==> y == i
    ensures OnAxis(d, AncestorOrSelf, i, y) <==> y == i || OnAxis(d, Ancestor, i, y)
    ensures OnAxis(d, DescendantOrSelf, i, y) <==> y == i || OnAxis(d, Descendant, i, y)
    ensures OnAxis(d, Following, i, y) <==> i < y && !OnAxis(d, Descendant, i, y)
    ensures OnAxis(d, Preceding, i, y) <==> OnAxis(d, Following, y, i)
    ensures OnAxis(d, FollowingSibling, i, y) <==> i < y && Parent(d, i) == Parent(d, y)
    ensures OnAxis(d, PrecedingSibling, i, y) <==> OnAxis(d, FollowingSibling, y, i)
  {
  }

  /** The ancestors are the parent and its ancestors. */
  lemma AncestorsFit(d: Depths, i: nat, y: nat)
    requires WellFormed(d) && i < |d| && y < |d|
    ensures Parent(d, i) == -1 <==> i == 0
    ensures OnAxis(d, Ancestor, i, y) <==> 0 < i && (y == Parent(d, i) || OnAxis(d, Ancestor, Parent(d, i), y))
  {
    if 0 < i { ParentDepth(d, i); }
    if y < i { AncestorStep(d, y, i); }
  }

  /** An attribute comes right after the start of its element, which is its parent, and before the children of that. */
  lemma AttributeAxesFit(d: Depths, i: nat, y: nat)
    requires WellFormed(d) && i < |d| && y < |d|
    ensures OnAttributeAxis(d, ParentAxis, i, y) <==> y == i
    ensures OnAttributeAxis(d, Ancestor, i, y) <==> y == i || OnAxis(d, Ancestor, i, y)
    ensures OnAttributeAxis(d, AncestorOrSelf, i, y) <==> OnAttributeAxis(d, Ancestor, i, y)
    ensures OnAttributeAxis(d, Following, i, y) <==> OnAxis(d, Following, i, y) || OnAxis(d, Descendant, i, y)
    ensures OnAttributeAxis(d, Preceding, i, y) <==> OnAxis(d, Preceding, i, y)
    ensures forall axis <- [Child, Descendant, DescendantOrSelf, FollowingSibling, PrecedingSibling, Self] ::
              !OnAttributeAxis(d, axis, i, y)
  {
  }

  /** Document order, section 5: attributes come after their element and before its children. */
  lemma DocumentOrderIs(i: nat, j: nat, k: nat, l: nat)
    ensures Precedes(N(i), N(k)) <==> i < k
    ensures Precedes(N(i), A(k, l)) <==> i <= k
    ensures Precedes(A(i, j), N(k)) <==> i < k
    ensures Precedes(A(i, j), A(k, l)) <==> i < k || (i == k && j < l)
  {
  }

  // Predicates: section 2.4

  /** Of a list without repetitions a predicate keeps, in its order, the nodes it holds for at their positions. */
  lemma {:induction false} KeptAt(judge: (Ref, nat, nat) -> bool, list: seq<Ref>, i: nat, k: nat)
    requires NoRepeats(list) && i <= k < |list|
    ensures list[k] in Keep(judge, list, i) <==> judge(list[k], k + 1, |list|)
    decreases k - i
  {
    if i < k {
      assert Sort.Before(Differ, list, i, k);
      KeptAt(judge, list, i + 1, k);
    } else {
      KeptLater(judge, list, i + 1, list[i]);
    }
  }

  lemma {:induction false} KeptLater(judge: (Ref, nat, nat) -> bool, list: seq<Ref>, i: nat, x: Ref)
    requires NoRepeats(list) && 0 < i <= |list| && x == list[i - 1]
    ensures x !in Keep(judge, list, i)
  {
    KeptFrom(judge, list, i);
    forall y | y in Keep(judge, list, i) ensures y != x {
      var k :| i <= k < |list| && list[k] == y;
      assert Sort.Before(Differ, list, i - 1, k);
    }
  }

  lemma {:induction false} KeptFrom(judge: (Ref, nat, nat) -> bool, list: seq<Ref>, i: nat)
    ensures forall y :: y in Keep(judge, list, i) ==> exists k :: i <= k < |list| && list[k] == y
    decreases |list| - i
  {
    if i < |list| { KeptFrom(judge, list, i + 1); }
  }

  /** A number is the position of the one node to keep, counted from 1; other values are converted to booleans. */
  lemma NumberPredicate(w: World, list: seq<Ref>, k: nat)
    ensures Keep(Judge(w, Number(Fin(k as real))), list, 0) == if 1 <= k <= |list| then [list[k - 1]] else []
  {
    var judge := Judge(w, Number(Fin(k as real)));
    forall x, p: nat, n ensures judge(x, p, n) <==> p == k {
      PositionJudged(w, k, x, p, n);
    }
    KeepAt(judge, list, k, 0);
  }

  lemma PositionJudged(w: World, k: nat, x: Ref, position: nat, size: nat)
    ensures Judge(w, Number(Fin(k as real)))(x, position, size) <==> position == k
    ensures Judge(w, LastFn)(x, position, size) <==> position == size
  {
    var c := Context(x, position, size);
    assert Meaning(w, LastFn, c) == Num(FromSize(size)) && Meaning(w, Number(Fin(k as real)), c) == Num(FromSize(k));
    assert forall n: nat :: NumEqual(FromSize(n), FromSize(position)) <==> position == n;
  }

  lemma LastPredicate(w: World, list: seq<Ref>)
    ensures Keep(Judge(w, LastFn), list, 0) == if list == [] then [] else [list[|list| - 1]]
  {
    var judge := Judge(w, LastFn);
    forall x, p: nat, n ensures judge(x, p, n) <==> p == n {
      PositionJudged(w, 0, x, p, n);
    }
    KeepAt(judge, list, |list|, 0);
  }

  lemma OtherPredicate(w: World, pred: Expr, x: Ref, position: nat, size: nat)
    requires KindOf(pred) != NumKind
    ensures Judge(w, pred)(x, position, size) <==> True(w, pred, Context(x, position, size))
  {
  }

  // Node sets: sections 3.3 and 4.1

  lemma UnionIs(w: World, e: Expr, f: Expr, c: Context, x: Ref)
    ensures x in SetOf(Meaning(w, Union(e, f), c)) <==> x in SetOf(Meaning(w, e, c)) || x in SetOf(Meaning(w, f, c))
    ensures InOrder(SetOf(Meaning(w, Union(e, f), c)))
  {
    AsSetSpec(SetOf(Meaning(w, e, c)) + SetOf(Meaning(w, f, c)));
  }

  /** count() is the number of nodes, and a step takes every node of the set to the left of it as its context. */
  lemma CountIs(w: World, e: Expr, c: Context)
    requires InOrder(SetOf(Meaning(w, e, c)))
    ensures Meaning(w, Count(e), c) == Num(Fin(|set x | x in SetOf(Meaning(w, e, c))| as real))
  {
    OrderedNoRepeats(SetOf(Meaning(w, e, c)));
    SizeOf(SetOf(Meaning(w, e, c)));
  }

  lemma StepIs(w: World, left: Expr, axis: Axis, test: Test, c: Context, y: Ref)
    ensures y in SetOf(Meaning(w, Step(left, axis, test, NoPred), c)) <==>
            exists x <- SetOf(Meaning(w, left, c)) :: y in StepFrom(w.doc, axis, test, x)
  {
    var con, contexts := Contribution(w, axis, test, NoPred), SetOf(Meaning(w, left, c));
    AsSetSpec(Gather(con, contexts));
    GatherIs(con, contexts, y);
    forall x ensures con(x) == StepFrom(w.doc, axis, test, x) {
      ContributionIs(w, axis, test, NoPred, x);
    }
  }

  lemma GatherIs(con: Ref -> seq<Ref>, contexts: seq<Ref>, y: Ref)
    ensures y in Gather(con, contexts) <==> exists x <- contexts :: y in con(x)
  {
    if y in Gather(con, contexts) {
      var k := GatheredFrom(con, contexts, y);
      assert contexts[k] in contexts;
    }
    if x :| x in contexts && y in con(x) {
      var k: nat :| k < |contexts| && contexts[k] == x;
      Gathered(con, contexts, k, y);
    }
  }

  // Strings: section 4.2

  /** translate() works character by character: the first occurrence in `from` decides. */
  lemma {:induction false} TranslateJoin(s: string, t: string, from: string, to: string)
    ensures Translated(s + t, from, to) == Translated(s, from, to) + Translated(t, from, to)
  {
    if s == "" {
      assert s + t == t;
    } else {
      assert (s + t)[1..] == s[1..] + t;
      TranslateJoin(s[1..], t, from, to);
    }
  }

  lemma TranslateCharacter(ch: char, from: string, to: string, k: nat)
    ensures ch !in from ==> Translated([ch], from, to) == [ch]
    ensures k < |from| && from[k] == ch && ch !in from[..k] ==> Translated([ch], from, to) == if k < |to| then [to[k]] else ""
  {
    var p := Find(from, ch);
    Events.FindIs(from, ch);
    assert [ch][1..] == "";
    if k < |from| && from[k] == ch && ch !in from[..k] {
      forall j | 0 <= j < k ensures from[j] != ch {
        assert from[..k][j] == from[j];
      }
      forall j | 0 <= j < p ensures from[j] != ch {
        assert from[..p][j] == from[j];
      }
    }
  }
}
