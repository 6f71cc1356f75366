/**
 Lazy column expressions: trees of columns, scalars and elementwise operations. An
 expression is evaluated array by array; its meaning is row by row. The values and the
 operations are parameters, so nothing here depends on what a ufunc computes, only on
 its working one row at a time.
 */
module Query {
  import opened Sequences

  datatype Rel = Less | LessEqual | Greater | GreaterEqual | Equal | NotEqual

  datatype Ufunc = Relation(rel: Rel) | BitwiseAnd | LogicalAnd | LogicalOr | LogicalNot | Named(name: string)

  datatype Operand<V> = Node(e: Expr<V>) | Lit(v: V)

  /** `values` of a membership test is one value, a list of test values, or, by mistake, an expression. */
  datatype Expr<V> =
    | Col(name: string)
    | Op(f: Ufunc, args: seq<Operand<V>>)
    | Compare(rel: Rel, left: Operand<V>, right: Operand<V>)
    | Isin(target: Operand<V>, values: Operand<V>)
    | Where(cond: Operand<V>, a: Operand<V>, b: Operand<V>)

  /** What the operations do to one row; `boxed` is the array of one object that NumPy makes of an expression. */
  datatype Semantics<!V> = Semantics(apply: (Ufunc, seq<V>) -> V, member: (V, V) -> V, choose: (V, V, V) -> V,
                                     boxed: Expr<V> -> V)

  /** `isin_test_values`: the test values are made an array when the node is built. */
  function TestValues<V>(s: Semantics<V>, values: Operand<V>): V {
    match values case Lit(v) => v case Node(e) => s.boxed(e)
  }

  /**
   No membership test has an expression for its test values. `numpy.isin` on one raises: it
   compares with the boxed expression and cannot store the comparison node it gets.
   */
  predicate Evaluable<V>(e: Expr<V>)
    decreases e
  {
    match e
    case Col(_) => true
    case Op(_, args) => forall k :: 0 <= k < |args| ==> OperandEvaluable(args[k])
    case Compare(_, left, right) => OperandEvaluable(left) && OperandEvaluable(right)
    case Isin(target, values) => OperandEvaluable(target) && values.Lit?
    case Where(cond, a, b) => OperandEvaluable(cond) && OperandEvaluable(a) && OperandEvaluable(b)
  }

  predicate OperandEvaluable<V>(o: Operand<V>)
    decreases o
  {
    o.Node? ==> Evaluable(o.e)
  }

  // ---- arrays ----

  /** What NumPy hands around: a 0-d value, or one value per row. */
  datatype Array<V> = Scalar(v: V) | Vector(cells: seq<V>)

  type Columns<V> = map<string, Array<V>>

  predicate Shaped<V>(a: Array<V>, n: nat) { a.Vector? ==> |a.cells| == n }

  predicate AllShaped<V>(arrays: seq<Array<V>>, n: nat) { forall k :: 0 <= k < |arrays| ==> Shaped(arrays[k], n) }

  predicate Table<V>(columns: Columns<V>, n: nat) { forall name :: name in columns ==> Shaped(columns[name], n) }

  /** A value broadcasts to every row. */
  function At<V>(a: Array<V>, n: nat, i: nat): V
    requires Shaped(a, n) && i < n
  {
    match a case Scalar(v) => v case Vector(cells) => cells[i]
  }

  predicate AllScalar<V>(arrays: seq<Array<V>>) { forall k :: 0 <= k < |arrays| ==> arrays[k].Scalar? }

  function Values<V>(arrays: seq<Array<V>>): seq<V>
    requires AllScalar(arrays)
  {
    seq(|arrays|, k requires 0 <= k < |arrays| => arrays[k].v)
  }

  function RowOf<V>(arrays: seq<Array<V>>, n: nat, i: nat): seq<V>
    requires AllShaped(arrays, n) && i < n
  {
    seq(|arrays|, k requires 0 <= k < |arrays| => At(arrays[k], n, i))
  }

  /** An elementwise operation: a scalar from scalars, else one value per row. */
  function Lift<V>(f: seq<V> -> V, arrays: seq<Array<V>>, n: nat): (r: Array<V>)
    requires AllShaped(arrays, n)
    ensures Shaped(r, n)
  {
    if AllScalar(arrays) then Scalar(f(Values(arrays)))
    else Vector(seq(n, i requires 0 <= i < n => f(RowOf(arrays, n, i))))
  }

  function Operation<V>(s: Semantics<V>, f: Ufunc): seq<V> -> V { args => s.apply(f, args) }

  function Membership<V>(s: Semantics<V>, values: V): seq<V> -> V {
    (args: seq<V>) => if |args| == 1 then s.member(args[0], values) else values
  }

  /** Each is only ever lifted over as many operands as it takes. */
  function Choice<V>(s: Semantics<V>): seq<V> -> V {
    (args: seq<V>) => if |args| == 3 then s.choose(args[0], args[1], args[2]) else s.apply(LogicalNot, args)
  }

  // ---- `_columns` and `_evaluate` ----

  function OperandNames<V>(o: Operand<V>): set<string> {
    match o case Lit(_) => {} case Node(e) => Names(e)
  }

  function AllNames<V>(args: seq<Operand<V>>): set<string> {
    set k, name | 0 <= k < |args| && name in OperandNames(args[k]) :: name
  }

  /** The columns an expression references. */
  function Names<V>(e: Expr<V>): set<string> {
    match e
    case Col(name) => {name}
    case Op(_, args) => AllNames(args)
    case Compare(_, left, right) => OperandNames(left) + OperandNames(right)
    case Isin(target, _) => OperandNames(target)
    case Where(cond, a, b) => OperandNames(cond) + OperandNames(a) + OperandNames(b)
  }

  function EvaluateOperand<V>(s: Semantics<V>, o: Operand<V>, columns: Columns<V>, n: nat): (r: Array<V>)
    requires Table(columns, n) && OperandNames(o) <= columns.Keys
    ensures Shaped(r, n)
    decreases o
  {
    match o case Lit(v) => Scalar(v) case Node(e) => Evaluate(s, e, columns, n)
  }

  function EvaluateAll<V>(s: Semantics<V>, args: seq<Operand<V>>, columns: Columns<V>, n: nat): (r: seq<Array<V>>)
    requires Table(columns, n) && AllNames(args) <= columns.Keys
    ensures |r| == |args| && AllShaped(r, n)
    decreases args
  {
    seq(|args|, k requires 0 <= k < |args| =>
      assert OperandNames(args[k]) <= AllNames(args);
      EvaluateOperand(s, args[k], columns, n))
  }

  function Evaluate<V>(s: Semantics<V>, e: Expr<V>, columns: Columns<V>, n: nat): (r: Array<V>)
    requires Table(columns, n) && Names(e) <= columns.Keys
    ensures Shaped(r, n)
    decreases e
  {
    match e
    case Col(name) => columns[name]
    case Op(f, args) => Lift(Operation(s, f), EvaluateAll(s, args, columns, n), n)
    case Compare(rel, left, right) =>
      var arrays := [EvaluateOperand(s, left, columns, n), EvaluateOperand(s, right, columns, n)];
      Lift(Operation(s, Relation(rel)), arrays, n)
    case Isin(target, values) =>
      Lift(Membership(s, TestValues(s, values)), [EvaluateOperand(s, target, columns, n)], n)
    case Where(cond, a, b) =>
      var arrays := [EvaluateOperand(s, cond, columns, n), EvaluateOperand(s, a, columns, n),
                     EvaluateOperand(s, b, columns, n)];
      Lift(Choice(s), arrays, n)
  }

  // ---- the meaning of one row ----

  function OperandValue<V>(s: Semantics<V>, o: Operand<V>, row: map<string, V>): V
    requires OperandNames(o) <= row.Keys
    decreases o
  {
    match o case Lit(v) => v case Node(e) => RowValue(s, e, row)
  }

  function AllValues<V>(s: Semantics<V>, args: seq<Operand<V>>, row: map<string, V>): seq<V>
    requires AllNames(args) <= row.Keys
    decreases args
  {
    seq(|args|, k requires 0 <= k < |args| =>
      assert OperandNames(args[k]) <= AllNames(args);
      OperandValue(s, args[k], row))
  }

  function RowValue<V>(s: Semantics<V>, e: Expr<V>, row: map<string, V>): V
    requires Names(e) <= row.Keys
    decreases e
  {
    match e
    case Col(name) => row[name]
    case Op(f, args) => s.apply(f, AllValues(s, args, row))
    case Compare(rel, left, right) => s.apply(Relation(rel), [OperandValue(s, left, row), OperandValue(s, right, row)])
    case Isin(target, values) => s.member(OperandValue(s, target, row), TestValues(s, values))
    case Where(cond, a, b) => s.choose(OperandValue(s, cond, row), OperandValue(s, a, row), OperandValue(s, b, row))
  }

  function Row<V>(columns: Columns<V>, n: nat, i: nat): map<string, V>
    requires Table(columns, n) && i < n
  {
    map name | name in columns :: At(columns[name], n, i)
  }

  /** Lifting commutes with looking at one row. */
  lemma LiftAt<V>(f: seq<V> -> V, arrays: seq<Array<V>>, n: nat, i: nat)
    requires AllShaped(arrays, n) && i < n
    ensures At(Lift(f, arrays, n), n, i) == f(RowOf(arrays, n, i))
  {
    if AllScalar(arrays) {
      assert Values(arrays) == RowOf(arrays, n, i);
    }
  }

  /** Evaluation is row by row: every row of the result depends on that row of the columns only. */
  lemma {:induction false} RowIndependence<V>(s: Semantics<V>, e: Expr<V>, columns: Columns<V>, n: nat, i: nat)
    requires Table(columns, n) && Names(e) <= columns.Keys && i < n
    ensures At(Evaluate(s, e, columns, n), n, i) == RowValue(s, e, Row(columns, n, i))
    decreases e
  {
    match e
    case Col(name) =>
    case Op(f, args) => {
      var arrays := EvaluateAll(s, args, columns, n);
      LiftAt(Operation(s, f), arrays, n, i);
      forall k | 0 <= k < |args| ensures At(arrays[k], n, i) == AllValues(s, args, Row(columns, n, i))[k] {
        assert OperandNames(args[k]) <= AllNames(args);
        OperandRow(s, args[k], columns, n, i);
      }
      assert RowOf(arrays, n, i) == AllValues(s, args, Row(columns, n, i));
    }
    case Compare(rel, left, right) => {
      OperandRow(s, left, columns, n, i);
      OperandRow(s, right, columns, n, i);
      var arrays := [EvaluateOperand(s, left, columns, n), EvaluateOperand(s, right, columns, n)];
      LiftAt(Operation(s, Relation(rel)), arrays, n, i);
      assert RowOf(arrays, n, i) == [At(arrays[0], n, i), At(arrays[1], n, i)];
    }
    case Isin(target, values) => {
      OperandRow(s, target, columns, n, i);
      var arrays := [EvaluateOperand(s, target, columns, n)];
      LiftAt(Membership(s, TestValues(s, values)), arrays, n, i);
    }
    case Where(cond, a, b) => {
      OperandRow(s, cond, columns, n, i);
      OperandRow(s, a, columns, n, i);
      OperandRow(s, b, columns, n, i);
      var arrays := [EvaluateOperand(s, cond, columns, n), EvaluateOperand(s, a, columns, n),
                     EvaluateOperand(s, b, columns, n)];
      LiftAt(Choice(s), arrays, n, i);
    }
  }

  lemma {:induction false} OperandRow<V>(s: Semantics<V>, o: Operand<V>, columns: Columns<V>, n: nat, i: nat)
    requires Table(columns, n) && OperandNames(o) <= columns.Keys && i < n
    ensures At(EvaluateOperand(s, o, columns, n), n, i) == OperandValue(s, o, Row(columns, n, i))
    decreases o
  {
    if o.Node? {
      RowIndependence(s, o.e, columns, n, i);
    }
  }

  /** `np.where`: in every row the first branch where the condition is true there, else the second. */
  lemma WhereChooses<V(!new)>(s: Semantics<V>, truthy: V -> bool, cond: Operand<V>, a: Operand<V>, b: Operand<V>,
                              columns: Columns<V>, n: nat, i: nat)
    requires forall c, x, y :: s.choose(c, x, y) == if truthy(c) then x else y
    requires Table(columns, n) && Names(Where(cond, a, b)) <= columns.Keys && i < n
    ensures OperandNames(cond) + OperandNames(a) + OperandNames(b) <= columns.Keys
    ensures At(Evaluate(s, Where(cond, a, b), columns, n), n, i) ==
            if truthy(At(EvaluateOperand(s, cond, columns, n), n, i))
            then At(EvaluateOperand(s, a, columns, n), n, i)
            else At(EvaluateOperand(s, b, columns, n), n, i)
  {
    RowIndependence(s, Where(cond, a, b), columns, n, i);
    OperandRow(s, cond, columns, n, i);
    OperandRow(s, a, columns, n, i);
    OperandRow(s, b, columns, n, i);
  }

  /** The expression occurs in the other one. */
  predicate Occurs<V(==)>(x: Expr<V>, e: Expr<V>)
    decreases e
  {
    x == e ||
    match e
    case Col(_) => false
    case Op(_, args) => exists k :: 0 <= k < |args| && OccursIn(x, args[k])
    case Compare(_, left, right) => OccursIn(x, left) || OccursIn(x, right)
    case Isin(target, _) => OccursIn(x, target)
    case Where(cond, a, b) => OccursIn(x, cond) || OccursIn(x, a) || OccursIn(x, b)
  }

  predicate OccursIn<V(==)>(x: Expr<V>, o: Operand<V>)
    decreases o
  {
    o.Node? && Occurs(x, o.e)
  }

  /** What is referenced is exactly the columns that occur outside the test values. */
  lemma {:induction false} NamesOccur<V>(e: Expr<V>, name: string)
    ensures name in Names(e) <==> Occurs(Col(name), e)
    decreases e
  {
    match e
    case Col(_) =>
    case Op(_, args) => {
      forall k | 0 <= k < |args| ensures name in OperandNames(args[k]) <==> OccursIn(Col(name), args[k]) {
        OperandOccurs(args[k], name);
      }
    }
    case Compare(_, left, right) => {
      OperandOccurs(left, name);
      OperandOccurs(right, name);
    }
    case Isin(target, _) => {
      OperandOccurs(target, name);
    }
    case Where(cond, a, b) => {
      OperandOccurs(cond, name);
      OperandOccurs(a, name);
      OperandOccurs(b, name);
    }
  }

  lemma {:induction false} OperandOccurs<V>(o: Operand<V>, name: string)
    ensures name in OperandNames(o) <==> OccursIn(Col(name), o)
    decreases o
  {
    if o.Node? {
      NamesOccur(o.e, name);
    }
  }

  /** No membership test in an evaluable expression has an expression for its values. */
  lemma {:induction false} EvaluableOnly<V>(e: Expr<V>, x: Expr<V>)
    requires Evaluable(e) && Occurs(x, e)
    ensures Evaluable(x) && (x.Isin? ==> x.values.Lit?)
    decreases e
  {
    if x != e {
      match e
      case Op(_, args) => {
        var k :| 0 <= k < |args| && OccursIn(x, args[k]);
        EvaluableOnly(args[k].e, x);
      }
      case Compare(_, left, right) => {
        EvaluableOnly(if OccursIn(x, left) then left.e else right.e, x);
      }
      case Isin(target, _) => {
        EvaluableOnly(target.e, x);
      }
      case Where(cond, a, b) => {
        EvaluableOnly(if OccursIn(x, cond) then cond.e else if OccursIn(x, a) then a.e else b.e, x);
      }
    }
  }

  /** And in any other there is one. */
  lemma {:induction false} MembershipInside<V>(e: Expr<V>) returns (x: Expr<V>)
    requires !Evaluable(e)
    ensures Occurs(x, e) && x.Isin? && x.values.Node?
    decreases e
  {
    match e
    case Op(_, args) => {
      var k :| 0 <= k < |args| && !OperandEvaluable(args[k]);
      x := MembershipInside(args[k].e);
      assert OccursIn(x, args[k]);
    }
    case Compare(_, left, right) => {
      x := MembershipInside(if OperandEvaluable(left) then right.e else left.e);
    }
    case Isin(target, values) => {
      if values.Lit? {
        x := MembershipInside(target.e);
      } else {
        x := e;
      }
    }
    case Where(cond, a, b) => {
      x := MembershipInside(if !OperandEvaluable(cond) then cond.e else if !OperandEvaluable(a) then a.e else b.e);
    }
  }

  /** Exactly the expressions in which every membership test has a list of values can be evaluated. */
  lemma EvaluableExactly<V(!new)>(e: Expr<V>)
    ensures Evaluable(e) <==> forall x :: Occurs(x, e) && x.Isin? ==> x.values.Lit?
  {
    forall x | Evaluable(e) && Occurs(x, e) && x.Isin? ensures x.values.Lit? {
      EvaluableOnly(e, x);
    }
    if !Evaluable(e) {
      var x := MembershipInside(e);
    }
  }

  // ---- evaluation depends only on the referenced columns ----

  ghost predicate Agree<V>(a: Columns<V>, b: Columns<V>, names: set<string>) {
    forall name :: name in names ==> name in a && name in b && a[name] == b[name]
  }

  lemma {:induction false} OnlyReferencedColumns<V>(s: Semantics<V>, e: Expr<V>, a: Columns<V>, b: Columns<V>, n: nat)
    requires Table(a, n) && Table(b, n) && Agree(a, b, Names(e))
    ensures Names(e) <= a.Keys && Names(e) <= b.Keys
    ensures Evaluate(s, e, a, n) == Evaluate(s, e, b, n)
    decreases e
  {
    match e
    case Col(name) =>
    case Op(f, args) => {
      forall k | 0 <= k < |args| ensures EvaluateAll(s, args, a, n)[k] == EvaluateAll(s, args, b, n)[k] {
        assert OperandNames(args[k]) <= AllNames(args);
        OperandReferenced(s, args[k], a, b, n);
      }
      assert EvaluateAll(s, args, a, n) == EvaluateAll(s, args, b, n);
    }
    case Compare(rel, left, right) => {
      OperandReferenced(s, left, a, b, n);
      OperandReferenced(s, right, a, b, n);
    }
    case Isin(target, values) => {
      OperandReferenced(s, target, a, b, n);
    }
    case Where(cond, x, y) => {
      OperandReferenced(s, cond, a, b, n);
      OperandReferenced(s, x, a, b, n);
      OperandReferenced(s, y, a, b, n);
    }
  }

  lemma {:induction false} OperandReferenced<V>(s: Semantics<V>, o: Operand<V>, a: Columns<V>, b: Columns<V>, n: nat)
    requires Table(a, n) && Table(b, n) && Agree(a, b, OperandNames(o))
    ensures OperandNames(o) <= a.Keys && OperandNames(o) <= b.Keys
    ensures EvaluateOperand(s, o, a, n) == EvaluateOperand(s, o, b, n)
    decreases o
  {
    if o.Node? {
      OnlyReferencedColumns(s, o.e, a, b, n);
    }
  }

  // ---- masks ----

  /** Stored columns are arrays with one value per row. */
  predicate Stored<V>(columns: Columns<V>, n: nat) {
    forall name :: name in columns ==> columns[name].Vector? && |columns[name].cells| == n
  }

  /** An expression is one value per row exactly if it references a column. */
  lemma {:induction false} PerRow<V>(s: Semantics<V>, e: Expr<V>, columns: Columns<V>, n: nat)
    requires Stored(columns, n) && Names(e) <= columns.Keys
    ensures Evaluate(s, e, columns, n).Vector? <==> Names(e) != {}
    decreases e
  {
    match e
    case Col(name) =>
    case Op(f, args) => {
      forall k | 0 <= k < |args|
        ensures EvaluateAll(s, args, columns, n)[k].Vector? <==> OperandNames(args[k]) != {}
      {
        assert OperandNames(args[k]) <= AllNames(args);
        OperandPerRow(s, args[k], columns, n);
      }
      if AllNames(args) != {} {
        var name :| name in AllNames(args);
        var k :| 0 <= k < |args| && name in OperandNames(args[k]);
        assert EvaluateAll(s, args, columns, n)[k].Vector?;
      } else {
        forall k | 0 <= k < |args| ensures OperandNames(args[k]) == {} {
          assert OperandNames(args[k]) <= AllNames(args);
        }
      }
    }
    case Compare(rel, left, right) => {
      OperandPerRow(s, left, columns, n);
      OperandPerRow(s, right, columns, n);
      var arrays := [EvaluateOperand(s, left, columns, n), EvaluateOperand(s, right, columns, n)];
      assert AllScalar(arrays) <==> arrays[0].Scalar? && arrays[1].Scalar?;
    }
    case Isin(target, values) => {
      OperandPerRow(s, target, columns, n);
      var arrays := [EvaluateOperand(s, target, columns, n)];
      assert AllScalar(arrays) <==> arrays[0].Scalar?;
    }
    case Where(cond, a, b) => {
      OperandPerRow(s, cond, columns, n);
      OperandPerRow(s, a, columns, n);
      OperandPerRow(s, b, columns, n);
      var arrays := [EvaluateOperand(s, cond, columns, n), EvaluateOperand(s, a, columns, n),
                     EvaluateOperand(s, b, columns, n)];
      assert AllScalar(arrays) <==> arrays[0].Scalar? && arrays[1].Scalar? && arrays[2].Scalar?;
    }
  }

  lemma {:induction false} OperandPerRow<V>(s: Semantics<V>, o: Operand<V>, columns: Columns<V>, n: nat)
    requires Stored(columns, n) && OperandNames(o) <= columns.Keys
    ensures EvaluateOperand(s, o, columns, n).Vector? <==> OperandNames(o) != {}
    decreases o
  {
    if o.Node? {
      PerRow(s, o.e, columns, n);
    }
  }

  /** `evaluate_mask`: `None` where it raises, in a membership test or because the result is not one value per row. */
  function EvaluateMask<V>(s: Semantics<V>, e: Expr<V>, columns: Columns<V>, n: nat): Option<seq<V>>
    requires Stored(columns, n) && Names(e) <= columns.Keys
  {
    var mask := Evaluate(s, e, columns, n);
    if !Evaluable(e) then None
    else if mask.Vector? && |mask.cells| == n then Some(mask.cells) else None
  }

  /** The mask is the rows' meanings; it exists exactly for evaluable predicates that reference a column. */
  lemma MaskIsRowwise<V>(s: Semantics<V>, e: Expr<V>, columns: Columns<V>, n: nat)
    requires Stored(columns, n) && Names(e) <= columns.Keys
    ensures EvaluateMask(s, e, columns, n).Some? <==> Names(e) != {} && Evaluable(e)
    ensures Names(e) != {} && Evaluable(e) ==>
              var mask := EvaluateMask(s, e, columns, n).value;
              |mask| == n && forall i :: 0 <= i < n ==> mask[i] == RowValue(s, e, Row(columns, n, i))
  {
    PerRow(s, e, columns, n);
    if Names(e) != {} && Evaluable(e) {
      var mask := EvaluateMask(s, e, columns, n).value;
      forall i | 0 <= i < n ensures mask[i] == RowValue(s, e, Row(columns, n, i)) {
        RowIndependence(s, e, columns, n, i);
      }
    }
  }

  // ---- the validation, with its dtype probe ----

  /** What dtypes the values have and what dtypes the operations give. */
  datatype Typing<!V, !D> = Typing(of: V -> D, apply: (Ufunc, seq<D>) -> D, member: (D, D) -> D,
                                   choose: (D, D, D) -> D)

  function Types<V, D>(ty: Typing<V, D>, values: seq<V>): seq<D> {
    seq(|values|, k requires 0 <= k < |values| => ty.of(values[k]))
  }

  /** The dtype of a result depends on the dtypes of the operands only. */
  ghost predicate Typed<V(!new), D>(s: Semantics<V>, ty: Typing<V, D>) {
    && (forall f, args :: ty.of(s.apply(f, args)) == ty.apply(f, Types(ty, args)))
    && (forall a, values :: ty.of(s.member(a, values)) == ty.member(ty.of(a), ty.of(values)))
    && (forall c, a, b :: ty.of(s.choose(c, a, b)) == ty.choose(ty.of(c), ty.of(a), ty.of(b)))
  }

  function OperandType<V, D>(s: Semantics<V>, ty: Typing<V, D>, o: Operand<V>, dtypes: map<string, D>): D
    requires OperandNames(o) <= dtypes.Keys
    decreases o
  {
    match o case Lit(v) => ty.of(v) case Node(e) => ExprType(s, ty, e, dtypes)
  }

  function AllTypes<V, D>(s: Semantics<V>, ty: Typing<V, D>, args: seq<Operand<V>>, dtypes: map<string, D>): seq<D>
    requires AllNames(args) <= dtypes.Keys
    decreases args
  {
    seq(|args|, k requires 0 <= k < |args| =>
      assert OperandNames(args[k]) <= AllNames(args);
      OperandType(s, ty, args[k], dtypes))
  }

  /** The dtype that evaluating over empty typed columns shows. */
  function ExprType<V, D>(s: Semantics<V>, ty: Typing<V, D>, e: Expr<V>, dtypes: map<string, D>): D
    requires Names(e) <= dtypes.Keys
    decreases e
  {
    match e
    case Col(name) => dtypes[name]
    case Op(f, args) => ty.apply(f, AllTypes(s, ty, args, dtypes))
    case Compare(rel, left, right) =>
      ty.apply(Relation(rel), [OperandType(s, ty, left, dtypes), OperandType(s, ty, right, dtypes)])
    case Isin(target, values) => ty.member(OperandType(s, ty, target, dtypes), ty.of(TestValues(s, values)))
    case Where(cond, a, b) =>
      ty.choose(OperandType(s, ty, cond, dtypes), OperandType(s, ty, a, dtypes), OperandType(s, ty, b, dtypes))
  }

  ghost predicate RowTyped<V, D>(ty: Typing<V, D>, row: map<string, V>, dtypes: map<string, D>) {
    row.Keys == dtypes.Keys && forall name :: name in row ==> ty.of(row[name]) == dtypes[name]
  }

  /** In every row the expression has a value of the probed dtype. */
  lemma {:induction false} TypePreserved<V(!new), D>(s: Semantics<V>, ty: Typing<V, D>, e: Expr<V>,
                                                     row: map<string, V>, dtypes: map<string, D>)
    requires Typed(s, ty) && RowTyped(ty, row, dtypes) && Names(e) <= row.Keys
    ensures ty.of(RowValue(s, e, row)) == ExprType(s, ty, e, dtypes)
    decreases e
  {
    match e
    case Col(name) =>
    case Op(f, args) => {
      forall k | 0 <= k < |args|
        ensures Types(ty, AllValues(s, args, row))[k] == AllTypes(s, ty, args, dtypes)[k]
      {
        assert OperandNames(args[k]) <= AllNames(args);
        OperandTyped(s, ty, args[k], row, dtypes);
      }
      assert Types(ty, AllValues(s, args, row)) == AllTypes(s, ty, args, dtypes);
    }
    case Compare(rel, left, right) => {
      OperandTyped(s, ty, left, row, dtypes);
      OperandTyped(s, ty, right, row, dtypes);
      var values := [OperandValue(s, left, row), OperandValue(s, right, row)];
      assert Types(ty, values) == [ty.of(values[0]), ty.of(values[1])];
    }
    case Isin(target, values) => {
      OperandTyped(s, ty, target, row, dtypes);
    }
    case Where(cond, a, b) => {
      OperandTyped(s, ty, cond, row, dtypes);
      OperandTyped(s, ty, a, row, dtypes);
      OperandTyped(s, ty, b, row, dtypes);
    }
  }

  lemma {:induction false} OperandTyped<V(!new), D>(s: Semantics<V>, ty: Typing<V, D>, o: Operand<V>,
                                                    row: map<string, V>, dtypes: map<string, D>)
    requires Typed(s, ty) && RowTyped(ty, row, dtypes) && OperandNames(o) <= row.Keys
    ensures ty.of(OperandValue(s, o, row)) == OperandType(s, ty, o, dtypes)
    decreases o
  {
    if o.Node? {
      TypePreserved(s, ty, o.e, row, dtypes);
    }
  }

  datatype Refusal = UnknownColumns(names: set<string>) | NoColumns | NotEvaluable | NotBoolean

  /** `validate_predicate`: the names, then the probe, which may raise, then its dtype. */
  function ValidatePredicate<V, D>(s: Semantics<V>, ty: Typing<V, D>, boolean: D -> bool, e: Expr<V>,
                                   dtypes: map<string, D>): Option<Refusal> {
    if Names(e) - dtypes.Keys != {} then Some(UnknownColumns(Names(e) - dtypes.Keys))
    else if Names(e) == {} then Some(NoColumns)
    else if !Evaluable(e) then Some(NotEvaluable)
    else
      assert forall name :: name in Names(e) && name !in dtypes.Keys ==> name in Names(e) - dtypes.Keys;
      if boolean(ExprType(s, ty, e, dtypes)) then None else Some(NotBoolean)
  }

  /** What each refusal means. */
  lemma RefusedExactly<V, D>(s: Semantics<V>, ty: Typing<V, D>, boolean: D -> bool, e: Expr<V>, dtypes: map<string, D>)
    ensures var r := ValidatePredicate(s, ty, boolean, e, dtypes);
            && (forall name :: name in Names(e) && name !in dtypes ==>
                  r.Some? && r.value.UnknownColumns? && name in r.value.names)
            && (r.Some? && r.value.UnknownColumns? ==>
                  r.value.names != {} && forall name :: name in r.value.names ==> name in Names(e) && name !in dtypes)
            && (r == Some(NoColumns) <==> Names(e) == {})
            && (r == Some(NotEvaluable) <==> {} != Names(e) <= dtypes.Keys && !Evaluable(e))
            && (r == Some(NotBoolean) ==>
                  {} != Names(e) <= dtypes.Keys && Evaluable(e) && !boolean(ExprType(s, ty, e, dtypes)))
  {
    hide Names;
    hide Evaluable;
    hide ExprType;
    assert forall name :: name in Names(e) && name !in dtypes.Keys ==> name in Names(e) - dtypes.Keys;
    if Names(e) <= dtypes.Keys {
      assert Names(e) - dtypes.Keys == {};
    }
  }

  /** The columns hold values of these dtypes. */
  ghost predicate ColumnsTyped<V, D>(ty: Typing<V, D>, columns: Columns<V>, n: nat, dtypes: map<string, D>)
    requires Stored(columns, n)
  {
    && columns.Keys == dtypes.Keys
    && forall name, i :: name in columns && 0 <= i < n ==> ty.of(columns[name].cells[i]) == dtypes[name]
  }

  /** A validated predicate has a mask, and its values are boolean; over any rows at all no other predicate has. */
  lemma ValidatedHasMask<V(!new), D>(s: Semantics<V>, ty: Typing<V, D>, boolean: D -> bool, e: Expr<V>,
                                     columns: Columns<V>, n: nat, dtypes: map<string, D>)
    requires Stored(columns, n) && Typed(s, ty) && ColumnsTyped(ty, columns, n, dtypes)
    ensures ValidatePredicate(s, ty, boolean, e, dtypes) == None ==>
              Names(e) <= columns.Keys && EvaluateMask(s, e, columns, n).Some?
    ensures n > 0 && Names(e) <= columns.Keys && EvaluateMask(s, e, columns, n).Some? ==>
              (ValidatePredicate(s, ty, boolean, e, dtypes) == None <==>
               AllBoolean(ty, boolean, EvaluateMask(s, e, columns, n).value))
    ensures ValidatePredicate(s, ty, boolean, e, dtypes) == None ==>
              AllBoolean(ty, boolean, EvaluateMask(s, e, columns, n).value)
  {
    hide Evaluate;
    hide ExprType;
    forall name | name in Names(e) && name !in columns.Keys ensures Names(e) - columns.Keys != {} {
      assert name in Names(e) - columns.Keys;
    }
    if Names(e) <= columns.Keys {
      assert Names(e) - columns.Keys == {};
      MaskIsRowwise(s, e, columns, n);
      forall i | 0 <= i < n ensures ty.of(RowValue(s, e, Row(columns, n, i))) == ExprType(s, ty, e, dtypes) {
        TypePreserved(s, ty, e, Row(columns, n, i), dtypes);
      }
      if n > 0 && EvaluateMask(s, e, columns, n).Some? {
        var mask := EvaluateMask(s, e, columns, n).value;
        assert ty.of(mask[0]) == ExprType(s, ty, e, dtypes);
      }
    }
  }

  predicate AllBoolean<V, D>(ty: Typing<V, D>, boolean: D -> bool, mask: seq<V>) {
    forall i :: 0 <= i < |mask| ==> boolean(ty.of(mask[i]))
  }

  // ---- batches ----

  /** Rows `lo..hi` of every column. */
  function Batch<V>(columns: Columns<V>, n: nat, lo: nat, hi: nat): (r: Columns<V>)
    requires Stored(columns, n) && lo <= hi <= n
    ensures Stored(r, hi - lo) && r.Keys == columns.Keys
  {
    map name | name in columns :: Vector(columns[name].cells[lo..hi])
  }

  lemma BatchIsSlice<V>(s: Semantics<V>, e: Expr<V>, columns: Columns<V>, n: nat, lo: nat, hi: nat)
    requires Stored(columns, n) && lo <= hi <= n && {} != Names(e) <= columns.Keys && Evaluable(e)
    ensures EvaluateMask(s, e, columns, n).Some? && |EvaluateMask(s, e, columns, n).value| == n
    ensures EvaluateMask(s, e, Batch(columns, n, lo, hi), hi - lo) ==
            Some(EvaluateMask(s, e, columns, n).value[lo..hi])
  {
    var batch := Batch(columns, n, lo, hi);
    MaskIsRowwise(s, e, columns, n);
    MaskIsRowwise(s, e, batch, hi - lo);
    var whole, part := EvaluateMask(s, e, columns, n).value, EvaluateMask(s, e, batch, hi - lo).value;
    forall i | 0 <= i < hi - lo ensures part[i] == whole[lo + i] {
      RowOfBatch(columns, n, lo, hi, i);
    }
    assert part == whole[lo..hi];
  }

  lemma RowOfBatch<V>(columns: Columns<V>, n: nat, lo: nat, hi: nat, i: nat)
    requires Stored(columns, n) && lo <= hi <= n && i < hi - lo
    ensures Row(Batch(columns, n, lo, hi), hi - lo, i) == Row(columns, n, lo + i)
  {
  }

  /** The batches' masks, one per window. */
  function BatchMasks<V>(s: Semantics<V>, e: Expr<V>, columns: Columns<V>, n: nat, bounds: seq<nat>, count: nat)
    : Option<seq<V>>
    requires Stored(columns, n) && Names(e) <= columns.Keys
    requires count < |bounds| && NonDecreasing(bounds) && forall k :: 0 <= k < |bounds| ==> bounds[k] <= n
  {
    if count == 0 then Some([])
    else
      var before := BatchMasks(s, e, columns, n, bounds, count - 1);
      var lo, hi := bounds[count - 1], bounds[count];
      var mask := EvaluateMask(s, e, Batch(columns, n, lo, hi), hi - lo);
      if before.None? || mask.None? then None else Some(before.value + mask.value)
  }

  /** Evaluating batch by batch and concatenating is evaluating the whole, for any batch boundaries. */
  lemma {:induction false} BatchingIsSound<V>(s: Semantics<V>, e: Expr<V>, columns: Columns<V>, n: nat,
                                              bounds: seq<nat>, count: nat)
    requires Stored(columns, n) && {} != Names(e) <= columns.Keys && Evaluable(e)
    requires count < |bounds| && NonDecreasing(bounds) && forall k :: 0 <= k < |bounds| ==> bounds[k] <= n
    requires bounds[0] == 0
    ensures EvaluateMask(s, e, columns, n).Some? && |EvaluateMask(s, e, columns, n).value| == n
    ensures BatchMasks(s, e, columns, n, bounds, count) ==
            Some(EvaluateMask(s, e, columns, n).value[..bounds[count]])
  {
    hide EvaluateMask;
    hide Batch;
    hide Names;
    MaskIsRowwise(s, e, columns, n);
    if count > 0 {
      BatchingIsSound(s, e, columns, n, bounds, count - 1);
      var lo, hi := bounds[count - 1], bounds[count];
      BatchIsSlice(s, e, columns, n, lo, hi);
      var mask := EvaluateMask(s, e, columns, n).value;
      assert mask[..hi] == mask[..lo] + mask[lo..hi];
    }
  }

  // ---- `_emit` ----

  /** What an operand becomes: something built, or the scalar itself. */
  datatype Built<V, R> = Made(r: R) | Kept(v: V)

  /** A node factory. */
  datatype Builder<!V, !R> = Builder(column: string -> R, op: (Ufunc, seq<Built<V, R>>) -> R,
                                     isin: (Built<V, R>, Operand<V>) -> R,
                                     pick: (Built<V, R>, Built<V, R>, Built<V, R>) -> R)

  function EmitOperand<V, R>(o: Operand<V>, b: Builder<V, R>): Built<V, R>
    decreases o
  {
    match o case Lit(v) => Kept(v) case Node(e) => Made(Emit(e, b))
  }

  function EmitAll<V, R>(args: seq<Operand<V>>, b: Builder<V, R>): seq<Built<V, R>>
    decreases args
  {
    seq(|args|, k requires 0 <= k < |args| => EmitOperand(args[k], b))
  }

  /** Rebuild an expression through a builder: a fold over the tree. */
  function Emit<V, R>(e: Expr<V>, b: Builder<V, R>): R
    decreases e
  {
    match e
    case Col(name) => b.column(name)
    case Op(f, args) => b.op(f, EmitAll(args, b))
    case Compare(rel, left, right) => b.op(Relation(rel), [EmitOperand(left, b), EmitOperand(right, b)])
    case Isin(target, values) => b.isin(EmitOperand(target, b), values)
    case Where(cond, x, y) => b.pick(EmitOperand(cond, b), EmitOperand(x, b), EmitOperand(y, b))
  }

  function Read<V, R>(value: R -> V, built: Built<V, R>): V {
    match built case Made(r) => value(r) case Kept(v) => v
  }

  function ReadAll<V, R>(value: R -> V, built: seq<Built<V, R>>): seq<V> {
    seq(|built|, k requires 0 <= k < |built| => Read(value, built[k]))
  }

  /** The parts the builder is given are ones it may build on. */
  predicate AllGood<V, R>(good: R -> bool, built: seq<Built<V, R>>) {
    forall k :: 0 <= k < |built| && built[k].Made? ==> good(built[k].r)
  }

  /** From good parts the builder builds good things, and `value` reads them as the operations would compute them. */
  ghost predicate Faithful<V(!new), R(!new)>(s: Semantics<V>, b: Builder<V, R>, good: R -> bool, value: R -> V,
                                             row: map<string, V>)
  {
    && (forall name :: name in row ==> good(b.column(name)) && value(b.column(name)) == row[name])
    && (forall f, args :: AllGood(good, args) ==>
          good(b.op(f, args)) && value(b.op(f, args)) == s.apply(f, ReadAll(value, args)))
    && (forall target, values :: AllGood(good, [target]) ==>
          good(b.isin(target, values)) &&
          value(b.isin(target, values)) == s.member(Read(value, target), TestValues(s, values)))
    && (forall c, x, y :: AllGood(good, [c, x, y]) ==>
          good(b.pick(c, x, y)) &&
          value(b.pick(c, x, y)) == s.choose(Read(value, c), Read(value, x), Read(value, y)))
  }

  ghost predicate Preserved<V, R>(s: Semantics<V>, built: Built<V, R>, good: R -> bool, value: R -> V, meant: V) {
    (built.Made? ==> good(built.r)) && Read(value, built) == meant
  }

  /** Fusion: through any faithful builder, an expression comes out meaning what it meant. */
  lemma {:induction false} EmitPreservesMeaning<V(!new), R(!new)>(s: Semantics<V>, e: Expr<V>, b: Builder<V, R>,
                                                                  good: R -> bool, value: R -> V, row: map<string, V>)
    requires Faithful(s, b, good, value, row) && Names(e) <= row.Keys
    ensures good(Emit(e, b)) && value(Emit(e, b)) == RowValue(s, e, row)
    decreases e
  {
    match e
    case Col(name) =>
    case Op(f, args) => {
      var built := EmitAll(args, b);
      forall k | 0 <= k < |args| ensures Preserved(s, built[k], good, value, AllValues(s, args, row)[k]) {
        assert OperandNames(args[k]) <= AllNames(args);
        EmitOperandPreserves(s, args[k], b, good, value, row);
      }
      assert ReadAll(value, built) == AllValues(s, args, row);
      assert AllGood(good, built);
    }
    case Compare(rel, left, right) => {
      EmitOperandPreserves(s, left, b, good, value, row);
      EmitOperandPreserves(s, right, b, good, value, row);
      var built := [EmitOperand(left, b), EmitOperand(right, b)];
      assert ReadAll(value, built) == [OperandValue(s, left, row), OperandValue(s, right, row)];
      assert AllGood(good, built);
    }
    case Isin(target, values) => {
      EmitOperandPreserves(s, target, b, good, value, row);
      assert AllGood(good, [EmitOperand(target, b)]);
    }
    case Where(cond, x, y) => {
      EmitOperandPreserves(s, cond, b, good, value, row);
      EmitOperandPreserves(s, x, b, good, value, row);
      EmitOperandPreserves(s, y, b, good, value, row);
      assert AllGood(good, [EmitOperand(cond, b), EmitOperand(x, b), EmitOperand(y, b)]);
    }
  }

  lemma {:induction false} EmitOperandPreserves<V(!new), R(!new)>(s: Semantics<V>, o: Operand<V>, b: Builder<V, R>,
                                                                  good: R -> bool, value: R -> V, row: map<string, V>)
    requires Faithful(s, b, good, value, row) && OperandNames(o) <= row.Keys
    ensures Preserved(s, EmitOperand(o, b), good, value, OperandValue(s, o, row))
    decreases o
  {
    if o.Node? {
      EmitPreservesMeaning(s, o.e, b, good, value, row);
    }
  }

  // ---- substitution ----

  function Rebuilt<V>(built: Built<V, Expr<V>>): Operand<V> {
    match built case Made(e) => Node(e) case Kept(v) => Lit(v)
  }

  function RebuiltAll<V>(built: seq<Built<V, Expr<V>>>): seq<Operand<V>> {
    seq(|built|, k requires 0 <= k < |built| => Rebuilt(built[k]))
  }

  /** The builder that replaces columns by expressions and rebuilds everything else. */
  function Substituting<V>(sigma: string -> Expr<V>): Builder<V, Expr<V>> {
    Builder(sigma,
            (f, args) => Op(f, RebuiltAll(args)),
            (target, values) => Isin(Rebuilt(target), values),
            (c, x, y) => Where(Rebuilt(c), Rebuilt(x), Rebuilt(y)))
  }

  function Within<V>(names: set<string>): Expr<V> -> bool { e => Names(e) <= names }

  /** An expression's value in a row, and some value for expressions over other columns. */
  function Valued<V>(s: Semantics<V>, row: map<string, V>): Expr<V> -> V {
    e => if Names(e) <= row.Keys then RowValue(s, e, row) else s.apply(LogicalNot, [])
  }

  lemma RebuiltOne<V>(s: Semantics<V>, args: seq<Built<V, Expr<V>>>, k: nat, row: map<string, V>)
    requires AllGood(Within(row.Keys), args) && k < |args|
    ensures OperandNames(Rebuilt(args[k])) <= row.Keys
    ensures OperandValue(s, Rebuilt(args[k]), row) == Read(Valued(s, row), args[k])
  {
    assert args[k].Made? ==> Within(row.Keys)(args[k].r);
  }

  lemma RebuiltValues<V>(s: Semantics<V>, args: seq<Built<V, Expr<V>>>, row: map<string, V>)
    requires AllGood(Within(row.Keys), args)
    ensures AllNames(RebuiltAll(args)) <= row.Keys
    ensures AllValues(s, RebuiltAll(args), row) == ReadAll(Valued(s, row), args)
  {
    forall k | 0 <= k < |args| ensures OperandNames(RebuiltAll(args)[k]) <= row.Keys {
      assert args[k].Made? ==> Within(row.Keys)(args[k].r);
    }
  }

  /** The substituted columns, as one row sees them. */
  function SubstitutedRow<V>(s: Semantics<V>, sigma: string -> Expr<V>, names: set<string>, row: map<string,
                             V>): map<string, V>
    requires forall name :: name in names ==> Names(sigma(name)) <= row.Keys
  {
    map name | name in names :: RowValue(s, sigma(name), row)
  }

  lemma SubstitutingIsFaithful<V(!new)>(s: Semantics<V>, sigma: string -> Expr<V>, names: set<string>,
                                        row: map<string, V>)
    requires forall name :: name in names ==> Names(sigma(name)) <= row.Keys
    ensures Faithful(s, Substituting(sigma), Within(row.Keys), Valued(s, row), SubstitutedRow(s, sigma, names, row))
  {
    var b, good, value := Substituting(sigma), Within(row.Keys), Valued(s, row);
    forall f, args: seq<Built<V, Expr<V>>> | AllGood(good, args)
      ensures good(b.op(f, args)) && value(b.op(f, args)) == s.apply(f, ReadAll(value, args))
    {
      RebuiltValues(s, args, row);
    }
    forall target: Built<V, Expr<V>>, values | AllGood(good, [target])
      ensures good(b.isin(target, values))
      ensures value(b.isin(target, values)) == s.member(Read(value, target), TestValues(s, values))
    {
      RebuiltOne(s, [target], 0, row);
    }
    forall c: Built<V, Expr<V>>, x: Built<V, Expr<V>>, y: Built<V, Expr<V>> | AllGood(good, [c, x, y])
      ensures good(b.pick(c, x, y)) &&
              value(b.pick(c, x, y)) == s.choose(Read(value, c), Read(value, x), Read(value, y))
    {
      RebuiltOne(s, [c, x, y], 0, row);
      RebuiltOne(s, [c, x, y], 1, row);
      RebuiltOne(s, [c, x, y], 2, row);
    }
  }

  /**
   Substitution: evaluating the rebuilt expression is evaluating the original over columns
   derived by the substituted expressions.
   */
  lemma Substitution<V(!new)>(s: Semantics<V>, e: Expr<V>, sigma: string -> Expr<V>, row: map<string, V>)
    requires forall name :: name in Names(e) ==> Names(sigma(name)) <= row.Keys
    ensures Names(Emit(e, Substituting(sigma))) <= row.Keys
    ensures RowValue(s, Emit(e, Substituting(sigma)), row) ==
            RowValue(s, e, SubstitutedRow(s, sigma, Names(e), row))
  {
    var derived := SubstitutedRow(s, sigma, Names(e), row);
    SubstitutingIsFaithful(s, sigma, Names(e), row);
    EmitPreservesMeaning(s, e, Substituting(sigma), Within(row.Keys), Valued(s, row), derived);
  }

  /** The derived columns themselves. */
  function Derived<V>(s: Semantics<V>, sigma: string -> Expr<V>, names: set<string>, columns: Columns<V>,
                      n: nat): Columns<V>
    requires Table(columns, n) && forall name :: name in names ==> Names(sigma(name)) <= columns.Keys
  {
    map name | name in names :: Evaluate(s, sigma(name), columns, n)
  }

  /** The same for whole columns: every row of the rebuilt expression is a row of the original over derived columns. */
  lemma SubstitutionOnColumns<V(!new)>(s: Semantics<V>, e: Expr<V>, sigma: string -> Expr<V>, columns: Columns<V>,
                                       n: nat, i: nat)
    requires Table(columns, n) && i < n
    requires forall name :: name in Names(e) ==> Names(sigma(name)) <= columns.Keys
    ensures Names(Emit(e, Substituting(sigma))) <= columns.Keys
    ensures Table(Derived(s, sigma, Names(e), columns, n), n)
    ensures At(Evaluate(s, Emit(e, Substituting(sigma)), columns, n), n, i) ==
            At(Evaluate(s, e, Derived(s, sigma, Names(e), columns, n), n), n, i)
  {
    var row := Row(columns, n, i);
    var derived := Derived(s, sigma, Names(e), columns, n);
    Substitution(s, e, sigma, row);
    RowIndependence(s, Emit(e, Substituting(sigma)), columns, n, i);
    RowIndependence(s, e, derived, n, i);
    forall name | name in Names(e) ensures Row(derived, n, i)[name] == SubstitutedRow(s, sigma, Names(e), row)[name] {
      RowIndependence(s, sigma(name), columns, n, i);
    }
    assert Row(derived, n, i) == SubstitutedRow(s, sigma, Names(e), row);
  }
}
