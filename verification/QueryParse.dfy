/**
 The string form of a predicate: a whitelisted syntax tree is mapped to the same
 expression trees that operators build. `Meaning` is what the syntax says, one row at a
 time; `Built` is the tree the builder makes; `Build` is the builder.
 */
module QueryParse {
  import opened Sequences
  import opened Query

  datatype CmpOp = Comparing(rel: Rel) | In | NotIn | OtherOp

  datatype Link<V> = Link(op: CmpOp, right: Ast<V>)

  /** An unsupported operator has no ufunc. `Constant` covers list literals: one value, a list. */
  datatype Ast<V> =
    | BoolOp(conjunction: bool, first: Ast<V>, rest: seq<Ast<V>>)
    | UnaryOp(f: Option<Ufunc>, operand: Ast<V>)
    | BinOp(f: Option<Ufunc>, left: Ast<V>, right: Ast<V>)
    | Comparison(left: Ast<V>, links: seq<Link<V>>)
    | Name(id: string)
    | Param(key: string)
    | Constant(v: V)
    | Unsupported

  datatype QueryError =
    | UnknownName(name: string) | UndefinedParameter(key: string)
    | UnsupportedOperator | UnsupportedElement | NotAColumn | NoOperator | NoColumn

  datatype Parsed<+T> = Ok(value: T) | Err(error: QueryError)

  // ---- the tree that is built ----

  function Reducer(conjunction: bool): Ufunc { if conjunction then LogicalAnd else LogicalOr }

  /** One link of a comparison, given both its sides. */
  function Piece<V>(op: CmpOp, left: Operand<V>, right: Operand<V>): Parsed<Expr<V>> {
    match op
    case Comparing(rel) => Ok(Compare(rel, left, right))
    case OtherOp => Err(UnsupportedOperator)
    case _ =>
      if left.Lit? then Err(NotAColumn)
      else if op.In? then Ok(Isin(left, right))
      else Ok(Op(LogicalNot, [Node(Isin(left, right))]))
  }

  /** The conjunction so far, and the operand the next link starts from. */
  datatype Chain<V> = Chain(result: Option<Expr<V>>, left: Operand<V>)

  function Chained<V>(chain: Chain<V>, op: CmpOp, right: Operand<V>): Parsed<Chain<V>> {
    match Piece(op, chain.left, right)
    case Err(error) => Err(error)
    case Ok(piece) =>
      if chain.result.None? then Ok(Chain(Some(piece), right))
      else Ok(Chain(Some(Op(BitwiseAnd, [Node(chain.result.value), Node(piece)])), right))
  }

  function ChainUpTo<V>(ast: Ast<V>, columns: set<string>, params: map<string, V>, k: nat): Parsed<Chain<V>>
    requires ast.Comparison? && k <= |ast.links|
    decreases ast, 0, k
  {
    if k == 0 then
      match Built(ast.left, columns, params)
      case Err(error) => Err(error)
      case Ok(left) => Ok(Chain(None, left))
    else
      match ChainUpTo(ast, columns, params, k - 1)
      case Err(error) => Err(error)
      case Ok(chain) =>
        match Built(ast.links[k - 1].right, columns, params)
        case Err(error) => Err(error)
        case Ok(right) => Chained(chain, ast.links[k - 1].op, right)
  }

  function BoolUpTo<V>(ast: Ast<V>, columns: set<string>, params: map<string, V>, k: nat): Parsed<Operand<V>>
    requires ast.BoolOp? && k <= |ast.rest|
    decreases ast, 0, k
  {
    if k == 0 then Built(ast.first, columns, params)
    else
      match BoolUpTo(ast, columns, params, k - 1)
      case Err(error) => Err(error)
      case Ok(built) =>
        match Built(ast.rest[k - 1], columns, params)
        case Err(error) => Err(error)
        case Ok(next) => Ok(Node(Op(Reducer(ast.conjunction), [built, next])))
  }

  function Built<V>(ast: Ast<V>, columns: set<string>, params: map<string, V>): Parsed<Operand<V>>
    decreases ast, 1, 0
  {
    match ast
    case BoolOp(_, _, rest) => BoolUpTo(ast, columns, params, |rest|)
    case UnaryOp(f, operand) =>
      if f.None? then Err(UnsupportedOperator)
      else
        (match Built(operand, columns, params)
         case Err(error) => Err(error)
         case Ok(o) => Ok(Node(Op(f.value, [o]))))
    case BinOp(f, left, right) =>
      if f.None? then Err(UnsupportedOperator)
      else
        (match Built(left, columns, params)
         case Err(error) => Err(error)
         case Ok(l) =>
           match Built(right, columns, params)
           case Err(error) => Err(error)
           case Ok(r) => Ok(Node(Op(f.value, [l, r]))))
    case Comparison(_, links) =>
      (match ChainUpTo(ast, columns, params, |links|)
       case Err(error) => Err(error)
       case Ok(chain) => if chain.result.None? then Err(NoOperator) else Ok(Node(chain.result.value)))
    case Name(id) => if id in columns then Ok(Node(Col(id))) else Err(UnknownName(id))
    case Param(key) => if key in params then Ok(Lit(params[key])) else Err(UndefinedParameter(key))
    case Constant(v) => Ok(Lit(v))
    case Unsupported => Err(UnsupportedElement)
  }

  // ---- the builder ----

  /** `_build_compare`: one pass over the links. */
  method BuildCompare<V>(ast: Ast<V>, columns: set<string>, params: map<string, V>) returns (r: Parsed<Operand<V>>)
    requires ast.Comparison?
    ensures r == Built(ast, columns, params)
    decreases ast, 0
  {
    hide Piece;
    var start := Build(ast.left, columns, params);
    if start.Err? {
      ChainFails(ast, columns, params, 0, |ast.links|);
      return Err(start.error);
    }
    var chain := Chain(None, start.value);
    for k := 0 to |ast.links|
      invariant ChainUpTo(ast, columns, params, k) == Ok(chain)
    {
      var right := Build(ast.links[k].right, columns, params);
      if right.Err? {
        ChainFails(ast, columns, params, k + 1, |ast.links|);
        return Err(right.error);
      }
      var next := Chained(chain, ast.links[k].op, right.value);
      if next.Err? {
        ChainFails(ast, columns, params, k + 1, |ast.links|);
        return Err(next.error);
      }
      chain := next.value;
    }
    if chain.result.None? { return Err(NoOperator); }
    r := Ok(Node(chain.result.value));
  }

  lemma {:induction false} ChainFails<V>(ast: Ast<V>, columns: set<string>, params: map<string, V>, k: nat, n: nat)
    requires ast.Comparison? && k <= n <= |ast.links| && ChainUpTo(ast, columns, params, k).Err?
    ensures ChainUpTo(ast, columns, params, n) == ChainUpTo(ast, columns, params, k)
    decreases n
  {
    if k < n {
      ChainFails(ast, columns, params, k, n - 1);
    }
  }

  method BuildBool<V>(ast: Ast<V>, columns: set<string>, params: map<string, V>) returns (r: Parsed<Operand<V>>)
    requires ast.BoolOp?
    ensures r == Built(ast, columns, params)
    decreases ast, 0
  {
    r := Build(ast.first, columns, params);
    if r.Err? {
      BoolFails(ast, columns, params, 0, |ast.rest|);
      return;
    }
    for k := 0 to |ast.rest|
      invariant r.Ok? && BoolUpTo(ast, columns, params, k) == r
    {
      var next := Build(ast.rest[k], columns, params);
      if next.Err? {
        BoolFails(ast, columns, params, k + 1, |ast.rest|);
        return next;
      }
      r := Ok(Node(Op(Reducer(ast.conjunction), [r.value, next.value])));
    }
  }

  lemma {:induction false} BoolFails<V>(ast: Ast<V>, columns: set<string>, params: map<string, V>, k: nat, n: nat)
    requires ast.BoolOp? && k <= n <= |ast.rest| && BoolUpTo(ast, columns, params, k).Err?
    ensures BoolUpTo(ast, columns, params, n) == BoolUpTo(ast, columns, params, k)
    decreases n
  {
    if k < n {
      BoolFails(ast, columns, params, k, n - 1);
    }
  }

  /** `_build`. */
  method Build<V>(ast: Ast<V>, columns: set<string>, params: map<string, V>) returns (r: Parsed<Operand<V>>)
    ensures r == Built(ast, columns, params)
    decreases ast, 1
  {
    match ast {
      case BoolOp(_, _, _) => {
        r := BuildBool(ast, columns, params);
      }
      case UnaryOp(f, operand) => {
        if f.None? { return Err(UnsupportedOperator); }
        r := Build(operand, columns, params);
        if r.Ok? { r := Ok(Node(Op(f.value, [r.value]))); }
      }
      case BinOp(f, left, right) => {
        if f.None? { return Err(UnsupportedOperator); }
        var l := Build(left, columns, params);
        if l.Err? { return l; }
        r := Build(right, columns, params);
        if r.Ok? { r := Ok(Node(Op(f.value, [l.value, r.value]))); }
      }
      case Comparison(_, _) => {
        r := BuildCompare(ast, columns, params);
      }
      case Name(id) => {
        r := if id in columns then Ok(Node(Col(id))) else Err(UnknownName(id));
      }
      case Param(key) => {
        r := if key in params then Ok(Lit(params[key])) else Err(UndefinedParameter(key));
      }
      case Constant(v) => {
        r := Ok(Lit(v));
      }
      case Unsupported => {
        r := Err(UnsupportedElement);
      }
    }
  }

  /** `parse_query`: a string that is only a literal is refused. */
  method ParseQuery<V>(ast: Ast<V>, columns: set<string>, params: map<string, V>) returns (r: Parsed<Expr<V>>)
    ensures match Built(ast, columns, params)
            case Err(error) => r == Err(error)
            case Ok(o) => r == if o.Node? then Ok(o.e) else Err(NoColumn)
  {
    var built := Build(ast, columns, params);
    if built.Err? { return Err(built.error); }
    r := if built.value.Node? then Ok(built.value.e) else Err(NoColumn);
  }

  // ---- what the syntax means ----

  /** The booleans among the values, and what the relations say. */
  datatype Truth<!V> = Truth(embed: bool -> V, truthy: V -> bool, holds: (Rel, V, V) -> bool, contains: (V, V) -> bool)

  /** NumPy's logical operations and comparisons, in those terms. */
  ghost predicate BooleanLaws<V(!new)>(s: Semantics<V>, t: Truth<V>) {
    && (forall b :: t.truthy(t.embed(b)) == b)
    && (forall a, b :: s.apply(LogicalAnd, [a, b]) == t.embed(t.truthy(a) && t.truthy(b)))
    && (forall a, b :: s.apply(LogicalOr, [a, b]) == t.embed(t.truthy(a) || t.truthy(b)))
    && (forall a :: s.apply(LogicalNot, [a]) == t.embed(!t.truthy(a)))
    && (forall a, b :: s.apply(BitwiseAnd, [t.embed(a), t.embed(b)]) == t.embed(a && b))
    && (forall rel, a, b :: s.apply(Relation(rel), [a, b]) == t.embed(t.holds(rel, a, b)))
    && (forall a, values :: s.member(a, values) == t.embed(t.contains(a, values)))
  }

  lemma ReducerLaw<V(!new)>(s: Semantics<V>, t: Truth<V>, conjunction: bool, a: V, b: V)
    requires BooleanLaws(s, t)
    ensures s.apply(Reducer(conjunction), [a, b]) ==
            t.embed(if conjunction then t.truthy(a) && t.truthy(b) else t.truthy(a) || t.truthy(b))
  {
  }

  lemma EmbedLaw<V(!new)>(s: Semantics<V>, t: Truth<V>, b: bool)
    requires BooleanLaws(s, t)
    ensures t.truthy(t.embed(b)) == b
  {
  }

  lemma BitwiseLaw<V(!new)>(s: Semantics<V>, t: Truth<V>, a: bool, b: bool)
    requires BooleanLaws(s, t)
    ensures s.apply(BitwiseAnd, [t.embed(a), t.embed(b)]) == t.embed(a && b)
  {
  }

  lemma RelationLaw<V(!new)>(s: Semantics<V>, t: Truth<V>, rel: Rel, a: V, b: V)
    requires BooleanLaws(s, t)
    ensures s.apply(Relation(rel), [a, b]) == t.embed(t.holds(rel, a, b))
  {
  }

  lemma MemberLaw<V(!new)>(s: Semantics<V>, t: Truth<V>, a: V, values: V)
    requires BooleanLaws(s, t)
    ensures s.member(a, values) == t.embed(t.contains(a, values))
    ensures s.apply(LogicalNot, [s.member(a, values)]) == t.embed(!t.contains(a, values))
  {
  }

  function LinkHolds<V>(t: Truth<V>, op: CmpOp, a: V, b: V): bool {
    match op
    case Comparing(rel) => t.holds(rel, a, b)
    case In => t.contains(a, b)
    case NotIn => !t.contains(a, b)
    case OtherOp => false
  }

  /** What stands to the left of link `k`: the first operand, or the right side of the link before. */
  function LeftOf<V>(ast: Ast<V>, k: nat): Ast<V>
    requires ast.Comparison? && k <= |ast.links|
  {
    if k == 0 then ast.left else ast.links[k - 1].right
  }

  /** Every name is known and every operator supported. */
  predicate Supported<V>(ast: Ast<V>, columns: set<string>, params: map<string, V>)
    decreases ast, 1
  {
    match ast
    case BoolOp(_, first, rest) =>
      Supported(first, columns, params) && forall k :: 0 <= k < |rest| ==> Supported(rest[k], columns, params)
    case UnaryOp(f, operand) => f.Some? && Supported(operand, columns, params)
    case BinOp(f, left, right) => f.Some? && Supported(left, columns, params) && Supported(right, columns, params)
    case Comparison(left, links) =>
      && links != [] && Supported(left, columns, params)
      && (forall k :: 0 <= k < |links| ==> Supported(links[k].right, columns, params))
      && forall k :: 0 <= k < |links| ==> Comparable(ast, k)
    case Name(id) => id in columns
    case Param(key) => key in params
    case Constant(_) => true
    case Unsupported => false
  }

  /** A membership test has an expression on its left. */
  predicate Comparable<V>(ast: Ast<V>, k: nat)
    requires ast.Comparison? && k < |ast.links|
  {
    match ast.links[k].op
    case Comparing(_) => true
    case OtherOp => false
    case _ => !IsLiteral(LeftOf(ast, k))
  }

  predicate Tests(op: CmpOp) { op.In? || op.NotIn? }

  /** Every membership test has a literal on its right, a list of values. */
  predicate ListsAreLiteral<V>(ast: Ast<V>)
    decreases ast
  {
    match ast
    case BoolOp(_, first, rest) => ListsAreLiteral(first) && forall k :: 0 <= k < |rest| ==> ListsAreLiteral(rest[k])
    case UnaryOp(_, operand) => ListsAreLiteral(operand)
    case BinOp(_, left, right) => ListsAreLiteral(left) && ListsAreLiteral(right)
    case Comparison(left, links) =>
      && ListsAreLiteral(left)
      && (forall k :: 0 <= k < |links| ==> ListsAreLiteral(links[k].right))
      && forall k :: 0 <= k < |links| ==> Tests(links[k].op) ==> IsLiteral(links[k].right)
    case _ => true
  }

  predicate IsLiteral<V>(ast: Ast<V>) {
    ast.Constant? || ast.Param? || (ast.BoolOp? && ast.rest == [] && IsLiteral(ast.first))
  }

  /**
   One row's meaning. `and` and `or` ask all or any operand for its truth, and a chained
   comparison of any length is the conjunction of its adjacent pairs.
   */
  ghost function Meaning<V>(s: Semantics<V>, t: Truth<V>, ast: Ast<V>, params: map<string, V>, row: map<string, V>): V
    requires Supported(ast, row.Keys, params)
    decreases ast, 2
  {
    match ast
    case BoolOp(conjunction, first, rest) =>
      var head := Meaning(s, t, first, params, row);
      if rest == [] then head
      else if conjunction then
        t.embed(t.truthy(head) && forall k :: 0 <= k < |rest| ==> t.truthy(Meaning(s, t, rest[k], params, row)))
      else
        t.embed(t.truthy(head) || exists k :: 0 <= k < |rest| && t.truthy(Meaning(s, t, rest[k], params, row)))
    case UnaryOp(f, operand) => s.apply(f.value, [Meaning(s, t, operand, params, row)])
    case BinOp(f, left, right) =>
      s.apply(f.value, [Meaning(s, t, left, params, row), Meaning(s, t, right, params, row)])
    case Comparison(left, links) =>
      t.embed(PairsHold(s, t, ast, params, row, |links|))
    case Name(id) => row[id]
    case Param(key) => params[key]
    case Constant(v) => v
  }

  /** The first `k` adjacent pairs all hold. */
  ghost predicate PairsHold<V>(s: Semantics<V>, t: Truth<V>, ast: Ast<V>, params: map<string, V>, row: map<string, V>,
                               k: nat)
    requires ast.Comparison? && Supported(ast, row.Keys, params) && k <= |ast.links|
    decreases ast, 1
  {
    forall i :: 0 <= i < k ==> PairHolds(s, t, ast, params, row, i)
  }

  /** Link `k` of a comparison, between its two neighbours. */
  ghost predicate PairHolds<V>(s: Semantics<V>, t: Truth<V>, ast: Ast<V>, params: map<string, V>, row: map<string, V>,
                               k: nat)
    requires ast.Comparison? && Supported(ast, row.Keys, params) && k < |ast.links|
    decreases ast, 0
  {
    var a :=
      if k == 0 then Meaning(s, t, ast.left, params, row) else Meaning(s, t, ast.links[k - 1].right, params, row);
    LinkHolds(t, ast.links[k].op, a, Meaning(s, t, ast.links[k].right, params, row))
  }

  // ---- exactly the supported syntax is built ----

  lemma {:induction false} BuiltIffSupported<V>(ast: Ast<V>, columns: set<string>, params: map<string, V>)
    ensures Built(ast, columns, params).Ok? <==> Supported(ast, columns, params)
    ensures Built(ast, columns, params).Ok? ==> (Built(ast, columns, params).value.Lit? <==> IsLiteral(ast))
    decreases ast, 1, 0
  {
    match ast
    case BoolOp(_, first, rest) => {
      BoolIffSupported(ast, columns, params, |rest|);
    }
    case UnaryOp(_, operand) => {
      BuiltIffSupported(operand, columns, params);
    }
    case BinOp(_, left, right) => {
      BuiltIffSupported(left, columns, params);
      BuiltIffSupported(right, columns, params);
    }
    case Comparison(left, links) => {
      ChainIffSupported(ast, columns, params, |links|);
    }
    case _ =>
  }

  lemma {:induction false} BoolIffSupported<V>(ast: Ast<V>, columns: set<string>, params: map<string, V>, k: nat)
    requires ast.BoolOp? && k <= |ast.rest|
    ensures BoolUpTo(ast, columns, params, k).Ok? <==>
            Supported(ast.first, columns, params) && forall i :: 0 <= i < k ==> Supported(ast.rest[i], columns, params)
    ensures BoolUpTo(ast, columns, params, k).Ok? ==>
              (BoolUpTo(ast, columns, params, k).value.Lit? <==> k == 0 && IsLiteral(ast.first))
    decreases ast, 0, k
  {
    if k == 0 {
      BuiltIffSupported(ast.first, columns, params);
    } else {
      BoolIffSupported(ast, columns, params, k - 1);
      BuiltIffSupported(ast.rest[k - 1], columns, params);
    }
  }

  /** The first `k` links are supported. */
  predicate LinksSupported<V>(ast: Ast<V>, columns: set<string>, params: map<string, V>, k: nat)
    requires ast.Comparison? && k <= |ast.links|
  {
    && Supported(ast.left, columns, params)
    && forall i :: 0 <= i < k ==> Supported(ast.links[i].right, columns, params) && Comparable(ast, i)
  }

  lemma {:induction false} ChainIffSupported<V>(ast: Ast<V>, columns: set<string>, params: map<string, V>, k: nat)
    requires ast.Comparison? && k <= |ast.links|
    ensures ChainUpTo(ast, columns, params, k).Ok? <==> LinksSupported(ast, columns, params, k)
    ensures ChainUpTo(ast, columns, params, k).Ok? ==>
              var chain := ChainUpTo(ast, columns, params, k).value;
              (chain.left.Lit? <==> IsLiteral(LeftOf(ast, k))) && (chain.result.None? <==> k == 0)
    decreases ast, 0, k
  {
    if k == 0 {
      BuiltIffSupported(ast.left, columns, params);
    } else {
      ChainIffSupported(ast, columns, params, k - 1);
      BuiltIffSupported(ast.links[k - 1].right, columns, params);
    }
  }

  // ---- and otherwise the first problem is reported ----

  /** Everything that is wrong with a string, in the order in which it is read. */
  function Faults<V>(ast: Ast<V>, columns: set<string>, params: map<string, V>): seq<QueryError>
    decreases ast, 1, 0
  {
    match ast
    case BoolOp(_, _, rest) => OperandFaults(ast, columns, params, |rest|)
    case UnaryOp(f, operand) => (if f.None? then [UnsupportedOperator] else []) + Faults(operand, columns, params)
    case BinOp(f, left, right) =>
      (if f.None? then [UnsupportedOperator] else []) + Faults(left, columns, params) + Faults(right, columns, params)
    case Comparison(_, links) =>
      LinkFaults(ast, columns, params, |links|) + (if links == [] then [NoOperator] else [])
    case Name(id) => if id in columns then [] else [UnknownName(id)]
    case Param(key) => if key in params then [] else [UndefinedParameter(key)]
    case Constant(_) => []
    case Unsupported => [UnsupportedElement]
  }

  function OperandFaults<V>(ast: Ast<V>, columns: set<string>, params: map<string, V>, k: nat): seq<QueryError>
    requires ast.BoolOp? && k <= |ast.rest|
    decreases ast, 0, k
  {
    if k == 0 then Faults(ast.first, columns, params)
    else OperandFaults(ast, columns, params, k - 1) + Faults(ast.rest[k - 1], columns, params)
  }

  /** Of each link its right side, and then its operator. */
  function LinkFaults<V>(ast: Ast<V>, columns: set<string>, params: map<string, V>, k: nat): seq<QueryError>
    requires ast.Comparison? && k <= |ast.links|
    decreases ast, 0, k
  {
    if k == 0 then Faults(ast.left, columns, params)
    else
      LinkFaults(ast, columns, params, k - 1) + Faults(ast.links[k - 1].right, columns, params)
      + (if ast.links[k - 1].op.OtherOp? then [UnsupportedOperator]
         else if !Comparable(ast, k - 1) then [NotAColumn]
         else [])
  }

  /** A tree, or the first thing that is wrong. */
  ghost predicate ReportsFirst<T>(r: Parsed<T>, faults: seq<QueryError>) {
    if r.Ok? then faults == [] else faults != [] && r.error == faults[0]
  }

  /** The builder stops at the first problem in reading order, operators before their operands. */
  lemma {:induction false} BuiltReportsFirst<V>(ast: Ast<V>, columns: set<string>, params: map<string, V>)
    ensures ReportsFirst(Built(ast, columns, params), Faults(ast, columns, params))
    decreases ast, 1, 0
  {
    match ast
    case BoolOp(_, _, rest) => {
      BoolReportsFirst(ast, columns, params, |rest|);
    }
    case UnaryOp(_, operand) => {
      BuiltReportsFirst(operand, columns, params);
    }
    case BinOp(_, left, right) => {
      BuiltReportsFirst(left, columns, params);
      BuiltReportsFirst(right, columns, params);
    }
    case Comparison(_, links) => {
      ChainReportsFirst(ast, columns, params, |links|);
      ChainIffSupported(ast, columns, params, |links|);
    }
    case _ =>
  }

  lemma {:induction false} BoolReportsFirst<V>(ast: Ast<V>, columns: set<string>, params: map<string, V>, k: nat)
    requires ast.BoolOp? && k <= |ast.rest|
    ensures ReportsFirst(BoolUpTo(ast, columns, params, k), OperandFaults(ast, columns, params, k))
    decreases ast, 0, k
  {
    if k == 0 {
      BuiltReportsFirst(ast.first, columns, params);
    } else {
      BoolReportsFirst(ast, columns, params, k - 1);
      BuiltReportsFirst(ast.rest[k - 1], columns, params);
    }
  }

  lemma {:induction false} ChainReportsFirst<V>(ast: Ast<V>, columns: set<string>, params: map<string, V>, k: nat)
    requires ast.Comparison? && k <= |ast.links|
    ensures ReportsFirst(ChainUpTo(ast, columns, params, k), LinkFaults(ast, columns, params, k))
    decreases ast, 0, k
  {
    if k == 0 {
      BuiltReportsFirst(ast.left, columns, params);
    } else {
      ChainReportsFirst(ast, columns, params, k - 1);
      BuiltReportsFirst(ast.links[k - 1].right, columns, params);
      ChainIffSupported(ast, columns, params, k - 1);
    }
  }

  // ---- exactly the trees without a column for a list can be evaluated ----

  /**
   A tree that is built can be evaluated exactly if every membership test has a literal on
   its right. With a column there the string is parsed, and fails when it is validated.
   */
  lemma {:induction false} BuiltIffEvaluable<V>(ast: Ast<V>, columns: set<string>, params: map<string, V>)
    requires Built(ast, columns, params).Ok?
    ensures OperandEvaluable(Built(ast, columns, params).value) <==> ListsAreLiteral(ast)
    decreases ast, 1, 0
  {
    match ast
    case BoolOp(_, _, rest) => {
      BoolIffEvaluable(ast, columns, params, |rest|);
    }
    case UnaryOp(f, operand) => {
      BuiltIffEvaluable(operand, columns, params);
      OneEvaluable(f.value, Built(operand, columns, params).value);
    }
    case BinOp(f, left, right) => {
      BuiltIffEvaluable(left, columns, params);
      BuiltIffEvaluable(right, columns, params);
      TwoEvaluable(f.value, Built(left, columns, params).value, Built(right, columns, params).value);
    }
    case Comparison(_, links) => {
      ChainIffEvaluable(ast, columns, params, |links|);
    }
    case _ =>
  }

  lemma OneEvaluable<V>(f: Ufunc, a: Operand<V>)
    ensures Evaluable(Op(f, [a])) <==> OperandEvaluable(a)
  {
    assert [a][0] == a;
  }

  lemma TwoEvaluable<V>(f: Ufunc, a: Operand<V>, b: Operand<V>)
    ensures Evaluable(Op(f, [a, b])) <==> OperandEvaluable(a) && OperandEvaluable(b)
  {
    assert [a, b][0] == a && [a, b][1] == b;
  }

  lemma {:induction false} BoolIffEvaluable<V>(ast: Ast<V>, columns: set<string>, params: map<string, V>, k: nat)
    requires ast.BoolOp? && k <= |ast.rest| && BoolUpTo(ast, columns, params, k).Ok?
    ensures OperandEvaluable(BoolUpTo(ast, columns, params, k).value) <==>
              ListsAreLiteral(ast.first) && forall i :: 0 <= i < k ==> ListsAreLiteral(ast.rest[i])
    decreases ast, 0, k
  {
    if k == 0 {
      BuiltIffEvaluable(ast.first, columns, params);
    } else {
      BoolIffEvaluable(ast, columns, params, k - 1);
      BuiltIffEvaluable(ast.rest[k - 1], columns, params);
      TwoEvaluable(Reducer(ast.conjunction), BoolUpTo(ast, columns, params, k - 1).value,
                   Built(ast.rest[k - 1], columns, params).value);
    }
  }

  /** The first `k` links have no column for a list. */
  predicate LinksLiteral<V>(ast: Ast<V>, k: nat)
    requires ast.Comparison? && k <= |ast.links|
  {
    && ListsAreLiteral(ast.left)
    && (forall i :: 0 <= i < k ==> ListsAreLiteral(ast.links[i].right))
    && forall i :: 0 <= i < k ==> Tests(ast.links[i].op) ==> IsLiteral(ast.links[i].right)
  }

  lemma {:induction false} ChainIffEvaluable<V>(ast: Ast<V>, columns: set<string>, params: map<string, V>, k: nat)
    requires ast.Comparison? && k <= |ast.links| && ChainUpTo(ast, columns, params, k).Ok?
    ensures var chain := ChainUpTo(ast, columns, params, k).value;
            && (OperandEvaluable(chain.left) <==> ListsAreLiteral(LeftOf(ast, k)))
            && (chain.result.None? <==> k == 0)
            && (k > 0 ==> (Evaluable(chain.result.value) <==> LinksLiteral(ast, k)))
    decreases ast, 0, k
  {
    if k == 0 {
      BuiltIffEvaluable(ast.left, columns, params);
    } else {
      ChainIffEvaluable(ast, columns, params, k - 1);
      BuiltIffEvaluable(ast.links[k - 1].right, columns, params);
      BuiltIffSupported(ast.links[k - 1].right, columns, params);
      var chain := ChainUpTo(ast, columns, params, k - 1).value;
      var right := Built(ast.links[k - 1].right, columns, params).value;
      var piece := Piece(ast.links[k - 1].op, chain.left, right).value;
      PieceEvaluable(ast.links[k - 1].op, chain.left, right);
      LinksStep(ast, k);
      if k > 1 {
        TwoEvaluable(BitwiseAnd, Node(chain.result.value), Node(piece));
      }
    }
  }

  lemma PieceEvaluable<V>(op: CmpOp, left: Operand<V>, right: Operand<V>)
    requires Piece(op, left, right).Ok?
    ensures Evaluable(Piece(op, left, right).value) <==>
              OperandEvaluable(left) && OperandEvaluable(right) && (Tests(op) ==> right.Lit?)
  {
    if op.NotIn? {
      OneEvaluable(LogicalNot, Node(Isin(left, right)));
    }
  }

  lemma LinksStep<V>(ast: Ast<V>, k: nat)
    requires ast.Comparison? && 0 < k <= |ast.links|
    ensures LinksLiteral(ast, k) <==>
              && (if k == 1 then ListsAreLiteral(ast.left) else LinksLiteral(ast, k - 1))
              && ListsAreLiteral(LeftOf(ast, k - 1)) && ListsAreLiteral(ast.links[k - 1].right)
              && (Tests(ast.links[k - 1].op) ==> IsLiteral(ast.links[k - 1].right))
  {
  }

  /** `x in y`: the tree reads column `x` only, and tests against the object that `y` is, in every row alike. */
  lemma MembershipInColumn<V>(s: Semantics<V>, x: string, y: string, params: map<string, V>, row: map<string, V>)
    requires x in row && y in row && x != y
    ensures var test := Comparison(Name(x), [Link(In, Name(y))]);
            var tree := Isin(Node(Col(x)), Node(Col(y)));
            && Built(test, row.Keys, params) == Ok(Node(tree)) && Names(tree) == {x} && !Evaluable(tree)
            && RowValue(s, tree, row) == s.member(row[x], s.boxed(Col(y)))
  {
    var test := Comparison(Name(x), [Link(In, Name(y))]);
    var left, right := Node(Expr<V>.Col(x)), Node(Expr<V>.Col(y));
    assert Built(Ast<V>.Name(x), row.Keys, params) == Ok(left) && Built(Ast<V>.Name(y), row.Keys, params) == Ok(right);
    assert ChainUpTo(test, row.Keys, params, 0) == Ok(Chain(None, left));
    assert test.links[0] == Link(In, Name(y)) && |test.links| == 1;
    assert Chained(Chain(None, left), In, right) == Ok(Chain(Some(Isin(left, right)), right));
    assert ChainUpTo(test, row.Keys, params, 1) == Ok(Chain(Some(Isin(left, right)), right));
    assert Names(Expr<V>.Col(x)) == {x};
    assert RowValue(s, Col(x), row) == row[x];
  }

  // ---- and it means what the syntax says ----

  /** The operand reads only known columns and has this value. */
  ghost predicate HasMeaning<V>(s: Semantics<V>, o: Operand<V>, row: map<string, V>, v: V) {
    OperandNames(o) <= row.Keys && OperandValue(s, o, row) == v
  }

  lemma OneOperand<V>(s: Semantics<V>, f: Ufunc, a: Operand<V>, row: map<string, V>, x: V)
    requires HasMeaning(s, a, row, x)
    ensures HasMeaning(s, Node(Op(f, [a])), row, s.apply(f, [x]))
  {
    assert AllNames([a]) <= row.Keys;
    assert AllValues(s, [a], row) == [x];
  }

  lemma TwoOperands<V>(s: Semantics<V>, f: Ufunc, a: Operand<V>, b: Operand<V>, row: map<string, V>, x: V, y: V)
    requires HasMeaning(s, a, row, x) && HasMeaning(s, b, row, y)
    ensures HasMeaning(s, Node(Op(f, [a, b])), row, s.apply(f, [x, y]))
  {
    var args := [a, b];
    forall k | 0 <= k < |args| ensures OperandNames(args[k]) <= row.Keys {
    }
    assert AllNames(args) <= row.Keys;
    assert AllValues(s, args, row) == [x, y];
  }

  lemma CompareNode<V>(s: Semantics<V>, rel: Rel, a: Operand<V>, b: Operand<V>, row: map<string, V>, x: V, y: V)
    requires HasMeaning(s, a, row, x) && HasMeaning(s, b, row, y)
    ensures HasMeaning(s, Node(Compare(rel, a, b)), row, s.apply(Relation(rel), [x, y]))
  {
    var e := Compare(rel, a, b);
    assert Names(e) == OperandNames(a) + OperandNames(b);
    assert RowValue(s, e, row) == s.apply(Relation(rel), [x, y]);
  }

  lemma IsinNode<V>(s: Semantics<V>, a: Operand<V>, values: V, row: map<string, V>, x: V)
    requires HasMeaning(s, a, row, x)
    ensures HasMeaning(s, Node(Isin(a, Lit(values))), row, s.member(x, values))
  {
    var e := Isin(a, Lit(values));
    assert Names(e) == OperandNames(a);
    assert RowValue(s, e, row) == s.member(x, values);
  }

  /** The builder's tree has, in every row, the value the syntax means. */
  lemma {:induction false} BuildPreservesMeaning<V(!new)>(s: Semantics<V>, t: Truth<V>, ast: Ast<V>,
                                                          params: map<string, V>, row: map<string, V>)
    requires Supported(ast, row.Keys, params) && ListsAreLiteral(ast) && BooleanLaws(s, t)
    ensures Built(ast, row.Keys, params).Ok?
    ensures HasMeaning(s, Built(ast, row.Keys, params).value, row, Meaning(s, t, ast, params, row))
    decreases ast, 1, 0
  {
    hide BooleanLaws;
    hide HasMeaning;
    BuiltIffSupported(ast, row.Keys, params);
    match ast
    case BoolOp(_, _, rest) => {
      BoolMeans(s, t, ast, params, row, |rest|);
      BoolEnd(s, t, ast, params, row);
    }
    case UnaryOp(f, operand) => {
      BuildPreservesMeaning(s, t, operand, params, row);
      OneOperand(s, f.value, Built(operand, row.Keys, params).value, row, Meaning(s, t, operand, params, row));
    }
    case BinOp(f, left, right) => {
      BuildPreservesMeaning(s, t, left, params, row);
      BuildPreservesMeaning(s, t, right, params, row);
      TwoOperands(s, f.value, Built(left, row.Keys, params).value, Built(right, row.Keys, params).value, row,
                  Meaning(s, t, left, params, row), Meaning(s, t, right, params, row));
    }
    case Comparison(_, links) => {
      ChainMeans(s, t, ast, params, row, |links|);
    }
    case _ => {
      LeafMeans(s, t, ast, params, row);
    }
  }

  lemma LeafMeans<V>(s: Semantics<V>, t: Truth<V>, ast: Ast<V>, params: map<string, V>, row: map<string, V>)
    requires Supported(ast, row.Keys, params) && (ast.Name? || ast.Param? || ast.Constant?)
    ensures HasMeaning(s, Built(ast, row.Keys, params).value, row, Meaning(s, t, ast, params, row))
  {
  }

  /** The meaning of a Boolean operation cut after `k` further operands. */
  ghost function BoolMeaning<V>(s: Semantics<V>, t: Truth<V>, ast: Ast<V>, params: map<string, V>, row: map<string, V>,
                                k: nat): V
    requires ast.BoolOp? && Supported(ast, row.Keys, params) && k <= |ast.rest|
  {
    var head := Meaning(s, t, ast.first, params, row);
    if k == 0 then head
    else if ast.conjunction then t.embed(t.truthy(head) && AllTrue(s, t, ast, params, row, k))
    else t.embed(t.truthy(head) || AnyTrue(s, t, ast, params, row, k))
  }

  ghost predicate AllTrue<V>(s: Semantics<V>, t: Truth<V>, ast: Ast<V>, params: map<string, V>, row: map<string, V>,
                             k: nat)
    requires ast.BoolOp? && Supported(ast, row.Keys, params) && k <= |ast.rest|
  {
    forall i :: 0 <= i < k ==> t.truthy(Meaning(s, t, ast.rest[i], params, row))
  }

  ghost predicate AnyTrue<V>(s: Semantics<V>, t: Truth<V>, ast: Ast<V>, params: map<string, V>, row: map<string, V>,
                             k: nat)
    requires ast.BoolOp? && Supported(ast, row.Keys, params) && k <= |ast.rest|
  {
    exists i :: 0 <= i < k && t.truthy(Meaning(s, t, ast.rest[i], params, row))
  }

  lemma OneMoreTrue<V>(s: Semantics<V>, t: Truth<V>, ast: Ast<V>, params: map<string, V>, row: map<string, V>, k: nat)
    requires ast.BoolOp? && Supported(ast, row.Keys, params) && 0 < k <= |ast.rest|
    ensures var last := t.truthy(Meaning(s, t, ast.rest[k - 1], params, row));
            && AllTrue(s, t, ast, params, row, k) == (AllTrue(s, t, ast, params, row, k - 1) && last)
            && AnyTrue(s, t, ast, params, row, k) == (AnyTrue(s, t, ast, params, row, k - 1) || last)
            && AllTrue(s, t, ast, params, row, 0) && !AnyTrue(s, t, ast, params, row, 0)
  {
    hide Meaning;
  }

  lemma {:induction false} BoolMeans<V(!new)>(s: Semantics<V>, t: Truth<V>, ast: Ast<V>, params: map<string, V>,
                                              row: map<string, V>, k: nat)
    requires ast.BoolOp? && Supported(ast, row.Keys, params) && ListsAreLiteral(ast) && k <= |ast.rest|
    requires BooleanLaws(s, t)
    ensures BoolUpTo(ast, row.Keys, params, k).Ok?
    ensures HasMeaning(s, BoolUpTo(ast, row.Keys, params, k).value, row, BoolMeaning(s, t, ast, params, row, k))
    decreases ast, 0, k
  {
    hide BooleanLaws;
    hide HasMeaning;
    hide BoolMeaning;
    if k == 0 {
      BuildPreservesMeaning(s, t, ast.first, params, row);
      BoolStart(s, t, ast, params, row);
    } else {
      BoolMeans(s, t, ast, params, row, k - 1);
      BuildPreservesMeaning(s, t, ast.rest[k - 1], params, row);
      TwoOperands(s, Reducer(ast.conjunction), BoolUpTo(ast, row.Keys, params, k - 1).value,
                  Built(ast.rest[k - 1], row.Keys, params).value, row,
                  BoolMeaning(s, t, ast, params, row, k - 1), Meaning(s, t, ast.rest[k - 1], params, row));
      BoolStep(s, t, ast, params, row, k);
    }
  }

  lemma BoolStart<V>(s: Semantics<V>, t: Truth<V>, ast: Ast<V>, params: map<string, V>, row: map<string, V>)
    requires ast.BoolOp? && Supported(ast, row.Keys, params)
    ensures BoolMeaning(s, t, ast, params, row, 0) == Meaning(s, t, ast.first, params, row)
  {
  }

  lemma BoolEnd<V>(s: Semantics<V>, t: Truth<V>, ast: Ast<V>, params: map<string, V>, row: map<string, V>)
    requires ast.BoolOp? && Supported(ast, row.Keys, params)
    ensures BoolMeaning(s, t, ast, params, row, |ast.rest|) == Meaning(s, t, ast, params, row)
  {
  }

  lemma BoolStep<V(!new)>(s: Semantics<V>, t: Truth<V>, ast: Ast<V>, params: map<string, V>, row: map<string, V>,
                          k: nat)
    requires ast.BoolOp? && Supported(ast, row.Keys, params) && 0 < k <= |ast.rest| && BooleanLaws(s, t)
    ensures s.apply(Reducer(ast.conjunction),
                    [BoolMeaning(s, t, ast, params, row, k - 1), Meaning(s, t, ast.rest[k - 1], params, row)])
            == BoolMeaning(s, t, ast, params, row, k)
  {
    hide BooleanLaws;
    hide Meaning;
    var before, next := BoolMeaning(s, t, ast, params, row, k - 1), Meaning(s, t, ast.rest[k - 1], params, row);
    ReducerLaw(s, t, ast.conjunction, before, next);
    OneMoreTrue(s, t, ast, params, row, k);
    hide AllTrue;
    hide AnyTrue;
    var head := t.truthy(Meaning(s, t, ast.first, params, row));
    EmbedLaw(s, t, head && AllTrue(s, t, ast, params, row, k - 1));
    EmbedLaw(s, t, head || AnyTrue(s, t, ast, params, row, k - 1));
  }

  /** After `k` links the conjunction says that the first `k` pairs hold. */
  lemma {:induction false} ChainMeans<V(!new)>(s: Semantics<V>, t: Truth<V>, ast: Ast<V>, params: map<string, V>,
                                               row: map<string, V>, k: nat)
    requires ast.Comparison? && Supported(ast, row.Keys, params) && ListsAreLiteral(ast) && k <= |ast.links|
    requires BooleanLaws(s, t)
    ensures ChainUpTo(ast, row.Keys, params, k).Ok?
    ensures var chain := ChainUpTo(ast, row.Keys, params, k).value;
            && HasMeaning(s, chain.left, row, Meaning(s, t, LeftOf(ast, k), params, row))
            && (chain.result.None? <==> k == 0)
            && (k > 0 ==> HasMeaning(s, Node(chain.result.value), row,
                                     t.embed(PairsHold(s, t, ast, params, row, k))))
    decreases ast, 0, k
  {
    hide BooleanLaws;
    hide HasMeaning;
    hide PairHolds;
    hide PairsHold;
    PairsStep(s, t, ast, params, row, k);
    PairsStep(s, t, ast, params, row, 0);
    ChainIffSupported(ast, row.Keys, params, k);
    if k == 0 {
      BuildPreservesMeaning(s, t, ast.left, params, row);
    } else {
      ChainMeans(s, t, ast, params, row, k - 1);
      ChainIffSupported(ast, row.Keys, params, k - 1);
      BuildPreservesMeaning(s, t, ast.links[k - 1].right, params, row);
      var chain := ChainUpTo(ast, row.Keys, params, k - 1).value;
      var right := Built(ast.links[k - 1].right, row.Keys, params).value;
      var piece := Piece(ast.links[k - 1].op, chain.left, right);
      PairIs(s, t, ast, params, row, k - 1);
      PieceMeans(s, t, ast.links[k - 1].op, chain.left, right, row, Meaning(s, t, LeftOf(ast, k - 1), params, row),
                 Meaning(s, t, ast.links[k - 1].right, params, row));
      if k > 1 {
        var before := PairsHold(s, t, ast, params, row, k - 1);
        var last := PairHolds(s, t, ast, params, row, k - 1);
        TwoOperands(s, BitwiseAnd, Node(chain.result.value), Node(piece.value), row, t.embed(before), t.embed(last));
        BitwiseLaw(s, t, before, last);
      }
    }
  }

  lemma PairsStep<V>(s: Semantics<V>, t: Truth<V>, ast: Ast<V>, params: map<string, V>, row: map<string, V>, k: nat)
    requires ast.Comparison? && Supported(ast, row.Keys, params) && k <= |ast.links|
    ensures k == 0 ==> PairsHold(s, t, ast, params, row, k)
    ensures k > 0 ==> (PairsHold(s, t, ast, params, row, k) <==>
              PairsHold(s, t, ast, params, row, k - 1) && PairHolds(s, t, ast, params, row, k - 1))
  {
  }

  lemma PairIs<V>(s: Semantics<V>, t: Truth<V>, ast: Ast<V>, params: map<string, V>, row: map<string, V>, k: nat)
    requires ast.Comparison? && Supported(ast, row.Keys, params) && k < |ast.links|
    ensures Supported(LeftOf(ast, k), row.Keys, params)
    ensures PairHolds(s, t, ast, params, row, k) ==
            LinkHolds(t, ast.links[k].op, Meaning(s, t, LeftOf(ast, k), params, row),
                      Meaning(s, t, ast.links[k].right, params, row))
  {
    hide LinkHolds;
  }

  lemma PieceMeans<V(!new)>(s: Semantics<V>, t: Truth<V>, op: CmpOp, left: Operand<V>, right: Operand<V>,
                            row: map<string, V>, a: V, b: V)
    requires BooleanLaws(s, t) && HasMeaning(s, left, row, a) && HasMeaning(s, right, row, b)
    requires Piece(op, left, right).Ok? && (Tests(op) ==> right.Lit?)
    ensures HasMeaning(s, Node(Piece(op, left, right).value), row, t.embed(LinkHolds(t, op, a, b)))
  {
    hide BooleanLaws;
    match op
    case Comparing(rel) => {
      CompareNode(s, rel, left, right, row, a, b);
      RelationLaw(s, t, rel, a, b);
    }
    case In => {
      IsinNode(s, left, right.v, row, a);
      MemberLaw(s, t, a, b);
    }
    case NotIn => {
      IsinNode(s, left, right.v, row, a);
      OneOperand(s, LogicalNot, Node(Isin(left, right)), row, s.member(a, b));
      MemberLaw(s, t, a, b);
    }
  }

  /**
   The string form and whole columns: the mask of a parsed predicate holds, row by row,
   what the syntax means there.
   */
  lemma ParsedMask<V(!new)>(s: Semantics<V>, t: Truth<V>, ast: Ast<V>, params: map<string, V>, columns: Columns<V>,
                            n: nat, i: nat, row: map<string, V>, e: Expr<V>)
    requires BooleanLaws(s, t) && Stored(columns, n) && i < n && row == Row(columns, n, i)
    requires Supported(ast, row.Keys, params) && ListsAreLiteral(ast)
    requires Built(ast, row.Keys, params) == Ok(Node(e)) && Names(e) != {}
    ensures Names(e) <= columns.Keys && EvaluateMask(s, e, columns, n).Some?
    ensures i < |EvaluateMask(s, e, columns, n).value|
    ensures EvaluateMask(s, e, columns, n).value[i] == Meaning(s, t, ast, params, row)
  {
    hide BooleanLaws;
    hide Meaning;
    BuildPreservesMeaning(s, t, ast, params, row);
    BuiltIffEvaluable(ast, row.Keys, params);
    MaskIsRowwise(s, e, columns, n);
  }
}
