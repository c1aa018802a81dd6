/**
 * The optimizer rule that puts a Limit of one row on top of every EXISTS
 * subquery: only whether the subquery yields a row matters, so the first
 * row is enough.  The rule walks the logical query plan and the expressions
 * it examines, and reports whether it changed anything.
 *
 * Plans and expressions are values here.  The rule's one in-place update,
 * replacing the plan of a subquery expression, becomes a method that returns
 * the rewritten expression; RewriteNode and RewriteExpr specify the walk, and
 * the lemmas say what the rule achieves.
 */
module InsertLimitInExists {

  /** A logical query plan node with its inputs (at most two in practice). */
  datatype Node =
    | PredicateNode(predicateExpr: Expr, inputs: seq<Node>)
    | ProjectionNode(expressions: seq<Expr>, inputs: seq<Node>)
    | LimitNode(numRows: Expr, inputs: seq<Node>)
    | OtherNode(expressions: seq<Expr>, inputs: seq<Node>)  // any other node type, whatever expressions it holds

  /**
   * An expression.  EXISTS is over a subquery expression; its one argument is
   * that subquery, whose own arguments are the parameters of a correlated
   * subquery.
   */
  datatype Expr =
    | ExistsExpr(plan: Node, parameters: seq<Expr>)
    | SelectExpr(plan: Node, parameters: seq<Expr>)
    | ValueExpr(value: int)
    | OtherExpr(arguments: seq<Expr>)

  /** The row count of the inserted Limit: the 64-bit integer 1. */
  const ONE_ROW: Expr := ValueExpr(1)

  // ---------------------------------------------------------------------
  // The walk, as functions
  // ---------------------------------------------------------------------

  /** Every node of a list rewritten, in order; the flag is the OR of their flags. */
  function RewriteNodes(ns: seq<Node>): (r: (seq<Node>, bool))
    ensures |r.0| == |ns|
    decreases ns
  {
    if ns == [] then ([], false)
    else
      var (init, c1) := RewriteNodes(ns[..|ns| - 1]);
      var (last, c2) := RewriteNode(ns[|ns| - 1]);
      (init + [last], c1 || c2)
  }

  /** Every expression of a list rewritten, in order; the flag is the OR of their flags. */
  function RewriteExprs(es: seq<Expr>): (r: (seq<Expr>, bool))
    ensures |r.0| == |es|
    decreases es
  {
    if es == [] then ([], false)
    else
      var (init, c1) := RewriteExprs(es[..|es| - 1]);
      var (last, c2) := RewriteExpr(es[|es| - 1]);
      (init + [last], c1 || c2)
  }

  /**
   * A node: the predicate of a Predicate node and the expressions of a
   * Projection node are examined, no other node's; every node's inputs are.
   */
  function RewriteNode(n: Node): (Node, bool)
    decreases n
  {
    var (inputs, inputsChanged) := RewriteNodes(n.inputs);
    match n
    case PredicateNode(p, _) =>
      var (p2, c) := RewriteExpr(p);
      (PredicateNode(p2, inputs), c || inputsChanged)
    case ProjectionNode(es, _) =>
      var (es2, c) := RewriteExprs(es);
      (ProjectionNode(es2, inputs), c || inputsChanged)
    case LimitNode(rows, _) => (LimitNode(rows, inputs), inputsChanged)
    case OtherNode(es, _) => (OtherNode(es, inputs), inputsChanged)
  }

  /**
   * An expression: an EXISTS whose subquery plan is not rooted at a Limit
   * gets a Limit of one row on top of it; subquery plans and all arguments
   * are walked in turn.  The walk into a wrapped plan passes the new Limit
   * node, which contributes nothing but its input (WrapCommutes).
   */
  function RewriteExpr(e: Expr): (Expr, bool)
    decreases e
  {
    match e
    case ExistsExpr(plan, params) =>
      var (plan2, c1) := RewriteNode(plan);
      var (params2, c2) := RewriteExprs(params);
      if plan.LimitNode? then (ExistsExpr(plan2, params2), c1 || c2)
      else (ExistsExpr(LimitNode(ONE_ROW, [plan2]), params2), true)
    case SelectExpr(plan, params) =>
      var (plan2, c1) := RewriteNode(plan);
      var (params2, c2) := RewriteExprs(params);
      (SelectExpr(plan2, params2), c1 || c2)
    case ValueExpr(_) => (e, false)
    case OtherExpr(args) =>
      var (args2, c) := RewriteExprs(args);
      (OtherExpr(args2), c)
  }

  // ---------------------------------------------------------------------
  // What the rule achieves
  // ---------------------------------------------------------------------

  /** Every EXISTS the rule examines in this plan already has a Limit at the root of its subquery. */
  predicate NodeLimited(n: Node)
    decreases n
  {
    NodesLimited(n.inputs) &&
    match n
    case PredicateNode(p, _) => ExprLimited(p)
    case ProjectionNode(es, _) => ExprsLimited(es)
    case LimitNode(_, _) => true
    case OtherNode(_, _) => true
  }

  predicate NodesLimited(ns: seq<Node>)
    decreases ns
  {
    forall i :: 0 <= i < |ns| ==> NodeLimited(ns[i])
  }

  predicate ExprLimited(e: Expr)
    decreases e
  {
    match e
    case ExistsExpr(plan, params) => plan.LimitNode? && NodeLimited(plan) && ExprsLimited(params)
    case SelectExpr(plan, params) => NodeLimited(plan) && ExprsLimited(params)
    case ValueExpr(_) => true
    case OtherExpr(args) => ExprsLimited(args)
  }

  predicate ExprsLimited(es: seq<Expr>)
    decreases es
  {
    forall i :: 0 <= i < |es| ==> ExprLimited(es[i])
  }

  // ---------------------------------------------------------------------
  // What the rule may change
  // ---------------------------------------------------------------------

  /**
   * r is n with a one-row Limit inserted over the subquery plan of every
   * examined EXISTS whose plan is not rooted at a Limit, and nothing else
   * changed: every node keeps its kind, its row count or unexamined
   * expressions, and its inputs in order.
   */
  predicate NodeInserts(n: Node, r: Node)
    decreases n
  {
    NodesInserts(n.inputs, r.inputs) &&
    match n
    case PredicateNode(p, _) => r.PredicateNode? && ExprInserts(p, r.predicateExpr)
    case ProjectionNode(es, _) => r.ProjectionNode? && ExprsInserts(es, r.expressions)
    case LimitNode(rows, _) => r.LimitNode? && r.numRows == rows
    case OtherNode(es, _) => r.OtherNode? && r.expressions == es
  }

  predicate NodesInserts(ns: seq<Node>, rs: seq<Node>)
    decreases ns
  {
    |ns| == |rs| && forall i :: 0 <= i < |ns| ==> NodeInserts(ns[i], rs[i])
  }

  /** The same for an expression: only an EXISTS over a plan not rooted at a Limit gains a one-row Limit. */
  predicate ExprInserts(e: Expr, r: Expr)
    decreases e
  {
    match e
    case ExistsExpr(plan, params) =>
      r.ExistsExpr? && ExprsInserts(params, r.parameters) &&
      if plan.LimitNode? then NodeInserts(plan, r.plan)
      else r.plan.LimitNode? && r.plan.numRows == ONE_ROW && |r.plan.inputs| == 1 && NodeInserts(plan, r.plan.inputs[0])
    case SelectExpr(plan, params) =>
      r.SelectExpr? && NodeInserts(plan, r.plan) && ExprsInserts(params, r.parameters)
    case ValueExpr(_) => r == e
    case OtherExpr(args) => r.OtherExpr? && ExprsInserts(args, r.arguments)
  }

  predicate ExprsInserts(es: seq<Expr>, rs: seq<Expr>)
    decreases es
  {
    |es| == |rs| && forall i :: 0 <= i < |es| ==> ExprInserts(es[i], rs[i])
  }

  /** The limiting and flag part of NodeRewrite, by mutual induction. */
  lemma {:induction false} NodeLimits(n: Node)
    ensures NodeLimited(RewriteNode(n).0)
    ensures RewriteNode(n).1 <==> !NodeLimited(n)
    ensures NodeLimited(n) ==> RewriteNode(n).0 == n
    decreases n
  {
    NodesLimits(n.inputs);
    match n
    case PredicateNode(p, _) => ExprLimits(p);
    case ProjectionNode(es, _) => ExprsLimits(es);
    case LimitNode(_, _) =>
    case OtherNode(_, _) =>
  }

  lemma {:induction false} NodesLimits(ns: seq<Node>)
    ensures NodesLimited(RewriteNodes(ns).0)
    ensures RewriteNodes(ns).1 <==> !NodesLimited(ns)
    ensures NodesLimited(ns) ==> RewriteNodes(ns).0 == ns
    decreases ns
  {
    if ns != [] {
      var init := ns[..|ns| - 1];
      NodesLimits(init);
      NodeLimits(ns[|ns| - 1]);
      var r := RewriteNodes(ns);
      assert forall i :: 0 <= i < |ns| - 1 ==> r.0[i] == RewriteNodes(init).0[i];
      assert NodesLimited(ns) <==> NodesLimited(init) && NodeLimited(ns[|ns| - 1]) by {
        assert forall i :: 0 <= i < |init| ==> init[i] == ns[i];
      }
      if NodesLimited(ns) {
        assert ns == init + [ns[|ns| - 1]];
      }
    }
  }

  lemma {:induction false} ExprLimits(e: Expr)
    ensures ExprLimited(RewriteExpr(e).0)
    ensures RewriteExpr(e).1 <==> !ExprLimited(e)
    ensures ExprLimited(e) ==> RewriteExpr(e).0 == e
    decreases e
  {
    match e
    case ExistsExpr(plan, params) =>
      NodeLimits(plan);
      ExprsLimits(params);
      if !plan.LimitNode? {
        assert NodesLimited([RewriteNode(plan).0]);
      }
    case SelectExpr(plan, params) =>
      NodeLimits(plan);
      ExprsLimits(params);
    case ValueExpr(_) =>
    case OtherExpr(args) => ExprsLimits(args);
  }

  lemma {:induction false} ExprsLimits(es: seq<Expr>)
    ensures ExprsLimited(RewriteExprs(es).0)
    ensures RewriteExprs(es).1 <==> !ExprsLimited(es)
    ensures ExprsLimited(es) ==> RewriteExprs(es).0 == es
    decreases es
  {
    if es != [] {
      var init := es[..|es| - 1];
      ExprsLimits(init);
      ExprLimits(es[|es| - 1]);
      var r := RewriteExprs(es);
      assert forall i :: 0 <= i < |es| - 1 ==> r.0[i] == RewriteExprs(init).0[i];
      assert ExprsLimited(es) <==> ExprsLimited(init) && ExprLimited(es[|es| - 1]) by {
        assert forall i :: 0 <= i < |init| ==> init[i] == es[i];
      }
      if ExprsLimited(es) {
        assert es == init + [es[|es| - 1]];
      }
    }
  }

  /** The insertion part of NodeRewrite, by mutual induction. */
  lemma {:induction false} NodeInsertion(n: Node)
    ensures NodeInserts(n, RewriteNode(n).0)
    decreases n
  {
    NodesInsertion(n.inputs);
    match n
    case PredicateNode(p, _) => ExprInsertion(p);
    case ProjectionNode(es, _) => ExprsInsertion(es);
    case LimitNode(_, _) =>
    case OtherNode(_, _) =>
  }

  lemma {:induction false} NodesInsertion(ns: seq<Node>)
    ensures NodesInserts(ns, RewriteNodes(ns).0)
    decreases ns
  {
    if ns != [] {
      var init := ns[..|ns| - 1];
      NodesInsertion(init);
      NodeInsertion(ns[|ns| - 1]);
      var r := RewriteNodes(ns).0;
      assert r[..|r| - 1] == RewriteNodes(init).0;
      forall i | 0 <= i < |ns| ensures NodeInserts(ns[i], r[i]) {
        if i < |ns| - 1 {
          assert ns[i] == init[i];
        }
      }
    }
  }

  lemma {:induction false} ExprInsertion(e: Expr)
    ensures ExprInserts(e, RewriteExpr(e).0)
    decreases e
  {
    match e
    case ExistsExpr(plan, params) =>
      NodeInsertion(plan);
      ExprsInsertion(params);
    case SelectExpr(plan, params) =>
      NodeInsertion(plan);
      ExprsInsertion(params);
    case ValueExpr(_) =>
    case OtherExpr(args) => ExprsInsertion(args);
  }

  lemma {:induction false} ExprsInsertion(es: seq<Expr>)
    ensures ExprsInserts(es, RewriteExprs(es).0)
    decreases es
  {
    if es != [] {
      var init := es[..|es| - 1];
      ExprsInsertion(init);
      ExprInsertion(es[|es| - 1]);
      var r := RewriteExprs(es).0;
      assert r[..|r| - 1] == RewriteExprs(init).0;
      forall i | 0 <= i < |es| ensures ExprInserts(es[i], r[i]) {
        if i < |es| - 1 {
          assert es[i] == init[i];
        }
      }
    }
  }

  /**
   * The rule leaves every examined EXISTS limited; it reports a change
   * exactly when some examined EXISTS was not; when none was, it changes
   * nothing; and it changes nothing but inserting a one-row Limit over the
   * old root of each examined EXISTS plan not rooted at a Limit (NodeInserts).
   */
  lemma NodeRewrite(n: Node)
    ensures NodeLimited(RewriteNode(n).0)
    ensures RewriteNode(n).1 <==> !NodeLimited(n)
    ensures NodeLimited(n) ==> RewriteNode(n).0 == n
    ensures NodeInserts(n, RewriteNode(n).0)
  {
    NodeLimits(n);
    NodeInsertion(n);
  }

  /** NodeRewrite for a list of nodes, with the flags OR-ed. */
  lemma NodesRewrite(ns: seq<Node>)
    ensures NodesLimited(RewriteNodes(ns).0)
    ensures RewriteNodes(ns).1 <==> !NodesLimited(ns)
    ensures NodesLimited(ns) ==> RewriteNodes(ns).0 == ns
    ensures NodesInserts(ns, RewriteNodes(ns).0)
  {
    NodesLimits(ns);
    NodesInsertion(ns);
  }

  /** NodeRewrite for one expression: its subquery plans, parameters and arguments. */
  lemma ExprRewrite(e: Expr)
    ensures ExprLimited(RewriteExpr(e).0)
    ensures RewriteExpr(e).1 <==> !ExprLimited(e)
    ensures ExprLimited(e) ==> RewriteExpr(e).0 == e
    ensures ExprInserts(e, RewriteExpr(e).0)
  {
    ExprLimits(e);
    ExprInsertion(e);
  }

  /** ExprRewrite for a list of expressions, with the flags OR-ed. */
  lemma ExprsRewrite(es: seq<Expr>)
    ensures ExprsLimited(RewriteExprs(es).0)
    ensures RewriteExprs(es).1 <==> !ExprsLimited(es)
    ensures ExprsLimited(es) ==> RewriteExprs(es).0 == es
    ensures ExprsInserts(es, RewriteExprs(es).0)
  {
    ExprsLimits(es);
    ExprsInsertion(es);
  }

  /** The reported flag is exact: it is set exactly when the plan changed. */
  lemma ChangedIffDifferent(n: Node)
    ensures RewriteNode(n).1 <==> RewriteNode(n).0 != n
  {
    NodeRewrite(n);
  }

  /** A second run finds every EXISTS limited: it changes nothing and reports no change. */
  lemma Idempotent(n: Node)
    ensures RewriteNode(RewriteNode(n).0) == (RewriteNode(n).0, false)
  {
    NodeRewrite(n);
    NodeRewrite(RewriteNode(n).0);
  }

  /**
   * Wrapping a plan and then walking it is walking the plan and then
   * wrapping it: the new Limit node adds nothing to the walk.
   */
  lemma WrapCommutes(plan: Node)
    ensures RewriteNode(LimitNode(ONE_ROW, [plan])) == (LimitNode(ONE_ROW, [RewriteNode(plan).0]), RewriteNode(plan).1)
  {
    assert [plan][..0] == [];
    var (plan2, c) := RewriteNode(plan);
    assert RewriteNodes([plan]) == ([] + [plan2], false || c);
    assert [] + [plan2] == [plan2];
  }

  // ---------------------------------------------------------------------
  // The rule
  // ---------------------------------------------------------------------

  /** `apply_to` on a node: its examined expressions, then its inputs. */
  method ApplyToNode(node: Node) returns (result: Node, changed: bool)
    ensures (result, changed) == RewriteNode(node)
    decreases node
  {
    changed := false;
    var expressionsChanged := false;
    match node {
      case PredicateNode(p, _) =>
        var p2;
        p2, expressionsChanged := ApplyToExpression(p);
        result := PredicateNode(p2, node.inputs);
      case ProjectionNode(es, _) =>
        var es2;
        es2, expressionsChanged := ApplyToExpressions(es);
        result := ProjectionNode(es2, node.inputs);
      case LimitNode(_, _) =>
        result := node;
      case OtherNode(_, _) =>
        result := node;
    }
    changed := changed || expressionsChanged;
    var inputs, inputsChanged := ApplyToInputs(node.inputs);
    changed := changed || inputsChanged;
    result := result.(inputs := inputs);
  }

  /** The rule applied to each input in turn, OR-ing the flags. */
  method ApplyToInputs(inputs: seq<Node>) returns (result: seq<Node>, changed: bool)
    ensures (result, changed) == RewriteNodes(inputs)
    decreases inputs
  {
    result := [];
    changed := false;
    var i := 0;
    while i < |inputs|
      invariant 0 <= i <= |inputs|
      invariant (result, changed) == RewriteNodes(inputs[..i])
    {
      var input, inputChanged := ApplyToNode(inputs[i]);
      assert inputs[..i + 1][..i] == inputs[..i];
      result := result + [input];
      changed := changed || inputChanged;
      i := i + 1;
    }
    assert inputs[..i] == inputs;
  }

  /** `apply_to` on a list of expressions: each one in order, OR-ing the flags. */
  method ApplyToExpressions(expressions: seq<Expr>) returns (result: seq<Expr>, changed: bool)
    ensures (result, changed) == RewriteExprs(expressions)
    decreases expressions
  {
    result := [];
    changed := false;
    var i := 0;
    while i < |expressions|
      invariant 0 <= i <= |expressions|
      invariant (result, changed) == RewriteExprs(expressions[..i])
    {
      var expression, expressionChanged := ApplyToExpression(expressions[i]);
      assert expressions[..i + 1][..i] == expressions[..i];
      result := result + [expression];
      changed := changed || expressionChanged;
      i := i + 1;
    }
    assert expressions[..i] == expressions;
  }

  /**
   * One expression of the loop in `apply_to`.  An EXISTS whose subquery plan
   * is not a Limit has that plan replaced by a Limit of one row over it; then
   * the arguments are walked, which for an EXISTS is its subquery: the plan
   * (through the new Limit node to the old root) and the parameters.
   */
  method ApplyToExpression(expression: Expr) returns (result: Expr, changed: bool)
    ensures (result, changed) == RewriteExpr(expression)
    decreases expression
  {
    changed := false;
    match expression
    case ExistsExpr(plan, params) =>
      var wrap := !plan.LimitNode?;
      if wrap {
        changed := true;
      }
      var plan2, planChanged := ApplyToNode(plan);
      changed := changed || planChanged;
      var params2, paramsChanged := ApplyToExpressions(params);
      changed := changed || paramsChanged;
      result := ExistsExpr(if wrap then LimitNode(ONE_ROW, [plan2]) else plan2, params2);
    case SelectExpr(plan, params) =>
      var plan2, planChanged := ApplyToNode(plan);
      changed := changed || planChanged;
      var params2, paramsChanged := ApplyToExpressions(params);
      changed := changed || paramsChanged;
      result := SelectExpr(plan2, params2);
    case ValueExpr(_) =>
      result := expression;
    case OtherExpr(args) =>
      var args2, argsChanged := ApplyToExpressions(args);
      changed := changed || argsChanged;
      result := OtherExpr(args2);
  }
}
