/**
 * The logical-NOT node of the MSBuild condition expression tree
 * (Reading/Conditionals/NotExpressionNode.cs).  The other node kinds are not
 * modelled: they are leaves whose behaviour is given by `LeafSemantics`.
 * The evaluation state is a read-only value, so evaluating a node cannot
 * change it: a NOT node leaves the table of conditioned properties alone.
 */
module Conditionals {

  /** A condition node: the NOT of its left child, or some other node `leaf`. */
  datatype ExpressionNode<L> = Not(leftChild: ExpressionNode<L>) | Other(leaf: L)

  /** How the nodes that are not modelled behave on a state of type `S`. */
  datatype LeafSemantics<-L, -S> = LeafSemantics(
    boolEvaluate: (L, S) -> bool,
    canBoolEvaluate: (L, S) -> bool,
    unexpandedValue: (L, S) -> string,
    expandedValue: (L, S) -> string,
    debuggerDisplay: L -> string)

  function BoolEvaluate<L, S>(sem: LeafSemantics<L, S>, node: ExpressionNode<L>, state: S): bool {
    match node
    case Not(child) => !BoolEvaluate(sem, child, state)
    case Other(leaf) => sem.boolEvaluate(leaf, state)
  }

  function CanBoolEvaluate<L, S>(sem: LeafSemantics<L, S>, node: ExpressionNode<L>, state: S): bool {
    match node
    case Not(child) => CanBoolEvaluate(sem, child, state)
    case Other(leaf) => sem.canBoolEvaluate(leaf, state)
  }

  function GetUnexpandedValue<L, S>(sem: LeafSemantics<L, S>, node: ExpressionNode<L>, state: S): string {
    match node
    case Not(child) => "!" + GetUnexpandedValue(sem, child, state)
    case Other(leaf) => sem.unexpandedValue(leaf, state)
  }

  function GetExpandedValue<L, S>(sem: LeafSemantics<L, S>, node: ExpressionNode<L>, state: S): string {
    match node
    case Not(child) => "!" + GetExpandedValue(sem, child, state)
    case Other(leaf) => sem.expandedValue(leaf, state)
  }

  function DebuggerDisplay<L, S>(sem: LeafSemantics<L, S>, node: ExpressionNode<L>): string {
    match node
    case Not(child) => "(not " + DebuggerDisplay(sem, child) + ")"
    case Other(leaf) => sem.debuggerDisplay(leaf)
  }

  /** A NOT node is true exactly when its child is false, and can be
      evaluated exactly when its child can. */
  lemma NotEvaluates<L, S>(sem: LeafSemantics<L, S>, child: ExpressionNode<L>, state: S)
    ensures BoolEvaluate(sem, Not(child), state) <==> !BoolEvaluate(sem, child, state)
    ensures CanBoolEvaluate(sem, Not(child), state) == CanBoolEvaluate(sem, child, state)
  {
  }

  /** Negating twice gives back the child's result. */
  lemma DoubleNegation<L, S>(sem: LeafSemantics<L, S>, child: ExpressionNode<L>, state: S)
    ensures BoolEvaluate(sem, Not(Not(child)), state) == BoolEvaluate(sem, child, state)
    ensures CanBoolEvaluate(sem, Not(Not(child)), state) == CanBoolEvaluate(sem, child, state)
  {
  }

  /** The textual forms of a NOT node are the child's with `!` in front: one
      character longer, starting with `!`, and the child's form after it
      (so the child's form can be read back). */
  lemma NotTextForms<L, S>(sem: LeafSemantics<L, S>, child: ExpressionNode<L>, state: S)
    ensures var u := GetUnexpandedValue(sem, Not(child), state);
      |u| == |GetUnexpandedValue(sem, child, state)| + 1 && u[0] == '!' && u[1..] == GetUnexpandedValue(sem, child, state)
    ensures var x := GetExpandedValue(sem, Not(child), state);
      |x| == |GetExpandedValue(sem, child, state)| + 1 && x[0] == '!' && x[1..] == GetExpandedValue(sem, child, state)
  {
  }

  /** The debugger form of a NOT node is the child's inside `(not ` and `)`. */
  lemma NotDebuggerDisplay<L, S>(sem: LeafSemantics<L, S>, child: ExpressionNode<L>)
    ensures var d := DebuggerDisplay(sem, Not(child));
      && |d| == |DebuggerDisplay(sem, child)| + 6
      && d[..5] == "(not " && d[|d| - 1] == ')'
      && d[5..|d| - 1] == DebuggerDisplay(sem, child)
  {
  }

  // ---------------------------------------------------------------------------
  // Chains of negations

  /** `node` under `k` NOT nodes. */
  function Negations<L>(k: nat, node: ExpressionNode<L>): ExpressionNode<L> {
    if k == 0 then node else Not(Negations(k - 1, node))
  }

  function Repeat(k: nat, s: string): string {
    if k == 0 then [] else s + Repeat(k - 1, s)
  }

  /** Under `k` negations the result flips exactly when `k` is odd, and
      evaluability never changes. */
  lemma {:induction false} NegationsEvaluate<L, S>(sem: LeafSemantics<L, S>, k: nat, node: ExpressionNode<L>, state: S)
    ensures BoolEvaluate(sem, Negations(k, node), state) == (BoolEvaluate(sem, node, state) != (k % 2 == 1))
    ensures CanBoolEvaluate(sem, Negations(k, node), state) == CanBoolEvaluate(sem, node, state)
  {
    if k > 0 {
      NegationsEvaluate(sem, k - 1, node, state);
    }
  }

  /** Under `k` negations the textual forms carry `k` leading `!`. */
  lemma {:induction false} NegationsText<L, S>(sem: LeafSemantics<L, S>, k: nat, node: ExpressionNode<L>, state: S)
    ensures GetUnexpandedValue(sem, Negations(k, node), state) == Repeat(k, "!") + GetUnexpandedValue(sem, node, state)
    ensures GetExpandedValue(sem, Negations(k, node), state) == Repeat(k, "!") + GetExpandedValue(sem, node, state)
  {
    if k > 0 {
      NegationsText(sem, k - 1, node, state);
      assert Repeat(k, "!") == "!" + Repeat(k - 1, "!");
    }
  }

  /** Under `k` negations the debugger form is nested `k` times in `(not …)`. */
  lemma {:induction false} NegationsDisplay<L, S>(sem: LeafSemantics<L, S>, k: nat, node: ExpressionNode<L>)
    ensures DebuggerDisplay(sem, Negations(k, node)) == Repeat(k, "(not ") + DebuggerDisplay(sem, node) + Repeat(k, ")")
  {
    if k > 0 {
      NegationsDisplay(sem, k - 1, node);
      assert Repeat(k, "(not ") == "(not " + Repeat(k - 1, "(not ");
      assert Repeat(k, ")") == Repeat(k - 1, ")") + ")" by {
        RepeatSnoc(k, ")");
      }
    }
  }

  lemma {:induction false} RepeatSnoc(k: nat, s: string)
    requires k > 0
    ensures Repeat(k, s) == Repeat(k - 1, s) + s
  {
    if k > 1 {
      RepeatSnoc(k - 1, s);
    }
  }
}
