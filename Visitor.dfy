/** The expression dispatcher of the FHIRPath parser. A parsed expression is a tree; the
    dispatcher walks it under one parser context, hands terms and invocations to their own
    visitors, evaluates both operands of a binary node before calling the operator found by
    its token, and rejects the four constructs the server does not support.

    The term visitor, the invocation visitor and the operator registry are not part of this
    model: they are passed in as a record of functions, each of which may fail. */
module Visitor {
  import opened Options
  import opened Preconditions

  /** The eight binary forms of the grammar that the dispatcher routes to an operator. */
  datatype BinaryForm =
    | Equality | Inequality | And | Or | Implies | Membership | Multiplicative | Additive

  /** A parse tree, over the grammar's term nodes `Tm` and invocation nodes `Inv`. A binary
      node keeps the text of its middle child as its operator token, absent when that child
      has no text. */
  datatype Expression<Tm, Inv> =
    | TermExpression(term: Tm)
    | InvocationExpression(target: Expression<Tm, Inv>, invocation: Inv)
    | BinaryExpression(form: BinaryForm, left: Expression<Tm, Inv>, operatorToken: Option<string>,
        right: Expression<Tm, Inv>)
    | IndexerExpression(indexed: Expression<Tm, Inv>, index: Expression<Tm, Inv>)
    | PolarityExpression(sign: string, operand: Expression<Tm, Inv>)
    | UnionExpression(left: Expression<Tm, Inv>, right: Expression<Tm, Inv>)
    | TypeExpression(operand: Expression<Tm, Inv>, typeSpecifier: string)

  const IndexerMessage: string := "Indexer operation is not supported"
  const PolarityMessage: string := "Polarity operator is not supported"
  const UnionMessage: string := "Union expressions are not supported"
  const TypeMessage: string := "Type expressions are not supported"

  /** What an operator receives: the parser context and its two evaluated operands. */
  datatype OperatorInput<C, P> = OperatorInput(context: C, left: P, right: P)

  /** The collaborators the dispatcher delegates to: the term visitor, the invocation visitor
      (given the invoking path), the operator registry, and the invocation of an operator. */
  datatype Delegates<!C, !P, !Tm, !Inv, !Op> = Delegates(
    term: (C, Tm) -> Result<P>,
    invocation: (C, P, Inv) -> Result<P>,
    getInstance: string -> Result<Op>,
    invoke: (Op, OperatorInput<C, P>) -> Result<P>)

  /** The number of nodes of a tree. */
  function Size<Tm, Inv>(e: Expression<Tm, Inv>): (n: nat)
    ensures n >= 1
  {
    match e
    case TermExpression(_) => 1
    case InvocationExpression(target, _) => 1 + Size(target)
    case BinaryExpression(_, left, _, right) => 1 + Size(left) + Size(right)
    case IndexerExpression(indexed, index) => 1 + Size(indexed) + Size(index)
    case PolarityExpression(_, operand) => 1 + Size(operand)
    case UnionExpression(left, right) => 1 + Size(left) + Size(right)
    case TypeExpression(operand, _) => 1 + Size(operand)
  }

  /** Evaluation of a tree under a parser context. */
  function Visit<C, P, Tm, Inv, Op>(context: C, e: Expression<Tm, Inv>,
                                    d: Delegates<C, P, Tm, Inv, Op>): (r: Result<P>)
    decreases Size(e), 1
  {
    match e
    case TermExpression(term) =>
      d.term(context, term)
    case InvocationExpression(target, invocation) =>
      var expressionResult := Visit(context, target, d);
      if expressionResult.Err? then Err(expressionResult.error)
      else d.invocation(context, expressionResult.value, invocation)
    case BinaryExpression(_, left, operatorToken, right) =>
      VisitBinaryOperator(context, left, right, operatorToken, d)
    case IndexerExpression(_, _) => Err(InvalidUserInput(IndexerMessage))
    case PolarityExpression(_, _) => Err(InvalidUserInput(PolarityMessage))
    case UnionExpression(_, _) => Err(InvalidUserInput(UnionMessage))
    case TypeExpression(_, _) => Err(InvalidUserInput(TypeMessage))
  }

  /** The shared handling of every binary form: the token must be present, then the left
      operand, then the right operand are evaluated, then the operator is looked up and
      invoked on them. The first failure in that order is the result. */
  function VisitBinaryOperator<C, P, Tm, Inv, Op>(context: C, leftTree: Expression<Tm, Inv>,
                                                  rightTree: Expression<Tm, Inv>,
                                                  operatorName: Option<string>,
                                                  d: Delegates<C, P, Tm, Inv, Op>): (r: Result<P>)
    decreases Size(leftTree) + Size(rightTree), 2
    ensures operatorName.None? ==> r == Err(NullPointer)
  {
    var name := CheckNotNull(operatorName);
    if name.Err? then Err(name.error)
    else
      var left := Visit(context, leftTree, d);
      if left.Err? then Err(left.error)
      else
        var right := Visit(context, rightTree, d);
        if right.Err? then Err(right.error)
        else
          var operator := d.getInstance(name.value);
          if operator.Err? then Err(operator.error)
          else d.invoke(operator.value, OperatorInput(context, left.value, right.value))
  }

  /** A term is evaluated by the term visitor alone, under the same context. */
  lemma TermDelegatesToTermVisitor<C, P, Tm, Inv, Op>(context: C, term: Tm,
                                                      d: Delegates<C, P, Tm, Inv, Op>)
    ensures Visit(context, TermExpression(term), d) == d.term(context, term)
  {
  }

  /** An invocation fails as its target fails; otherwise its result is the invocation
      visitor's, given the target's path as the invoker. */
  lemma InvocationPassesTargetAsInvoker<C, P, Tm, Inv, Op>(context: C, target: Expression<Tm, Inv>,
                                                           invocation: Inv,
                                                           d: Delegates<C, P, Tm, Inv, Op>)
    ensures var t := Visit(context, target, d);
      && (t.Err? ==> Visit(context, InvocationExpression(target, invocation), d) == t)
      && (t.Ok? ==> Visit(context, InvocationExpression(target, invocation), d)
                      == d.invocation(context, t.value, invocation))
  {
  }

  /** A binary node succeeds exactly when its token is present, both operands succeed, the
      operator is found, and the operator succeeds on the context and the two operand paths,
      in that order of sides. */
  lemma BinarySucceeds<C, P, Tm, Inv, Op>(context: C, form: BinaryForm, left: Expression<Tm, Inv>,
                                          token: Option<string>, right: Expression<Tm, Inv>,
                                          d: Delegates<C, P, Tm, Inv, Op>, v: P)
    ensures Visit(context, BinaryExpression(form, left, token, right), d) == Ok(v) <==>
      && token.Some?
      && Visit(context, left, d).Ok?
      && Visit(context, right, d).Ok?
      && d.getInstance(token.value).Ok?
      && d.invoke(d.getInstance(token.value).value,
                  OperatorInput(context, Visit(context, left, d).value, Visit(context, right, d).value))
         == Ok(v)
  {
  }

  /** The failure a binary node reports is the first one in the order token, left, right,
      lookup, invocation. In particular a missing token fails before either operand is
      evaluated, and a failing left operand hides whatever the right one would do. */
  lemma BinaryFailureOrder<C, P, Tm, Inv, Op>(context: C, form: BinaryForm, left: Expression<Tm, Inv>,
                                              token: Option<string>, right: Expression<Tm, Inv>,
                                              d: Delegates<C, P, Tm, Inv, Op>)
    ensures var r := Visit(context, BinaryExpression(form, left, token, right), d);
      var l := Visit(context, left, d);
      var rr := Visit(context, right, d);
      && (token.None? ==> r == Err(NullPointer))
      && (token.Some? && l.Err? ==> r == Err(l.error))
      && (token.Some? && l.Ok? && rr.Err? ==> r == Err(rr.error))
      && (token.Some? && l.Ok? && rr.Ok? && d.getInstance(token.value).Err? ==>
            r == Err(d.getInstance(token.value).error))
  {
  }

  /** The eight binary forms are handled alike: the form of a node never changes its result. */
  lemma BinaryFormsRouteIdentically<C, P, Tm, Inv, Op>(context: C, f: BinaryForm, g: BinaryForm,
                                                       left: Expression<Tm, Inv>, token: Option<string>,
                                                       right: Expression<Tm, Inv>,
                                                       d: Delegates<C, P, Tm, Inv, Op>)
    ensures Visit(context, BinaryExpression(f, left, token, right), d)
         == Visit(context, BinaryExpression(g, left, token, right), d)
  {
  }

  /** The four unsupported constructs fail with their fixed user-input messages whatever their
      sub-expressions are and whatever the collaborators would do: nothing below them is
      evaluated. */
  lemma UnsupportedConstructsFail<C, P, Tm, Inv, Op>(context: C, e: Expression<Tm, Inv>,
                                                     d: Delegates<C, P, Tm, Inv, Op>,
                                                     d': Delegates<C, P, Tm, Inv, Op>)
    requires e.IndexerExpression? || e.PolarityExpression? || e.UnionExpression? || e.TypeExpression?
    ensures Visit(context, e, d) == Visit(context, e, d')
    ensures e.IndexerExpression? ==> Visit(context, e, d) == Err(InvalidUserInput(IndexerMessage))
    ensures e.PolarityExpression? ==> Visit(context, e, d) == Err(InvalidUserInput(PolarityMessage))
    ensures e.UnionExpression? ==> Visit(context, e, d) == Err(InvalidUserInput(UnionMessage))
    ensures e.TypeExpression? ==> Visit(context, e, d) == Err(InvalidUserInput(TypeMessage))
  {
  }

  /** The structural reason a tree fails regardless of its collaborators: the first missing
      operator token or unsupported construct met in evaluation order, if any. */
  function Unsupported<Tm, Inv>(e: Expression<Tm, Inv>): Option<Error>
  {
    match e
    case TermExpression(_) => None
    case InvocationExpression(target, _) => Unsupported(target)
    case BinaryExpression(_, left, token, right) =>
      if token.None? then Some(NullPointer)
      else if Unsupported(left).Some? then Unsupported(left)
      else Unsupported(right)
    case IndexerExpression(_, _) => Some(InvalidUserInput(IndexerMessage))
    case PolarityExpression(_, _) => Some(InvalidUserInput(PolarityMessage))
    case UnionExpression(_, _) => Some(InvalidUserInput(UnionMessage))
    case TypeExpression(_, _) => Some(InvalidUserInput(TypeMessage))
  }

  /** Collaborators that never fail. */
  ghost predicate NeverFail<C(!new), P(!new), Tm(!new), Inv(!new), Op(!new)>(d: Delegates<C, P, Tm, Inv, Op>)
  {
    && (forall c, t :: d.term(c, t).Ok?)
    && (forall c, p, i :: d.invocation(c, p, i).Ok?)
    && (forall s :: d.getInstance(s).Ok?)
    && (forall o, input :: d.invoke(o, input).Ok?)
  }

  /** A tree that evaluates has no missing token and no unsupported construct anywhere on its
      evaluated spine; and one that has such a defect never evaluates. */
  lemma {:induction false} SuccessMeansSupported<C, P, Tm, Inv, Op>(context: C, e: Expression<Tm, Inv>,
                                                                    d: Delegates<C, P, Tm, Inv, Op>)
    ensures Visit(context, e, d).Ok? ==> Unsupported(e).None?
    decreases e
  {
    match e
    case TermExpression(_) =>
    case InvocationExpression(target, _) =>
      SuccessMeansSupported(context, target, d);
    case BinaryExpression(_, left, token, right) =>
      SuccessMeansSupported(context, left, d);
      SuccessMeansSupported(context, right, d);
      if Visit(context, e, d).Ok? {
        assert VisitBinaryOperator(context, left, right, token, d).Ok?;
        assert token.Some? && Visit(context, left, d).Ok? && Visit(context, right, d).Ok?;
      }
    case IndexerExpression(_, _) =>
    case PolarityExpression(_, _) =>
    case UnionExpression(_, _) =>
    case TypeExpression(_, _) =>
  }

  /** With collaborators that never fail, a tree fails exactly when it has a structural defect,
      and it fails with exactly that defect's error. */
  lemma {:induction false} FailureIsStructural<C(!new), P(!new), Tm(!new), Inv(!new), Op(!new)>(context: C, e: Expression<Tm, Inv>,
                                                                  d: Delegates<C, P, Tm, Inv, Op>)
    requires NeverFail(d)
    ensures Visit(context, e, d).Err? <==> Unsupported(e).Some?
    ensures Visit(context, e, d).Err? ==> Visit(context, e, d).error == Unsupported(e).value
    decreases e
  {
    match e
    case TermExpression(term) =>
      assert d.term(context, term).Ok?;
    case InvocationExpression(target, invocation) =>
      FailureIsStructural(context, target, d);
      var t := Visit(context, target, d);
      if t.Ok? {
        assert d.invocation(context, t.value, invocation).Ok?;
      }
    case BinaryExpression(_, left, token, right) =>
      FailureIsStructural(context, left, d);
      FailureIsStructural(context, right, d);
      if token.Some? {
        var l := Visit(context, left, d);
        var rr := Visit(context, right, d);
        assert d.getInstance(token.value).Ok?;
        if l.Ok? && rr.Ok? {
          var o := d.getInstance(token.value).value;
          assert d.invoke(o, OperatorInput(context, l.value, rr.value)).Ok?;
        }
      }
    case IndexerExpression(_, _) =>
    case PolarityExpression(_, _) =>
    case UnionExpression(_, _) =>
    case TypeExpression(_, _) =>
  }

  /** Collaborators that answer alike whenever they are given the context `c`. */
  ghost predicate AgreeUnder<C(!new), P(!new), Tm(!new), Inv(!new), Op(!new)>(c: C, d: Delegates<C, P, Tm, Inv, Op>,
                                               d': Delegates<C, P, Tm, Inv, Op>)
  {
    && (forall t :: d.term(c, t) == d'.term(c, t))
    && (forall p, i :: d.invocation(c, p, i) == d'.invocation(c, p, i))
    && (forall s :: d.getInstance(s) == d'.getInstance(s))
    && (forall o, l, r :: d.invoke(o, OperatorInput(c, l, r)) == d'.invoke(o, OperatorInput(c, l, r)))
  }

  /** Every sub-expression is evaluated under the dispatcher's own context: collaborators that
      differ only on other contexts give the same result. */
  lemma {:induction false} OneContextThroughout<C(!new), P(!new), Tm(!new), Inv(!new), Op(!new)>(context: C, e: Expression<Tm, Inv>,
                                                                   d: Delegates<C, P, Tm, Inv, Op>,
                                                                   d': Delegates<C, P, Tm, Inv, Op>)
    requires AgreeUnder(context, d, d')
    ensures Visit(context, e, d) == Visit(context, e, d')
    decreases e
  {
    match e
    case TermExpression(term) =>
      assert d.term(context, term) == d'.term(context, term);
    case InvocationExpression(target, invocation) =>
      OneContextThroughout(context, target, d, d');
      var t := Visit(context, target, d);
      if t.Ok? {
        assert d.invocation(context, t.value, invocation) == d'.invocation(context, t.value, invocation);
      }
    case BinaryExpression(_, left, token, right) =>
      OneContextThroughout(context, left, d, d');
      OneContextThroughout(context, right, d, d');
      if token.Some? {
        var l := Visit(context, left, d);
        var rr := Visit(context, right, d);
        assert d.getInstance(token.value) == d'.getInstance(token.value);
        if l.Ok? && rr.Ok? && d.getInstance(token.value).Ok? {
          var o := d.getInstance(token.value).value;
          assert d.invoke(o, OperatorInput(context, l.value, rr.value))
              == d'.invoke(o, OperatorInput(context, l.value, rr.value));
        }
      }
    case IndexerExpression(_, _) =>
    case PolarityExpression(_, _) =>
    case UnionExpression(_, _) =>
    case TypeExpression(_, _) =>
  }
}
