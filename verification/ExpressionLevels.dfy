/** The precedence of the operators of pipeline expressions, as a grammar by levels. */
module ExpressionLevels {
  import opened ExpressionParser

  /** The binary operators from the loosest level to the tightest; Not is none. */
  function Level(op: Operator): (level: nat)
    ensures level <= 6
  {
    match op
    case Or => 1
    case And => 2
    case Equal => 3
    case NotEqual => 3
    case Less => 4
    case AtMost => 4
    case Greater => 4
    case AtLeast => 4
    case Plus => 5
    case Minus => 5
    case Times => 6
    case Divide => 6
    case Modulo => 6
    case Not => 0
  }

  /**
    * Trees that stand without parentheses in a place of level n: the left operand of an operator may be of the
    * same level, the right one must be of a tighter one, and an operand of a prefix operator is no binary tree.
    */
  predicate InGrammar(e: Expr, n: nat)
    decreases e
  {
    match e
    case Constant(_) => true
    case Field(path) => path != []
    case Unary(op, x) => (op == Not || op == Minus) && InGrammar(x, 7)
    case Binary(op, l, r) =>
      op != Not && n <= Level(op) && InGrammar(l, Level(op)) && InGrammar(r, Level(op) + 1)
    case Call(_, args) => forall a <- args :: InGrammar(a, 1)
  }

  /** The tokens of a tree from left to right, with no parentheses but those of calls. */
  function Flat(e: Expr): seq<Token>
    decreases e, 0
  {
    match e
    case Constant(v) => [Literal(v)]
    case Field(path) => if path == [] then [] else [Ident(path[0])] + Dots(path, 1)
    case Unary(op, x) => [Op(op)] + Flat(x)
    case Binary(op, l, r) => Flat(l) + ([Op(op)] + Flat(r))
    case Call(name, args) => [Ident(name), LParen] + (FlatArgs(args, 0) + [RParen])
  }

  function FlatArgs(args: seq<Expr>, i: nat): seq<Token>
    requires i <= |args|
    decreases args, |args| - i
  {
    if i == |args| then []
    else if i + 1 == |args| then Flat(args[i])
    else Flat(args[i]) + ([Comma] + FlatArgs(args, i + 1))
  }

  /** How deep right operands and arguments nest. */
  function Depth(e: Expr): nat
    decreases e, 0
  {
    match e
    case Constant(_) => 0
    case Field(_) => 0
    case Unary(_, x) => Depth(x)
    case Binary(_, l, r) => Max(Depth(l), 1 + Depth(r))
    case Call(_, args) => ArgsDepth(args, 0)
  }

  function ArgsDepth(args: seq<Expr>, i: nat): nat
    requires i <= |args|
    decreases args, |args| - i
  {
    if i == |args| then 0 else Max(1 + Depth(args[i]), ArgsDepth(args, i + 1))
  }

  /** The powers of the parser are these levels. */
  lemma PowerIsLevel(op: Operator)
    ensures Power(op) == 10 * Level(op)
  {
  }

  lemma {:induction false} FlatIsPrinted(e: Expr, n: nat)
    requires InGrammar(e, n)
    ensures WellFormed(e) && Print(e) == Flat(e) && Nesting(e) == Depth(e)
    ensures e.Binary? ==> Power(e.op) >= 10 * n
    decreases e, 0
  {
    match e
    case Constant(_) =>
    case Field(_) =>
    case Unary(_, x) =>
      FlatIsPrinted(x, 7);
      if x.Binary? {
        PowerIsLevel(x.op);
      }
    case Binary(op, l, r) =>
      PowerIsLevel(op);
      FlatIsPrinted(l, Level(op));
      FlatIsPrinted(r, Level(op) + 1);
    case Call(_, args) =>
      ArgsArePrinted(args, 0);
      forall a <- args
        ensures WellFormed(a)
      {
        FlatIsPrinted(a, 1);
      }
  }

  lemma {:induction false} ArgsArePrinted(args: seq<Expr>, i: nat)
    requires i <= |args| && forall a <- args :: InGrammar(a, 1)
    ensures PrintArgs(args, i) == FlatArgs(args, i) && ArgsNesting(args, i) == ArgsDepth(args, i)
    decreases args, |args| - i
  {
    if i == |args| {
    } else {
      FlatIsPrinted(args[i], 1);
      ArgsArePrinted(args, i + 1);
    }
  }

  /**
    * Every tree of the grammar, laid out without parentheses, is parsed back to itself, if right operands and
    * arguments nest at most 49 deep; else the depth error is raised.
    */
  lemma LevelsParse(e: Expr)
    requires InGrammar(e, 1)
    ensures Parse(Flat(e)) == if Depth(e) <= 49 then Ok(e, |Flat(e)|) else Err(TooDeep)
  {
    FlatIsPrinted(e, 1);
    RoundTrip(e);
  }

  function PairTokens(x: Expr, p: Operator, y: Expr, q: Operator, z: Expr): seq<Token> {
    Flat(x) + [Op(p)] + Flat(y) + [Op(q)] + Flat(z)
  }

  function PairTree(x: Expr, p: Operator, y: Expr, q: Operator, z: Expr): Expr {
    if Level(q) <= Level(p) then Binary(q, Binary(p, x, y), z) else Binary(p, x, Binary(q, y, z))
  }

  lemma PairIsFlat(x: Expr, p: Operator, y: Expr, q: Operator, z: Expr)
    ensures Flat(Binary(q, Binary(p, x, y), z)) == PairTokens(x, p, y, q, z)
    ensures Flat(Binary(p, x, Binary(q, y, z))) == PairTokens(x, p, y, q, z)
  {
    var a, b := Flat(x) + [Op(p)], [Op(q)] + Flat(z);
    assert a + (Flat(y) + b) == a + Flat(y) + [Op(q)] + Flat(z);
  }

  /** What is no binary tree fits every place. */
  lemma OperandsFit(e: Expr, n: nat)
    requires InGrammar(e, 7)
    ensures InGrammar(e, n)
  {
  }

  /**
    * x p y q z, for any operands that are no binary trees and any two binary operators: the first operator
    * is applied first if the second is of the same or a looser level, and else the second.
    */
  lemma PairsParse(x: Expr, p: Operator, y: Expr, q: Operator, z: Expr)
    requires p != Not && q != Not && InGrammar(x, 7) && InGrammar(y, 7) && InGrammar(z, 7)
    ensures var tokens, tree := PairTokens(x, p, y, q, z), PairTree(x, p, y, q, z);
            Parse(tokens) == if Depth(tree) <= 49 then Ok(tree, |tokens|) else Err(TooDeep)
  {
    PairIsFlat(x, p, y, q, z);
    PairFits(x, p, y, q, z);
    LevelsParse(PairTree(x, p, y, q, z));
  }

  lemma BinaryFits(op: Operator, l: Expr, r: Expr, n: nat)
    requires op != Not && n <= Level(op) && InGrammar(l, Level(op)) && InGrammar(r, Level(op) + 1)
    ensures InGrammar(Binary(op, l, r), n)
  {
  }

  lemma LevelOfBinary(op: Operator)
    requires op != Not
    ensures Level(op) >= 1
  {
  }

  lemma PairFits(x: Expr, p: Operator, y: Expr, q: Operator, z: Expr)
    requires p != Not && q != Not && InGrammar(x, 7) && InGrammar(y, 7) && InGrammar(z, 7)
    ensures InGrammar(PairTree(x, p, y, q, z), 1)
  {
    LevelOfBinary(p);
    LevelOfBinary(q);
    OperandsFit(x, Level(p));
    OperandsFit(z, Level(q) + 1);
    if Level(q) <= Level(p) {
      OperandsFit(y, Level(p) + 1);
      BinaryFits(p, x, y, Level(q));
      BinaryFits(q, Binary(p, x, y), z, 1);
    } else {
      OperandsFit(y, Level(q));
      BinaryFits(q, y, z, Level(p) + 1);
      BinaryFits(p, x, Binary(q, y, z), 1);
    }
  }

  /** 1 + 2 * 3 is 1 + (2 * 3), and 1 - 2 - 3 is (1 - 2) - 3. */
  lemma ProductFirst(a: Value, b: Value, c: Value)
    ensures Parse([Literal(a), Op(Plus), Literal(b), Op(Times), Literal(c)]) ==
            Ok(Binary(Plus, Constant(a), Binary(Times, Constant(b), Constant(c))), 5)
    ensures Parse([Literal(a), Op(Minus), Literal(b), Op(Minus), Literal(c)]) ==
            Ok(Binary(Minus, Binary(Minus, Constant(a), Constant(b)), Constant(c)), 5)
  {
    PairsParse(Constant(a), Plus, Constant(b), Times, Constant(c));
    PairsParse(Constant(a), Minus, Constant(b), Minus, Constant(c));
    ConstantPair(a, Plus, b, Times, c);
    ConstantPair(a, Minus, b, Minus, c);
    assert Depth(Binary(Times, Constant(b), Constant(c))) == Depth(Binary(Minus, Constant(a), Constant(b))) == 1;
  }

  lemma ConstantPair(a: Value, p: Operator, b: Value, q: Operator, c: Value)
    ensures PairTokens(Constant(a), p, Constant(b), q, Constant(c)) ==
            [Literal(a), Op(p), Literal(b), Op(q), Literal(c)]
  {
  }

  /** Only ! and - stand in front of an operand. */
  lemma OtherPrefixesFail(op: Operator, rest: seq<Token>)
    requires op != Not && op != Minus
    ensures Parse([Op(op)] + rest) == Err(UnexpectedToken(Op(op)))
  {
    var tokens := [Op(op)] + rest;
    assert tokens[0] == Op(op);
    assert Prefix(tokens, 0, 1) == Primary(tokens, 0, 1) == Err(UnexpectedToken(Op(op)));
    assert Expression(tokens, 0, 0, 0) == Body(tokens, 0, 1, 0);
  }
}
