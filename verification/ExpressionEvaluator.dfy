/** `evalNode` of services/pipeline/src/services/expression-evaluator.ts and its own bound on depth. */
module ExpressionEvaluator {
  import opened Wrappers
  import opened ExpressionParser

  const MAX_EVALUATION_DEPTH := 100

  /** What evaluating a tree gives, apart from the depth error. */
  datatype Computed<+V, +X> = Gives(value: V) | Throws(error: X)

  /** Values and what the operators and the built-in functions do with them; `fromBool` is a truth value as a value. */
  datatype Semantics<!V, +X> = Semantics(
    constant: Value -> V,
    field: seq<string> -> V,
    truthy: V -> bool,
    fromBool: bool -> V,
    unary: (Operator, V) -> Computed<V, X>,
    binary: (Operator, V, V) -> Computed<V, X>,
    known: string -> bool,
    unknown: string -> X,
    call: (string, seq<V>) -> Computed<V, X>)

  function Truth<V, X>(sem: Semantics<V, X>, c: Computed<V, X>): Computed<V, X> {
    match c
    case Throws(_) => c
    case Gives(v) => Gives(sem.fromBool(sem.truthy(v)))
  }

  // ---- With the depth bound

  /** `evalNode`; None where it throws the depth error. */
  function Evaluate<V, X>(sem: Semantics<V, X>, e: Expr, depth: nat): Option<Computed<V, X>>
    decreases e
  {
    if depth > MAX_EVALUATION_DEPTH then None
    else
      match e
      case Constant(v) => Some(Gives(sem.constant(v)))
      case Field(path) => Some(Gives(sem.field(path)))
      case Unary(op, x) =>
        (match Evaluate(sem, x, depth + 1)
         case None => None
         case Some(Throws(err)) => Some(Throws(err))
         case Some(Gives(v)) => Some(if op == Not then Gives(sem.fromBool(!sem.truthy(v))) else sem.unary(op, v)))
      case Binary(op, l, r) =>
        (match Evaluate(sem, l, depth + 1)
         case None => None
         case Some(Throws(err)) => Some(Throws(err))
         case Some(Gives(v)) =>
           if op == And && !sem.truthy(v) then Some(Gives(sem.fromBool(false)))
           else if op == Or && sem.truthy(v) then Some(Gives(sem.fromBool(true)))
           else
             match Evaluate(sem, r, depth + 1)
             case None => None
             case Some(Throws(err)) => Some(Throws(err))
             case Some(Gives(w)) =>
               Some(if op == And || op == Or then Truth(sem, Gives(w)) else sem.binary(op, v, w)))
      case Call(name, args) =>
        if !sem.known(name) then Some(Throws(sem.unknown(name)))
        else
          match EvaluateArgs(sem, args, 0, depth + 1)
          case None => None
          case Some(Throws(err)) => Some(Throws(err))
          case Some(Gives(vs)) => Some(sem.call(name, vs))
  }

  function EvaluateArgs<V, X>(sem: Semantics<V, X>, args: seq<Expr>, i: nat, depth: nat): Option<Computed<seq<V>, X>>
    requires i <= |args|
    decreases args, |args| - i
  {
    if i == |args| then Some(Gives([]))
    else
      match Evaluate(sem, args[i], depth)
      case None => None
      case Some(Throws(err)) => Some(Throws(err))
      case Some(Gives(v)) =>
        match EvaluateArgs(sem, args, i + 1, depth)
        case None => None
        case Some(Throws(err)) => Some(Throws(err))
        case Some(Gives(vs)) => Some(Gives([v] + vs))
  }

  // ---- Without it

  function Meaning<V, X>(sem: Semantics<V, X>, e: Expr): Computed<V, X>
    decreases e
  {
    match e
    case Constant(v) => Gives(sem.constant(v))
    case Field(path) => Gives(sem.field(path))
    case Unary(op, x) =>
      (match Meaning(sem, x)
       case Throws(err) => Throws(err)
       case Gives(v) => if op == Not then Gives(sem.fromBool(!sem.truthy(v))) else sem.unary(op, v))
    case Binary(op, l, r) =>
      (match Meaning(sem, l)
       case Throws(err) => Throws(err)
       case Gives(v) =>
         if op == And then (if sem.truthy(v) then Truth(sem, Meaning(sem, r)) else Gives(sem.fromBool(false)))
         else if op == Or then (if sem.truthy(v) then Gives(sem.fromBool(true)) else Truth(sem, Meaning(sem, r)))
         else
           match Meaning(sem, r)
           case Throws(err) => Throws(err)
           case Gives(w) => sem.binary(op, v, w))
    case Call(name, args) =>
      if !sem.known(name) then Throws(sem.unknown(name))
      else
        match ArgsMeaning(sem, args, 0)
        case Throws(err) => Throws(err)
        case Gives(vs) => sem.call(name, vs)
  }

  function ArgsMeaning<V, X>(sem: Semantics<V, X>, args: seq<Expr>, i: nat): Computed<seq<V>, X>
    requires i <= |args|
    decreases args, |args| - i
  {
    if i == |args| then Gives([])
    else
      match Meaning(sem, args[i])
      case Throws(err) => Throws(err)
      case Gives(v) =>
        match ArgsMeaning(sem, args, i + 1)
        case Throws(err) => Throws(err)
        case Gives(vs) => Gives([v] + vs)
  }

  // ---- The part of the tree that is visited

  /** The right operand is evaluated: the left one does not throw, and does not decide an && or ||. */
  predicate GoesOn<V, X>(sem: Semantics<V, X>, op: Operator, left: Computed<V, X>) {
    left.Gives? && (op == And ==> sem.truthy(left.value)) && (op == Or ==> !sem.truthy(left.value))
  }

  /** The height of what evaluation visits: not the operands that && and || skip, nor anything behind an error. */
  function Visited<V, X>(sem: Semantics<V, X>, e: Expr): (height: nat)
    ensures height >= 1
    decreases e
  {
    match e
    case Constant(_) => 1
    case Field(_) => 1
    case Unary(_, x) => 1 + Visited(sem, x)
    case Binary(op, l, r) =>
      1 + Max(Visited(sem, l), if GoesOn(sem, op, Meaning(sem, l)) then Visited(sem, r) else 0)
    case Call(name, args) => 1 + (if sem.known(name) then ArgsVisited(sem, args, 0) else 0)
  }

  function ArgsVisited<V, X>(sem: Semantics<V, X>, args: seq<Expr>, i: nat): nat
    requires i <= |args|
    decreases args, |args| - i
  {
    if i == |args| then 0
    else Max(Visited(sem, args[i]), if Meaning(sem, args[i]).Gives? then ArgsVisited(sem, args, i + 1) else 0)
  }

  /** Evaluation throws the depth error if and only if it visits a node deeper than the bound; else nothing changes. */
  lemma {:induction false} EvaluateExactly<V, X>(sem: Semantics<V, X>, e: Expr, depth: nat)
    ensures Evaluate(sem, e, depth) ==
            if depth + Visited(sem, e) <= 101 then Some(Meaning(sem, e)) else None
    decreases e
  {
    match e
    case Constant(_) =>
    case Field(_) =>
    case Unary(_, x) => EvaluateExactly(sem, x, depth + 1);
    case Binary(_, l, r) =>
      EvaluateExactly(sem, l, depth + 1);
      EvaluateExactly(sem, r, depth + 1);
    case Call(_, args) => ArgsExactly(sem, args, 0, depth + 1);
  }

  lemma {:induction false} ArgsExactly<V, X>(sem: Semantics<V, X>, args: seq<Expr>, i: nat, depth: nat)
    requires i <= |args|
    ensures depth <= MAX_EVALUATION_DEPTH + 1 ==>
              EvaluateArgs(sem, args, i, depth) ==
              if depth + ArgsVisited(sem, args, i) <= MAX_EVALUATION_DEPTH + 1 then Some(ArgsMeaning(sem, args, i))
              else None
    decreases args, |args| - i
  {
    if i == |args| {
    } else {
      EvaluateExactly(sem, args[i], depth);
      ArgsExactly(sem, args, i + 1, depth);
    }
  }

  // ---- Height

  lemma {:induction false} VisitedWithinHeight<V, X>(sem: Semantics<V, X>, e: Expr)
    ensures Visited(sem, e) <= Height(e)
    decreases e
  {
    match e
    case Constant(_) =>
    case Field(_) =>
    case Unary(_, x) => VisitedWithinHeight(sem, x);
    case Binary(_, l, r) =>
      VisitedWithinHeight(sem, l);
      VisitedWithinHeight(sem, r);
    case Call(_, args) => ArgsWithinHeight(sem, args, 0);
  }

  lemma {:induction false} ArgsWithinHeight<V, X>(sem: Semantics<V, X>, args: seq<Expr>, i: nat)
    requires i <= |args|
    ensures ArgsVisited(sem, args, i) <= ArgsHeight(args, i)
    decreases args, |args| - i
  {
    if i == |args| {
    } else {
      VisitedWithinHeight(sem, args[i]);
      ArgsWithinHeight(sem, args, i + 1);
    }
  }

  /** No && and no || in the tree, so nothing is skipped. */
  predicate Strict(e: Expr)
    decreases e
  {
    match e
    case Constant(_) => true
    case Field(_) => true
    case Unary(_, x) => Strict(x)
    case Binary(op, l, r) => op != And && op != Or && Strict(l) && Strict(r)
    case Call(_, args) => forall a <- args :: Strict(a)
  }

  lemma {:induction false} AllVisited<V, X>(sem: Semantics<V, X>, e: Expr)
    requires Strict(e) && Meaning(sem, e).Gives?
    ensures Visited(sem, e) == Height(e)
    decreases e
  {
    match e
    case Constant(_) =>
    case Field(_) =>
    case Unary(_, x) => AllVisited(sem, x);
    case Binary(_, l, r) =>
      AllVisited(sem, l);
      AllVisited(sem, r);
    case Call(_, args) => AllArgsVisited(sem, args, 0);
  }

  lemma {:induction false} AllArgsVisited<V, X>(sem: Semantics<V, X>, args: seq<Expr>, i: nat)
    requires i <= |args| && (forall a <- args :: Strict(a)) && ArgsMeaning(sem, args, i).Gives?
    ensures ArgsVisited(sem, args, i) == ArgsHeight(args, i)
    decreases args, |args| - i
  {
    if i == |args| {
    } else {
      AllVisited(sem, args[i]);
      AllArgsVisited(sem, args, i + 1);
    }
  }

  /**
    * A tree of height 101 at most evaluates as if there were no bound, whatever the values are. A tree without
    * && and || that evaluates without an error of its own is stopped by the bound if and only if it is higher.
    */
  lemma HeightDecides<V, X>(sem: Semantics<V, X>, e: Expr)
    ensures Height(e) <= 101 ==> Evaluate(sem, e, 0) == Some(Meaning(sem, e))
    ensures Strict(e) && Meaning(sem, e).Gives? ==>
              (Evaluate(sem, e, 0) == None <==> Height(e) > 101)
  {
    EvaluateExactly(sem, e, 0);
    VisitedWithinHeight(sem, e);
    if Strict(e) && Meaning(sem, e).Gives? {
      AllVisited(sem, e);
    }
  }

  // ---- Sums

  lemma {:induction false} SumHasValue<V(!new), X>(sem: Semantics<V, X>, v: Value, n: nat)
    requires forall a, b :: sem.binary(Plus, a, b).Gives?
    ensures Strict(Sum(v, n)) && Meaning(sem, Sum(v, n)).Gives?
  {
    if n == 0 {
    } else {
      SumHasValue(sem, v, n - 1);
      assert Meaning(sem, Constant(v)) == Gives(sem.constant(v));
      assert sem.binary(Plus, Meaning(sem, Sum(v, n - 1)).value, sem.constant(v)).Gives?;
    }
  }

  /** Sums of any length are parsed, but only up to 101 terms are evaluated. */
  lemma LongSumsFail<V(!new), X>(sem: Semantics<V, X>, v: Value, n: nat)
    requires forall a, b :: sem.binary(Plus, a, b).Gives?
    ensures Parse(Print(Sum(v, n))).Ok? && Parse(Print(Sum(v, n))).value == Sum(v, n)
    ensures Evaluate(sem, Sum(v, n), 0) == None <==> n > 100
  {
    SumsAreParsed(v, n);
    SumHasValue(sem, v, n);
    HeightDecides(sem, Sum(v, n));
  }

  /** Behind a false left operand the height of the right one does not matter. */
  lemma SkippedIsNotCounted<V, X>(sem: Semantics<V, X>, left: Value, right: Expr)
    requires !sem.truthy(sem.constant(left))
    ensures Evaluate(sem, Binary(And, Constant(left), right), 0) == Some(Gives(sem.fromBool(false)))
  {
    EvaluateExactly(sem, Binary(And, Constant(left), right), 0);
  }

  // ---- The operators, one by one

  /** !x is the truth value that x has not. */
  lemma NotNegates<V, X>(sem: Semantics<V, X>, x: Expr, v: V)
    requires Meaning(sem, x) == Gives(v)
    ensures Meaning(sem, Unary(Not, x)) == Gives(sem.fromBool(!sem.truthy(v)))
  {
  }

  /** x && y is false for a false x, and else what y is as a truth value; x || y is true for a true x, and else that. */
  lemma LogicalOperators<V, X>(sem: Semantics<V, X>, x: Expr, v: V, y: Expr)
    requires Meaning(sem, x) == Gives(v)
    ensures !sem.truthy(v) ==> Meaning(sem, Binary(And, x, y)) == Gives(sem.fromBool(false))
    ensures sem.truthy(v) ==> Meaning(sem, Binary(Or, x, y)) == Gives(sem.fromBool(true))
    ensures sem.truthy(v) && Meaning(sem, y).Gives? ==>
              Meaning(sem, Binary(And, x, y)) == Gives(sem.fromBool(sem.truthy(Meaning(sem, y).value)))
    ensures !sem.truthy(v) && Meaning(sem, y).Gives? ==>
              Meaning(sem, Binary(Or, x, y)) == Gives(sem.fromBool(sem.truthy(Meaning(sem, y).value)))
    ensures Meaning(sem, y).Throws? ==>
              Meaning(sem, if sem.truthy(v) then Binary(And, x, y) else Binary(Or, x, y)) == Meaning(sem, y)
  {
  }

  /** Every other operator is applied to both values, the left one first; an error of the left operand comes first. */
  lemma OtherOperators<V, X>(sem: Semantics<V, X>, op: Operator, x: Expr, y: Expr)
    requires op != And && op != Or
    ensures Meaning(sem, x).Throws? ==> Meaning(sem, Binary(op, x, y)) == Meaning(sem, x)
    ensures Meaning(sem, x).Gives? && Meaning(sem, y).Throws? ==> Meaning(sem, Binary(op, x, y)) == Meaning(sem, y)
    ensures Meaning(sem, x).Gives? && Meaning(sem, y).Gives? ==>
              Meaning(sem, Binary(op, x, y)) == sem.binary(op, Meaning(sem, x).value, Meaning(sem, y).value)
  {
  }

  /** A call of a known function gets the values of all arguments in order. */
  lemma CallsGetValues<V, X>(sem: Semantics<V, X>, name: string, args: seq<Expr>, values: seq<V>)
    requires |values| == |args| && forall i | 0 <= i < |args| :: Meaning(sem, args[i]) == Gives(values[i])
    ensures Meaning(sem, Call(name, args)) ==
            if sem.known(name) then sem.call(name, values) else Throws(sem.unknown(name))
  {
    ArgsGive(sem, args, values, 0);
    assert values[0..] == values;
  }

  lemma {:induction false} ArgsGive<V, X>(sem: Semantics<V, X>, args: seq<Expr>, values: seq<V>, i: nat)
    requires |values| == |args| && forall k | 0 <= k < |args| :: Meaning(sem, args[k]) == Gives(values[k])
    requires i <= |args|
    ensures ArgsMeaning(sem, args, i) == Gives(values[i..])
    decreases |args| - i
  {
    if i == |args| {
    } else {
      ArgsGive(sem, args, values, i + 1);
      assert values[i..] == [values[i]] + values[i + 1..];
    }
  }
}
