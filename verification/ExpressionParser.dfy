/** The Pratt parser of services/pipeline/src/services/expression-evaluator.ts, on tokens. */
module ExpressionParser {
  import opened Sequences

  const MAX_DEPTH := 50

  // ---- Tokens and trees

  datatype Operator =
    | Or | And | Equal | NotEqual | Less | AtMost | Greater | AtLeast
    | Plus | Minus | Times | Divide | Modulo | Not

  datatype Value = Number(text: string) | Text(text: string) | Bool(value: bool) | Null

  datatype Token = Literal(value: Value) | Ident(name: string) | Op(op: Operator) | LParen | RParen | Comma | Dot

  datatype Expr =
    | Constant(value: Value)
    | Field(path: seq<string>)
    | Unary(op: Operator, operand: Expr)
    | Binary(op: Operator, left: Expr, right: Expr)
    | Call(name: string, args: seq<Expr>)

  datatype Failure =
    | TooDeep                      // "Expression exceeds maximum nesting depth (50)."
    | UnexpectedEnd
    | UnexpectedToken(token: Token)
    | ExpectedRParen(token: Token)
    | ExpectedField(token: Token)
    | Leftover(token: Token)       // a token behind the expression

  /** `INFIX_POWER`; 0 where the table has no entry. */
  function Power(op: Operator): nat {
    match op
    case Or => 10
    case And => 20
    case Equal => 30
    case NotEqual => 30
    case Less => 40
    case AtMost => 40
    case Greater => 40
    case AtLeast => 40
    case Plus => 50
    case Minus => 50
    case Times => 60
    case Divide => 60
    case Modulo => 60
    case Not => 0
  }

  const TIGHTEST := 60

  predicate IsPrefix(op: Operator) {
    op == Not || op == Minus
  }

  // ---- What the parser computes from a position of the tokens

  datatype Result<+T> = Ok(value: T, pos: nat) | Err(failure: Failure)

  /** `parseExpression`, called at a depth. */
  function Expression(ts: seq<Token>, pos: nat, depth: nat, min: nat): (r: Result<Expr>)
    requires pos <= |ts|
    ensures r.Ok? ==> pos < r.pos <= |ts|
    decreases |ts| - pos, 3
  {
    if depth + 1 > MAX_DEPTH then Err(TooDeep) else Body(ts, pos, depth + 1, min)
  }

  /** The rest of `parseExpression`, behind the depth check. */
  function Body(ts: seq<Token>, pos: nat, d: nat, min: nat): (r: Result<Expr>)
    requires pos <= |ts|
    ensures r.Ok? ==> pos < r.pos <= |ts|
    decreases |ts| - pos, 2
  {
    match Prefix(ts, pos, d)
    case Err(f) => Err(f)
    case Ok(left, p) => Infix(ts, p, d, min, left)
  }

  predicate Continues(ts: seq<Token>, pos: nat, min: nat) {
    pos < |ts| && ts[pos].Op? && Power(ts[pos].op) > min
  }

  /** The loop of `parseExpression`. */
  function Infix(ts: seq<Token>, pos: nat, d: nat, min: nat, left: Expr): (r: Result<Expr>)
    requires pos <= |ts|
    ensures r.Ok? ==> pos <= r.pos <= |ts|
    decreases |ts| - pos, 0
  {
    if Continues(ts, pos, min) then
      match Expression(ts, pos + 1, d, Power(ts[pos].op))
      case Err(f) => Err(f)
      case Ok(right, p) => Infix(ts, p, d, min, Binary(ts[pos].op, left, right))
    else Ok(left, pos)
  }

  /** `parseUnary` */
  function Prefix(ts: seq<Token>, pos: nat, d: nat): (r: Result<Expr>)
    requires pos <= |ts|
    ensures r.Ok? ==> pos < r.pos <= |ts|
    decreases |ts| - pos, 1
  {
    if pos < |ts| && ts[pos].Op? && IsPrefix(ts[pos].op) then
      match Prefix(ts, pos + 1, d)
      case Err(f) => Err(f)
      case Ok(operand, p) => Ok(Unary(ts[pos].op, operand), p)
    else Primary(ts, pos, d)
  }

  /** `parsePrimary` */
  function Primary(ts: seq<Token>, pos: nat, d: nat): (r: Result<Expr>)
    requires pos <= |ts|
    ensures r.Ok? ==> pos < r.pos <= |ts|
    decreases |ts| - pos, 0
  {
    if pos == |ts| then Err(UnexpectedEnd)
    else
      match ts[pos]
      case Literal(v) => Ok(Constant(v), pos + 1)
      case LParen => Closed(ts, Expression(ts, pos + 1, d, 0))
      case Ident(name) =>
        if pos + 1 < |ts| && ts[pos + 1].LParen? then
          match Args(ts, pos + 2, d, [])
          case Err(f) => Err(f)
          case Ok(args, p) => Closed(ts, Ok(Call(name, args), p))
        else Path(ts, pos + 1, [name])
      case t => Err(UnexpectedToken(t))
  }

  /** `expect("RPAREN")` behind what has been parsed. */
  function Closed(ts: seq<Token>, r: Result<Expr>): (r': Result<Expr>)
    requires r.Ok? ==> r.pos <= |ts|
    ensures r'.Ok? ==> r.Ok? && r' == Ok(r.value, r.pos + 1) && r.pos < |ts| && ts[r.pos].RParen?
  {
    match r
    case Err(f) => Err(f)
    case Ok(e, p) =>
      if p == |ts| then Err(UnexpectedEnd)
      else if ts[p].RParen? then Ok(e, p + 1)
      else Err(ExpectedRParen(ts[p]))
  }

  /** The arguments of a call up to its closing parenthesis; the commas between them may be missing. */
  function Args(ts: seq<Token>, pos: nat, d: nat, args: seq<Expr>): (r: Result<seq<Expr>>)
    requires pos <= |ts|
    ensures r.Ok? ==> pos <= r.pos <= |ts|
    decreases |ts| - pos, 4
  {
    if pos < |ts| && ts[pos].RParen? then Ok(args, pos)
    else
      match Expression(ts, pos, d, 0)
      case Err(f) => Err(f)
      case Ok(arg, p) => Args(ts, if p < |ts| && ts[p].Comma? then p + 1 else p, d, args + [arg])
  }

  /** The rest of a field path. */
  function Path(ts: seq<Token>, pos: nat, path: seq<string>): (r: Result<Expr>)
    requires pos <= |ts|
    ensures r.Ok? ==> pos <= r.pos <= |ts|
    decreases |ts| - pos
  {
    if pos < |ts| && ts[pos].Dot? then
      if pos + 1 == |ts| then Err(UnexpectedEnd)
      else if ts[pos + 1].Ident? then Path(ts, pos + 2, path + [ts[pos + 1].name])
      else Err(ExpectedField(ts[pos + 1]))
    else Ok(Field(path), pos)
  }

  /** The parse in `evaluate`: an expression and nothing behind it. */
  function Parse(ts: seq<Token>): Result<Expr> {
    match Expression(ts, 0, 0, 0)
    case Err(f) => Err(f)
    case Ok(e, p) => if p < |ts| then Err(Leftover(ts[p])) else Ok(e, p)
  }

  // ---- The parser

  datatype Outcome<+T> = Value(value: T) | Throw(failure: Failure)

  /** The call did what the function says, and left the depth as it was. */
  predicate Did<T(==)>(spec: Result<T>, out: Outcome<T>, pos: nat, depth: nat, before: nat) {
    match spec
    case Err(f) => out == Throw(f)
    case Ok(v, p) => out == Outcome.Value(v) && pos == p && depth == before
  }

  class Parser {
    const tokens: seq<Token>
    var pos: nat
    var depth: nat

    constructor (tokens: seq<Token>)
      ensures this.tokens == tokens && pos == 0 && depth == 0
    {
      this.tokens, pos, depth := tokens, 0, 0;
    }

    method ParseExpression(minPower: nat) returns (out: Outcome<Expr>)
      requires pos <= |tokens|
      modifies this
      ensures Did(Expression(tokens, old(pos), old(depth), minPower), out, pos, depth, old(depth))
      decreases |tokens| - pos, 3
    {
      depth := depth + 1;
      if depth > MAX_DEPTH {
        return Throw(TooDeep);
      }
      out := ParseUnary();
      if out.Throw? {
        return;
      }
      var left := out.value;
      while true
        invariant pos <= |tokens| && old(pos) < pos && depth == old(depth) + 1
        invariant Body(tokens, old(pos), old(depth) + 1, minPower) == Infix(tokens, pos, depth, minPower, left)
        decreases |tokens| - pos
      {
        if pos == |tokens| || !tokens[pos].Op? || Power(tokens[pos].op) <= minPower {
          break;
        }
        var op := tokens[pos].op;
        pos := pos + 1;
        var right := ParseExpression(Power(op));
        if right.Throw? {
          return right;
        }
        left := Binary(op, left, right.value);
      }
      depth := depth - 1;
      return Outcome.Value(left);
    }

    method ParseUnary() returns (out: Outcome<Expr>)
      requires pos <= |tokens|
      modifies this
      ensures Did(Prefix(tokens, old(pos), old(depth)), out, pos, depth, old(depth))
      decreases |tokens| - pos, 1
    {
      if pos < |tokens| && tokens[pos].Op? && (tokens[pos].op == Not || tokens[pos].op == Minus) {
        var op := tokens[pos].op;
        pos := pos + 1;
        out := ParseUnary();
        if out.Value? {
          out := Outcome.Value(Unary(op, out.value));
        }
      } else {
        out := ParsePrimary();
      }
    }

    method ParsePrimary() returns (out: Outcome<Expr>)
      requires pos <= |tokens|
      modifies this
      ensures Did(Primary(tokens, old(pos), old(depth)), out, pos, depth, old(depth))
      decreases |tokens| - pos, 0
    {
      if pos == |tokens| {
        return Throw(UnexpectedEnd);
      }
      match tokens[pos] {
        case Literal(v) =>
          pos := pos + 1;
          out := Outcome.Value(Constant(v));
        case LParen =>
          pos := pos + 1;
          out := ParseExpression(0);
          if out.Value? {
            out := ExpectRParen(out.value);
          }
        case Ident(name) =>
          if pos + 1 < |tokens| && tokens[pos + 1].LParen? {
            pos := pos + 2;
            var args := ParseArgs();
            if args.Throw? {
              return Throw(args.failure);
            }
            out := ExpectRParen(Call(name, args.value));
          } else {
            pos := pos + 1;
            out := ParsePath(name);
          }
        case t =>
          out := Throw(UnexpectedToken(t));
      }
    }

    /** `expect("RPAREN")`, then the expression e. */
    method ExpectRParen(e: Expr) returns (out: Outcome<Expr>)
      requires pos <= |tokens|
      modifies this`pos
      ensures Did(Closed(tokens, Ok(e, old(pos))), out, pos, depth, old(depth))
    {
      if pos == |tokens| {
        return Throw(UnexpectedEnd);
      }
      if !tokens[pos].RParen? {
        return Throw(ExpectedRParen(tokens[pos]));
      }
      pos := pos + 1;
      out := Outcome.Value(e);
    }

    /** The loop over the arguments of a call. */
    method ParseArgs() returns (out: Outcome<seq<Expr>>)
      requires pos <= |tokens|
      modifies this
      ensures Did(Args(tokens, old(pos), old(depth), []), out, pos, depth, old(depth))
      decreases |tokens| - pos, 4
    {
      var args: seq<Expr> := [];
      while pos == |tokens| || !tokens[pos].RParen?
        invariant old(pos) <= pos <= |tokens| && depth == old(depth)
        invariant Args(tokens, old(pos), old(depth), []) == Args(tokens, pos, depth, args)
        decreases |tokens| - pos
      {
        var arg := ParseExpression(0);
        if arg.Throw? {
          return Throw(arg.failure);
        }
        args := args + [arg.value];
        if pos < |tokens| && tokens[pos].Comma? {
          pos := pos + 1;
        }
      }
      return Outcome.Value(args);
    }

    /** The loop over the names of a field path. */
    method ParsePath(name: string) returns (out: Outcome<Expr>)
      requires pos <= |tokens|
      modifies this`pos
      ensures Did(Path(tokens, old(pos), [name]), out, pos, depth, old(depth))
    {
      var path := [name];
      while pos < |tokens| && tokens[pos].Dot?
        invariant pos <= |tokens|
        invariant Path(tokens, old(pos), [name]) == Path(tokens, pos, path)
        decreases |tokens| - pos
      {
        pos := pos + 1;
        if pos == |tokens| {
          return Throw(UnexpectedEnd);
        }
        if !tokens[pos].Ident? {
          return Throw(ExpectedField(tokens[pos]));
        }
        path := path + [tokens[pos].name];
        pos := pos + 1;
      }
      return Outcome.Value(Field(path));
    }
  }

  /** The first half of `evaluate`. */
  method ParseTokens(tokens: seq<Token>) returns (out: Outcome<Expr>)
    ensures Parse(tokens).Ok? <==> out.Value?
    ensures out == if Parse(tokens).Ok? then Outcome.Value(Parse(tokens).value) else Throw(Parse(tokens).failure)
  {
    var parser := new Parser(tokens);
    out := parser.ParseExpression(0);
    if out.Value? && parser.pos < |tokens| {
      out := Throw(Leftover(tokens[parser.pos]));
    }
  }

  // ---- Printing with as few parentheses as possible

  /** Trees that the grammar has. */
  predicate WellFormed(e: Expr)
    decreases e
  {
    match e
    case Constant(_) => true
    case Field(path) => path != []
    case Unary(op, x) => IsPrefix(op) && WellFormed(x)
    case Binary(op, l, r) => Power(op) > 0 && WellFormed(l) && WellFormed(r)
    case Call(_, args) => forall a <- args :: WellFormed(a)
  }

  /** An operand in a place where operators of this power or less would end it. */
  predicate NeedsParens(e: Expr, min: int) {
    e.Binary? && Power(e.op) <= min
  }

  function Print(e: Expr): seq<Token>
    decreases e, 0
  {
    match e
    case Constant(v) => [Literal(v)]
    case Field(path) => if path == [] then [] else [Ident(path[0])] + Dots(path, 1)
    case Unary(op, x) => [Op(op)] + Shown(x, NeedsParens(x, TIGHTEST))
    case Binary(op, l, r) =>
      Shown(l, NeedsParens(l, Power(op) - 1)) + ([Op(op)] + Shown(r, NeedsParens(r, Power(op))))
    case Call(name, args) => [Ident(name), LParen] + (PrintArgs(args, 0) + [RParen])
  }

  function Shown(e: Expr, parens: bool): seq<Token>
    decreases e, 1
  {
    if parens then [LParen] + (Print(e) + [RParen]) else Print(e)
  }

  function Dots(path: seq<string>, i: nat): seq<Token>
    requires i <= |path|
    decreases |path| - i
  {
    if i == |path| then [] else [Dot, Ident(path[i])] + Dots(path, i + 1)
  }

  function PrintArgs(args: seq<Expr>, i: nat): seq<Token>
    requires i <= |args|
    decreases args, |args| - i
  {
    if i == |args| then []
    else if i + 1 == |args| then Print(args[i])
    else Print(args[i]) + ([Comma] + PrintArgs(args, i + 1))
  }

  function Max(a: nat, b: nat): nat {
    if a < b then b else a
  }

  /** How many calls of `parseExpression` parsing the printed tree nests inside the first. */
  function Nesting(e: Expr): nat
    decreases e, 0
  {
    match e
    case Constant(_) => 0
    case Field(_) => 0
    case Unary(_, x) => ShownNesting(x, NeedsParens(x, TIGHTEST))
    case Binary(op, l, r) =>
      Max(ShownNesting(l, NeedsParens(l, Power(op) - 1)), 1 + ShownNesting(r, NeedsParens(r, Power(op))))
    case Call(_, args) => ArgsNesting(args, 0)
  }

  function ShownNesting(e: Expr, parens: bool): nat
    decreases e, 1
  {
    if parens then 1 + Nesting(e) else Nesting(e)
  }

  function ArgsNesting(args: seq<Expr>, i: nat): nat
    requires i <= |args|
    decreases args, |args| - i
  {
    if i == |args| then 0 else Max(1 + Nesting(args[i]), ArgsNesting(args, i + 1))
  }

  // ---- Reading back what was printed

  /** What may stand behind an operand whose last operator has this power. */
  predicate Ends(ts: seq<Token>, end: nat, power: nat) {
    end == |ts| || (end < |ts| && (ts[end].RParen? || ts[end].Comma? || (ts[end].Op? && Power(ts[end].op) <= power)))
  }

  lemma StopsThere(ts: seq<Token>, end: nat, power: nat, d: nat, min: nat, e: Expr)
    requires Ends(ts, end, power) && power <= min
    ensures Infix(ts, end, d, min, e) == Ok(e, end)
  {
  }

  /** The power up to which operators behind the printed tree do not get into it. */
  function Binding(e: Expr, parens: bool): nat {
    if !parens && e.Binary? then Power(e.op) else TIGHTEST
  }

  lemma {:induction false} DotsRead(ts: seq<Token>, pos: nat, path: seq<string>, i: nat)
    requires i <= |path| && Has(ts, pos, Dots(path, i))
    requires var end := pos + |Dots(path, i)|; end < |ts| ==> !ts[end].Dot?
    ensures Path(ts, pos, path[..i]) == Ok(Field(path), pos + |Dots(path, i)|)
    decreases |path| - i
  {
    if i == |path| {
      assert path[..i] == path;
    } else {
      HasParts(ts, pos, [Dot, Ident(path[i])], Dots(path, i + 1));
      HasElement(ts, pos, [Dot, Ident(path[i])], 0);
      HasElement(ts, pos, [Dot, Ident(path[i])], 1);
      assert path[..i + 1] == path[..i] + [path[i]];
      DotsRead(ts, pos + 2, path, i + 1);
    }
  }

  /** No printed tree starts with a closing parenthesis. */
  lemma {:induction false} StartsExpression(e: Expr)
    requires WellFormed(e)
    ensures Print(e) != [] && !Print(e)[0].RParen?
    decreases e
  {
    match e
    case Constant(_) =>
    case Field(_) =>
    case Unary(_, _) =>
    case Call(_, _) =>
    case Binary(op, l, _) =>
      StartsExpression(l);
  }

  /** A printed operand, or anything in parentheses, is read as one operand. */
  lemma {:induction false} PrefixReads(ts: seq<Token>, pos: nat, d: nat, e: Expr, parens: bool, end: nat)
    requires WellFormed(e) && d <= MAX_DEPTH && (parens || !e.Binary?)
    requires Has(ts, pos, Shown(e, parens)) && end == pos + |Shown(e, parens)|
    requires Ends(ts, end, TIGHTEST)
    ensures Prefix(ts, pos, d) == if d + ShownNesting(e, parens) <= MAX_DEPTH then Ok(e, end) else Err(TooDeep)
    decreases e, if parens then 3 else 1, 0
  {
    if parens {
      ParensStand(ts, pos, e, end);
      ExpressionReads(ts, pos + 1, d, 0, e, end - 1);
    } else {
      match e
      case Constant(v) =>
        HasElement(ts, pos, [Literal(v)], 0);
      case Field(path) =>
        HasParts(ts, pos, [Ident(path[0])], Dots(path, 1));
        HasElement(ts, pos, [Ident(path[0])], 0);
        assert path[..1] == [path[0]];
        FieldIsNoCall(ts, pos, path);
        DotsRead(ts, pos + 1, path, 1);
      case Unary(op, x) =>
        var inner := NeedsParens(x, TIGHTEST);
        HasParts(ts, pos, [Op(op)], Shown(x, inner));
        HasElement(ts, pos, [Op(op)], 0);
        PrefixReads(ts, pos + 1, d, x, inner, end);
      case Call(name, args) =>
        CallStands(ts, pos, name, args, end);
        ArgsRead(ts, pos + 2, d, args, 0, end - 1);
    }
  }

  lemma BinaryStands(ts: seq<Token>, pos: nat, e: Expr, mid: nat)
    requires e.Binary? && Has(ts, pos, Print(e))
    requires mid == pos + |Shown(e.left, NeedsParens(e.left, Power(e.op) - 1))|
    ensures Has(ts, pos, Shown(e.left, NeedsParens(e.left, Power(e.op) - 1)))
    ensures mid < |ts| && ts[mid] == Op(e.op)
    ensures Has(ts, mid + 1, Shown(e.right, NeedsParens(e.right, Power(e.op))))
    ensures pos + |Print(e)| == mid + 1 + |Shown(e.right, NeedsParens(e.right, Power(e.op)))|
  {
    var l := Shown(e.left, NeedsParens(e.left, Power(e.op) - 1));
    var r := Shown(e.right, NeedsParens(e.right, Power(e.op)));
    HasParts(ts, pos, l, [Op(e.op)] + r);
    HasParts(ts, mid, [Op(e.op)], r);
    HasElement(ts, mid, [Op(e.op)], 0);
  }

  lemma ParensStand(ts: seq<Token>, pos: nat, e: Expr, end: nat)
    requires Has(ts, pos, Shown(e, true)) && end == pos + |Shown(e, true)|
    ensures pos + 1 < end <= |ts| && ts[pos].LParen? && ts[end - 1].RParen?
    ensures Has(ts, pos + 1, Print(e)) && end - 1 == pos + 1 + |Print(e)|
  {
    HasParts(ts, pos, [LParen], Print(e) + [RParen]);
    HasElement(ts, pos, [LParen], 0);
    HasParts(ts, pos + 1, Print(e), [RParen]);
    HasElement(ts, end - 1, [RParen], 0);
  }

  lemma CallStands(ts: seq<Token>, pos: nat, name: string, args: seq<Expr>, end: nat)
    requires Has(ts, pos, Print(Call(name, args))) && end == pos + |Print(Call(name, args))|
    ensures pos + 2 < end <= |ts| && ts[pos] == Ident(name) && ts[pos + 1].LParen? && ts[end - 1].RParen?
    ensures Has(ts, pos + 2, PrintArgs(args, 0)) && end == pos + 2 + |PrintArgs(args, 0)| + 1
  {
    HasParts(ts, pos, [Ident(name), LParen], PrintArgs(args, 0) + [RParen]);
    HasElement(ts, pos, [Ident(name), LParen], 0);
    HasElement(ts, pos, [Ident(name), LParen], 1);
    HasParts(ts, pos + 2, PrintArgs(args, 0), [RParen]);
    HasElement(ts, end - 1, [RParen], 0);
  }

  lemma FieldIsNoCall(ts: seq<Token>, pos: nat, path: seq<string>)
    requires path != [] && Has(ts, pos + 1, Dots(path, 1))
    requires Ends(ts, pos + 1 + |Dots(path, 1)|, TIGHTEST)
    ensures !(pos + 1 < |ts| && ts[pos + 1].LParen?)
  {
    if |path| > 1 {
      HasElement(ts, pos + 1, Dots(path, 1), 0);
    }
  }

  /** A printed tree in a place of power min: the loop goes on behind it with the whole tree as its left operand. */
  lemma {:induction false} BodyReads(ts: seq<Token>, pos: nat, d: nat, min: nat, e: Expr, parens: bool, end: nat)
    requires WellFormed(e) && d <= MAX_DEPTH && (parens || !NeedsParens(e, min))
    requires Has(ts, pos, Shown(e, parens)) && end == pos + |Shown(e, parens)|
    requires Ends(ts, end, Binding(e, parens))
    ensures Body(ts, pos, d, min) ==
            if d + ShownNesting(e, parens) <= MAX_DEPTH then Infix(ts, end, d, min, e) else Err(TooDeep)
    decreases e, if parens then 4 else 2, 0
  {
    if !parens && e.Binary? {
      var l, r := e.left, e.right;
      var pl, pr := NeedsParens(l, Power(e.op) - 1), NeedsParens(r, Power(e.op));
      var mid := pos + |Shown(l, pl)|;
      BinaryStands(ts, pos, e, mid);
      BodyReads(ts, pos, d, min, l, pl, mid);
      if d + 1 <= MAX_DEPTH {
        BodyReads(ts, mid + 1, d + 1, Power(e.op), r, pr, end);
        StopsThere(ts, end, Power(e.op), d + 1, Power(e.op), r);
      }
    } else {
      PrefixReads(ts, pos, d, e, parens, end);
    }
  }

  /** A printed tree up to a closing parenthesis, a comma or the end. */
  lemma ExpressionReads(ts: seq<Token>, pos: nat, depth: nat, min: nat, e: Expr, end: nat)
    requires WellFormed(e) && depth <= MAX_DEPTH && !NeedsParens(e, min)
    requires Has(ts, pos, Print(e)) && end == pos + |Print(e)|
    requires Ends(ts, end, 0)
    ensures Expression(ts, pos, depth, min) ==
            if depth + 1 + Nesting(e) <= MAX_DEPTH then Ok(e, end) else Err(TooDeep)
    decreases e, 2, 1
  {
    if depth + 1 <= MAX_DEPTH {
      BodyReads(ts, pos, depth + 1, min, e, false, end);
      StopsThere(ts, end, 0, depth + 1, min, e);
    }
  }

  lemma {:induction false} ArgsRead(ts: seq<Token>, pos: nat, d: nat, args: seq<Expr>, i: nat, end: nat)
    requires i <= |args| && d <= MAX_DEPTH && forall a <- args :: WellFormed(a)
    requires Has(ts, pos, PrintArgs(args, i)) && end == pos + |PrintArgs(args, i)|
    requires end < |ts| && ts[end].RParen?
    ensures Args(ts, pos, d, args[..i]) ==
            if d + ArgsNesting(args, i) <= MAX_DEPTH then Ok(args, end) else Err(TooDeep)
    decreases args, 0, |args| - i
  {
    if i == |args| {
      assert args[..i] == args;
    } else {
      var a := args[i];
      assert WellFormed(a);
      var next := pos + |Print(a)|;
      StartsExpression(a);
      ArgStands(ts, pos, args, i);
      HasElement(ts, pos, Print(a), 0);
      ExpressionReads(ts, pos, d, 0, a, next);
      assert args[..i + 1] == args[..i] + [a];
      ArgsRead(ts, if i + 1 == |args| then next else next + 1, d, args, i + 1, end);
    }
  }

  lemma ArgStands(ts: seq<Token>, pos: nat, args: seq<Expr>, i: nat)
    requires i < |args| && Has(ts, pos, PrintArgs(args, i))
    ensures Has(ts, pos, Print(args[i]))
    ensures i + 1 < |args| ==>
              var next := pos + |Print(args[i])|;
              && next < |ts| && ts[next].Comma? && Has(ts, next + 1, PrintArgs(args, i + 1))
              && |PrintArgs(args, i)| == |Print(args[i])| + 1 + |PrintArgs(args, i + 1)|
    ensures i + 1 == |args| ==> |PrintArgs(args, i)| == |Print(args[i])|
  {
    if i + 1 < |args| {
      var next := pos + |Print(args[i])|;
      HasParts(ts, pos, Print(args[i]), [Comma] + PrintArgs(args, i + 1));
      HasParts(ts, next, [Comma], PrintArgs(args, i + 1));
      HasElement(ts, next, [Comma], 0);
    }
  }

  /**
    * Printing a tree and parsing it gives the tree back if and only if parsing it nests at most fifty
    * calls; otherwise the depth error is raised.
    */
  lemma RoundTrip(e: Expr)
    requires WellFormed(e)
    ensures Parse(Print(e)) == if 1 + Nesting(e) <= 50 then Ok(e, |Print(e)|) else Err(TooDeep)
  {
    ExpressionReads(Print(e), 0, 0, 0, e, |Print(e)|);
  }

  // ---- Every parse is a printed tree, up to parentheses and commas that are not needed

  /** The number of opening parentheses from a to b. */
  function Opens(ts: seq<Token>, a: nat, b: nat): nat
    requires a <= b <= |ts|
  {
    if a == b then 0 else Opens(ts, a, b - 1) + (if ts[b - 1].LParen? then 1 else 0)
  }

  lemma {:induction false} OpensJoin(ts: seq<Token>, a: nat, b: nat, c: nat)
    requires a <= b <= c <= |ts|
    ensures Opens(ts, a, c) == Opens(ts, a, b) + Opens(ts, b, c)
    decreases c
  {
    if b == c {
    } else {
      OpensJoin(ts, a, b, c - 1);
    }
  }

  lemma OpensTwo(ts: seq<Token>, a: nat)
    requires a < |ts|
    ensures Opens(ts, a, a + 1) == if ts[a].LParen? then 1 else 0
    ensures a + 2 <= |ts| ==> Opens(ts, a, a + 2) == Opens(ts, a, a + 1) + (if ts[a + 1].LParen? then 1 else 0)
  {
    assert Opens(ts, a, a) == 0;
  }

  /** The number of opening parentheses in the printed tree. */
  function Parens(e: Expr): nat
    decreases e, 0
  {
    match e
    case Constant(_) => 0
    case Field(_) => 0
    case Unary(_, x) => ShownParens(x, NeedsParens(x, TIGHTEST))
    case Binary(op, l, r) => ShownParens(l, NeedsParens(l, Power(op) - 1)) + ShownParens(r, NeedsParens(r, Power(op)))
    case Call(_, args) => 1 + ArgsParens(args, 0)
  }

  function ShownParens(e: Expr, parens: bool): nat
    decreases e, 1
  {
    if parens then 1 + Parens(e) else Parens(e)
  }

  function ArgsParens(args: seq<Expr>, i: nat): nat
    requires i <= |args|
    decreases args, |args| - i
  {
    if i == |args| then 0 else Parens(args[i]) + ArgsParens(args, i + 1)
  }

  /**
    * The tokens from start to end were read as e: it is well-formed, shown with or without
    * parentheses it nests no deeper than they did, and it has no more parentheses.
    */
  predicate Fits(ts: seq<Token>, start: nat, end: nat, d: nat, e: Expr, parens: bool) {
    && WellFormed(e)
    && d + ShownNesting(e, parens) <= MAX_DEPTH
    && start <= end <= |ts|
    && ShownParens(e, parens) <= Opens(ts, start, end)
  }

  /** A left operand in the loop: one operand, or operators of which none is weaker than the next. */
  predicate LeftFits(ts: seq<Token>, start: nat, p: nat, d: nat, min: nat, left: Expr) {
    || Fits(ts, start, p, d, left, left.Binary?)
    || (&& Fits(ts, start, p, d, left, false)
        && left.Binary? && Power(left.op) > min
        && (Continues(ts, p, min) ==> Power(ts[p].op) <= Power(left.op)))
  }

  lemma {:induction false} ExpressionFits(ts: seq<Token>, pos: nat, depth: nat, min: nat)
    requires pos <= |ts| && Expression(ts, pos, depth, min).Ok?
    ensures var r := Expression(ts, pos, depth, min);
            Fits(ts, pos, r.pos, depth + 1, r.value, NeedsParens(r.value, min)) && !Continues(ts, r.pos, min)
    decreases |ts| - pos, 3
  {
    var first := Prefix(ts, pos, depth + 1);
    PrefixFits(ts, pos, depth + 1);
    InfixFits(ts, pos, first.pos, depth + 1, min, first.value);
  }

  lemma {:induction false} InfixFits(ts: seq<Token>, start: nat, p: nat, d: nat, min: nat, left: Expr)
    requires start <= p <= |ts| && LeftFits(ts, start, p, d, min, left) && Infix(ts, p, d, min, left).Ok?
    ensures var r := Infix(ts, p, d, min, left);
            Fits(ts, start, r.pos, d, r.value, NeedsParens(r.value, min)) && !Continues(ts, r.pos, min)
    decreases |ts| - p, 0
  {
    if Continues(ts, p, min) {
      var op := ts[p].op;
      var right := Expression(ts, p + 1, d, Power(op));
      ExpressionFits(ts, p + 1, d, Power(op));
      OperatorFits(ts, start, p, right.pos, d, min, left, right.value);
      InfixFits(ts, start, right.pos, d, min, Binary(op, left, right.value));
    }
  }

  /** A left operand, an operator that continues it and its right operand are a left operand again. */
  lemma OperatorFits(ts: seq<Token>, start: nat, p: nat, q: nat, d: nat, min: nat, left: Expr, right: Expr)
    requires start <= p < q <= |ts| && LeftFits(ts, start, p, d, min, left) && Continues(ts, p, min)
    requires Fits(ts, p + 1, q, d + 1, right, NeedsParens(right, Power(ts[p].op)))
    requires !Continues(ts, q, Power(ts[p].op))
    ensures LeftFits(ts, start, q, d, min, Binary(ts[p].op, left, right))
  {
    var op := ts[p].op;
    assert Fits(ts, start, p, d, left, NeedsParens(left, Power(op) - 1));
    OpensTwo(ts, p);
    OpensJoin(ts, start, p, p + 1);
    OpensJoin(ts, start, p + 1, q);
    BothFit(ts, start, p, q, d, op, left, right);
  }

  lemma BothFit(ts: seq<Token>, start: nat, p: nat, q: nat, d: nat, op: Operator, left: Expr, right: Expr)
    requires start <= p < q <= |ts| && Power(op) > 0
    requires Fits(ts, start, p, d, left, NeedsParens(left, Power(op) - 1))
    requires Fits(ts, p + 1, q, d + 1, right, NeedsParens(right, Power(op)))
    requires Opens(ts, start, q) >= Opens(ts, start, p) + Opens(ts, p + 1, q)
    ensures Fits(ts, start, q, d, Binary(op, left, right), false)
  {
    var e := Binary(op, left, right);
    assert Nesting(e) == Max(ShownNesting(left, NeedsParens(left, Power(op) - 1)),
                             1 + ShownNesting(right, NeedsParens(right, Power(op))));
    assert Parens(e) == ShownParens(left, NeedsParens(left, Power(op) - 1))
                        + ShownParens(right, NeedsParens(right, Power(op)));
  }

  lemma {:induction false} PrefixFits(ts: seq<Token>, pos: nat, d: nat)
    requires pos <= |ts| && d <= MAX_DEPTH && Prefix(ts, pos, d).Ok?
    ensures var r := Prefix(ts, pos, d); Fits(ts, pos, r.pos, d, r.value, r.value.Binary?)
    decreases |ts| - pos, 1
  {
    var r := Prefix(ts, pos, d);
    if ts[pos].Op? && IsPrefix(ts[pos].op) {
      PrefixFits(ts, pos + 1, d);
      OpensJoin(ts, pos, pos + 1, r.pos);
    } else {
      match ts[pos]
      case LParen =>
        ExpressionFits(ts, pos + 1, d, 0);
        OpensJoin(ts, pos, pos + 1, r.pos);
      case Ident(name) =>
        if pos + 1 < |ts| && ts[pos + 1].LParen? {
          ArgsFit(ts, pos + 2, d, [], pos + 2);
          OpensJoin(ts, pos, pos + 2, r.pos);
        } else {
          PathIsField(ts, pos + 1, [name]);
        }
      case _ =>
    }
  }

  lemma {:induction false} PathIsField(ts: seq<Token>, pos: nat, path: seq<string>)
    requires pos <= |ts| && path != [] && Path(ts, pos, path).Ok?
    ensures Path(ts, pos, path).value.Field? && Path(ts, pos, path).value.path != []
    decreases |ts| - pos
  {
    if pos < |ts| && ts[pos].Dot? {
      PathIsField(ts, pos + 2, path + [ts[pos + 1].name]);
    }
  }

  predicate ArgsFitted(ts: seq<Token>, start: nat, p: nat, d: nat, args: seq<Expr>) {
    && (forall a <- args :: WellFormed(a))
    && d + ArgsNesting(args, 0) <= MAX_DEPTH
    && start <= p <= |ts|
    && ArgsParens(args, 0) <= Opens(ts, start, p)
  }

  lemma {:induction false} ArgsFit(ts: seq<Token>, pos: nat, d: nat, args: seq<Expr>, start: nat)
    requires start <= pos <= |ts| && ArgsFitted(ts, start, pos, d, args) && Args(ts, pos, d, args).Ok?
    ensures ArgsFitted(ts, start, Args(ts, pos, d, args).pos, d, Args(ts, pos, d, args).value)
    decreases |ts| - pos, 4
  {
    if pos < |ts| && ts[pos].RParen? {
    } else {
      var arg := Expression(ts, pos, d, 0);
      var next := if arg.pos < |ts| && ts[arg.pos].Comma? then arg.pos + 1 else arg.pos;
      ExpressionFits(ts, pos, d, 0);
      OpensJoin(ts, start, pos, arg.pos);
      OpensJoin(ts, start, arg.pos, next);
      ArgsAppend(args, 0, arg.value);
      ArgsFit(ts, next, d, args + [arg.value], start);
    }
  }

  lemma {:induction false} ArgsAppend(args: seq<Expr>, i: nat, a: Expr)
    requires i <= |args|
    ensures ArgsNesting(args + [a], i) == Max(ArgsNesting(args, i), 1 + Nesting(a))
    ensures ArgsParens(args + [a], i) == ArgsParens(args, i) + Parens(a)
    decreases |args| - i
  {
    if i == |args| {
      assert ArgsNesting(args + [a], i + 1) == 0 && ArgsParens(args + [a], i + 1) == 0;
    } else {
      ArgsAppend(args, i + 1, a);
    }
  }

  lemma {:induction false} PrintedOpens(ts: seq<Token>, pos: nat, e: Expr, parens: bool, end: nat)
    requires Has(ts, pos, Shown(e, parens)) && end == pos + |Shown(e, parens)|
    ensures end <= |ts| && Opens(ts, pos, end) == ShownParens(e, parens)
    decreases e, if parens then 2 else 1, 0
  {
    if parens {
      ParensStand(ts, pos, e, end);
      PrintedOpens(ts, pos + 1, e, false, end - 1);
      WrappedOpens(ts, pos, pos + 1, end);
    } else {
      match e
      case Constant(v) =>
        HasElement(ts, pos, [Literal(v)], 0);
      case Field(path) =>
        FieldOpens(ts, pos, path);
      case Unary(op, x) =>
        HasParts(ts, pos, [Op(op)], Shown(x, NeedsParens(x, TIGHTEST)));
        HasElement(ts, pos, [Op(op)], 0);
        PrintedOpens(ts, pos + 1, x, NeedsParens(x, TIGHTEST), end);
        OpensTwo(ts, pos);
        OpensJoin(ts, pos, pos + 1, end);
      case Binary(op, l, r) =>
        var pl, pr := NeedsParens(l, Power(op) - 1), NeedsParens(r, Power(op));
        var mid := pos + |Shown(l, pl)|;
        BinaryStands(ts, pos, e, mid);
        PrintedOpens(ts, pos, l, pl, mid);
        PrintedOpens(ts, mid + 1, r, pr, end);
        MiddleOpens(ts, pos, mid, end);
      case Call(name, args) =>
        CallStands(ts, pos, name, args, end);
        ArgsOpens(ts, pos + 2, args, 0, end - 1);
        WrappedOpens(ts, pos, pos + 2, end);
    }
  }

  /** Tokens in parentheses, behind a function name or not. */
  lemma WrappedOpens(ts: seq<Token>, pos: nat, from: nat, end: nat)
    requires pos + 1 <= from < end <= |ts| && ts[from - 1].LParen? && !ts[end - 1].LParen?
    requires from == pos + 1 || (from == pos + 2 && !ts[pos].LParen?)
    ensures Opens(ts, pos, end) == 1 + Opens(ts, from, end - 1)
  {
    OpensTwo(ts, pos);
    OpensTwo(ts, end - 1);
    OpensJoin(ts, pos, from, end - 1);
    OpensJoin(ts, pos, end - 1, end);
  }

  lemma FieldOpens(ts: seq<Token>, pos: nat, path: seq<string>)
    requires Has(ts, pos, Print(Field(path)))
    ensures Opens(ts, pos, pos + |Print(Field(path))|) == 0
  {
    if path == [] {
    } else {
      HasParts(ts, pos, [Ident(path[0])], Dots(path, 1));
      HasElement(ts, pos, [Ident(path[0])], 0);
      DotsOpen(ts, pos + 1, path, 1);
      OpensTwo(ts, pos);
      OpensJoin(ts, pos, pos + 1, pos + 1 + |Dots(path, 1)|);
    }
  }

  lemma {:induction false} DotsOpen(ts: seq<Token>, pos: nat, path: seq<string>, i: nat)
    requires i <= |path| && Has(ts, pos, Dots(path, i))
    ensures Opens(ts, pos, pos + |Dots(path, i)|) == 0
    decreases |path| - i
  {
    if i == |path| {
    } else {
      HasParts(ts, pos, [Dot, Ident(path[i])], Dots(path, i + 1));
      HasElement(ts, pos, [Dot, Ident(path[i])], 0);
      HasElement(ts, pos, [Dot, Ident(path[i])], 1);
      DotsOpen(ts, pos + 2, path, i + 1);
      OpensTwo(ts, pos);
      OpensJoin(ts, pos, pos + 2, pos + |Dots(path, i)|);
    }
  }

  lemma {:induction false} ArgsOpens(ts: seq<Token>, pos: nat, args: seq<Expr>, i: nat, end: nat)
    requires i <= |args| && Has(ts, pos, PrintArgs(args, i)) && end == pos + |PrintArgs(args, i)|
    ensures end <= |ts| && Opens(ts, pos, end) == ArgsParens(args, i)
    decreases args, 0, |args| - i
  {
    if i == |args| {
    } else {
      var next := pos + |Print(args[i])|;
      ArgStands(ts, pos, args, i);
      PrintedOpens(ts, pos, args[i], false, next);
      if i + 1 < |args| {
        ArgsOpens(ts, next + 1, args, i + 1, end);
        MiddleOpens(ts, pos, next, end);
      }
      ArgsParensStep(args, i);
    }
  }

  lemma ArgsParensStep(args: seq<Expr>, i: nat)
    requires i < |args|
    ensures ArgsParens(args, i) == Parens(args[i]) + ArgsParens(args, i + 1)
    ensures i + 1 == |args| ==> ArgsParens(args, i) == Parens(args[i])
  {
  }

  /** A token in the middle that is no opening parenthesis. */
  lemma MiddleOpens(ts: seq<Token>, pos: nat, mid: nat, end: nat)
    requires pos <= mid < end <= |ts| && !ts[mid].LParen?
    ensures Opens(ts, pos, end) == Opens(ts, pos, mid) + Opens(ts, mid + 1, end)
  {
    OpensTwo(ts, mid);
    OpensJoin(ts, pos, mid, mid + 1);
    OpensJoin(ts, pos, mid + 1, end);
  }

  /**
    * Whatever the parser accepts, printing the tree and parsing it again gives the same tree, and
    * the printed form has no more parentheses than the accepted one.
    */
  lemma ParsedIsPrinted(ts: seq<Token>)
    requires Parse(ts).Ok?
    ensures var e := Parse(ts).value;
            && WellFormed(e)
            && Parse(Print(e)) == Ok(e, |Print(e)|)
            && Opens(Print(e), 0, |Print(e)|) <= Opens(ts, 0, |ts|)
  {
    var e := Parse(ts).value;
    ExpressionFits(ts, 0, 0, 0);
    RoundTrip(e);
    PrintedOpens(Print(e), 0, e, false, |Print(e)|);
  }

  /** The trees that some tokens parse to are the well-formed ones within the nesting bound. */
  lemma ParsableExactly(e: Expr)
    ensures (exists ts :: Parse(ts).Ok? && Parse(ts).value == e) <==> WellFormed(e) && 1 + Nesting(e) <= 50
  {
    if ts :| Parse(ts).Ok? && Parse(ts).value == e {
      ParsedIsPrinted(ts);
      RoundTrip(e);
    }
    if WellFormed(e) && 1 + Nesting(e) <= MAX_DEPTH {
      RoundTrip(e);
      assert Parse(Print(e)).value == e;
    }
  }

  // ---- What the bound does not bound

  /** v + v + ... + v with n additions. */
  function Sum(v: Value, n: nat): Expr {
    if n == 0 then Constant(v) else Binary(Plus, Sum(v, n - 1), Constant(v))
  }

  function Height(e: Expr): nat
    decreases e, 1
  {
    match e
    case Constant(_) => 1
    case Field(_) => 1
    case Unary(_, x) => 1 + Height(x)
    case Binary(_, l, r) => 1 + Max(Height(l), Height(r))
    case Call(_, args) => 1 + ArgsHeight(args, 0)
  }

  function ArgsHeight(args: seq<Expr>, i: nat): nat
    requires i <= |args|
    decreases args, |args| - i
  {
    if i == |args| then 0 else Max(Height(args[i]), ArgsHeight(args, i + 1))
  }

  lemma {:induction false} SumIsFlat(v: Value, n: nat)
    ensures WellFormed(Sum(v, n)) && Nesting(Sum(v, n)) <= 1 && Height(Sum(v, n)) == n + 1
  {
    if n == 0 {
    } else {
      SumIsFlat(v, n - 1);
    }
  }

  /** A sum of any length is parsed: the bound of fifty is on nested calls, not on the height of the tree. */
  lemma SumsAreParsed(v: Value, n: nat)
    ensures Height(Sum(v, n)) == n + 1
    ensures Parse(Print(Sum(v, n))) == Ok(Sum(v, n), |Print(Sum(v, n))|)
  {
    SumIsFlat(v, n);
    RoundTrip(Sum(v, n));
  }
}
