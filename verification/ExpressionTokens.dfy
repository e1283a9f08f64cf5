/**
  * Nothing that the parser of pipeline expressions accepts is dropped or moved: the leaves and operators of the tree are
  * the tokens of the list, from left to right.
  */
module ExpressionTokens {
  import opened ExpressionParser

  /** The tokens from a to b without parentheses and commas. */
  function Stripped(ts: seq<Token>, a: nat, b: nat): seq<Token>
    requires a <= b <= |ts|
    decreases b
  {
    if a == b then []
    else
      var t := ts[b - 1];
      Stripped(ts, a, b - 1) + (if t.LParen? || t.RParen? || t.Comma? then [] else [t])
  }

  /** The names, literals, operators and dots of a tree from left to right. */
  function Skeleton(e: Expr): seq<Token>
    decreases e, 0
  {
    match e
    case Constant(v) => [Literal(v)]
    case Field(path) => Dotted(path)
    case Unary(op, x) => [Op(op)] + Skeleton(x)
    case Binary(op, l, r) => Skeleton(l) + [Op(op)] + Skeleton(r)
    case Call(name, args) => [Ident(name)] + Skeletons(args, |args|)
  }

  function Dotted(path: seq<string>): seq<Token> {
    if path == [] then []
    else if |path| == 1 then [Ident(path[0])]
    else Dotted(path[..|path| - 1]) + [Dot, Ident(path[|path| - 1])]
  }

  /** The first n arguments, one behind the other. */
  function Skeletons(args: seq<Expr>, n: nat): seq<Token>
    requires n <= |args|
    decreases args, n
  {
    if n == 0 then [] else Skeletons(args, n - 1) + Skeleton(args[n - 1])
  }

  lemma {:induction false} StripJoins(ts: seq<Token>, a: nat, b: nat, c: nat)
    requires a <= b <= c <= |ts|
    ensures Stripped(ts, a, c) == Stripped(ts, a, b) + Stripped(ts, b, c)
    decreases c
  {
    if b == c {
    } else {
      StripJoins(ts, a, b, c - 1);
    }
  }

  /** One token at the front. */
  lemma StripFirst(ts: seq<Token>, a: nat, c: nat)
    requires a < c <= |ts|
    ensures var t := ts[a];
            Stripped(ts, a, c) ==
            (if t.LParen? || t.RParen? || t.Comma? then [] else [t]) + Stripped(ts, a + 1, c)
  {
    StripJoins(ts, a, a + 1, c);
    assert Stripped(ts, a, a) == [];
  }

  lemma {:induction false} SkeletonsAppend(args: seq<Expr>, a: Expr, n: nat)
    requires n <= |args|
    ensures Skeletons(args + [a], n) == Skeletons(args, n)
  {
    if n == 0 {
    } else {
      SkeletonsAppend(args, a, n - 1);
    }
  }

  lemma {:induction false} ExpressionKeeps(ts: seq<Token>, pos: nat, depth: nat, min: nat)
    requires pos <= |ts| && Expression(ts, pos, depth, min).Ok?
    ensures var r := Expression(ts, pos, depth, min); Stripped(ts, pos, r.pos) == Skeleton(r.value)
    decreases |ts| - pos, 3
  {
    var first := Prefix(ts, pos, depth + 1);
    PrefixKeeps(ts, pos, depth + 1);
    InfixKeeps(ts, pos, first.pos, depth + 1, min, first.value);
  }

  lemma {:induction false} InfixKeeps(ts: seq<Token>, start: nat, p: nat, d: nat, min: nat, left: Expr)
    requires start <= p <= |ts| && Stripped(ts, start, p) == Skeleton(left) && Infix(ts, p, d, min, left).Ok?
    ensures var r := Infix(ts, p, d, min, left); Stripped(ts, start, r.pos) == Skeleton(r.value)
    decreases |ts| - p, 0
  {
    if Continues(ts, p, min) {
      var right := Expression(ts, p + 1, d, Power(ts[p].op));
      ExpressionKeeps(ts, p + 1, d, Power(ts[p].op));
      StripJoins(ts, start, p, right.pos);
      StripFirst(ts, p, right.pos);
      assert ts[p] == Op(ts[p].op);
      assert Skeleton(left) + ([ts[p]] + Skeleton(right.value)) == Skeleton(left) + [ts[p]] + Skeleton(right.value);
      InfixKeeps(ts, start, right.pos, d, min, Binary(ts[p].op, left, right.value));
    }
  }

  lemma {:induction false} PrefixKeeps(ts: seq<Token>, pos: nat, d: nat)
    requires pos <= |ts| && Prefix(ts, pos, d).Ok?
    ensures var r := Prefix(ts, pos, d); Stripped(ts, pos, r.pos) == Skeleton(r.value)
    decreases |ts| - pos, 1
  {
    if pos < |ts| && ts[pos].Op? && IsPrefix(ts[pos].op) {
      PrefixKeeps(ts, pos + 1, d);
      StripFirst(ts, pos, Prefix(ts, pos, d).pos);
      assert ts[pos] == Op(ts[pos].op);
    } else {
      PrimaryKeeps(ts, pos, d);
    }
  }

  lemma {:induction false} PrimaryKeeps(ts: seq<Token>, pos: nat, d: nat)
    requires pos <= |ts| && Primary(ts, pos, d).Ok?
    ensures var r := Primary(ts, pos, d); Stripped(ts, pos, r.pos) == Skeleton(r.value)
    decreases |ts| - pos, 0
  {
    var r := Primary(ts, pos, d);
    StripFirst(ts, pos, r.pos);
    match ts[pos]
    case Literal(_) =>
      assert Stripped(ts, pos + 1, pos + 1) == [];
    case LParen =>
      ExpressionKeeps(ts, pos + 1, d, 0);
      ClosingStripped(ts, pos + 1, r.pos);
    case Ident(name) =>
      if pos + 1 < |ts| && ts[pos + 1].LParen? {
        CallKeeps(ts, pos + 2, d, name);
        StripFirst(ts, pos + 1, r.pos);
      } else {
        assert Stripped(ts, pos, pos + 1) == Stripped(ts, pos, pos) + [ts[pos]];
        PathKeeps(ts, pos, pos + 1, [name]);
      }
    case _ =>
  }

  /** The arguments of a call and its closing parenthesis. */
  lemma {:induction false} CallKeeps(ts: seq<Token>, pos: nat, d: nat, name: string)
    requires pos <= |ts| && Args(ts, pos, d, []).Ok?
    requires Closed(ts, Ok(Call(name, Args(ts, pos, d, []).value), Args(ts, pos, d, []).pos)).Ok?
    ensures var r := Args(ts, pos, d, []); Stripped(ts, pos, r.pos + 1) == Skeletons(r.value, |r.value|)
    decreases |ts| - pos, 5
  {
    assert Stripped(ts, pos, pos) == Skeletons([], 0);
    ArgsKeep(ts, pos, pos, d, []);
    ClosingStripped(ts, pos, Args(ts, pos, d, []).pos + 1);
  }

  lemma ClosingStripped(ts: seq<Token>, a: nat, b: nat)
    requires a < b <= |ts| && ts[b - 1].RParen?
    ensures Stripped(ts, a, b) == Stripped(ts, a, b - 1)
  {
  }

  lemma {:induction false} ArgsKeep(ts: seq<Token>, start: nat, pos: nat, d: nat, args: seq<Expr>)
    requires start <= pos <= |ts| && Stripped(ts, start, pos) == Skeletons(args, |args|) && Args(ts, pos, d, args).Ok?
    ensures var r := Args(ts, pos, d, args); Stripped(ts, start, r.pos) == Skeletons(r.value, |r.value|)
    decreases |ts| - pos, 4
  {
    if pos < |ts| && ts[pos].RParen? {
    } else {
      var arg := Expression(ts, pos, d, 0);
      ExpressionKeeps(ts, pos, d, 0);
      StripJoins(ts, start, pos, arg.pos);
      SkeletonsAppend(args, arg.value, |args|);
      var next := if arg.pos < |ts| && ts[arg.pos].Comma? then arg.pos + 1 else arg.pos;
      ArgsKeep(ts, start, next, d, args + [arg.value]);
    }
  }

  lemma {:induction false} PathKeeps(ts: seq<Token>, start: nat, pos: nat, path: seq<string>)
    requires start <= pos <= |ts| && path != [] && Stripped(ts, start, pos) == Dotted(path) && Path(ts, pos, path).Ok?
    ensures var r := Path(ts, pos, path); Stripped(ts, start, r.pos) == Skeleton(r.value)
    decreases |ts| - pos
  {
    if pos < |ts| && ts[pos].Dot? {
      var name := PathStep(ts, pos, path);
      DotIsKept(ts, start, pos, name);
      DottedGrows(path, name);
      PathKeeps(ts, start, pos + 2, path + [name]);
    }
  }

  lemma PathStep(ts: seq<Token>, pos: nat, path: seq<string>) returns (name: string)
    requires pos < |ts| && ts[pos].Dot? && Path(ts, pos, path).Ok?
    ensures pos + 1 < |ts| && ts[pos + 1] == Ident(name) && Path(ts, pos, path) == Path(ts, pos + 2, path + [name])
  {
    name := ts[pos + 1].name;
  }

  lemma DotIsKept(ts: seq<Token>, start: nat, pos: nat, name: string)
    requires start <= pos && pos + 2 <= |ts| && ts[pos] == Dot && ts[pos + 1] == Ident(name)
    ensures Stripped(ts, start, pos + 2) == Stripped(ts, start, pos) + [Dot, Ident(name)]
  {
    assert Stripped(ts, start, pos + 2) == Stripped(ts, start, pos + 1) + [ts[pos + 1]];
  }

  lemma DottedGrows(path: seq<string>, name: string)
    requires path != []
    ensures Dotted(path + [name]) == Dotted(path) + [Dot, Ident(name)]
  {
    assert (path + [name])[..|path|] == path;
  }

  /** The tree of an accepted token list has exactly its names, literals, operators and dots, in their order. */
  lemma NothingDropped(ts: seq<Token>)
    requires Parse(ts).Ok?
    ensures Stripped(ts, 0, |ts|) == Skeleton(Parse(ts).value)
  {
    ExpressionKeeps(ts, 0, 0, 0);
  }
}
