/**
  * What the parser of pipeline expressions makes of tokens that no tree prints as: the errors, redundant parentheses,
  * and commas that are missing or superfluous.
  */
module ExpressionErrors {
  import opened ExpressionParser
  import opened Sequences

  /** A printed tree with another token behind it, or none. */
  lemma ReadsBefore(e: Expr, ts: seq<Token>, pos: nat, depth: nat, behind: seq<Token>)
    requires WellFormed(e) && depth + 1 + Nesting(e) <= 50
    requires Has(ts, pos, Print(e)) && ts[pos + |Print(e)|..] == behind
    requires behind == [] || behind == [RParen] || behind == [Comma]
    ensures Expression(ts, pos, depth, 0) == Ok(e, |ts| - |behind|)
    ensures behind != [] ==> ts[|ts| - 1] == behind[0]
  {
    var end := pos + |Print(e)|;
    if behind != [] {
      assert ts[end] == ts[end..][0];
    }
    ExpressionReads(ts, pos, depth, 0, e, end);
  }

  /** A tree in parentheses is that tree; without the closing one the parser wants it, at the end or at a comma. */
  lemma Parenthesised(e: Expr)
    requires WellFormed(e) && Nesting(e) <= 48
    ensures Parse([LParen] + Print(e) + [RParen]) == Ok(e, |Print(e)| + 2)
    ensures Parse([LParen] + Print(e) + []) == Err(UnexpectedEnd)
    ensures Parse([LParen] + Print(e) + [Comma]) == Err(ExpectedRParen(Comma))
  {
    Opened(e, [RParen]);
    Opened(e, []);
    Opened(e, [Comma]);
  }

  lemma Opened(e: Expr, behind: seq<Token>)
    requires WellFormed(e) && Nesting(e) <= 48
    requires behind == [] || behind == [RParen] || behind == [Comma]
    ensures Parse([LParen] + Print(e) + behind) ==
            if behind == [] then Err(UnexpectedEnd)
            else if behind == [RParen] then Ok(e, |Print(e)| + 2)
            else Err(ExpectedRParen(Comma))
  {
    var ts := [LParen] + Print(e) + behind;
    OpenedStands(Print(e), behind);
    ReadsBefore(e, ts, 1, 1, behind);
    OpenedReads(ts, e, |ts| - |behind|);
  }

  lemma OpenedStands(inner: seq<Token>, behind: seq<Token>)
    ensures var ts := [LParen] + inner + behind;
            ts[0] == LParen && Has(ts, 1, inner) && ts[1 + |inner|..] == behind
  {
    var ts := [LParen] + inner + behind;
    assert ts == [LParen] + (inner + behind);
    HasParts(ts, 0, [LParen], inner + behind);
    HasParts(ts, 1, inner, behind);
  }

  lemma OpenedReads(ts: seq<Token>, e: Expr, end: nat)
    requires |ts| > 0 && ts[0] == LParen && end <= |ts| <= end + 1
    requires Expression(ts, 1, 1, 0) == Ok(e, end)
    ensures Parse(ts) == if end == |ts| then Err(UnexpectedEnd)
                         else if ts[end] == RParen then Ok(e, |ts|) else Err(ExpectedRParen(ts[end]))
  {
    var closed := Closed(ts, Expression(ts, 1, 1, 0));
    assert Prefix(ts, 0, 1) == Primary(ts, 0, 1) == closed;
    assert Expression(ts, 0, 0, 0) == Body(ts, 0, 1, 0);
    if closed.Ok? {
      assert Infix(ts, end + 1, 1, 0, e) == Ok(e, end + 1);
    }
  }

  /** A token that is no operator behind a whole expression is left over. */
  lemma LeftOver(e: Expr, t: Token)
    requires WellFormed(e) && Nesting(e) <= 49 && (t == RParen || t == Comma)
    ensures Parse(Print(e) + [t]) == Err(Leftover(t))
  {
    var ts := Print(e) + [t];
    HasParts(ts, 0, Print(e), [t]);
    assert ts[|Print(e)|..] == [t];
    ReadsBefore(e, ts, 0, 0, [t]);
  }

  /** Paths: a dot wants a name behind it. */
  lemma BrokenPaths(name: string, t: Token)
    ensures Parse([]) == Err(UnexpectedEnd)
    ensures Parse([Ident(name), Dot]) == Err(UnexpectedEnd)
    ensures !t.Ident? ==> Parse([Ident(name), Dot, t]) == Err(ExpectedField(t))
    ensures t == RParen || t == Comma || t == Dot ==> Parse([t]) == Err(UnexpectedToken(t))
  {
    NoBody([], UnexpectedEnd);
    assert Path([Ident(name), Dot], 1, [name]) == Err(UnexpectedEnd);
    assert Primary([Ident(name), Dot], 0, 1) == Err(UnexpectedEnd);
    NoBody([Ident(name), Dot], UnexpectedEnd);
    if !t.Ident? {
      assert Path([Ident(name), Dot, t], 1, [name]) == Err(ExpectedField(t));
      NoBody([Ident(name), Dot, t], ExpectedField(t));
    }
    if t == RParen || t == Comma || t == Dot {
      NoBody([t], UnexpectedToken(t));
    }
  }

  lemma NoBody(ts: seq<Token>, f: Failure)
    requires ts == [] || !ts[0].Op?
    requires Primary(ts, 0, 1) == Err(f)
    ensures Parse(ts) == Err(f)
  {
    assert Prefix(ts, 0, 1) == Primary(ts, 0, 1);
    assert Expression(ts, 0, 0, 0) == Body(ts, 0, 1, 0);
  }

  /** Commas between arguments may be left out, and one may stand behind the last. */
  lemma LooseCommas(name: string, a: Value, b: Value)
    ensures Parse([Ident(name), LParen, Literal(a), Literal(b), RParen]) ==
            Ok(Call(name, [Constant(a), Constant(b)]), 5)
    ensures Parse([Ident(name), LParen, Literal(a), Comma, RParen]) == Ok(Call(name, [Constant(a)]), 5)
    ensures Parse([Ident(name), LParen, Literal(a)]) == Err(UnexpectedEnd)
  {
    var two := [Ident(name), LParen, Literal(a), Literal(b), RParen];
    LiteralReads(two, 2, a);
    LiteralReads(two, 3, b);
    assert Args(two, 4, 1, [Constant(a), Constant(b)]) == Ok([Constant(a), Constant(b)], 4);
    assert [Constant(a)] + [Constant(b)] == [Constant(a), Constant(b)];
    assert [] + [Constant(a)] == [Constant(a)];
    assert Args(two, 3, 1, [Constant(a)]) == Ok([Constant(a), Constant(b)], 4);
    CallReads(two, name, [Constant(a), Constant(b)], 4);
    var one := [Ident(name), LParen, Literal(a), Comma, RParen];
    LiteralReads(one, 2, a);
    assert Args(one, 4, 1, [Constant(a)]) == Ok([Constant(a)], 4);
    CallReads(one, name, [Constant(a)], 4);
    var open := [Ident(name), LParen, Literal(a)];
    LiteralReads(open, 2, a);
    EndReads(open, 3);
    assert Args(open, 3, 1, [Constant(a)]) == Err(UnexpectedEnd);
    assert Args(open, 2, 1, []) == Err(UnexpectedEnd);
    NoBody(open, UnexpectedEnd);
  }

  lemma LiteralReads(ts: seq<Token>, pos: nat, v: Value)
    requires pos < |ts| && ts[pos] == Literal(v) && (pos + 1 < |ts| ==> !ts[pos + 1].Op?)
    ensures Expression(ts, pos, 1, 0) == Ok(Constant(v), pos + 1)
  {
    assert Expression(ts, pos, 1, 0) == Body(ts, pos, 2, 0);
    assert Prefix(ts, pos, 2) == Primary(ts, pos, 2) == Ok(Constant(v), pos + 1);
    assert Infix(ts, pos + 1, 2, 0, Constant(v)) == Ok(Constant(v), pos + 1);
  }

  lemma EndReads(ts: seq<Token>, pos: nat)
    requires pos == |ts|
    ensures Expression(ts, pos, 1, 0) == Err(UnexpectedEnd)
  {
    assert Expression(ts, pos, 1, 0) == Body(ts, pos, 2, 0);
    assert Prefix(ts, pos, 2) == Primary(ts, pos, 2) == Err(UnexpectedEnd);
  }

  lemma CallReads(ts: seq<Token>, name: string, args: seq<Expr>, end: nat)
    requires |ts| == end + 1 && end > 1 && ts[0] == Ident(name) && ts[1] == LParen && ts[end] == RParen
    requires Args(ts, 2, 1, []) == Ok(args, end)
    ensures Parse(ts) == Ok(Call(name, args), end + 1)
  {
    assert Prefix(ts, 0, 1) == Primary(ts, 0, 1) == Ok(Call(name, args), end + 1);
    assert Expression(ts, 0, 0, 0) == Body(ts, 0, 1, 0);
  }
}
