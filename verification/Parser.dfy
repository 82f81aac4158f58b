/** The recursive-descent parser of WHERE conditions, with its cursor. */
module Parsing {
  import opened Common
  import opened Values
  import opened Query
  import opened Grammar

  /** The tokens from a position up to the end of the input. */
  function From(tokens: seq<Token>, pos: nat): (ts: Tokens)
    requires pos < |tokens| && tokens[|tokens| - 1].Eof?
    ensures ts.End? <==> tokens[pos].Eof?
    decreases |tokens| - pos
  {
    if tokens[pos].Eof? then End else More(tokens[pos], From(tokens, pos + 1))
  }

  class Parser {
    const tokens: seq<Token>
    var pos: nat

    /** The cursor is never behind the end of the input. */
    ghost predicate Valid()
      reads this
    {
      pos < |tokens| && tokens[|tokens| - 1].Eof?
    }

    ghost function Rest(): Tokens
      requires Valid()
      reads this
    {
      From(tokens, pos)
    }

    constructor (tokens: seq<Token>)
      requires tokens != [] && tokens[|tokens| - 1].Eof?
      ensures Valid() && pos == 0 && this.tokens == tokens
    {
      this.tokens, pos := tokens, 0;
    }

    method Peek() returns (t: Token)
      requires Valid()
      ensures t == tokens[pos] && (t.Eof? <==> Rest().End?) && (Rest().More? ==> t == Rest().first)
    {
      t := tokens[pos];
    }

    method Advance()
      requires Valid() && Rest().More?
      modifies this
      ensures Valid() && pos == old(pos) + 1 && Rest() == old(Rest()).next
    {
      pos := pos + 1;
    }

    /** Moves past a keyword if it is next. */
    method MatchKeyword(word: string) returns (m: Match)
      requires Valid()
      modifies this
      ensures Valid() && m == Next(old(Rest()), word)
      ensures Rest() == if m.Yes? then old(Rest()).next else old(Rest())
    {
      var t := Peek();
      if !t.Ident? || Upper(t.lexeme) != word {
        return No;
      }
      if !SingleCase(t.lexeme) {
        return Bad;
      }
      Advance();
      m := Yes;
    }

    /** The outcome that the grammar gives, with the cursor behind what was read. */
    ghost predicate Follows(r: Option<Expr>, want: Outcome)
      requires Valid()
      reads this
    {
      match want
      case Error => r.None?
      case Got(e, rest) => r == Some(e) && Rest() == rest
    }

    method ParseOperand() returns (r: Option<Expr>)
      requires Valid()
      modifies this
      ensures Valid() && Follows(r, Operand(old(Rest())))
    {
      var t := Peek();
      if t.Number? {
        Advance();
        return Some(Literal(Int(ToInt(t.digits))));
      }
      if t.Text? {
        Advance();
        return Some(Literal(Str(t.s)));
      }
      var nullWord := MatchKeyword("NULL");
      if nullWord.Bad? {
        return None;
      }
      if nullWord.Yes? {
        return Some(Literal(Null));
      }
      if t.Ident? {
        Advance();
        return Some(ColumnRef(t.lexeme));
      }
      r := None;
    }

    method ParseBetween(x: Expr) returns (r: Option<Expr>)
      requires Valid()
      modifies this
      ensures Valid() && Follows(r, AfterBetween(x, old(Rest())))
    {
      var low := ParseOperand();
      if low.None? {
        return None;
      }
      var and := MatchKeyword("AND");
      if !and.Yes? {
        return None;
      }
      var high := ParseOperand();
      if high.None? {
        return None;
      }
      r := Some(Between(x, low.value, high.value));
    }

    method ParseAfterOperand(x: Expr) returns (r: Option<Expr>)
      requires Valid()
      modifies this
      ensures Valid() && Follows(r, AfterOperand(x, old(Rest())))
    {
      var between := MatchKeyword("BETWEEN");
      if between.Bad? {
        return None;
      }
      if between.Yes? {
        r := ParseBetween(x);
        return;
      }
      var like := MatchKeyword("LIKE");
      if like.Bad? {
        return None;
      }
      if like.Yes? {
        var pattern := ParseOperand();
        return if pattern.Some? then Some(Like(x, pattern.value)) else None;
      }
      var t := Peek();
      if !t.Relation? {
        return None;
      }
      Advance();
      var y := ParseOperand();
      r := if y.Some? then Some(Binary(t.op, x, y.value)) else None;
    }

    method ParsePredicate() returns (r: Option<Expr>)
      requires Valid()
      modifies this
      ensures Valid() && Follows(r, Predicate(old(Rest())))
      decreases Length(Rest()), 0
    {
      var t := Peek();
      if t.LParen? {
        Advance();
        var inner := ParseOr();
        if inner.None? {
          return None;
        }
        var close := Peek();
        if !close.RParen? {
          return None;
        }
        Advance();
        return inner;
      }
      var x := ParseOperand();
      if x.None? {
        return None;
      }
      r := ParseAfterOperand(x.value);
    }

    method ParseAnd() returns (r: Option<Expr>)
      requires Valid()
      modifies this
      ensures Valid() && Follows(r, Conjunction(old(Rest())))
      decreases Length(Rest()), 2
    {
      ghost var want := Conjunction(Rest());
      ghost var start := Length(Rest());
      r := ParsePredicate();
      if r.None? {
        return;
      }
      while true
        invariant Valid() && r.Some? && want == AndTail(r.value, Rest()) && Length(Rest()) < start
        decreases Length(Rest())
      {
        var and := MatchKeyword("AND");
        if and.Bad? {
          return None;
        }
        if and.No? {
          return;
        }
        var y := ParsePredicate();
        if y.None? {
          return None;
        }
        r := Some(And(r.value, y.value));
      }
    }

    method ParseOr() returns (r: Option<Expr>)
      requires Valid()
      modifies this
      ensures Valid() && Follows(r, Disjunction(old(Rest())))
      decreases Length(Rest()), 4
    {
      ghost var want := Disjunction(Rest());
      ghost var start := Length(Rest());
      r := ParseAnd();
      if r.None? {
        return;
      }
      while true
        invariant Valid() && r.Some? && want == OrTail(r.value, Rest()) && Length(Rest()) < start
        decreases Length(Rest())
      {
        var or := MatchKeyword("OR");
        if or.Bad? {
          return None;
        }
        if or.No? {
          return;
        }
        var y := ParseAnd();
        if y.None? {
          return None;
        }
        r := Some(Or(r.value, y.value));
      }
    }

    // ---------- statements ----------

    method ParseQualifiedName() returns (r: Option<(Option<string>, string)>)
      requires Valid()
      modifies this
      ensures Valid()
      ensures match QualifiedName(old(Rest()))
              case NoName => r.None?
              case Name(database, table, rest) => r == Some((database, table)) && Rest() == rest
    {
      var first := Peek();
      if !first.Ident? {
        return None;
      }
      Advance();
      var dot := Peek();
      if dot != Punctuation('.') {
        return Some((None, first.lexeme));
      }
      Advance();
      var second := Peek();
      if !second.Ident? {
        return None;
      }
      Advance();
      r := Some((Some(first.lexeme), second.lexeme));
    }

    /** One semicolon is passed over; then the input must be at its end. */
    method Finish() returns (ok: bool)
      requires Valid()
      modifies this
      ensures Valid() && ok == Finished(old(Rest()))
    {
      var t := Peek();
      if t == Punctuation(';') {
        Advance();
        t := Peek();
      }
      ok := t.Eof?;
    }

    /** The statement that the whole input is; none when it is not a DELETE statement. */
    method ParseDelete() returns (r: Option<Delete>)
      requires Valid()
      modifies this
      ensures Valid() && r == DeleteStatement(old(Rest()))
    {
      var word := MatchKeyword("DELETE");
      if !word.Yes? {
        return None;
      }
      word := MatchKeyword("FROM");
      if !word.Yes? {
        return None;
      }
      var name := ParseQualifiedName();
      if name.None? {
        return None;
      }
      word := MatchKeyword("WHERE");
      if !word.Yes? {
        return None;
      }
      var condition := ParseOr();
      if condition.None? {
        return None;
      }
      var ok := Finish();
      r := if ok then Some(Delete(name.value.0, name.value.1, condition.value)) else None;
    }
  }
}
