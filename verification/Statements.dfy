/** WHERE conditions and DELETE statements as text. */
module Statements {
  import opened Common
  import opened Query
  import opened Grammar
  import opened Parsing
  import opened Lexing

  // ---------- writing ----------

  /** A condition whose column names are plain. */
  predicate PlainNames(e: Expr) {
    match e
    case ColumnRef(name) => Plain(Ident(name))
    case Literal(_) => true
    case Binary(_, l, r) => PlainNames(l) && PlainNames(r)
    case And(l, r) => PlainNames(l) && PlainNames(r)
    case Or(l, r) => PlainNames(l) && PlainNames(r)
    case Between(x, low, high) => PlainNames(x) && PlainNames(low) && PlainNames(high)
    case Like(x, pattern) => PlainNames(x) && PlainNames(pattern)
  }

  lemma AtomPlain(e: Expr, rest: Tokens)
    requires Atom(e) && PlainNames(e) && AllPlain(rest)
    ensures AllPlain(PrintAtom(e, rest))
  {
  }

  lemma SimplePlain(e: Expr, rest: Tokens)
    requires Writable(e) && PlainNames(e) && AllPlain(rest) && !e.And? && !e.Or?
    ensures AllPlain(PrintPredicate(e, rest))
  {
    match e
    case Binary(op, l, r) =>
      AtomPlain(r, rest);
      AtomPlain(l, More(Relation(op), PrintAtom(r, rest)));
    case Like(x, pattern) =>
      AtomPlain(pattern, rest);
      AtomPlain(x, More(Ident("LIKE"), PrintAtom(pattern, rest)));
    case Between(x, low, high) =>
      AtomPlain(high, rest);
      AtomPlain(low, More(Ident("AND"), PrintAtom(high, rest)));
      AtomPlain(x, More(Ident("BETWEEN"), PrintAtom(low, More(Ident("AND"), PrintAtom(high, rest)))));
  }

  lemma {:induction false} PredicatePlain(e: Expr, rest: Tokens)
    requires Writable(e) && PlainNames(e) && AllPlain(rest)
    ensures AllPlain(PrintPredicate(e, rest))
    decreases e, 0
  {
    if e.And? {
      PredicatePlain(e.right, More(RParen, rest));
      AndPlain(e.left, More(Ident("AND"), PrintPredicate(e.right, More(RParen, rest))));
    } else if e.Or? {
      AndPlain(e.right, More(RParen, rest));
      OrPlain(e.left, More(Ident("OR"), PrintAnd(e.right, More(RParen, rest))));
    } else {
      SimplePlain(e, rest);
    }
  }

  lemma {:induction false} AndPlain(e: Expr, rest: Tokens)
    requires Writable(e) && PlainNames(e) && AllPlain(rest)
    ensures AllPlain(PrintAnd(e, rest))
    decreases e, 1
  {
    if e.And? {
      PredicatePlain(e.right, rest);
      AndPlain(e.left, More(Ident("AND"), PrintPredicate(e.right, rest)));
    } else {
      PredicatePlain(e, rest);
    }
  }

  lemma {:induction false} OrPlain(e: Expr, rest: Tokens)
    requires Writable(e) && PlainNames(e) && AllPlain(rest)
    ensures AllPlain(PrintOr(e, rest))
    decreases e, 2
  {
    if e.Or? {
      AndPlain(e.right, rest);
      OrPlain(e.left, More(Ident("OR"), PrintAnd(e.right, rest)));
    } else {
      AndPlain(e, rest);
    }
  }

  // ---------- what is read can be written ----------

  lemma OperandNames(ts: Tokens)
    requires AllPlain(ts)
    ensures Operand(ts).Got? ==> PlainNames(Operand(ts).e) && AllPlain(Operand(ts).rest)
  {
  }

  lemma AfterOperandNames(x: Expr, ts: Tokens)
    requires PlainNames(x) && AllPlain(ts)
    ensures AfterOperand(x, ts).Got? ==> PlainNames(AfterOperand(x, ts).e) && AllPlain(AfterOperand(x, ts).rest)
  {
    if ts.More? {
      OperandNames(ts.next);
      if Operand(ts.next).Got? && Operand(ts.next).rest.More? { OperandNames(Operand(ts.next).rest.next); }
    }
  }

  lemma {:induction false} PredicateNames(ts: Tokens)
    requires AllPlain(ts)
    ensures Predicate(ts).Got? ==> PlainNames(Predicate(ts).e) && AllPlain(Predicate(ts).rest)
    decreases Length(ts), 0
  {
    if ts.More? && ts.first.LParen? {
      DisjunctionNames(ts.next);
    } else if Operand(ts).Got? {
      OperandNames(ts);
      AfterOperandNames(Operand(ts).e, Operand(ts).rest);
    }
  }

  lemma {:induction false} AndTailNames(e: Expr, ts: Tokens)
    requires PlainNames(e) && AllPlain(ts)
    ensures AndTail(e, ts).Got? ==> PlainNames(AndTail(e, ts).e) && AllPlain(AndTail(e, ts).rest)
    decreases Length(ts), 1
  {
    if Next(ts, "AND").Yes? {
      PredicateNames(ts.next);
      if Predicate(ts.next).Got? {
        AndTailNames(And(e, Predicate(ts.next).e), Predicate(ts.next).rest);
      }
    }
  }

  lemma {:induction false} ConjunctionNames(ts: Tokens)
    requires AllPlain(ts)
    ensures Conjunction(ts).Got? ==> PlainNames(Conjunction(ts).e) && AllPlain(Conjunction(ts).rest)
    decreases Length(ts), 2
  {
    PredicateNames(ts);
    if Predicate(ts).Got? { AndTailNames(Predicate(ts).e, Predicate(ts).rest); }
  }

  lemma {:induction false} OrTailNames(e: Expr, ts: Tokens)
    requires PlainNames(e) && AllPlain(ts)
    ensures OrTail(e, ts).Got? ==> PlainNames(OrTail(e, ts).e) && AllPlain(OrTail(e, ts).rest)
    decreases Length(ts), 3
  {
    if Next(ts, "OR").Yes? {
      ConjunctionNames(ts.next);
      if Conjunction(ts.next).Got? {
        OrTailNames(Or(e, Conjunction(ts.next).e), Conjunction(ts.next).rest);
      }
    }
  }

  lemma {:induction false} DisjunctionNames(ts: Tokens)
    requires AllPlain(ts)
    ensures Disjunction(ts).Got? ==> PlainNames(Disjunction(ts).e) && AllPlain(Disjunction(ts).rest)
    decreases Length(ts), 4
  {
    ConjunctionNames(ts);
    if Conjunction(ts).Got? { OrTailNames(Conjunction(ts).e, Conjunction(ts).rest); }
  }

  // ---------- conditions ----------

  /** The condition that a text is. */
  function ReadCondition(text: Input): Option<Expr> {
    match Lex(text, 0)
    case None => None
    case Some(ts) =>
      match Disjunction(ts)
      case Error => None
      case Got(e, rest) => if rest.End? then Some(e) else None
  }

  /** A condition that has a text. */
  predicate Expressible(e: Expr) {
    Writable(e) && PlainNames(e)
  }

  function WriteCondition(e: Expr): Input
    requires Expressible(e)
  {
    OrPlain(e, End);
    Render(PrintOr(e, End))
  }

  /** A condition written as text, with as few parentheses as possible, is read back as it was; and no
      text gives a condition that could not be written. */
  lemma TextRoundTrip(e: Expr)
    ensures Expressible(e) <==> exists text: Input :: ReadCondition(text) == Some(e)
    ensures Expressible(e) ==> ReadCondition(WriteCondition(e)) == Some(e)
  {
    if Expressible(e) {
      OrPlain(e, End);
      RenderedBack(PrintOr(e, End));
      RoundTrip(e, End);
      assert ReadCondition(WriteCondition(e)) == Some(e);
    }
    forall text: Input | ReadCondition(text) == Some(e)
      ensures Expressible(e)
    {
      LexedPlain(text, 0);
      DisjunctionNames(Lex(text, 0).value);
      DisjunctionWritable(Lex(text, 0).value);
    }
  }

  // ---------- DELETE statements ----------

  function ReadDelete(text: Input): Option<Delete> {
    match Lex(text, 0)
    case None => None
    case Some(ts) => DeleteStatement(ts)
  }

  /** A statement that has a text. */
  predicate Sayable(d: Delete) {
    && Expressible(d.condition)
    && Plain(Ident(d.table))
    && (d.database.Some? ==> Plain(Ident(d.database.value)))
  }

  lemma DeletePlain(d: Delete, tail: Tokens)
    requires Sayable(d) && AllPlain(tail)
    ensures AllPlain(PrintDelete(d, tail))
  {
    OrPlain(d.condition, tail);
    KeywordsPlain();
    NamePlain(d.database, d.table, More(Ident("WHERE"), PrintOr(d.condition, tail)));
  }

  lemma NamePlain(database: Option<string>, table: string, rest: Tokens)
    requires Plain(Ident(table)) && (database.Some? ==> Plain(Ident(database.value))) && AllPlain(rest)
    ensures AllPlain(PrintName(database, table, rest))
  {
    assert AllPlain(More(Ident(table), rest));
    assert AllPlain(More(Punctuation('.'), More(Ident(table), rest)));
  }

  lemma NameRead(ts: Tokens)
    requires AllPlain(ts) && QualifiedName(ts).Name?
    ensures var name := QualifiedName(ts);
            && AllPlain(name.rest) && Plain(Ident(name.table))
            && (name.database.Some? ==> Plain(Ident(name.database.value)))
  {
    assert AllPlain(ts.next);
    if ts.next.More? { assert AllPlain(ts.next.next); }
  }

  lemma KeywordsPlain()
    ensures Plain(Ident("DELETE")) && Plain(Ident("FROM")) && Plain(Ident("WHERE"))
  {
  }

  function WriteDelete(d: Delete): Input
    requires Sayable(d)
  {
    var tail := More(Punctuation(';'), End);
    DeletePlain(d, tail);
    Render(PrintDelete(d, tail))
  }

  lemma DeleteNames(ts: Tokens)
    requires AllPlain(ts) && DeleteStatement(ts).Some?
    ensures Sayable(DeleteStatement(ts).value)
  {
    assert AllPlain(ts.next);
    NameRead(ts.next.next);
    var where := QualifiedName(ts.next.next).rest;
    DisjunctionNames(where.next);
    DisjunctionWritable(where.next);
  }

  /** A statement written as text is read back as it was, and no text gives a statement that could not
      be written. */
  lemma DeleteText(d: Delete)
    ensures Sayable(d) <==> exists text: Input :: ReadDelete(text) == Some(d)
    ensures Sayable(d) ==> ReadDelete(WriteDelete(d)) == Some(d)
  {
    if Sayable(d) {
      var tail := More(Punctuation(';'), End);
      DeletePlain(d, tail);
      RenderedBack(PrintDelete(d, tail));
      DeleteRoundTrip(d, tail);
      assert ReadDelete(WriteDelete(d)) == Some(d);
    }
    forall text: Input | ReadDelete(text) == Some(d)
      ensures Sayable(d)
    {
      LexedPlain(text, 0);
      DeleteNames(Lex(text, 0).value);
    }
  }

  /** From text to statement: lexer and parser together. */
  method Parse(text: Input) returns (r: Option<Delete>)
    ensures r == ReadDelete(text)
  {
    var lexer := new Lexer(text);
    var tokens := lexer.Tokenize();
    if tokens.None? {
      return None;
    }
    var parser := new Parser(tokens.value);
    r := parser.ParseDelete();
  }
}
