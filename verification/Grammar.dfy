/** The grammar of WHERE conditions: what the recursive-descent parser accepts, and printing with as
    few parentheses as it needs. */
module Grammar {
  import opened Common
  import opened Values
  import opened Query

  datatype Token =
    | Ident(lexeme: string)
    | Number(digits: string)
    | Text(s: Bytes)
    | Relation(op: CompareOp)
    | LParen
    | RParen
    | Punctuation(c: char)
    | Eof

  /** The tokens from the cursor on, up to the end of the input. */
  datatype Tokens = End | More(first: Token, next: Tokens)

  function Length(ts: Tokens): nat {
    if ts.End? then 0 else 1 + Length(ts.next)
  }

  function UpperChar(c: char): char {
    if 'a' <= c <= 'z' then c - 'a' + 'A' else c
  }

  function Upper(s: string): string {
    seq(|s|, i requires 0 <= i < |s| => UpperChar(s[i]))
  }

  /** Keywords may be in upper or lower case, but not in both. */
  predicate SingleCase(s: string) {
    !((exists i :: 0 <= i < |s| && 'a' <= s[i] <= 'z') && (exists i :: 0 <= i < |s| && 'A' <= s[i] <= 'Z'))
  }

  datatype Match = Yes | No | Bad

  /** Whether a token is a keyword; a keyword in mixed case is an error. */
  function Keyword(t: Token, word: string): Match {
    if !t.Ident? || Upper(t.lexeme) != word then No
    else if SingleCase(t.lexeme) then Yes else Bad
  }

  function Next(ts: Tokens, word: string): Match {
    if ts.End? then No else Keyword(ts.first, word)
  }

  predicate Digit(c: char) {
    '0' <= c <= '9'
  }

  /** The number that a row of digits writes. */
  function Decimal(s: string): nat {
    if s == [] || !Digit(s[|s| - 1]) then 0
    else 10 * Decimal(s[..|s| - 1]) + (s[|s| - 1] as int - '0' as int)
  }

  /** The value of a number token; what is too large becomes the largest integer. */
  function ToInt(s: string): Int64 {
    if Decimal(s) < 0x8000_0000_0000_0000 then Decimal(s) else 0x7FFF_FFFF_FFFF_FFFF
  }

  function Digits(n: nat): (s: string)
    ensures s != [] && forall i :: 0 <= i < |s| ==> Digit(s[i])
    ensures Decimal(s) == n
  {
    var last := ('0' as int + n % 10) as char;
    if n < 10 then
      assert [last][..0] == [];
      [last]
    else
      var front := Digits(n / 10);
      assert (front + [last])[..|front|] == front;
      front + [last]
  }

  /** What parsing gives: an error, or a condition and the tokens after it. */
  datatype Outcome = Error | Got(e: Expr, rest: Tokens)

  function Operand(ts: Tokens): (r: Outcome)
    ensures r.Got? ==> Length(r.rest) < Length(ts)
  {
    if ts.End? then Error
    else if ts.first.Number? then Got(Literal(Int(ToInt(ts.first.digits))), ts.next)
    else if ts.first.Text? then Got(Literal(Str(ts.first.s)), ts.next)
    else if !ts.first.Ident? then Error
    else
      match Next(ts, "NULL")
      case Yes => Got(Literal(Null), ts.next)
      case Bad => Error
      case No => Got(ColumnRef(ts.first.lexeme), ts.next)
  }

  function AfterBetween(x: Expr, ts: Tokens): (r: Outcome)
    ensures r.Got? ==> Length(r.rest) < Length(ts)
  {
    match Operand(ts)
    case Error => Error
    case Got(low, mid) =>
      if Next(mid, "AND") != Yes then Error
      else
        match Operand(mid.next)
        case Error => Error
        case Got(high, rest) => Got(Between(x, low, high), rest)
  }

  /** What follows the first operand: BETWEEN, LIKE or a comparison. */
  function AfterOperand(x: Expr, ts: Tokens): (r: Outcome)
    ensures r.Got? ==> Length(r.rest) < Length(ts)
  {
    match Next(ts, "BETWEEN")
    case Bad => Error
    case Yes => AfterBetween(x, ts.next)
    case No =>
      match Next(ts, "LIKE")
      case Bad => Error
      case Yes =>
        (match Operand(ts.next)
         case Error => Error
         case Got(pattern, rest) => Got(Like(x, pattern), rest))
      case No =>
        if ts.End? || !ts.first.Relation? then Error
        else
          match Operand(ts.next)
          case Error => Error
          case Got(y, rest) => Got(Binary(ts.first.op, x, y), rest)
  }

  function Predicate(ts: Tokens): (r: Outcome)
    ensures r.Got? ==> Length(r.rest) < Length(ts)
    decreases Length(ts), 0
  {
    if ts.More? && ts.first.LParen? then
      match Disjunction(ts.next)
      case Error => Error
      case Got(e, mid) => if mid.More? && mid.first.RParen? then Got(e, mid.next) else Error
    else
      match Operand(ts)
      case Error => Error
      case Got(x, mid) => AfterOperand(x, mid)
  }

  function Conjunction(ts: Tokens): (r: Outcome)
    ensures r.Got? ==> Length(r.rest) < Length(ts)
    decreases Length(ts), 2
  {
    match Predicate(ts)
    case Error => Error
    case Got(e, rest) => AndTail(e, rest)
  }

  /** More conjuncts, which associate to the left. */
  function AndTail(e: Expr, ts: Tokens): (r: Outcome)
    ensures r.Got? ==> Length(r.rest) <= Length(ts)
    decreases Length(ts), 1
  {
    match Next(ts, "AND")
    case Bad => Error
    case No => Got(e, ts)
    case Yes =>
      match Predicate(ts.next)
      case Error => Error
      case Got(y, rest) => AndTail(And(e, y), rest)
  }

  function Disjunction(ts: Tokens): (r: Outcome)
    ensures r.Got? ==> Length(r.rest) < Length(ts)
    decreases Length(ts), 4
  {
    match Conjunction(ts)
    case Error => Error
    case Got(e, rest) => OrTail(e, rest)
  }

  function OrTail(e: Expr, ts: Tokens): (r: Outcome)
    ensures r.Got? ==> Length(r.rest) <= Length(ts)
    decreases Length(ts), 3
  {
    match Next(ts, "OR")
    case Bad => Error
    case No => Got(e, ts)
    case Yes =>
      match Conjunction(ts.next)
      case Error => Error
      case Got(y, rest) => OrTail(Or(e, y), rest)
  }

  // ---------- printing ----------

  /** A column or a literal that can be written as one token; there is no token for a sign. */
  predicate Atom(e: Expr) {
    || (e.ColumnRef? && Upper(e.name) != "NULL")
    || (e.Literal? && !e.value.Bool? && (e.value.Int? ==> e.value.n >= 0))
  }

  /** A condition that can be written down: atoms below comparisons below AND and OR. */
  predicate Writable(e: Expr) {
    match e
    case ColumnRef(_) => false
    case Literal(_) => false
    case Binary(_, l, r) => Atom(l) && Atom(r)
    case Between(x, low, high) => Atom(x) && Atom(low) && Atom(high)
    case Like(x, pattern) => Atom(x) && Atom(pattern)
    case And(l, r) => Writable(l) && Writable(r)
    case Or(l, r) => Writable(l) && Writable(r)
  }

  /** An atom in front of the tokens that follow it. */
  function PrintAtom(e: Expr, rest: Tokens): Tokens
    requires Atom(e)
  {
    match e
    case ColumnRef(name) => More(Ident(name), rest)
    case Literal(Int(n)) => More(Number(Digits(n)), rest)
    case Literal(Str(s)) => More(Text(s), rest)
    case Literal(_) => More(Ident("NULL"), rest)
  }

  function PrintOr(e: Expr, rest: Tokens): Tokens
    requires Writable(e)
    decreases e, 2
  {
    if e.Or? then PrintOr(e.left, More(Ident("OR"), PrintAnd(e.right, rest))) else PrintAnd(e, rest)
  }

  function PrintAnd(e: Expr, rest: Tokens): Tokens
    requires Writable(e)
    decreases e, 1
  {
    if e.And? then PrintAnd(e.left, More(Ident("AND"), PrintPredicate(e.right, rest))) else PrintPredicate(e, rest)
  }

  function PrintPredicate(e: Expr, rest: Tokens): Tokens
    requires Writable(e)
    decreases e, 0
  {
    match e
    case Binary(op, l, r) => PrintAtom(l, More(Relation(op), PrintAtom(r, rest)))
    case Between(x, low, high) =>
      PrintAtom(x, More(Ident("BETWEEN"), PrintAtom(low, More(Ident("AND"), PrintAtom(high, rest)))))
    case Like(x, pattern) => PrintAtom(x, More(Ident("LIKE"), PrintAtom(pattern, rest)))
    case And(l, r) => More(LParen, PrintAnd(l, More(Ident("AND"), PrintPredicate(r, More(RParen, rest)))))
    case Or(l, r) => More(LParen, PrintOr(l, More(Ident("OR"), PrintAnd(r, More(RParen, rest)))))
  }

  // ---------- what is printed parses back ----------

  lemma KeywordsAreThemselves()
    ensures Keyword(Ident("AND"), "AND").Yes? && Keyword(Ident("AND"), "OR").No?
    ensures Keyword(Ident("OR"), "OR").Yes? && Keyword(Ident("OR"), "AND").No?
    ensures Keyword(Ident("BETWEEN"), "BETWEEN").Yes?
    ensures Keyword(Ident("LIKE"), "LIKE").Yes? && Keyword(Ident("LIKE"), "BETWEEN").No?
    ensures Keyword(Ident("NULL"), "NULL").Yes?
  {
    assert Upper("AND") == "AND" && Upper("OR") == "OR" && Upper("NULL") == "NULL";
    assert Upper("BETWEEN") == "BETWEEN" && Upper("LIKE") == "LIKE";
    assert |"OR"| != |"AND"| && |"LIKE"| != |"BETWEEN"|;
  }

  lemma AtomBack(e: Expr, rest: Tokens)
    requires Atom(e)
    ensures Operand(PrintAtom(e, rest)) == Got(e, rest)
    ensures !PrintAtom(e, rest).first.LParen?
  {
    KeywordsAreThemselves();
  }

  /** A comparison, BETWEEN or LIKE. */
  lemma SimpleBack(e: Expr, rest: Tokens)
    requires Writable(e) && !e.And? && !e.Or?
    ensures Predicate(PrintPredicate(e, rest)) == Got(e, rest)
  {
    KeywordsAreThemselves();
    match e
    case Binary(op, l, r) =>
      AtomBack(l, More(Relation(op), PrintAtom(r, rest)));
      AtomBack(r, rest);
    case Like(x, pattern) =>
      AtomBack(x, More(Ident("LIKE"), PrintAtom(pattern, rest)));
      AtomBack(pattern, rest);
    case Between(x, low, high) =>
      var tail := More(Ident("AND"), PrintAtom(high, rest));
      AtomBack(x, More(Ident("BETWEEN"), PrintAtom(low, tail)));
      AtomBack(low, tail);
      AtomBack(high, rest);
  }

  lemma {:induction false} AndInner(e: Expr, rest: Tokens)
    requires e.And? && Writable(e)
    ensures Conjunction(PrintAnd(e.left, More(Ident("AND"), PrintPredicate(e.right, rest)))) == AndTail(e, rest)
    decreases e, 0
  {
    KeywordsAreThemselves();
    AndBack(e.left, More(Ident("AND"), PrintPredicate(e.right, rest)));
    PredicateBack(e.right, rest);
  }

  lemma {:induction false} OrInner(e: Expr, rest: Tokens)
    requires e.Or? && Writable(e) && Next(rest, "AND").No?
    ensures Disjunction(PrintOr(e.left, More(Ident("OR"), PrintAnd(e.right, rest)))) == OrTail(e, rest)
    decreases e, 0
  {
    KeywordsAreThemselves();
    OrBack(e.left, More(Ident("OR"), PrintAnd(e.right, rest)));
    AndBack(e.right, rest);
  }

  lemma {:induction false} PredicateBack(e: Expr, rest: Tokens)
    requires Writable(e)
    ensures Predicate(PrintPredicate(e, rest)) == Got(e, rest)
    decreases e, 1
  {
    if e.And? {
      var close := More(RParen, rest);
      AndInner(e, close);
      var inner := PrintAnd(e.left, More(Ident("AND"), PrintPredicate(e.right, close)));
      assert Conjunction(inner) == Got(e, close);
      assert Disjunction(inner) == Got(e, close);
    } else if e.Or? {
      OrInner(e, More(RParen, rest));
    } else {
      SimpleBack(e, rest);
    }
  }

  /** Parsing a printed conjunction goes on behind it. */
  lemma {:induction false} AndBack(e: Expr, rest: Tokens)
    requires Writable(e)
    ensures Conjunction(PrintAnd(e, rest)) == AndTail(e, rest)
    decreases e, 2
  {
    if e.And? {
      AndInner(e, rest);
    } else {
      PredicateBack(e, rest);
    }
  }

  lemma {:induction false} OrBack(e: Expr, rest: Tokens)
    requires Writable(e) && Next(rest, "AND").No?
    ensures Disjunction(PrintOr(e, rest)) == OrTail(e, rest)
    decreases e, 3
  {
    if e.Or? {
      OrInner(e, rest);
    } else {
      AndBack(e, rest);
    }
  }

  /** A condition written with as few parentheses as possible parses back to itself, whatever follows,
      unless that goes on with AND or OR. */
  lemma RoundTrip(e: Expr, rest: Tokens)
    requires Writable(e) && Next(rest, "AND").No? && Next(rest, "OR").No?
    ensures Disjunction(PrintOr(e, rest)) == Got(e, rest)
  {
    OrBack(e, rest);
  }

  // ---------- everything that parses can be written ----------

  lemma OperandAtom(ts: Tokens)
    ensures Operand(ts).Got? ==> Atom(Operand(ts).e)
  {
  }

  lemma AfterOperandWritable(x: Expr, ts: Tokens)
    requires Atom(x)
    ensures AfterOperand(x, ts).Got? ==> Writable(AfterOperand(x, ts).e)
  {
    if ts.More? {
      OperandAtom(ts.next);
      if Operand(ts.next).Got? && Operand(ts.next).rest.More? { OperandAtom(Operand(ts.next).rest.next); }
    }
  }

  lemma {:induction false} PredicateWritable(ts: Tokens)
    ensures Predicate(ts).Got? ==> Writable(Predicate(ts).e)
    decreases Length(ts), 0
  {
    if ts.More? && ts.first.LParen? {
      DisjunctionWritable(ts.next);
    } else if Operand(ts).Got? {
      OperandAtom(ts);
      AfterOperandWritable(Operand(ts).e, Operand(ts).rest);
    }
  }

  lemma {:induction false} AndTailWritable(e: Expr, ts: Tokens)
    requires Writable(e)
    ensures AndTail(e, ts).Got? ==> Writable(AndTail(e, ts).e)
    decreases Length(ts), 1
  {
    if Next(ts, "AND").Yes? {
      PredicateWritable(ts.next);
      if Predicate(ts.next).Got? {
        AndTailWritable(And(e, Predicate(ts.next).e), Predicate(ts.next).rest);
      }
    }
  }

  lemma {:induction false} ConjunctionWritable(ts: Tokens)
    ensures Conjunction(ts).Got? ==> Writable(Conjunction(ts).e)
    decreases Length(ts), 2
  {
    PredicateWritable(ts);
    if Predicate(ts).Got? { AndTailWritable(Predicate(ts).e, Predicate(ts).rest); }
  }

  lemma {:induction false} OrTailWritable(e: Expr, ts: Tokens)
    requires Writable(e)
    ensures OrTail(e, ts).Got? ==> Writable(OrTail(e, ts).e)
    decreases Length(ts), 3
  {
    if Next(ts, "OR").Yes? {
      ConjunctionWritable(ts.next);
      if Conjunction(ts.next).Got? {
        OrTailWritable(Or(e, Conjunction(ts.next).e), Conjunction(ts.next).rest);
      }
    }
  }

  /** Exactly the writable conditions come out of the parser. */
  lemma {:induction false} DisjunctionWritable(ts: Tokens)
    ensures Disjunction(ts).Got? ==> Writable(Disjunction(ts).e)
    decreases Length(ts), 4
  {
    ConjunctionWritable(ts);
    if Conjunction(ts).Got? { OrTailWritable(Conjunction(ts).e, Conjunction(ts).rest); }
  }

  /** Parsing, printing and parsing again gives the same condition: printing loses only redundant
      parentheses and the case of NULL. */
  lemma PrintedAgain(ts: Tokens)
    requires Disjunction(ts).Got?
    ensures var e := Disjunction(ts).e; Writable(e) && Disjunction(PrintOr(e, End)) == Got(e, End)
  {
    DisjunctionWritable(ts);
    RoundTrip(Disjunction(ts).e, End);
  }

  // ---------- DELETE statements ----------

  datatype Delete = Delete(database: Option<string>, table: string, condition: Expr)

  datatype TableName = NoName | Name(database: Option<string>, table: string, rest: Tokens)

  /** A table, with its database in front of a dot or without. */
  function QualifiedName(ts: Tokens): TableName {
    if ts.End? || !ts.first.Ident? then NoName
    else if ts.next.More? && ts.next.first == Punctuation('.') then
      var mid := ts.next.next;
      if mid.More? && mid.first.Ident? then Name(Some(ts.first.lexeme), mid.first.lexeme, mid.next) else NoName
    else Name(None, ts.first.lexeme, ts.next)
  }

  /** At most a semicolon is left. */
  predicate Finished(ts: Tokens) {
    ts.End? || (ts.first == Punctuation(';') && ts.next.End?)
  }

  /** What a whole input says, if it is a DELETE statement. */
  function DeleteStatement(ts: Tokens): Option<Delete> {
    if Next(ts, "DELETE") != Yes || Next(ts.next, "FROM") != Yes then None
    else
      match QualifiedName(ts.next.next)
      case NoName => None
      case Name(database, table, rest) =>
        if Next(rest, "WHERE") != Yes then None
        else
          match Disjunction(rest.next)
          case Error => None
          case Got(e, tail) => if Finished(tail) then Some(Delete(database, table, e)) else None
  }

  function PrintName(database: Option<string>, table: string, rest: Tokens): Tokens {
    if database.None? then More(Ident(table), rest)
    else More(Ident(database.value), More(Punctuation('.'), More(Ident(table), rest)))
  }

  function PrintDelete(d: Delete, tail: Tokens): Tokens
    requires Writable(d.condition)
  {
    var where := More(Ident("WHERE"), PrintOr(d.condition, tail));
    More(Ident("DELETE"), More(Ident("FROM"), PrintName(d.database, d.table, where)))
  }

  lemma StatementKeywords()
    ensures Keyword(Ident("DELETE"), "DELETE").Yes?
    ensures Keyword(Ident("FROM"), "FROM").Yes?
    ensures Keyword(Ident("WHERE"), "WHERE").Yes?
  {
    assert Upper("DELETE") == "DELETE" && Upper("FROM") == "FROM" && Upper("WHERE") == "WHERE";
  }

  lemma NameBack(database: Option<string>, table: string, rest: Tokens)
    requires rest.More? && rest.first != Punctuation('.')
    ensures QualifiedName(PrintName(database, table, rest)) == Name(database, table, rest)
  {
  }

  /** A printed statement is read back, with or without a semicolon. */
  lemma DeleteRoundTrip(d: Delete, tail: Tokens)
    requires Writable(d.condition) && Finished(tail)
    ensures DeleteStatement(PrintDelete(d, tail)) == Some(d)
  {
    StatementKeywords();
    RoundTrip(d.condition, tail);
    NameBack(d.database, d.table, More(Ident("WHERE"), PrintOr(d.condition, tail)));
  }
}
