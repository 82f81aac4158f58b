/** The lexer, and writing tokens as text. */
module Lexing {
  import opened Common
  import opened Sequences
  import opened Values
  import opened Query
  import opened Grammar
  import opened Parsing

  /** One byte of the input. */
  type Letter = c: char | c as int < 256 witness 'a'

  type Input = seq<Letter>

  predicate Space(c: char) {
    c == ' ' || 9 <= c as int <= 13
  }

  predicate Alpha(c: char) {
    'a' <= c <= 'z' || 'A' <= c <= 'Z'
  }

  predicate Start(c: char) {
    Alpha(c) || c == '_'
  }

  predicate Part(c: char) {
    Alpha(c) || Digit(c) || c == '_'
  }

  predicate Numeral(c: char) {
    Alpha(c) || Digit(c) || c == '.' || c == '-' || c == ':'
  }

  /** The end of the letters from i on that satisfy a test. */
  function RunEnd(p: char -> bool, s: Input, i: nat): (j: nat)
    requires i <= |s|
    ensures i <= j <= |s|
    decreases |s| - i
  {
    if i < |s| && p(s[i]) then RunEnd(p, s, i + 1) else i
  }

  /** Dashes between letters or digits belong to an identifier. */
  function DashEnd(s: Input, i: nat): (j: nat)
    requires i <= |s|
    ensures i <= j <= |s|
    decreases |s| - i
  {
    if i + 1 < |s| && s[i] == '-' && (Alpha(s[i + 1]) || Digit(s[i + 1])) then DashEnd(s, RunEnd(Part, s, i + 1)) else i
  }

  /** The text up to the closing quote, and the position behind it; a backslash takes the next letter
      as it is. */
  function Unquote(s: Input, i: nat, quote: char): (r: Option<(Bytes, nat)>)
    requires i <= |s|
    ensures r.Some? ==> i < r.value.1 <= |s|
    decreases |s| - i
  {
    if i == |s| then None
    else if s[i] == quote then Some(([], i + 1))
    else
      var k := if s[i] == '\\' && i + 1 < |s| then i + 1 else i;
      match Unquote(s, k + 1, quote)
      case None => None
      case Some((text, j)) => Some(([s[k] as int] + text, j))
  }

  function Double(c: char, d: char): Option<CompareOp> {
    if d != '=' then None
    else if c == '=' then Some(Eq)
    else if c == '!' then Some(Ne)
    else if c == '<' then Some(Le)
    else if c == '>' then Some(Ge)
    else None
  }

  function Single(c: char): Option<Token> {
    if c == '(' then Some(LParen)
    else if c == ')' then Some(RParen)
    else if c == ',' || c == ';' || c == '.' || c == '*' then Some(Punctuation(c))
    else if c == '=' then Some(Relation(Eq))
    else if c == '<' then Some(Relation(Lt))
    else if c == '>' then Some(Relation(Gt))
    else None
  }

  function SymbolAt(s: Input, i: nat): (r: Option<(Token, nat)>)
    requires i < |s|
    ensures r.Some? ==> i < r.value.1 <= |s|
  {
    if i + 1 < |s| && Double(s[i], s[i + 1]).Some? then Some((Relation(Double(s[i], s[i + 1]).value), i + 2))
    else
      match Single(s[i])
      case None => None
      case Some(t) => Some((t, i + 1))
  }

  /** The token at a position that is not a space, and the position behind it. */
  function TokenAt(s: Input, i: nat): (r: Option<(Token, nat)>)
    requires i < |s|
    ensures r.Some? ==> i < r.value.1 <= |s|
  {
    if Start(s[i]) then
      var j := DashEnd(s, RunEnd(Part, s, i + 1));
      Some((Ident(s[i..j]), j))
    else if Digit(s[i]) then
      var j := RunEnd(Numeral, s, i + 1);
      Some((if RunEnd(Digit, s, i + 1) == j then Number(s[i..j]) else Ident(s[i..j]), j))
    else if s[i] == '"' || s[i] == '\'' then
      match Unquote(s, i + 1, s[i])
      case None => None
      case Some((text, j)) => Some((Text(text), j))
    else
      SymbolAt(s, i)
  }

  /** All tokens from a position on; none when some letter does not belong. */
  function Lex(s: Input, i: nat): (r: Option<Tokens>)
    requires i <= |s|
    decreases |s| - i
  {
    if i == |s| then Some(End)
    else if Space(s[i]) then Lex(s, i + 1)
    else
      match TokenAt(s, i)
      case None => None
      case Some((t, j)) =>
        match Lex(s, j)
        case None => None
        case Some(rest) => Some(More(t, rest))
  }

  // ---------- writing ----------

  /** A letter in a quoted text, behind a backslash where needed. */
  function Escape(b: Byte): Input {
    if b == '\'' as int || b == '\\' as int then ['\\', b as char] else [b as char]
  }

  function Escaped(s: Bytes): Input {
    if s == [] then [] else Escape(s[0]) + Escaped(s[1..])
  }

  /** A name that starts with a letter or an underscore: letters, digits and underscores, and dashes
      before a letter or a digit. */
  predicate Word(name: string) {
    && name != [] && Start(name[0])
    && forall k :: 1 <= k < |name| ==> WordPart(name, k, |name|)
  }

  predicate WordPart(s: string, k: nat, end: nat)
    requires k < end <= |s|
  {
    Part(s[k]) || (s[k] == '-' && k + 1 < end && (Alpha(s[k + 1]) || Digit(s[k + 1])))
  }

  predicate All(p: char -> bool, s: string) {
    forall k :: 0 <= k < |s| ==> p(s[k])
  }

  /** A name that starts with a digit, and has something else. */
  predicate NumeralWord(name: string) {
    name != [] && Digit(name[0]) && All(Numeral, name) && !All(Digit, name)
  }

  /** A token that can be written. */
  predicate Plain(t: Token) {
    match t
    case Ident(name) => Word(name) || NumeralWord(name)
    case Number(digits) => digits != [] && All(Digit, digits)
    case Punctuation(c) => Single(c) == Some(t)
    case Eof => false
    case _ => true
  }

  lemma WordLetters(name: string)
    requires Plain(Ident(name))
    ensures forall k :: 0 <= k < |name| ==> name[k] as int < 256
  {
    forall k | 0 <= k < |name|
      ensures name[k] as int < 256
    {
      assert Word(name) && k > 0 ==> WordPart(name, k, |name|);
    }
  }

  function Spell(t: Token): (s: Input)
    requires Plain(t)
    ensures s != [] && !Space(s[0])
  {
    match t
    case Ident(name) => (WordLetters(name); name)
    case Number(digits) => digits
    case Text(s) => ['\''] + Escaped(s) + ['\'']
    case Relation(op) =>
      (match op
       case Eq => "=" case Ne => "!=" case Lt => "<" case Gt => ">" case Le => "<=" case Ge => ">=")
    case LParen => "("
    case RParen => ")"
    case Punctuation(c) => [c]
  }

  predicate AllPlain(ts: Tokens) {
    ts.More? ==> Plain(ts.first) && AllPlain(ts.next)
  }

  /** Tokens with a space after each. */
  function Render(ts: Tokens): Input
    requires AllPlain(ts)
  {
    if ts.End? then [] else Spell(ts.first) + [' '] + Render(ts.next)
  }

  // ---------- what is written is read back ----------

  /** The word stands at position i. */
  ghost predicate StandsAt(s: Input, i: nat, word: Input) {
    i + |word| <= |s| && forall k :: 0 <= k < |word| ==> s[i + k] == word[k]
  }

  lemma StandsApart(s: Input, i: nat, a: Input, b: Input)
    requires StandsAt(s, i, a + b)
    ensures StandsAt(s, i, a) && StandsAt(s, i + |a|, b)
  {
    forall k | 0 <= k < |a|
      ensures s[i + k] == a[k]
    {
      assert s[i + k] == (a + b)[k];
    }
    forall k | 0 <= k < |b|
      ensures s[i + |a| + k] == b[k]
    {
      assert s[i + (|a| + k)] == (a + b)[|a| + k];
    }
  }

  lemma {:induction false} EndOf(p: char -> bool, s: Input, i: nat, j: nat)
    requires i <= j < |s| && (forall k :: i <= k < j ==> p(s[k])) && !p(s[j])
    ensures RunEnd(p, s, i) == j
    decreases j - i
  {
    if i < j { EndOf(p, s, i + 1, j); }
  }

  lemma UnquoteStep(b: Byte, s: Input, i: nat, more: Bytes, j: nat)
    requires StandsAt(s, i, Escape(b)) && Unquote(s, i + |Escape(b)|, '\'') == Some((more, j))
    ensures Unquote(s, i, '\'') == Some(([b] + more, j))
  {
    var e := Escape(b);
    assert s[i + 0] == e[0] && s[i + (|e| - 1)] == e[|e| - 1];
  }

  lemma {:induction false} UnquoteBack(text: Bytes, s: Input, i: nat)
    requires StandsAt(s, i, Escaped(text) + ['\''])
    ensures Unquote(s, i, '\'') == Some((text, i + |Escaped(text)| + 1))
    decreases |text|
  {
    if text == [] {
      StandsApart(s, i, Escaped(text), ['\'']);
      assert s[i + |Escaped(text)| + 0] == ['\''][0];
    } else {
      var first, rest := Escape(text[0]), Escaped(text[1..]);
      Associative(first, rest, ['\'']);
      StandsApart(s, i, first, rest + ['\'']);
      UnquoteBack(text[1..], s, i + |first|);
      UnquoteStep(text[0], s, i, text[1..], i + |first| + |rest| + 1);
      assert text == [text[0]] + text[1..];
    }
  }

  /** Parts of a word up to a space. */
  lemma {:induction false} WordEnd(s: Input, k: nat, j: nat)
    requires k <= j < |s| && s[j] == ' ' && forall m :: k <= m < j ==> WordPart(s, m, j)
    ensures DashEnd(s, RunEnd(Part, s, k)) == j
    decreases j - k
  {
    if k < j {
      assert WordPart(s, k, j);
      WordEnd(s, k + 1, j);
    }
  }

  lemma WordBack(name: Input, s: Input, i: nat)
    requires Word(name) && StandsAt(s, i, name) && StandsAt(s, i + |name|, [' '])
    ensures TokenAt(s, i) == Some((Ident(name), i + |name|))
  {
    var j := i + |name|;
    assert s[j + 0] == [' '][0] && s[i + 0] == name[0];
    forall m | i + 1 <= m < j
      ensures WordPart(s, m, j)
    {
      assert s[i + (m - i)] == name[m - i] && WordPart(name, m - i, |name|);
      if m + 1 < j { assert s[i + (m + 1 - i)] == name[m + 1 - i]; }
    }
    WordEnd(s, i + 1, j);
    assert s[i..j] == name;
  }

  /** Where a written word of numerals ends, and whether it has digits only. */
  lemma NumeralsEnd(word: string, s: Input, i: nat)
    requires word != [] && All(Numeral, word) && StandsAt(s, i, word) && StandsAt(s, i + |word|, [' '])
    ensures RunEnd(Numeral, s, i + 1) == i + |word| && s[i..i + |word|] == word && s[i] == word[0]
    ensures RunEnd(Digit, s, i + 1) == i + |word| <==> All(Digit, word[1..])
  {
    var j := i + |word|;
    assert s[j + 0] == [' '][0] && s[i + 0] == word[0];
    forall k | i + 1 <= k < j
      ensures s[k] == word[k - i]
    {
      assert s[i + (k - i)] == word[k - i];
    }
    EndOf(Numeral, s, i + 1, j);
    if All(Digit, word[1..]) {
      forall k | i + 1 <= k < j
        ensures Digit(s[k])
      {
        assert s[k] == word[1..][k - i - 1];
      }
      EndOf(Digit, s, i + 1, j);
    } else {
      var k :| 0 <= k < |word[1..]| && !Digit(word[1..][k]);
      RunHolds(Digit, s, i + 1);
      assert s[i + 1 + k] == word[1..][k];
    }
    assert s[i..j] == word;
  }

  lemma {:induction false} RunHolds(p: char -> bool, s: Input, i: nat)
    requires i <= |s|
    ensures var j := RunEnd(p, s, i); (forall k :: i <= k < j ==> p(s[k])) && (j < |s| ==> !p(s[j]))
    decreases |s| - i
  {
    if i < |s| && p(s[i]) { RunHolds(p, s, i + 1); }
  }

  lemma DigitsOnly(word: string)
    requires word != [] && Digit(word[0])
    ensures All(Digit, word) <==> All(Digit, word[1..])
    ensures All(Digit, word) ==> All(Numeral, word)
  {
    if All(Digit, word[1..]) {
      forall k | 0 <= k < |word|
        ensures Digit(word[k])
      {
        if k > 0 { assert word[k] == word[1..][k - 1]; }
      }
    }
  }

  lemma TextBack(text: Bytes, s: Input, i: nat)
    requires StandsAt(s, i, Spell(Text(text)))
    ensures TokenAt(s, i) == Some((Text(text), i + |Spell(Text(text))|))
  {
    var tail := Escaped(text) + ['\''];
    assert Spell(Text(text)) == ['\''] + tail;
    StandsApart(s, i, ['\''], tail);
    assert s[i + 0] == ['\''][0];
    UnquoteBack(text, s, i + 1);
  }

  lemma SymbolBack(t: Token, s: Input, i: nat)
    requires Plain(t) && (t.Relation? || t.LParen? || t.RParen? || t.Punctuation?)
    requires StandsAt(s, i, Spell(t)) && StandsAt(s, i + |Spell(t)|, [' '])
    ensures TokenAt(s, i) == Some((t, i + |Spell(t)|))
  {
    assert s[i + 0] == Spell(t)[0];
    assert s[i + |Spell(t)| + 0] == [' '][0];
    if |Spell(t)| == 2 { assert s[i + 1] == Spell(t)[1]; }
  }

  lemma TokenBack(t: Token, s: Input, i: nat)
    requires Plain(t) && StandsAt(s, i, Spell(t)) && StandsAt(s, i + |Spell(t)|, [' '])
    ensures TokenAt(s, i) == Some((t, i + |Spell(t)|))
  {
    match t
    case Ident(name) =>
      if Word(name) {
        WordBack(Spell(t), s, i);
      } else {
        DigitsOnly(name);
        NumeralsEnd(name, s, i);
      }
    case Number(digits) =>
      DigitsOnly(digits);
      NumeralsEnd(digits, s, i);
    case Text(text) => TextBack(text, s, i);
    case Relation(_) => SymbolBack(t, s, i);
    case LParen => SymbolBack(t, s, i);
    case RParen => SymbolBack(t, s, i);
    case Punctuation(_) => SymbolBack(t, s, i);
  }

  lemma LexStep(s: Input, i: nat, t: Token, j: nat, ts: Tokens)
    requires i < j < |s| && !Space(s[i]) && TokenAt(s, i) == Some((t, j)) && s[j] == ' ' && Lex(s, j + 1) == Some(ts)
    ensures Lex(s, i) == Some(More(t, ts))
  {
    assert Lex(s, j) == Lex(s, j + 1);
  }

  lemma {:induction false} RenderedAt(ts: Tokens, s: Input, i: nat)
    requires AllPlain(ts) && StandsAt(s, i, Render(ts)) && i + |Render(ts)| == |s|
    ensures Lex(s, i) == Some(ts)
    decreases ts
  {
    if ts.More? {
      var word := Spell(ts.first);
      StandsApart(s, i, word + [' '], Render(ts.next));
      StandsApart(s, i, word, [' ']);
      TokenBack(ts.first, s, i);
      var j := i + |word|;
      assert s[i + 0] == word[0] && s[j + 0] == [' '][0];
      RenderedAt(ts.next, s, j + 1);
      LexStep(s, i, ts.first, j, ts.next);
    }
  }

  // ---------- what is read can be written ----------

  /** The parts of a word that was read. */
  lemma {:induction false} WordPartRead(s: Input, k: nat, m: nat)
    requires k <= m < |s| && m < DashEnd(s, RunEnd(Part, s, k))
    ensures WordPart(s, m, DashEnd(s, RunEnd(Part, s, k)))
    decreases |s| - k
  {
    var e := RunEnd(Part, s, k);
    RunHolds(Part, s, k);
    if e <= m {
      assert s[e] == '-' && Part(s[e + 1]);
      assert RunEnd(Part, s, e + 1) == RunEnd(Part, s, e + 2);
      if e < m { WordPartRead(s, e + 1, m); }
    }
  }

  lemma WordRead(s: Input, i: nat)
    requires i < |s| && Start(s[i])
    ensures TokenAt(s, i).Some? && Plain(TokenAt(s, i).value.0)
  {
    var j := DashEnd(s, RunEnd(Part, s, i + 1));
    var name: string := s[i..j];
    forall k | 1 <= k < |name|
      ensures WordPart(name, k, |name|)
    {
      WordPartRead(s, i + 1, i + k);
    }
    assert Word(name);
  }

  lemma NumeralRead(s: Input, i: nat)
    requires i < |s| && Digit(s[i])
    ensures TokenAt(s, i).Some? && Plain(TokenAt(s, i).value.0)
  {
    var j := RunEnd(Numeral, s, i + 1);
    var word: string := s[i..j];
    RunHolds(Numeral, s, i + 1);
    RunHolds(Digit, s, i + 1);
    var d := RunEnd(Digit, s, i + 1);
    if d < j {
      assert !Digit(word[d - i]);
    }
  }

  /** Every token that is read can be written. */
  lemma TokenRead(s: Input, i: nat)
    requires i < |s| && TokenAt(s, i).Some?
    ensures Plain(TokenAt(s, i).value.0)
  {
    if Start(s[i]) {
      WordRead(s, i);
    } else if Digit(s[i]) {
      NumeralRead(s, i);
    }
  }

  lemma {:induction false} LexedPlain(s: Input, i: nat)
    requires i <= |s| && Lex(s, i).Some?
    ensures AllPlain(Lex(s, i).value)
    decreases |s| - i
  {
    if i < |s| {
      if Space(s[i]) {
        LexedPlain(s, i + 1);
      } else {
        TokenRead(s, i);
        LexedPlain(s, TokenAt(s, i).value.1);
      }
    }
  }

  /** Written tokens are read back as they were, and every list of tokens that some text gives can be
      written. */
  lemma RenderedBack(ts: Tokens)
    ensures AllPlain(ts) <==> exists s: Input :: Lex(s, 0) == Some(ts)
    ensures AllPlain(ts) ==> Lex(Render(ts), 0) == Some(ts)
  {
    if AllPlain(ts) {
      RenderedAt(ts, Render(ts), 0);
    }
    forall s: Input | Lex(s, 0) == Some(ts)
      ensures AllPlain(ts)
    {
      LexedPlain(s, 0);
    }
  }

  // ---------- the lexer ----------

  /** Tokens in front of what follows. */
  function Join(ts: seq<Token>, rest: Tokens): Tokens {
    if ts == [] then rest else Join(ts[..|ts| - 1], More(ts[|ts| - 1], rest))
  }

  lemma JoinSnoc(ts: seq<Token>, t: Token, rest: Tokens)
    ensures Join(ts + [t], rest) == Join(ts, More(t, rest))
  {
    assert (ts + [t])[..|ts|] == ts;
  }

  /** The tokens of the lexer, as the parser sees them from the front. */
  lemma {:induction false} JoinIsFrom(ts: seq<Token>, n: nat)
    requires n <= |ts| && forall i :: 0 <= i < |ts| ==> !ts[i].Eof?
    ensures Join(ts[..n], From(ts + [Eof], n)) == From(ts + [Eof], 0)
  {
    if n > 0 {
      JoinIsFrom(ts, n - 1);
      assert ts[..n] == ts[..n - 1] + [ts[n - 1]];
      JoinSnoc(ts[..n - 1], ts[n - 1], From(ts + [Eof], n));
    }
  }

  class Lexer {
    const input: Input

    constructor (input: Input)
      ensures this.input == input
    {
      this.input := input;
    }

    method Skip(p: char -> bool, start: nat) returns (i: nat)
      requires start <= |input|
      ensures i == RunEnd(p, input, start)
    {
      i := start;
      while i < |input| && p(input[i])
        invariant start <= i <= |input| && RunEnd(p, input, start) == RunEnd(p, input, i)
      {
        i := i + 1;
      }
    }

    /** The end of an identifier. */
    method IdentEnd(start: nat) returns (i: nat)
      requires start < |input|
      ensures i == DashEnd(input, RunEnd(Part, input, start + 1))
    {
      i := Skip(Part, start + 1);
      ghost var want := DashEnd(input, i);
      while i < |input| && input[i] == '-' && i + 1 < |input| && (Alpha(input[i + 1]) || Digit(input[i + 1]))
        invariant i <= |input| && want == DashEnd(input, i)
        decreases |input| - i
      {
        i := Skip(Part, i + 1);
      }
    }

    /** The end of a word that starts with a digit, and whether it has anything but digits. */
    method NumeralEnd(start: nat) returns (i: nat, identifierLike: bool)
      requires start <= |input|
      ensures i == RunEnd(Numeral, input, start) && (identifierLike <==> RunEnd(Digit, input, start) != i)
    {
      i, identifierLike := start, false;
      while i < |input| && Numeral(input[i])
        invariant start <= i <= |input| && RunEnd(Numeral, input, start) == RunEnd(Numeral, input, i)
        invariant if identifierLike then RunEnd(Digit, input, start) < i
                  else RunEnd(Digit, input, start) == RunEnd(Digit, input, i)
      {
        if !Digit(input[i]) {
          identifierLike := true;
        }
        i := i + 1;
      }
    }

    /** A text in front of the rest of a quoted literal. */
    static ghost function Quoted(text: Bytes, r: Option<(Bytes, nat)>): Option<(Bytes, nat)> {
      match r
      case None => None
      case Some((more, j)) => Some((text + more, j))
    }

    static lemma QuotedStep(text: Bytes, b: Byte, r: Option<(Bytes, nat)>)
      ensures Quoted(text + [b], r) ==
              Quoted(text, match r case None => None case Some((more, j)) => Some(([b] + more, j)))
    {
      match r
      case None =>
      case Some((more, _)) => assert text + ([b] + more) == text + [b] + more;
    }

    static lemma QuotedNothing(r: Option<(Bytes, nat)>)
      ensures Quoted([], r) == r
    {
      match r
      case None =>
      case Some((more, _)) => assert [] + more == more;
    }

    /** The text of a quoted literal and the position behind its closing quote. */
    method ScanText(start: nat, quote: char) returns (r: Option<(Bytes, nat)>)
      requires start <= |input|
      ensures r == Unquote(input, start, quote)
    {
      var i := start;
      var text: Bytes := [];
      QuotedNothing(Unquote(input, start, quote));
      while i < |input| && input[i] != quote
        invariant start <= i <= |input| && Quoted(text, Unquote(input, i, quote)) == Unquote(input, start, quote)
        decreases |input| - i
      {
        if input[i] == '\\' && i + 1 < |input| {
          QuotedStep(text, input[i + 1] as int, Unquote(input, i + 2, quote));
          i := i + 1;
        } else {
          QuotedStep(text, input[i] as int, Unquote(input, i + 1, quote));
        }
        text := text + [input[i] as int];
        i := i + 1;
      }
      if i >= |input| {
        return None;
      }
      assert text + [] == text;
      r := Some((text, i + 1));
    }

    method Scan(i: nat) returns (r: Option<(Token, nat)>)
      requires i < |input|
      ensures r == TokenAt(input, i)
    {
      var ch := input[i];
      if Start(ch) {
        var j := IdentEnd(i);
        return Some((Ident(input[i..j]), j));
      }
      if Digit(ch) {
        var j, identifierLike := NumeralEnd(i + 1);
        return Some((if identifierLike then Ident(input[i..j]) else Number(input[i..j]), j));
      }
      if ch == '"' || ch == '\'' {
        var text := ScanText(i + 1, ch);
        return if text.None? then None else Some((Text(text.value.0), text.value.1));
      }
      r := SymbolAt(input, i);
    }

    /** The tokens of the input, in order, and an end marker; none when some letter does not belong. */
    method Tokenize() returns (r: Option<seq<Token>>)
      ensures r.None? <==> Lex(input, 0).None?
      ensures r.Some? ==> r.value != [] && r.value[|r.value| - 1].Eof? && From(r.value, 0) == Lex(input, 0).value
    {
      var tokens: seq<Token> := [];
      var i := 0;
      while i < |input|
        invariant i <= |input| && forall k :: 0 <= k < |tokens| ==> !tokens[k].Eof?
        invariant Lex(input, 0).None? <==> Lex(input, i).None?
        invariant Lex(input, i).Some? ==> Lex(input, 0).value == Join(tokens, Lex(input, i).value)
        decreases |input| - i
      {
        if Space(input[i]) {
          i := i + 1;
          continue;
        }
        var next := Scan(i);
        if next.None? {
          return None;
        }
        var (t, j) := next.value;
        if Lex(input, j).Some? { JoinSnoc(tokens, t, Lex(input, j).value); }
        tokens := tokens + [t];
        i := j;
      }
      JoinIsFrom(tokens, |tokens|);
      assert tokens[..|tokens|] == tokens;
      r := Some(tokens + [Eof]);
    }
  }
}
