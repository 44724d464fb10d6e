/**
 The lexical structure PostgreSQL gives a statement (PostgreSQL documentation,
 sections 4.1.1 and 4.1.2.1; ISO/IEC 9075-2, sections 5.2 and 5.3), for the
 subset the scan emits. It is written from those rules, not from the printer.
 */
module SqlLexer {
  import opened Options
  import opened Decimal

  datatype Token =
    | Ident(name: string)     // a delimited identifier
    | Str(text: string)       // a string constant
    | Num(value: nat)
    | Key(word: Keyword)
    | Bare(name: string)      // an undelimited identifier
    | Op(symbol: Symbol)
    | Punct(mark: char)

  datatype Keyword =
    SELECT | COUNT | FROM | WHERE | AND | LIMIT | AS | IS | NOT | NULL | IN | TRUE | FALSE

  datatype Symbol =
    Equals | Differs | Below | AtMost | Above | AtLeast | Minus | Star

  function KeywordOf(w: string): Option<Keyword> {
    match w
    case "SELECT" => Some(SELECT)
    case "COUNT" => Some(COUNT)
    case "FROM" => Some(FROM)
    case "WHERE" => Some(WHERE)
    case "AND" => Some(AND)
    case "LIMIT" => Some(LIMIT)
    case "AS" => Some(AS)
    case "IS" => Some(IS)
    case "NOT" => Some(NOT)
    case "NULL" => Some(NULL)
    case "IN" => Some(IN)
    case "TRUE" => Some(TRUE)
    case "FALSE" => Some(FALSE)
    case _ => None
  }

  function SymbolOf(o: string): Option<Symbol> {
    match o
    case "=" => Some(Equals)
    case "<>" => Some(Differs)
    case "<" => Some(Below)
    case "<=" => Some(AtMost)
    case ">" => Some(Above)
    case ">=" => Some(AtLeast)
    case "-" => Some(Minus)
    case "*" => Some(Star)
    case _ => None
  }

  function WordToken(w: string): Token {
    match KeywordOf(w)
    case Some(k) => Key(k)
    case None => Bare(w)
  }

  const NUL_CHAR := '\0'

  predicate IsSpace(c: char) {
    c == ' ' || c == '\t' || c == '\n' || c == '\r'
  }

  predicate IsLetter(c: char) {
    'a' <= c <= 'z' || 'A' <= c <= 'Z' || c == '_'
  }

  predicate IsWordChar(c: char) {
    IsLetter(c) || IsDigit(c)
  }

  predicate IsOpChar(c: char) {
    || c == '+' || c == '-' || c == '*' || c == '/' || c == '<' || c == '>' || c == '=' || c == '~'
    || c == '!' || c == '@' || c == '#' || c == '%' || c == '^' || c == '&' || c == '|' || c == '`' || c == '?'
  }

  predicate IsPunct(c: char) {
    c == '(' || c == ')' || c == ',' || c == '.'
  }

  /** Length of the longest prefix of `s` whose characters all satisfy `p`. */
  function Run(s: string, p: char -> bool): (k: nat)
    ensures k <= |s| && (forall i | 0 <= i < k :: p(s[i])) && (k < |s| ==> !p(s[k]))
  {
    if s == "" || !p(s[0]) then 0 else 1 + Run(s[1..], p)
  }

  /**
   The body of a quoted token, read from just after its opening quote `q`, and
   the text after its closing quote. A doubled quote stands for one quote.
   */
  function Quoted(q: char, s: string): (r: Option<(string, string)>)
    ensures r.Some? ==> |r.value.1| < |s|
  {
    if s == "" then None
    else if s[0] != q then
      var (body, rest) :- Quoted(q, s[1..]);
      Some(([s[0]] + body, rest))
    else if |s| > 1 && s[1] == q then
      var (body, rest) :- Quoted(q, s[2..]);
      Some(([q] + body, rest))
    else Some(("", s[1..]))
  }

  function Prepend(ts: seq<Token>, rest: Option<seq<Token>>): Option<seq<Token>> {
    if rest.None? then None else Some(ts + rest.value)
  }

  /**
   The token at the start of `s` and the text after it. A delimited identifier
   has at least one character and no NUL; a string constant has no NUL; a
   number may not run into a letter. An operator is the longest run of operator
   characters, so the start of a comment is no operator and its text is refused.
   */
  function NextToken(s: string): (r: Option<(Token, string)>)
    requires s != ""
    ensures r.Some? ==> |r.value.1| < |s|
  {
    if s[0] == '"' then
      var (body, rest) :- Quoted('"', s[1..]);
      if body == "" || NUL_CHAR in body then None else Some((Ident(body), rest))
    else if s[0] == '\'' then
      var (body, rest) :- Quoted('\'', s[1..]);
      if NUL_CHAR in body then None else Some((Str(body), rest))
    else if IsDigit(s[0]) then
      var k := Run(s, IsDigit);
      if k < |s| && IsWordChar(s[k]) then None else Some((Num(ReadDigits(s[..k])), s[k..]))
    else if IsLetter(s[0]) then
      var k := Run(s, IsWordChar);
      Some((WordToken(s[..k]), s[k..]))
    else if IsOpChar(s[0]) then
      var k := Run(s, IsOpChar);
      var symbol :- SymbolOf(s[..k]);
      Some((Op(symbol), s[k..]))
    else if IsPunct(s[0]) then Some((Punct(s[0]), s[1..]))
    else None
  }

  /** The tokens of a whole text, or nothing if it is not lexically valid. */
  function Lex(s: string): Option<seq<Token>>
    decreases |s|
  {
    if s == "" then Some([])
    else if IsSpace(s[0]) then Lex(s[1..])
    else
      var (token, rest) :- NextToken(s);
      Prepend([token], Lex(rest))
  }

  // ---- How each kind of token reads back in front of arbitrary text ----

  /** `s` with every `q` doubled: Rust's `s.replace(q, qq)`. */
  function Doubled(q: char, s: string): string {
    if s == "" then ""
    else (if s[0] == q then [q, q] else [s[0]]) + Doubled(q, s[1..])
  }

  /** The text that follows does not extend a word, number or operator. */
  predicate Breaks(rest: string) {
    rest == "" || rest[0] == ' ' || IsPunct(rest[0])
  }

  lemma LexStep(text: string, token: Token, rest: string)
    requires text != "" && !IsSpace(text[0]) && NextToken(text) == Some((token, rest))
    ensures Lex(text) == Prepend([token], Lex(rest))
  {
  }

  lemma LexStuck(text: string)
    requires text != "" && !IsSpace(text[0]) && NextToken(text).None?
    ensures Lex(text).None?
  {
  }

  /** Doubling makes a quoted token self-delimiting. */
  lemma {:induction false} QuotedInvertsDoubled(q: char, s: string, rest: string)
    requires rest == "" || rest[0] != q
    ensures Quoted(q, Doubled(q, s) + [q] + rest) == Some((s, rest))
  {
    var text := Doubled(q, s) + [q] + rest;
    if s == "" {
      assert text == [q] + rest;
      assert text[1..] == rest;
    } else {
      QuotedInvertsDoubled(q, s[1..], rest);
      var tail := Doubled(q, s[1..]) + [q] + rest;
      if s[0] == q {
        assert text[2..] == tail;
      } else {
        assert text[1..] == tail;
      }
      assert s == [s[0]] + s[1..];
    }
  }

  lemma LexIdent(name: string, rest: string)
    requires rest == "" || rest[0] != '"'
    ensures Lex("\"" + Doubled('"', name) + "\"" + rest)
         == if name != "" && NUL_CHAR !in name then Prepend([Ident(name)], Lex(rest)) else None
  {
    hide Lex, Quoted, Doubled;
    var text := "\"" + Doubled('"', name) + "\"" + rest;
    assert text[1..] == Doubled('"', name) + ['"'] + rest;
    QuotedInvertsDoubled('"', name, rest);
    if name != "" && NUL_CHAR !in name {
      LexStep(text, Ident(name), rest);
    } else {
      LexStuck(text);
    }
  }

  lemma LexStr(body: string, rest: string)
    requires rest == "" || rest[0] != '\''
    requires NUL_CHAR !in body
    ensures Lex("'" + Doubled('\'', body) + "'" + rest) == Prepend([Str(body)], Lex(rest))
  {
    hide Lex, Quoted, Doubled;
    var text := "'" + Doubled('\'', body) + "'" + rest;
    assert text[1..] == Doubled('\'', body) + ['\''] + rest;
    QuotedInvertsDoubled('\'', body, rest);
    LexStep(text, Str(body), rest);
  }

  /** A prefix whose characters satisfy `p`, before text that does not continue it, is the run. */
  lemma RunIs(a: string, rest: string, p: char -> bool)
    requires forall i | 0 <= i < |a| :: p(a[i])
    requires rest == "" || !p(rest[0])
    ensures Run(a + rest, p) == |a|
  {
    var k := Run(a + rest, p);
    assert forall i | 0 <= i < |a| :: (a + rest)[i] == a[i];
    assert rest != "" ==> (a + rest)[|a|] == rest[0];
  }

  lemma LexNum(n: nat, rest: string)
    requires Breaks(rest)
    ensures Lex(Digits(n) + rest) == Prepend([Num(n)], Lex(rest))
  {
    hide Lex, Run, ReadDigits, Digits;
    var text := Digits(n) + rest;
    RunIs(Digits(n), rest, IsDigit);
    assert text[..|Digits(n)|] == Digits(n) && text[|Digits(n)|..] == rest;
    assert IsDigit(text[0]);
    ReadDigitsInvertsDigits(n);
    LexStep(text, Num(n), rest);
  }

  lemma LexWord(w: string, rest: string)
    requires w != "" && forall i | 0 <= i < |w| :: IsLetter(w[i])
    requires Breaks(rest)
    ensures Lex(w + rest) == Prepend([WordToken(w)], Lex(rest))
  {
    hide Lex, Run;
    var text := w + rest;
    RunIs(w, rest, IsWordChar);
    assert text[..|w|] == w && text[|w|..] == rest;
    assert IsLetter(text[0]);
    LexStep(text, WordToken(w), rest);
  }

  lemma LexOp(op: string, rest: string)
    requires op != "" && (forall i | 0 <= i < |op| :: IsOpChar(op[i])) && SymbolOf(op).Some?
    requires rest == "" || !IsOpChar(rest[0])
    ensures Lex(op + rest) == Prepend([Op(SymbolOf(op).value)], Lex(rest))
  {
    hide Lex, Run;
    var text := op + rest;
    RunIs(op, rest, IsOpChar);
    assert text[..|op|] == op && text[|op|..] == rest;
    assert IsOpChar(text[0]);
    LexStep(text, Op(SymbolOf(op).value), rest);
  }

  lemma LexPunct(c: char, rest: string)
    requires IsPunct(c)
    ensures Lex([c] + rest) == Prepend([Punct(c)], Lex(rest))
  {
    hide Lex, Quoted, Run;
    assert ([c] + rest)[1..] == rest;
    LexStep([c] + rest, Punct(c), rest);
  }

  lemma LexSpace(rest: string)
    ensures Lex(" " + rest) == Lex(rest)
  {
    assert (" " + rest)[1..] == rest;
  }

  function Spelling(k: Keyword): string {
    match k
    case SELECT => "SELECT"
    case COUNT => "COUNT"
    case FROM => "FROM"
    case WHERE => "WHERE"
    case AND => "AND"
    case LIMIT => "LIMIT"
    case AS => "AS"
    case IS => "IS"
    case NOT => "NOT"
    case NULL => "NULL"
    case IN => "IN"
    case TRUE => "TRUE"
    case FALSE => "FALSE"
  }

  lemma LexKey(k: Keyword, rest: string)
    requires Breaks(rest)
    ensures Lex(Spelling(k) + rest) == Prepend([Key(k)], Lex(rest))
  {
    hide Lex;
    LexWord(Spelling(k), rest);
  }

  /** A key word with a space in front of it. */
  lemma LexKeyword(k: Keyword, rest: string)
    requires Breaks(rest)
    ensures Lex(" " + Spelling(k) + rest) == Prepend([Key(k)], Lex(rest))
  {
    hide Lex;
    LexKey(k, rest);
    LexSpace(Spelling(k) + rest);
    assert " " + Spelling(k) + rest == " " + (Spelling(k) + rest);
  }

  lemma LexMinus(rest: string)
    requires rest == "" || !IsOpChar(rest[0])
    ensures Lex("-" + rest) == Prepend([Op(Minus)], Lex(rest))
  {
    hide Lex;
    LexOp("-", rest);
  }
}
