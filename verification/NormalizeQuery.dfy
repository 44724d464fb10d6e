/** Cache keys: the lexical normalizer and the facts its callers rely on (src/cache_layer.rs, lines 18-94). */
module NormalizeQuery {
  import opened Options
  import opened Strings

  datatype Quote = Outside | InSingle | InDouble

  /** Rust's `char::is_whitespace`: the Unicode White_Space property. */
  predicate IsWhitespace(c: char) {
    || '\t' <= c <= '\r'
    || c == ' '
    || c == '\U{0085}'
    || c == '\U{00A0}'
    || c == '\U{1680}'
    || '\U{2000}' <= c <= '\U{200A}'
    || c == '\U{2028}' || c == '\U{2029}'
    || c == '\U{202F}' || c == '\U{205F}' || c == '\U{3000}'
  }

  function TrimStart(s: string): (r: string)
    ensures r == "" || !IsWhitespace(r[0])
    ensures |r| <= |s| && r == s[|s| - |r|..]
  {
    if s != "" && IsWhitespace(s[0]) then TrimStart(s[1..]) else s
  }

  function TrimEnd(s: string): (r: string)
    ensures r == "" || !IsWhitespace(r[|r| - 1])
    ensures |r| <= |s| && r == s[..|r|]
  {
    if s != "" && IsWhitespace(s[|s| - 1]) then TrimEnd(s[..|s| - 1]) else s
  }

  predicate EndsInSemicolon(s: string) {
    s != "" && s[|s| - 1] == ';'
  }

  /** The text the loop runs over: trimmed, one trailing `;` dropped, the end trimmed again. */
  function Stripped(sql: string): string {
    var trimmed := TrimEnd(TrimStart(sql));
    if EndsInSemicolon(trimmed) then TrimEnd(trimmed[..|trimmed| - 1]) else trimmed
  }

  function NextQuote(q: Quote, c: char): Quote {
    match q
    case Outside => if c == '\'' then InSingle else if c == '"' then InDouble else Outside
    case InSingle => if c == '\'' then Outside else InSingle
    case InDouble => if c == '"' then Outside else InDouble
  }

  /**
   The tokens of `s`, split at unquoted whitespace, when the text before it left
   the quote state `q` and the unfinished token `current`. Quoted text is kept as is.
   */
  function Split(s: string, q: Quote, current: string): seq<string> {
    if s == "" then (if current == "" then [] else [current])
    else if q == Outside && IsWhitespace(s[0]) then
      (if current == "" then [] else [current]) + Split(s[1..], Outside, "")
    else Split(s[1..], NextQuote(q, s[0]), current + [s[0]])
  }

  function Tokens(s: string): seq<string> {
    Split(s, Outside, "")
  }

  /** The tokens with one space between them. */
  function Spaced(tokens: seq<string>): string
    decreases |tokens|, 1
  {
    if tokens == [] then "" else tokens[0] + SpacedTail(tokens[1..])
  }

  function SpacedTail(tokens: seq<string>): string
    decreases |tokens|, 2
  {
    if tokens == [] then "" else " " + Spaced(tokens)
  }

  /** The whitespace-collapsing loop, as a function. */
  function Collapsed(s: string): string {
    Spaced(Tokens(s))
  }

  function NormalizeLexical(sql: string): string {
    Collapsed(Stripped(sql))
  }

  lemma {:induction false} SpacedAppend(tokens: seq<string>, last: string)
    ensures Spaced(tokens + [last]) == if tokens == [] then last else Spaced(tokens) + " " + last
  {
    if tokens == [] {
      assert [last][1..] == [];
      assert last + "" == last;
    } else {
      SpacedAppend(tokens[1..], last);
      assert (tokens + [last])[1..] == tokens[1..] + [last];
      if |tokens| == 1 {
        assert tokens[1..] + [last] == [last];
        assert tokens == [tokens[0]];
      }
    }
  }

  lemma SplitAtSpace(s: string, current: string)
    requires s != "" && IsWhitespace(s[0])
    ensures Split(s, Outside, current) == (if current == "" then [] else [current]) + Split(s[1..], Outside, "")
  {
  }

  lemma SplitAtCharacter(s: string, q: Quote, current: string)
    requires s != "" && !(q == Outside && IsWhitespace(s[0]))
    ensures Split(s, q, current) == Split(s[1..], NextQuote(q, s[0]), current + [s[0]])
  {
  }

  /** Writing one more character of the unfinished token, after a space if it opens a later token. */
  lemma SpacedExtends(done: seq<string>, current: string, ch: char)
    requires forall t | t in done :: t != ""
    ensures var out := Spaced(if current == "" then done else done + [current]);
      Spaced(done + [current + [ch]]) == out + (if current == "" && out != "" then " " else "") + [ch]
  {
    NonEmptyWhenSpaced(done);
    SpacedAppend(done, current + [ch]);
    if current == "" {
      assert current + [ch] == [ch];
    } else {
      SpacedAppend(done, current);
      assert Spaced(done) + " " + (current + [ch]) == Spaced(done) + " " + current + [ch];
    }
  }

  /** The source's loop over characters. */
  method NormalizeLexicalLoop(sql: string) returns (out: string)
    ensures out == NormalizeLexical(sql)
  {
    hide Split, Spaced, Stripped, IsWhitespace, NextQuote;
    var trimmed := Stripped(sql);
    out := "";
    var state := Outside;
    var pendingSpace := false;
    ghost var done: seq<string>, current: string := [], "";
    assert trimmed[0..] == trimmed;
    NothingYet(trimmed);
    for i := 0 to |trimmed|
      invariant Tokens(trimmed) == done + Split(trimmed[i..], state, current)
      invariant out == Spaced(if current == "" then done else done + [current])
      invariant pendingSpace ==> current == "" && state == Outside
      invariant !pendingSpace && current == "" ==> done == []
      invariant forall t | t in done :: t != ""
      invariant state != Outside ==> current != ""
    {
      var ch := trimmed[i];
      var rest := trimmed[i..];
      assert rest[0] == ch && rest[1..] == trimmed[i + 1..];
      if state == Outside && IsWhitespace(ch) {
        pendingSpace := true;
        SplitAtSpace(rest, current);
        ghost var ended := if current == "" then [] else [current];
        assert done + (ended + Split(rest[1..], Outside, "")) == (done + ended) + Split(rest[1..], Outside, "");
        assert done + [] == done;
        done, current := done + ended, "";
      } else {
        SplitAtCharacter(rest, state, current);
        SpacedExtends(done, current, ch);
        NonEmptyWhenSpaced(done);
        if pendingSpace && out != "" {
          out := out + " ";
        }
        pendingSpace := false;
        state := NextQuote(state, ch);
        out := out + [ch];
        current := current + [ch];
      }
    }
    assert trimmed[|trimmed|..] == "";
    NothingLeft(state, current);
    assert done + [] == done;
  }

  lemma NothingYet(s: string)
    ensures Tokens(s) == [] + Split(s, Outside, "") && Spaced([]) == ""
  {
  }

  lemma NothingLeft(q: Quote, current: string)
    ensures Split("", q, current) == if current == "" then [] else [current]
  {
  }

  lemma NonEmptyWhenSpaced(tokens: seq<string>)
    requires forall t | t in tokens :: t != ""
    ensures Spaced(tokens) == "" <==> tokens == []
  {
    if tokens != [] {
      assert tokens[0] in tokens;
    }
  }

  // ---- Tokens survive normalization ----

  /**
   Splitting the spaced form of a split gives the same tokens: what follows the
   unfinished token `current` in the spaced form is split as the text was.
   */
  lemma {:induction false} SplitOfSpaced(s: string, q: Quote, current: string)
    requires q != Outside ==> current != ""
    ensures var ts := Split(s, q, current);
      && (current != "" ==> ts != [] && |ts[0]| >= |current| && ts[0][..|current|] == current)
      && |current| <= |Spaced(ts)|
      && Split(Spaced(ts)[|current|..], q, current) == ts
    decreases |s|
  {
    var ts := Split(s, q, current);
    if s == "" {
      assert [current][1..] == [];
      assert Spaced(ts)[|current|..] == "";
    } else if q == Outside && IsWhitespace(s[0]) {
      SplitOfSpaced(s[1..], Outside, "");
      var others := Split(s[1..], Outside, "");
      assert Spaced(others)[0..] == Spaced(others);
      if current == "" {
        assert ts == others;
      } else {
        assert ts == [current] + others && ts[1..] == others;
        var tail := Spaced(ts)[|current|..];
        assert tail == SpacedTail(others);
        if others == [] {
          assert ts == [current];
        } else {
          assert tail[1..] == Spaced(others);
        }
      }
    } else {
      var longer := current + [s[0]];
      SplitOfSpaced(s[1..], NextQuote(q, s[0]), longer);
      var whole := Spaced(ts);
      assert ts[0][..|longer|][|current|] == s[0];
      assert whole == ts[0] + SpacedTail(ts[1..]);
      var tail := whole[|current|..];
      assert tail[0] == s[0] && tail[1..] == whole[|longer|..];
      assert ts[0][..|current|] == longer[..|current|] == current;
    }
  }

  /** `s` without its unquoted whitespace. */
  function Unspaced(s: string, q: Quote): string {
    if s == "" then ""
    else (if q == Outside && IsWhitespace(s[0]) then "" else [s[0]]) + Unspaced(s[1..], NextQuote(q, s[0]))
  }

  function Concat(parts: seq<string>): string {
    if parts == [] then "" else parts[0] + Concat(parts[1..])
  }

  /** Splitting loses nothing but unquoted whitespace, and makes no empty token. */
  lemma {:induction false} TokensLoseOnlyUnquotedWhitespace(s: string, q: Quote, current: string)
    requires q != Outside ==> current != ""
    ensures Concat(Split(s, q, current)) == current + Unspaced(s, q)
    ensures forall t | t in Split(s, q, current) :: t != ""
    decreases |s|
  {
    if s == "" {
      assert [current][1..] == [];
    } else if q == Outside && IsWhitespace(s[0]) {
      TokensLoseOnlyUnquotedWhitespace(s[1..], Outside, "");
      var others := Split(s[1..], Outside, "");
      assert ([current] + others)[1..] == others;
      assert [] + others == others;
      assert NextQuote(q, s[0]) == Outside;
      assert "" + Unspaced(s[1..], Outside) == Unspaced(s[1..], Outside);
    } else {
      TokensLoseOnlyUnquotedWhitespace(s[1..], NextQuote(q, s[0]), current + [s[0]]);
      assert (current + [s[0]]) + Unspaced(s[1..], NextQuote(q, s[0])) == current + Unspaced(s, q);
    }
  }

  /** Normalization keeps the tokens, quoted text verbatim. */
  lemma CollapsedKeepsTokens(s: string)
    ensures Tokens(Collapsed(s)) == Tokens(s)
  {
    SplitOfSpaced(s, Outside, "");
    assert Collapsed(s)[0..] == Collapsed(s);
  }

  /** Two texts share a key exactly when, once stripped, their token lists are equal. */
  lemma KeysAgreeExactlyOnTokens(a: string, b: string)
    ensures NormalizeLexical(a) == NormalizeLexical(b) <==> Tokens(Stripped(a)) == Tokens(Stripped(b))
  {
    CollapsedKeepsTokens(Stripped(a));
    CollapsedKeepsTokens(Stripped(b));
  }

  /** Tokens hold no unquoted whitespace: every token of a text is its own only token. */
  lemma CollapseIsIdempotent(s: string)
    ensures Collapsed(Collapsed(s)) == Collapsed(s)
  {
    CollapsedKeepsTokens(s);
  }

  // ---- Idempotence of the whole normalizer ----

  lemma {:induction false} CollapsedShape(s: string, q: Quote, current: string)
    requires q != Outside ==> current != ""
    ensures |Spaced(Split(s, q, current))| <= |current| + |s|
    ensures s != "" && !IsWhitespace(s[|s| - 1]) ==>
      Spaced(Split(s, q, current)) != "" && Spaced(Split(s, q, current))[|Spaced(Split(s, q, current))| - 1] == s[|s| - 1]
    decreases |s|
  {
    var ts := Split(s, q, current);
    if s == "" {
      assert [current][1..] == [];
    } else {
      var c := s[0];
      if q == Outside && IsWhitespace(c) {
        CollapsedShape(s[1..], Outside, "");
        var others := Split(s[1..], Outside, "");
        if current != "" {
          assert ts[1..] == others;
        } else {
          assert ts == others;
        }
      } else {
        CollapsedShape(s[1..], NextQuote(q, c), current + [c]);
        if |s| == 1 {
          assert s[1..] == "";
          assert [current + [c]][1..] == [];
          assert Spaced(ts) == (current + [c]) + "";
        }
      }
    }
  }

  lemma TrimEndKeeps(s: string)
    requires s == "" || !IsWhitespace(s[|s| - 1])
    ensures TrimEnd(s) == s
  {
  }

  /** A collapsed text starts as its first token does. */
  lemma CollapsedStart(s: string)
    requires s != "" && !IsWhitespace(s[0])
    ensures Collapsed(s) != "" && Collapsed(s)[0] == s[0]
  {
    SplitOfSpaced(s[1..], NextQuote(Outside, s[0]), "" + [s[0]]);
    var ts := Tokens(s);
    assert ts[0][..1] == [s[0]];
  }

  lemma StrippedIsTrimmed(sql: string)
    ensures Stripped(sql) == "" || (!IsWhitespace(Stripped(sql)[0]) && !IsWhitespace(Stripped(sql)[|Stripped(sql)| - 1]))
  {
  }

  /**
   Normalizing twice is normalizing once exactly when the text left after
   trimming and dropping one `;` does not itself end in `;`.
   */
  lemma IdempotentExactlyWithoutSecondSemicolon(sql: string)
    ensures NormalizeLexical(NormalizeLexical(sql)) == NormalizeLexical(sql) <==> !EndsInSemicolon(Stripped(sql))
  {
    hide Collapsed, TrimEnd, TrimStart, IsWhitespace;
    var u := Stripped(sql);
    var n := Collapsed(u);
    CollapsedIsTrimmed(sql);
    assert Stripped(n) == if EndsInSemicolon(u) then TrimEnd(n[..|n| - 1]) else n;
    if EndsInSemicolon(u) {
      CollapsedIsNoLonger(Stripped(n));
    } else {
      CollapseIsIdempotent(u);
    }
  }

  lemma CollapsedIsNoLonger(s: string)
    ensures |Collapsed(s)| <= |s|
  {
    CollapsedShape(s, Outside, "");
  }

  /** A normalized text needs no trimming, and ends in `;` exactly when the stripped input did. */
  lemma CollapsedIsTrimmed(sql: string)
    ensures var n := Collapsed(Stripped(sql));
      TrimStart(n) == n && TrimEnd(n) == n && (EndsInSemicolon(n) <==> EndsInSemicolon(Stripped(sql)))
  {
    var u := Stripped(sql);
    StrippedIsTrimmed(sql);
    if u != "" {
      CollapsedShape(u, Outside, "");
      CollapsedStart(u);
    }
    TrimEndKeeps(Collapsed(u));
  }

  /** The promise that keys are stable under renormalization fails on `a;;`. */
  lemma DoubledSemicolonIsNotStable()
    ensures NormalizeLexical("a;;") == "a;" && NormalizeLexical("a;") == "a"
  {
    assert TrimStart("a;;") == "a;;" && TrimEnd("a;;") == "a;;" && "a;;"[..2] == "a;" && TrimEnd("a;") == "a;";
    assert Stripped("a;;") == "a;";
    assert "a;"[1..] == ";" && ";"[1..] == "";
    assert Split("", Outside, "a;") == ["a;"];
    assert Split(";", Outside, "a") == ["a;"] by { assert "a" + ";" == "a;"; }
    assert Split("a;", Outside, "") == ["a;"] by { assert "" + "a" == "a"; }
    assert ["a;"][1..] == [] && "a;" + "" == "a;";
    assert TrimStart("a;") == "a;" && "a;"[..1] == "a" && TrimEnd("a") == "a";
    assert Stripped("a;") == "a";
    assert "a"[1..] == "";
    assert Split("a", Outside, "") == ["a"] by { assert "" + "a" == "a"; }
    assert ["a"][1..] == [] && "a" + "" == "a";
  }

  // ---- What trimming, quoting and whitespace are ----

  /** The code points with the Unicode White_Space property, of which there are 25. */
  const WHITE_SPACE: seq<int> := [
    0x9, 0xA, 0xB, 0xC, 0xD, 0x20, 0x85, 0xA0, 0x1680, 0x2000, 0x2001, 0x2002, 0x2003, 0x2004, 0x2005, 0x2006, 0x2007,
    0x2008, 0x2009, 0x200A, 0x2028, 0x2029, 0x202F, 0x205F, 0x3000]

  predicate White(c: char) {
    c as int in WHITE_SPACE
  }

  lemma WhitespaceIsWhiteSpace(c: char)
    ensures IsWhitespace(c) <==> White(c)
  {
  }

  predicate AllWhite(s: string) {
    forall i | 0 <= i < |s| :: White(s[i])
  }

  /** No white space at either end. */
  predicate BareEnds(s: string) {
    s != "" ==> !White(s[0]) && !White(s[|s| - 1])
  }

  lemma {:induction false} TrimStartDropsWhite(w: string, s: string)
    requires AllWhite(w) && (s == "" || !White(s[0]))
    ensures TrimStart(w + s) == s
  {
    if w == "" {
      assert w + s == s;
      if s != "" {
        WhitespaceIsWhiteSpace(s[0]);
      }
    } else {
      WhitespaceIsWhiteSpace(w[0]);
      assert (w + s)[1..] == w[1..] + s;
      TrimStartDropsWhite(w[1..], s);
    }
  }

  lemma {:induction false} TrimEndDropsWhite(s: string, w: string)
    requires AllWhite(w) && (s == "" || !White(s[|s| - 1]))
    ensures TrimEnd(s + w) == s
  {
    if w == "" {
      assert s + w == s;
      if s != "" {
        WhitespaceIsWhiteSpace(s[|s| - 1]);
      }
    } else {
      WhitespaceIsWhiteSpace(w[|w| - 1]);
      assert (s + w)[..|s + w| - 1] == s + w[..|w| - 1];
      TrimEndDropsWhite(s, w[..|w| - 1]);
    }
  }

  lemma WhiteAppends(v: string, w: string)
    requires AllWhite(v) && AllWhite(w)
    ensures AllWhite(v + w)
  {
    hide White;
  }

  lemma TrimmingLeavesTheMiddle(before: string, s: string, after: string)
    requires AllWhite(before) && AllWhite(after) && BareEnds(s)
    ensures TrimEnd(TrimStart(before + s + after)) == s
  {
    hide IsWhitespace, TrimStart, TrimEnd, AllWhite, White;
    if s == "" {
      WhiteAppends(before, after);
      assert before + s + after == (before + after) + "";
      TrimStartDropsWhite(before + after, "");
      NothingIsTrimmed();
    } else {
      assert before + s + after == before + (s + after);
      TrimStartDropsWhite(before, s + after);
      TrimEndDropsWhite(s, after);
    }
  }

  lemma NothingIsTrimmed()
    ensures TrimEnd("") == ""
  {
  }

  lemma TrimmedThenSemicolon(text: string, s: string, between: string)
    requires AllWhite(between) && BareEnds(s) && TrimEnd(TrimStart(text)) == s + between + ";"
    ensures Stripped(text) == s
  {
    hide IsWhitespace, TrimStart, TrimEnd;
    var t := s + between + ";";
    assert t[..|t| - 1] == s + between;
    TrimEndDropsWhite(s, between);
  }

  lemma SemicolonIsBare(s: string, between: string)
    requires BareEnds(s) && s != ""
    ensures BareEnds(s + between + ";")
  {
    assert (s + between + ";")[0] == s[0];
  }

  lemma SemicolonAlone()
    ensures BareEnds(";") && AllWhite("")
  {
  }

  lemma SemicolonIsStripped(before: string, s: string, between: string, after: string)
    requires AllWhite(before) && AllWhite(between) && AllWhite(after) && BareEnds(s)
    ensures Stripped(before + s + between + ";" + after) == s
  {
    hide AllWhite, BareEnds, TrimStart, TrimEnd, Stripped;
    var text := before + s + between + ";" + after;
    SemicolonAlone();
    if s == "" {
      assert text == (before + between) + ";" + after;
      WhiteAppends(before, between);
      TrimmingLeavesTheMiddle(before + between, ";", after);
      assert "" + "" + ";" == ";";
      TrimmedThenSemicolon(text, "", "");
    } else {
      SemicolonIsBare(s, between);
      assert text == before + (s + between + ";") + after;
      TrimmingLeavesTheMiddle(before, s + between + ";", after);
      TrimmedThenSemicolon(text, s, between);
    }
  }

  /** White space around a text, and one semicolon after it, make no difference to its key. */
  lemma SurroundingsAreStripped(before: string, s: string, between: string, after: string)
    requires AllWhite(before) && AllWhite(between) && AllWhite(after) && BareEnds(s) && !EndsInSemicolon(s)
    ensures Stripped(before + s + between) == s
    ensures Stripped(before + s + between + ";" + after) == s
  {
    hide AllWhite, BareEnds, TrimStart, TrimEnd;
    TrimmingLeavesTheMiddle(before, s, between);
    assert Stripped(before + s + between) == s;
    hide Stripped;
    SemicolonIsStripped(before, s, between, after);
  }

  predicate IsQuote(c: char) {
    c == '\'' || c == '"'
  }

  /** A quoted stretch goes into the current token as it is, white space and all. */
  lemma {:induction false} QuotedTextIsKept(quote: char, body: string, rest: string, current: string)
    requires IsQuote(quote) && quote !in body
    ensures Split([quote] + body + [quote] + rest, Outside, current) == Split(rest, Outside, current + [quote] + body + [quote])
  {
    var text := [quote] + body + [quote] + rest;
    assert text[1..] == body + [quote] + rest;
    InsideIsKept(if quote == '\'' then InSingle else InDouble, quote, body, rest, current + [quote]);
  }

  lemma {:induction false} InsideIsKept(q: Quote, quote: char, body: string, rest: string, current: string)
    requires (q == InSingle && quote == '\'') || (q == InDouble && quote == '"')
    requires quote !in body
    ensures Split(body + [quote] + rest, q, current) == Split(rest, Outside, current + body + [quote])
  {
    var text := body + [quote] + rest;
    if body == "" {
      assert text == [quote] + rest && text[1..] == rest;
      assert current + body + [quote] == current + [quote];
    } else {
      assert text[1..] == body[1..] + [quote] + rest;
      InsideIsKept(q, quote, body[1..], rest, current + [body[0]]);
      assert current + [body[0]] + body[1..] + [quote] == current + body + [quote];
    }
  }

  /** So does a word: text without quotes and white space. */
  lemma {:induction false} WordIsKept(word: string, rest: string, current: string)
    requires forall i | 0 <= i < |word| :: !IsQuote(word[i]) && !White(word[i])
    ensures Split(word + rest, Outside, current) == Split(rest, Outside, current + word)
  {
    if word == "" {
      assert word + rest == rest && current + word == current;
    } else {
      WhitespaceIsWhiteSpace(word[0]);
      assert (word + rest)[1..] == word[1..] + rest;
      WordIsKept(word[1..], rest, current + [word[0]]);
      assert current + [word[0]] + word[1..] == current + word;
    }
  }

  /** White space outside quotes ends the current token, however much of it there is. */
  lemma {:induction false} WhiteSpaceSeparates(w: string, rest: string, current: string)
    requires w != "" && AllWhite(w)
    ensures Split(w + rest, Outside, current) == (if current == "" then [] else [current]) + Split(rest, Outside, "")
  {
    WhitespaceIsWhiteSpace(w[0]);
    assert (w + rest)[1..] == w[1..] + rest;
    if |w| > 1 {
      WhiteSpaceSeparates(w[1..], rest, "");
      assert [] + Split(rest, Outside, "") == Split(rest, Outside, "");
    } else {
      assert w[1..] + rest == rest;
    }
  }

  // ---- The whole key ----

  /** What the SQL parser makes of a text: its statements in canonical spelling, or an error. */
  type SqlParser = string -> Option<seq<string>>

  function Normalize(parse: SqlParser, sql: string): string {
    match parse(sql)
    case Some(statements) => if statements != [] then Join(statements, "; ") else NormalizeLexical(sql)
    case None => NormalizeLexical(sql)
  }

  /** The text parses to at least one statement. */
  predicate Parses(parse: SqlParser, sql: string) {
    parse(sql).Some? && parse(sql).value != []
  }

  /** No statement of the list holds the separator. */
  predicate SeparatorFree(statements: seq<string>) {
    forall i, k | 0 <= i < |statements| && 0 <= k < |statements[i]| - 1 :: !(statements[i][k] == ';' && statements[i][k + 1] == ' ')
  }

  lemma JoinHead(parts: seq<string>, separator: string)
    requires |parts| > 1
    ensures Join(parts, separator) == parts[0] + (separator + Join(parts[1..], separator))
  {
    assert parts[0] + separator + Join(parts[1..], separator) == parts[0] + (separator + Join(parts[1..], separator));
  }

  /** Where two texts agree, the longer of two heads holds the separator that follows the shorter. */
  lemma LongerHeadHoldsSeparator(a: string, b: string, resta: string, restb: string)
    requires a + resta == b + restb && |a| < |b|
    requires resta == "" || "; " <= resta
    requires restb == "" || "; " <= restb
    ensures !SeparatorFree([b])
  {
    var text := a + resta;
    assert |text| == |b| + |restb|;
    assert "; "[0] == ';' && "; "[1] == ' ';
    assert text[|a|] == resta[0] == ';' && text[|a| + 1] == resta[1] == ' ';
    assert |b| < |text| ==> text[|b|] == restb[0] == ';';
    assert b[|a|] == text[|a|] && b[|a| + 1] == text[|a| + 1];
    assert [b][0] == b;
  }

  lemma FirstSeparatorDecides(a: string, b: string, resta: string, restb: string)
    requires a + resta == b + restb && SeparatorFree([a]) && SeparatorFree([b])
    requires resta == "" || "; " <= resta
    requires restb == "" || "; " <= restb
    ensures a == b && resta == restb
  {
    hide SeparatorFree;
    if |a| < |b| {
      LongerHeadHoldsSeparator(a, b, resta, restb);
      assert false;
    } else if |b| < |a| {
      LongerHeadHoldsSeparator(b, a, restb, resta);
      assert false;
    } else {
      assert a == (a + resta)[..|a|] && b == (b + restb)[..|a|];
      assert resta == (a + resta)[|a|..] && restb == (b + restb)[|a|..];
    }
  }

  lemma SeparatorFreeParts(parts: seq<string>)
    requires parts != [] && SeparatorFree(parts)
    ensures SeparatorFree([parts[0]]) && SeparatorFree(parts[1..])
    ensures parts == [parts[0]] + parts[1..]
  {
    forall i | 0 <= i < |parts| - 1 ensures parts[1..][i] == parts[i + 1] {
    }
  }

  /** Lists of separator-free statements join to different texts if they differ. */
  lemma {:induction false} JoinTellsApart(ss: seq<string>, ts: seq<string>)
    requires ss != [] && ts != [] && SeparatorFree(ss) && SeparatorFree(ts)
    ensures Join(ss, "; ") == Join(ts, "; ") ==> ss == ts
  {
    hide Join, SeparatorFree;
    if Join(ss, "; ") == Join(ts, "; ") {
      var resta := if |ss| == 1 then "" else "; " + Join(ss[1..], "; ");
      var restb := if |ts| == 1 then "" else "; " + Join(ts[1..], "; ");
      JoinIsHeadAndRest(ss);
      JoinIsHeadAndRest(ts);
      SeparatorFreeParts(ss);
      SeparatorFreeParts(ts);
      FirstSeparatorDecides(ss[0], ts[0], resta, restb);
      if |ss| > 1 {
        assert resta[2..] == Join(ss[1..], "; ") && restb[2..] == Join(ts[1..], "; ");
        JoinTellsApart(ss[1..], ts[1..]);
      }
    }
  }

  lemma JoinIsHeadAndRest(parts: seq<string>)
    requires parts != []
    ensures Join(parts, "; ") == parts[0] + if |parts| == 1 then "" else "; " + Join(parts[1..], "; ")
  {
    if |parts| == 1 {
      assert parts[0] + "" == parts[0];
    } else {
      JoinHead(parts, "; ");
    }
  }

  lemma {:induction false} LastStatementTells(init: seq<string>, s: string, t: string)
    ensures Join(init + [s], "; ") == Join(init + [t], "; ") <==> s == t
  {
    if init == [] {
      assert [] + [s] == [s] && [] + [t] == [t];
    } else {
      LastStatementTells(init[1..], s, t);
      var ss, ts := init + [s], init + [t];
      assert ss[1..] == init[1..] + [s] && ts[1..] == init[1..] + [t];
      JoinHead(ss, "; ");
      JoinHead(ts, "; ");
      var head := init[0] + "; ";
      assert init[0] + ("; " + Join(ss[1..], "; ")) == head + Join(ss[1..], "; ");
      assert init[0] + ("; " + Join(ts[1..], "; ")) == head + Join(ts[1..], "; ");
      assert (head + Join(ss[1..], "; "))[|head|..] == Join(ss[1..], "; ");
      assert (head + Join(ts[1..], "; "))[|head|..] == Join(ts[1..], "; ");
    }
  }

  /** What two texts of one key have in common. */
  ghost predicate AskTheSame(parse: SqlParser, a: string, b: string) {
    && (forall s, t | parse(a) == Some([s]) && parse(b) == Some([t]) :: s == t)
    && (forall init, s, t | parse(a) == Some(init + [s]) && parse(b) == Some(init + [t]) :: s == t)
    && (Parses(parse, a) && Parses(parse, b) && SeparatorFree(parse(a).value) && SeparatorFree(parse(b).value) ==> parse(a) == parse(b))
    && (!Parses(parse, a) && !Parses(parse, b) ==> Tokens(Stripped(a)) == Tokens(Stripped(b)))
    && (forall s | parse(a) == Some([s]) && !Parses(parse, b) :: s == NormalizeLexical(b))
    && (forall t | !Parses(parse, a) && parse(b) == Some([t]) :: NormalizeLexical(a) == t)
  }

  /** The key of one statement is its canonical text; without a statement the key is lexical. */
  lemma KeyOfOneStatement(parse: SqlParser, sql: string)
    ensures forall s | parse(sql) == Some([s]) :: Normalize(parse, sql) == s
    ensures !Parses(parse, sql) ==> Normalize(parse, sql) == NormalizeLexical(sql)
    ensures parse(sql) == None || parse(sql) == Some([]) ==> Normalize(parse, sql) == NormalizeLexical(sql)
  {
  }

  /** Texts of one key ask the same. */
  lemma EqualKeysAskTheSame(parse: SqlParser, a: string, b: string)
    requires Normalize(parse, a) == Normalize(parse, b)
    ensures AskTheSame(parse, a, b)
  {
    hide NormalizeLexical, Join, Tokens, Stripped, SeparatorFree;
    KeyOfOneStatement(parse, a);
    KeyOfOneStatement(parse, b);
    KeysAgreeExactlyOnTokens(a, b);
    if Parses(parse, a) && Parses(parse, b) && SeparatorFree(parse(a).value) && SeparatorFree(parse(b).value) {
      JoinTellsApart(parse(a).value, parse(b).value);
    }
    forall init, s, t | parse(a) == Some(init + [s]) && parse(b) == Some(init + [t]) ensures s == t {
      LastStatementTells(init, s, t);
    }
  }

  /** Conversely texts of the same statements share a key, and so do unparsed texts of the same tokens. */
  lemma TheSameHasEqualKeys(parse: SqlParser, a: string, b: string)
    requires if Parses(parse, a) then parse(b) == parse(a) else !Parses(parse, b) && Tokens(Stripped(a)) == Tokens(Stripped(b))
    ensures Normalize(parse, a) == Normalize(parse, b)
  {
    KeysAgreeExactlyOnTokens(a, b);
  }

  /** For texts of one statement each, and for unparsed ones, that is exact. */
  lemma KeysAgreeExactly(parse: SqlParser, a: string, b: string)
    ensures forall s, t | parse(a) == Some([s]) && parse(b) == Some([t]) :: Normalize(parse, a) == Normalize(parse, b) <==> s == t
    ensures !Parses(parse, a) && !Parses(parse, b) ==>
      (Normalize(parse, a) == Normalize(parse, b) <==> Tokens(Stripped(a)) == Tokens(Stripped(b)))
    ensures Parses(parse, a) && Parses(parse, b) && SeparatorFree(parse(a).value) && SeparatorFree(parse(b).value) ==>
      (Normalize(parse, a) == Normalize(parse, b) <==> parse(a) == parse(b))
  {
    hide NormalizeLexical, Normalize, Tokens, Stripped, SeparatorFree;
    KeyOfOneStatement(parse, a);
    KeyOfOneStatement(parse, b);
    KeysAgreeExactlyOnTokens(a, b);
    if Normalize(parse, a) == Normalize(parse, b) {
      EqualKeysAskTheSame(parse, a, b);
    }
    if Parses(parse, a) && parse(b) == parse(a) {
      TheSameHasEqualKeys(parse, a, b);
    }
  }
}
