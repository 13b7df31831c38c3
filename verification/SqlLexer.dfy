/** The lexical part of the SQL the library writes: words, numbers, quoted text and symbols (section 5 of SQL-92). */
module SqlLexer {
  import opened DecimalText

  datatype Token = Word(text: string) | Number(text: string) | Quoted(text: string) | Symbol(text: string) | Bad

  predicate IsLetter(c: char) { 'a' <= c <= 'z' || 'A' <= c <= 'Z' || c == '_' }

  predicate WordChar(c: char) { IsLetter(c) || IsDigit(c) }

  predicate NumberChar(c: char) { IsDigit(c) || c == '.' }

  function WordRun(s: string): (n: nat)
    ensures n <= |s|
  {
    if s == "" || !WordChar(s[0]) then 0 else WordRun(s[1..]) + 1
  }

  function NumberRun(s: string): (n: nat)
    ensures n <= |s|
  {
    if s == "" || !NumberChar(s[0]) then 0 else NumberRun(s[1..]) + 1
  }

  datatype QuotedText = Unterminated | Terminated(content: string, rest: string)

  /** Text up to its closing quote; a doubled quote stands for one. */
  function UpToQuote(s: string): (q: QuotedText)
    ensures q.Terminated? ==> |q.rest| < |s|
  {
    if s == "" then Unterminated
    else if s[0] != '\'' then
      match UpToQuote(s[1..])
      case Unterminated => Unterminated
      case Terminated(content, rest) => Terminated([s[0]] + content, rest)
    else if 1 < |s| && s[1] == '\'' then
      match UpToQuote(s[2..])
      case Unterminated => Unterminated
      case Terminated(content, rest) => Terminated("'" + content, rest)
    else Terminated("", s[1..])
  }

  function Lex(s: string): seq<Token>
    decreases |s|
  {
    if s == "" then []
    else if s[0] == ' ' then Lex(s[1..])
    else if IsLetter(s[0]) then
      var n := WordRun(s[1..]) + 1;
      [Word(s[..n])] + Lex(s[n..])
    else if IsDigit(s[0]) || (s[0] == '-' && 1 < |s| && IsDigit(s[1])) then
      var n := NumberRun(s[1..]) + 1;
      [Number(s[..n])] + Lex(s[n..])
    else if s[0] == '\'' then
      match UpToQuote(s[1..])
      case Unterminated => [Bad]
      case Terminated(content, rest) => [Quoted(content)] + Lex(rest)
    else if s[0] in "!<>" && 1 < |s| && s[1] == '=' then [Symbol(s[..2])] + Lex(s[2..])
    else if s[0] in "(),;=<>*" then [Symbol(s[..1])] + Lex(s[1..])
    else [Bad]
  }

  // ----- How pieces of text lex -----

  /** A character no word, number or quoted text continues with. */
  predicate IsBoundary(c: char) { c in " (),;=" }

  predicate StartsWithBoundary(s: string) { s != "" && IsBoundary(s[0]) }

  /** A text lexes to given tokens whatever follows it, or, when it is not closed, whatever boundary follows it. */
  ghost predicate Lexes(text: string, tokens: seq<Token>, closed: bool) {
    forall rest: string :: closed || rest == "" || StartsWithBoundary(rest) ==> Lex(text + rest) == tokens + Lex(rest)
  }

  lemma LexesAlone(text: string, tokens: seq<Token>, closed: bool)
    requires Lexes(text, tokens, closed)
    ensures Lex(text) == tokens
  {
    assert text + "" == text;
    assert Lex(text + "") == tokens + Lex("");
  }

  lemma LexesThen(a: string, ta: seq<Token>, aClosed: bool, b: string, tb: seq<Token>, bClosed: bool)
    requires Lexes(a, ta, aClosed) && Lexes(b, tb, bClosed) && (aClosed || StartsWithBoundary(b))
    ensures Lexes(a + b, ta + tb, bClosed)
  {
    hide Lex, IsBoundary;
    forall rest: string | bClosed || rest == "" || StartsWithBoundary(rest)
      ensures Lex(a + b + rest) == ta + tb + Lex(rest)
    {
      assert a + b + rest == a + (b + rest);
      assert Lex(a + (b + rest)) == ta + Lex(b + rest);
      assert Lex(b + rest) == tb + Lex(rest);
      assert ta + (tb + Lex(rest)) == ta + tb + Lex(rest);
    }
  }

  lemma LexesOpen(text: string, tokens: seq<Token>)
    requires Lexes(text, tokens, true)
    ensures Lexes(text, tokens, false)
  {
    hide Lex;
  }

  lemma SpaceLexes()
    ensures Lexes(" ", [], true)
  {
    forall rest: string ensures Lex(" " + rest) == [] + Lex(rest) {
      assert (" " + rest)[1..] == rest;
    }
  }

  predicate IsIdentifier(s: string) {
    s != "" && IsLetter(s[0]) && forall k :: 0 <= k < |s| ==> WordChar(s[k])
  }

  lemma {:induction false} WordRunOf(w: string, rest: string)
    requires forall k :: 0 <= k < |w| ==> WordChar(w[k])
    requires rest != "" ==> !WordChar(rest[0])
    ensures WordRun(w + rest) == |w|
  {
    if w == "" {
      assert w + rest == rest;
    } else {
      assert (w + rest)[1..] == w[1..] + rest;
      WordRunOf(w[1..], rest);
    }
  }

  lemma WordLexesBefore(w: string, rest: string)
    requires IsIdentifier(w) && (rest != "" ==> !WordChar(rest[0]))
    ensures Lex(w + rest) == [Word(w)] + Lex(rest)
  {
    hide UpToQuote, NumberRun, WordRun;
    var s := w + rest;
    assert s[1..] == w[1..] + rest;
    WordRunOf(w[1..], rest);
    assert s[..|w|] == w && s[|w|..] == rest && s[0] == w[0];
  }

  lemma WordLexes(w: string)
    requires IsIdentifier(w)
    ensures Lexes(w, [Word(w)], false)
  {
    hide Lex, IsIdentifier;
    forall rest: string | rest == "" || StartsWithBoundary(rest) ensures Lex(w + rest) == [Word(w)] + Lex(rest) {
      WordLexesBefore(w, rest);
    }
  }

  /** A number as it is printed: an optional '-', a digit, then digits and points. */
  predicate IsNumberText(s: string) {
    IsMagnitudeText(s) || (s != "" && s[0] == '-' && IsMagnitudeText(s[1..]))
  }

  predicate IsMagnitudeText(s: string) {
    s != "" && IsDigit(s[0]) && forall k :: 0 <= k < |s| ==> NumberChar(s[k])
  }

  lemma {:induction false} NumberRunOf(w: string, rest: string)
    requires forall k :: 0 <= k < |w| ==> NumberChar(w[k])
    requires rest != "" ==> !NumberChar(rest[0])
    ensures NumberRun(w + rest) == |w|
  {
    if w == "" {
      assert w + rest == rest;
    } else {
      assert (w + rest)[1..] == w[1..] + rest;
      NumberRunOf(w[1..], rest);
    }
  }

  lemma NumberLexesBefore(n: string, rest: string)
    requires IsNumberText(n) && (rest != "" ==> !NumberChar(rest[0]))
    ensures Lex(n + rest) == [Number(n)] + Lex(rest)
  {
    hide UpToQuote, WordRun, NumberRun;
    var s := n + rest;
    assert s[1..] == n[1..] + rest && s[0] == n[0];
    if n[0] == '-' {
      assert n[1..][0] == n[1] == s[1];
    } else {
      assert forall k :: 0 <= k < |n[1..]| ==> n[1..][k] == n[k + 1];
    }
    NumberRunOf(n[1..], rest);
    assert s[..|n|] == n && s[|n|..] == rest;
  }

  lemma NumberLexes(n: string)
    requires IsNumberText(n)
    ensures Lexes(n, [Number(n)], false)
  {
    hide Lex, IsNumberText;
    forall rest: string | rest == "" || StartsWithBoundary(rest) ensures Lex(n + rest) == [Number(n)] + Lex(rest) {
      NumberLexesBefore(n, rest);
    }
  }

  lemma {:induction false} UpToQuoteOf(s: string, rest: string)
    requires '\'' !in s && (rest != "" ==> rest[0] != '\'')
    ensures UpToQuote(s + "'" + rest) == Terminated(s, rest)
  {
    var t := s + "'" + rest;
    if s == "" {
      assert t == "'" + rest && t[1..] == rest;
    } else {
      assert t[1..] == s[1..] + "'" + rest;
      UpToQuoteOf(s[1..], rest);
      assert [s[0]] + s[1..] == s;
    }
  }

  lemma QuotedLexesBefore(s: string, rest: string)
    requires '\'' !in s && (rest != "" ==> rest[0] != '\'')
    ensures Lex("'" + s + "'" + rest) == [Quoted(s)] + Lex(rest)
  {
    hide UpToQuote, WordRun, NumberRun;
    var t := "'" + s + "'" + rest;
    assert t[1..] == s + "'" + rest && t[0] == '\'';
    UpToQuoteOf(s, rest);
  }

  /** Text wrapped in quotes lexes to itself, whatever words, parentheses or operators it holds, if it has no quote. */
  lemma QuotedLexes(s: string)
    requires '\'' !in s
    ensures Lexes("'" + s + "'", [Quoted(s)], false)
  {
    hide Lex;
    forall rest: string | rest == "" || StartsWithBoundary(rest)
      ensures Lex("'" + s + "'" + rest) == [Quoted(s)] + Lex(rest)
    {
      QuotedLexesBefore(s, rest);
    }
  }

  function Quotes(k: nat): (s: string)
    ensures |s| == k && forall i :: 0 <= i < k ==> s[i] == '\''
  {
    if k == 0 then "" else "'" + Quotes(k - 1)
  }

  /** What is read of a text that holds a quote, behind which no quote follows, is never the text; nor is it any text with more
      quotes in front. */
  lemma {:induction false} ContentDiffers(s: string, rest: string, k: nat)
    requires (rest != "" ==> rest[0] != '\'') && (k > 0 || '\'' in s)
    ensures var q := UpToQuote(s + "'" + rest); q.Terminated? ==> q.content != Quotes(k) + s
    decreases |s|
  {
    var t := s + "'" + rest;
    if s == "" {
      assert t == "'" + rest;
    } else if s[0] != '\'' {
      assert t[1..] == s[1..] + "'" + rest;
      if k == 0 {
        assert '\'' in s[1..];
        ContentDiffers(s[1..], rest, 0);
        assert Quotes(0) + s == s && Quotes(0) + s[1..] == s[1..];
      } else {
        assert (Quotes(k) + s)[0] == '\'';
      }
    } else if |s| == 1 {
      assert t[2..] == rest && t[1] == '\'';
      LastQuote(rest, k);
      assert s == "'";
    } else if s[1] == '\'' {
      assert t[2..] == s[2..] + "'" + rest;
      ContentDiffers(s[2..], rest, k + 1);
      OneQuoteLess(s, k);
    } else {
      assert t[1] == s[1];
    }
  }

  lemma LastQuote(rest: string, k: nat)
    requires rest != "" ==> rest[0] != '\''
    ensures var q := UpToQuote(rest); q.Terminated? ==> "'" + q.content != Quotes(k) + "'"
  {
    var q := UpToQuote(rest);
    if q.Terminated? {
      assert q.content[0] == rest[0];
      assert ("'" + q.content)[1] == rest[0];
      if k > 0 && |Quotes(k) + "'"| > 1 {
        assert (Quotes(k) + "'")[1] == if k == 1 then '\'' else Quotes(k)[1];
      }
    }
  }

  lemma OneQuoteLess(s: string, k: nat)
    requires 2 <= |s| && s[0] == '\'' && s[1] == '\''
    ensures forall content: string :: "'" + content == Quotes(k) + s ==> content == Quotes(k + 1) + s[2..]
  {
    forall content: string | "'" + content == Quotes(k) + s ensures content == Quotes(k + 1) + s[2..] {
      assert content == ("'" + content)[1..];
      QuotesCommute(k);
      assert s == "''" + s[2..];
      assert Quotes(k) + s == "'" + (Quotes(k + 1) + s[2..]);
    }
  }

  lemma {:induction false} QuotesCommute(k: nat)
    ensures Quotes(k) + "''" == "'" + Quotes(k + 1)
  {
    if k > 0 {
      QuotesCommute(k - 1);
      assert "'" + Quotes(k - 1) + "''" == "'" + (Quotes(k - 1) + "''");
    } else {
      assert Quotes(1) == "'" + Quotes(0) && Quotes(0) == "";
    }
  }

  lemma WrappedLexes(s: string, rest: string)
    ensures var q := UpToQuote(s + "'" + rest);
            Lex("'" + s + "'" + rest) == if q.Terminated? then [Quoted(q.content)] + Lex(q.rest) else [Bad]
  {
    var t := "'" + s + "'" + rest;
    assert t[1..] == s + "'" + rest && t[0] == '\'';
    hide UpToQuote, WordRun, NumberRun;
  }

  /** A text in quotes, with no quote behind it, stands for itself if and only if it holds no quote: values are wrapped, not
      escaped. */
  lemma WrappedIsItselfIff(s: string, rest: string)
    requires rest != "" ==> rest[0] != '\''
    ensures var ts := Lex("'" + s + "'" + rest); ts != [] && (ts[0] == Quoted(s) <==> '\'' !in s)
  {
    hide Lex, UpToQuote;
    WrappedLexes(s, rest);
    if '\'' in s {
      ContentDiffers(s, rest, 0);
      assert Quotes(0) + s == s;
    } else {
      UpToQuoteOf(s, rest);
    }
  }

  /** Every quote doubled. */
  function Escaped(s: string): string {
    if s == "" then "" else (if s[0] == '\'' then "''" else [s[0]]) + Escaped(s[1..])
  }

  lemma {:induction false} UpToQuoteOfEscaped(s: string, rest: string)
    requires rest != "" ==> rest[0] != '\''
    ensures UpToQuote(Escaped(s) + "'" + rest) == Terminated(s, rest)
    decreases s
  {
    var t := Escaped(s) + "'" + rest;
    if s == "" {
      assert t == "'" + rest && t[1..] == rest;
    } else {
      UpToQuoteOfEscaped(s[1..], rest);
      if s[0] == '\'' {
        assert t[2..] == Escaped(s[1..]) + "'" + rest;
      } else {
        assert t[1..] == Escaped(s[1..]) + "'" + rest;
      }
      assert [s[0]] + s[1..] == s;
    }
  }

  /** A text whose quotes are doubled stands for the text as it was. */
  lemma EscapedLexes(s: string)
    ensures Lexes("'" + Escaped(s) + "'", [Quoted(s)], false)
  {
    hide Lex, UpToQuote;
    forall rest: string | rest == "" || StartsWithBoundary(rest)
      ensures Lex("'" + Escaped(s) + "'" + rest) == [Quoted(s)] + Lex(rest)
    {
      WrappedLexes(Escaped(s), rest);
      UpToQuoteOfEscaped(s, rest);
    }
  }

  /** An input that changes: two quotes are read as one. */
  lemma DoubledQuoteIsHalved()
    ensures Escaped("a'b") == "a''b"
    ensures Lex("'" + "a''b" + "'") == [Quoted("a'b")]
  {
    assert "a'b"[1..] == "'b" && "'b"[1..] == "b" && "b"[1..] == "";
    assert Escaped("b") == "b" && Escaped("'b") == "''b" && Escaped("a'b") == "a''b";
    hide Lex;
    EscapedLexes("a'b");
    LexesAlone("'" + Escaped("a'b") + "'", [Quoted("a'b")], false);
  }

  lemma SymbolLexesBefore(c: char, rest: string)
    requires c in "(),;=*"
    ensures Lex([c] + rest) == [Symbol([c])] + Lex(rest)
  {
    hide UpToQuote, WordRun, NumberRun;
    var s := [c] + rest;
    assert s[1..] == rest && s[..1] == [c] && s[0] == c;
    assert c !in "!<>" && !IsLetter(c) && !IsDigit(c);
  }

  lemma SymbolLexes(c: char)
    requires c in "(),;=*"
    ensures Lexes([c], [Symbol([c])], true)
  {
    hide Lex;
    forall rest: string ensures Lex([c] + rest) == [Symbol([c])] + Lex(rest) {
      SymbolLexesBefore(c, rest);
    }
  }

  predicate IsComparison(symbol: string) {
    symbol in ["=", "!=", "<", "<=", ">", ">="]
  }

  lemma ComparisonLexesBefore(symbol: string, rest: string)
    requires IsComparison(symbol)
    ensures Lex(symbol + (" " + rest)) == [Symbol(symbol)] + Lex(" " + rest)
  {
    hide UpToQuote, WordRun, NumberRun;
    var s := symbol + (" " + rest);
    assert s[|symbol|..] == " " + rest && s[..|symbol|] == symbol && s[0] == symbol[0];
    assert s[1] == if |symbol| == 2 then '=' else ' ';
  }

  /** A comparison symbol followed by a space. */
  lemma ComparisonLexes(symbol: string)
    requires IsComparison(symbol)
    ensures Lexes(symbol + " ", [Symbol(symbol)], true)
  {
    hide Lex, IsComparison;
    SpaceLexes();
    forall rest: string ensures Lex(symbol + " " + rest) == [Symbol(symbol)] + Lex(rest) {
      assert symbol + " " + rest == symbol + (" " + rest);
      ComparisonLexesBefore(symbol, rest);
      assert Lex(" " + rest) == [] + Lex(rest);
    }
  }

  /** Words each followed by a space. */
  lemma WordSpaceLexes(w: string)
    requires IsIdentifier(w)
    ensures Lexes(w + " ", [Word(w)], true)
  {
    hide Lexes, IsIdentifier;
    WordLexes(w);
    SpaceLexes();
    LexesThen(w, [Word(w)], false, " ", [], true);
    assert [Word(w)] + [] == [Word(w)];
  }
}
