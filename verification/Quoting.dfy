/** What quotes in a value do to a whole INSERT: its values are wrapped in quotes and not escaped. */
module Quoting {
  import opened StringUtilities
  import opened WideInput
  import opened Reflection
  import opened SqlLexer
  import opened SqlParser
  import opened Queries
  import QueryPredicates

  /** What `GetValues` makes of the contents of the members. */
  function Wrapped(contents: seq<string>): (values: seq<string>)
    ensures |values| == |contents|
  {
    seq(|contents|, k requires 0 <= k < |contents| => "'" + contents[k] + "'")
  }

  function EscapedAll(texts: seq<string>): (contents: seq<string>)
    ensures |contents| == |texts|
  {
    seq(|texts|, k requires 0 <= k < |texts| => Escaped(texts[k]))
  }

  function TextLiterals(texts: seq<string>): (ls: seq<Literal>)
    ensures |ls| == |texts|
  {
    seq(|texts|, k requires 0 <= k < |texts| => TextLiteral(texts[k]))
  }

  function QuotedItems(texts: seq<string>): (items: seq<seq<Token>>)
    ensures |items| == |texts|
  {
    seq(|texts|, k requires 0 <= k < |texts| => [Quoted(texts[k])])
  }

  /** The INSERT that gives every column, in order, one of the texts. */
  function InsertOf(r: Reflected, texts: seq<string>): Statement {
    Insert(r.name, ColumnNames(r), TextLiterals(texts))
  }

  lemma QuotedItemsParse(texts: seq<string>)
    ensures All(QuotedItems(texts), LiteralItem) == Some(TextLiterals(texts))
    ensures forall k :: 0 <= k < |texts| ==> PlainItem(QuotedItems(texts)[k])
  {
    AllOf(QuotedItems(texts), LiteralItem, TextLiterals(texts));
  }

  /** Values whose quotes were doubled are stored as the texts they were before. */
  lemma EscapedInsertParses(r: Reflected, texts: seq<string>)
    requires ValidType(r) && texts != []
    ensures ParseStatement(Lex(InsertText(r, Wrapped(EscapedAll(texts))))) == Some(InsertOf(r, texts))
  {
    hide Lex, Lexes, ParseStatement, ValidType, All, PlainItem, InsertText, InsertTokens, Escaped;
    var values, items := Wrapped(EscapedAll(texts)), QuotedItems(texts);
    forall k | 0 <= k < |texts| ensures Lexes(values[k], items[k], false) {
      EscapedLexes(texts[k]);
    }
    QuotedItemsParse(texts);
    InsertLexes(r, values, items);
    InsertTokensParse(r, items, TextLiterals(texts));
  }

  predicate NoQuotes(contents: seq<string>) { forall k :: 0 <= k < |contents| ==> '\'' !in contents[k] }

  lemma PlainInsertParses(r: Reflected, contents: seq<string>)
    requires ValidType(r) && contents != [] && NoQuotes(contents)
    ensures ParseStatement(Lex(InsertText(r, Wrapped(contents)))) == Some(InsertOf(r, contents))
  {
    hide Lex, Lexes, ParseStatement, ValidType, All, PlainItem, InsertText, InsertTokens;
    var values, items := Wrapped(contents), QuotedItems(contents);
    forall k | 0 <= k < |contents| ensures Lexes(values[k], items[k], false) {
      QuotedLexes(contents[k]);
    }
    QuotedItemsParse(contents);
    InsertLexes(r, values, items);
    InsertTokensParse(r, items, TextLiterals(contents));
  }

  // ----- The first value with a quote -----

  lemma {:induction false} FirstQuoted(contents: seq<string>) returns (j: nat)
    requires !NoQuotes(contents)
    ensures j < |contents| && '\'' in contents[j] && NoQuotes(contents[..j])
    decreases contents
  {
    if '\'' in contents[0] {
      j := 0;
    } else {
      var k :| 0 <= k < |contents| && '\'' in contents[k];
      assert contents[1..][k - 1] == contents[k];
      var i := FirstQuoted(contents[1..]);
      j := i + 1;
      forall m | 0 <= m < j ensures '\'' !in contents[..j][m] {
        if m > 0 { assert contents[1..][..i][m - 1] == contents[m]; }
      }
    }
  }

  /** The values before the j-th, with a comma behind each. */
  function Before(values: seq<string>, j: nat): string
    requires j <= |values|
  {
    if j == 0 then "" else Join(values[..j], ", ") + ", "
  }

  /** What follows the j-th value in the statement. */
  function After(values: seq<string>, j: nat): string
    requires j < |values|
  {
    if j == |values| - 1 then ");" else ", " + Join(values[j + 1..], ", ") + ");"
  }

  lemma {:induction false} JoinSplits(values: seq<string>, j: nat)
    requires j < |values|
    ensures Join(values, ", ") + ");" == Before(values, j) + values[j] + After(values, j)
    decreases values
  {
    if |values| == 1 {
      assert values == [values[0]];
    } else {
      var rest := values[1..];
      assert [values[0]] + rest == values;
      JoinOfMore(values[0], rest, ", ");
      if j == 0 {
        assert values[1..] == rest;
        assert values[0] + (", " + Join(rest, ", ")) + ");" == values[0] + (", " + Join(rest, ", ") + ");");
        assert "" + values[0] == values[0];
      } else {
        JoinSplits(rest, j - 1);
        BeforeOfMore(values, j);
        assert rest[j - 1] == values[j] && rest[j - 1 + 1..] == values[j + 1..];
        assert After(rest, j - 1) == After(values, j);
        NestJoin(values[0], Join(rest, ", "), Before(rest, j - 1), values[j], After(values, j));
      }
    }
  }

  lemma NestJoin(first: string, rest: string, before: string, value: string, after: string)
    requires rest + ");" == before + value + after
    ensures first + (", " + rest) + ");" == first + ", " + before + value + after
  {
    assert first + (", " + rest) + ");" == first + ", " + (rest + ");");
    assert first + ", " + (before + value + after) == first + ", " + before + value + after;
  }

  lemma BeforeOfMore(values: seq<string>, j: nat)
    requires 0 < j < |values|
    ensures Before(values, j) == values[0] + ", " + Before(values[1..], j - 1)
  {
    var rest := values[1..];
    if j == 1 {
      assert values[..1] == [values[0]] && values[0] + ", " + "" == values[0] + ", ";
    } else {
      assert values[..j] == [values[0]] + rest[..j - 1];
      JoinOfMore(values[0], rest[..j - 1], ", ");
      var tail := Join(rest[..j - 1], ", ");
      assert values[0] + (", " + tail) + ", " == values[0] + ", " + (tail + ", ");
    }
  }

  /** The tokens of the values before the j-th. */
  function BeforeTokens(items: seq<seq<Token>>): seq<Token> {
    if items == [] then [] else JoinItems(items) + [COMMA]
  }

  lemma BeforeLexes(contents: seq<string>, j: nat)
    requires j <= |contents| && NoQuotes(contents[..j])
    ensures Lexes(Before(Wrapped(contents), j), BeforeTokens(QuotedItems(contents[..j])), true)
  {
    hide Lexes, Join, JoinItems;
    if j == 0 {
      QueryPredicates.EmptyLexes();
    } else {
      var texts := contents[..j];
      assert Wrapped(contents)[..j] == Wrapped(texts);
      forall k | 0 <= k < j ensures Lexes(Wrapped(texts)[k], QuotedItems(texts)[k], false) {
        QuotedLexes(texts[k]);
      }
      JoinLexes(Wrapped(texts), QuotedItems(texts));
      CommaLexes();
      LexesThen(Join(Wrapped(texts), ", "), JoinItems(QuotedItems(texts)), false, ", ", [COMMA], true);
    }
  }

  /** The statement lexes to known tokens up to the first value with a quote, and there to a token that is not the value. */
  lemma QuotedInsertLexes(r: Reflected, contents: seq<string>, j: nat) returns (token: Token, more: seq<Token>)
    requires ValidType(r) && j < |contents| && '\'' in contents[j] && NoQuotes(contents[..j])
    ensures Lex(InsertText(r, Wrapped(contents)))
            == InsertStartTokens(r) + BeforeTokens(QuotedItems(contents[..j])) + ([token] + more)
    ensures token != Quoted(contents[j]) && (token.Quoted? || token == Bad)
  {
    hide Lex, Lexes, Join, JoinItems, ValidType, UpToQuote, InsertStart, InsertStartTokens, Before, BeforeTokens, NoQuotes;
    var values := Wrapped(contents);
    var (s, rest) := (contents[j], After(values, j));
    InsertStartLexes(r);
    BeforeLexes(contents, j);
    var (start, kStart) := (InsertStart(r) + Before(values, j), InsertStartTokens(r) + BeforeTokens(QuotedItems(contents[..j])));
    LexesThen(InsertStart(r), InsertStartTokens(r), true, Before(values, j), BeforeTokens(QuotedItems(contents[..j])), true);
    LexesBefore(start, kStart, values[j] + rest);
    InsertTextSplits(r, values, j);
    assert rest != "" && rest[0] != '\'' by { AfterStarts(values, j); }
    WrappedIsItselfIff(s, rest);
    WrappedLexes(s, rest);
    var ts := Lex("'" + s + "'" + rest);
    token, more := ts[0], ts[1..];
    assert [token] + more == ts;
  }

  lemma AfterStarts(values: seq<string>, j: nat)
    requires j < |values|
    ensures After(values, j) != "" && After(values, j)[0] != '\''
  {
    hide Join;
  }

  lemma InsertTextSplits(r: Reflected, values: seq<string>, j: nat)
    requires j < |values|
    ensures InsertText(r, values) == InsertStart(r) + Before(values, j) + (values[j] + After(values, j))
  {
    hide Before, After, Join, ColumnNames;
    JoinSplits(values, j);
    var (b, v, a) := (Before(values, j), values[j], After(values, j));
    assert InsertText(r, values) == InsertStart(r) + (Join(values, ", ") + ");");
    assert InsertStart(r) + (b + v + a) == InsertStart(r) + b + (v + a);
  }

  // ----- What such tokens parse to -----

  lemma CommaEndsItem(item: seq<Token>, tail: seq<Token>)
    requires PlainItem(item)
    ensures SplitItems(item + ([COMMA] + tail)).items == [item] + SplitItems(tail).items
  {
    PlainItemIs(item);
    hide PlainItem;
    assert ([COMMA] + tail)[1..] == tail;
    assert SplitItems([COMMA] + tail).items == [[]] + SplitItems(tail).items;
    hide SplitItems;
    SplitOneItem(item, [COMMA] + tail);
    assert item + [] == item && ([[]] + SplitItems(tail).items)[1..] == SplitItems(tail).items;
  }

  lemma {:induction false} SplitAfterItems(items: seq<seq<Token>>, rest: seq<Token>)
    requires forall k :: 0 <= k < |items| ==> PlainItem(items[k])
    ensures SplitItems(BeforeTokens(items) + rest).items == items + SplitItems(rest).items
    decreases items
  {
    hide PlainItem, JoinItems, SplitItems, BeforeTokens;
    if items == [] {
      NothingBefore(rest);
      assert items + SplitItems(rest).items == SplitItems(rest).items;
    } else {
      BeforeTokensOfMore(items, rest);
      SplitAfterItems(items[1..], rest);
      CommaEndsItem(items[0], BeforeTokens(items[1..]) + rest);
      assert [items[0]] + (items[1..] + SplitItems(rest).items) == items + SplitItems(rest).items;
    }
  }

  lemma NothingBefore(rest: seq<Token>)
    ensures BeforeTokens([]) + rest == rest
  {
  }

  lemma PlainItemIs(item: seq<Token>)
    requires PlainItem(item)
    ensures forall k :: 0 <= k < |item| ==> item[k] != COMMA && !EndsList(item[k])
  {
  }

  lemma BeforeTokensOfMore(items: seq<seq<Token>>, rest: seq<Token>)
    requires items != []
    ensures BeforeTokens(items) + rest == items[0] + ([COMMA] + (BeforeTokens(items[1..]) + rest))
  {
    if |items| > 1 {
      assert JoinItems(items) == items[0] + ([COMMA] + JoinItems(items[1..]));
    }
  }

  lemma {:induction false} AllAt<T>(items: seq<seq<Token>>, f: seq<Token> -> Option<T>, values: seq<T>)
    requires All(items, f) == Some(values)
    ensures |items| == |values| && forall k :: 0 <= k < |items| ==> f(items[k]) == Some(values[k])
    decreases items
  {
    if items != [] {
      AllAt(items[1..], f, values[1..]);
      assert forall k :: 1 <= k < |items| ==> items[k] == items[1..][k - 1] && values[k] == values[1..][k - 1];
    }
  }

  /** Whatever follows, values that are read after the items given begin with their literals, and then the token's. */
  lemma ValuesAfterItems(r: Reflected, items: seq<seq<Token>>, token: Token, more: seq<Token>)
    requires ValidType(r) && forall k :: 0 <= k < |items| ==> PlainItem(items[k])
    requires token != COMMA && !EndsList(token)
    ensures var st := ParseStatement(InsertStartTokens(r) + BeforeTokens(items) + ([token] + more));
            st.Some? ==> st.value.Insert? && (|items| < |st.value.values| ==> LiteralOf(token) == Some(st.value.values[|items|]))
  {
    hide JoinItems, NameAfter, Parenthesised, All, NameItems, ColumnNames, IsName, PlainItem, ParseStatement,
         BeforeTokens, SplitItems, LiteralItem, NameItem;
    var V := BeforeTokens(items) + ([token] + more);
    var r2 := [Word("VALUES")] + ([Symbol("(")] + V);
    var r1 := [Symbol("(")] + (JoinItems(NameItems(r)) + ([Symbol(")")] + r2));
    var ts := INSERT + [Word(r.name)] + r1;
    StartNests(r, BeforeTokens(items), [token] + more);
    NameAfterPrefix(INSERT, r.name, r1);
    NamesParse(r);
    ParenthesisedList(NameItems(r), r2);
    assert r2[1..] == [Symbol("(")] + V;
    assert ts[0] == Word("INSERT") && |ts| > 3;
    InsertIsParsed(ts);
    SplitAfterItems(items, [token] + more);
    TokenStartsItem(token, more);
    ParenthesisedIs(V);
    if ParseInsert(ts).Some? {
      var valueItems := SplitItems(V).items;
      AllAt(valueItems, LiteralItem, ParseInsert(ts).value.values);
      assert valueItems[|items|] == SplitItems([token] + more).items[0];
      LiteralOfItem(valueItems[|items|], token);
    }
  }

  lemma StartNests(r: Reflected, before: seq<Token>, rest: seq<Token>)
    ensures InsertStartTokens(r) + before + rest ==
            INSERT + [Word(r.name)] + ([Symbol("(")] + (JoinItems(NameItems(r)) + ([Symbol(")")]
            + ([Word("VALUES")] + ([Symbol("(")] + (before + rest))))))
  {
    hide JoinItems, NameItems;
    var (n, tail) := (JoinItems(NameItems(r)), [Symbol("(")] + (before + rest));
    assert MIDDLE + (before + rest) == [Symbol(")")] + ([Word("VALUES")] + tail);
    var head := INSERT + [Word(r.name)] + [Symbol("(")] + n;
    assert head + MIDDLE + before + rest == head + (MIDDLE + (before + rest));
    assert head + ([Symbol(")")] + ([Word("VALUES")] + tail))
        == INSERT + [Word(r.name)] + ([Symbol("(")] + (n + ([Symbol(")")] + ([Word("VALUES")] + tail))));
  }

  lemma TokenStartsItem(token: Token, more: seq<Token>)
    requires token != COMMA && !EndsList(token)
    ensures var first := SplitItems([token] + more).items[0]; first != [] && first[0] == token
  {
    assert ([token] + more)[1..] == more;
  }

  lemma ParenthesisedIs(V: seq<Token>)
    ensures var p := Parenthesised([Symbol("(")] + V); p.Parsed? ==> p.value == SplitItems(V).items
  {
    hide SplitItems;
    assert ([Symbol("(")] + V)[1..] == V;
  }

  lemma LiteralOfItem(item: seq<Token>, token: Token)
    requires item != [] && item[0] == token
    ensures LiteralItem(item).Some? ==> LiteralItem(item) == LiteralOf(token)
  {
    hide LiteralOf;
  }

  /** An INSERT gives every column the content of its member if and only if no content holds a quote. Otherwise it does not parse,
      or stores something else. */
  lemma InsertKeepsContentsIff(r: Reflected, contents: seq<string>)
    requires ValidType(r) && |contents| == |r.members|
    ensures ParseStatement(Lex(InsertText(r, Wrapped(contents)))) == Some(InsertOf(r, contents)) <==> NoQuotes(contents)
  {
    hide Lex, ParseStatement, InsertText, InsertStartTokens, BeforeTokens;
    if NoQuotes(contents) {
      PlainInsertParses(r, contents);
    } else {
      var j := FirstQuoted(contents);
      var token, more := QuotedInsertLexes(r, contents, j);
      QuotedItemsParse(contents[..j]);
      ValuesAfterItems(r, QuotedItems(contents[..j]), token, more);
    }
  }

  /** The input: contents that are texts with every quote doubled, as `a''b` for `a'b`, are stored as those texts, so not as they
      are. */
  lemma DoubledQuotesAreHalved(r: Reflected, texts: seq<string>)
    requires ValidType(r) && |texts| == |r.members| && !NoQuotes(texts)
    ensures ParseStatement(Lex(InsertText(r, Wrapped(EscapedAll(texts))))) == Some(InsertOf(r, texts))
    ensures EscapedAll(texts) != texts
  {
    EscapedInsertParses(r, texts);
    hide Lex, ParseStatement, InsertText;
    var k :| 0 <= k < |texts| && '\'' in texts[k];
    EscapedIsLonger(texts[k]);
    assert EscapedAll(texts)[k] != texts[k];
  }

  lemma {:induction false} EscapedIsLonger(s: string)
    ensures |Escaped(s)| >= |s| && ('\'' in s ==> |Escaped(s)| > |s|)
    decreases s
  {
    if s != "" {
      EscapedIsLonger(s[1..]);
      assert '\'' in s ==> s[0] == '\'' || '\'' in s[1..];
    }
  }
}
