/** WHERE predicates: how they are built from members and values, cloned and printed, and what the printed text means to
    the SQL engine. */
module QueryPredicates {
  import opened Machine
  import opened DecimalText
  import opened WideInput
  import opened StringUtilities
  import opened Reflection
  import opened TimePoint
  import Calendar
  import TimeOfDay
  import opened SqlLexer
  import opened SqlParser
  import opened SqlEngine
  import opened Records

  /** The predicate objects: a comparison holds three texts, a connective owns clones of its operands. */
  datatype Predicate =
    | QueryPredicate(symbol: string, memberName: string, value: string)
    | EmptyPredicate
    | AndPredicate(left: Predicate, right: Predicate)
    | OrPredicate(left: Predicate, right: Predicate)

  /** `Clone`; the constructors of the connectives clone both operands again. */
  function Clone(p: Predicate): Predicate {
    match p
    case QueryPredicate(symbol, memberName, value) => QueryPredicate(symbol, memberName, value)
    case EmptyPredicate => EmptyPredicate
    case AndPredicate(l, r) => AndPredicate(Clone(l), Clone(r))
    case OrPredicate(l, r) => OrPredicate(Clone(l), Clone(r))
  }

  lemma {:induction false} CloneIsSame(p: Predicate)
    ensures Clone(p) == p
  {
    match p
    case QueryPredicate(_, _, _) =>
    case EmptyPredicate =>
    case AndPredicate(l, r) => CloneIsSame(l); CloneIsSame(r);
    case OrPredicate(l, r) => CloneIsSame(l); CloneIsSame(r);
  }

  /** `QueryPredicateBase::And` */
  function Conjoin(p: Predicate, q: Predicate): Predicate { AndPredicate(Clone(p), Clone(q)) }

  /** `QueryPredicateBase::Or` */
  function Disjoin(p: Predicate, q: Predicate): Predicate { OrPredicate(Clone(p), Clone(q)) }

  /** `Evaluate`: the text of a predicate; every connective is put in parentheses. */
  function Evaluate(p: Predicate): string {
    match p
    case QueryPredicate(symbol, memberName, value) => memberName + " " + symbol + " " + value
    case EmptyPredicate => ""
    case AndPredicate(l, r) => "(" + Evaluate(l) + " " + "AND" + " " + Evaluate(r) + ")"
    case OrPredicate(l, r) => "(" + Evaluate(l) + " " + "OR" + " " + Evaluate(r) + ")"
  }

  // ----- The printed text parses back to the tree -----

  function OperatorOf(symbol: string): Comparison
    requires IsOperator(symbol)
  {
    if symbol == "LIKE" then LikePattern else ComparisonOf(Symbol(symbol)).value
  }

  predicate IsOperator(symbol: string) { symbol == "LIKE" || IsComparison(symbol) }

  predicate IsQuotedText(value: string) {
    2 <= |value| && value[0] == '\'' && value[|value| - 1] == '\'' && '\'' !in value[1..|value| - 1]
  }

  /** The literal a predicate's value text denotes. */
  function LiteralOfValue(value: string): Literal {
    if IsQuotedText(value) then TextLiteral(value[1..|value| - 1]) else NumberLiteral(value)
  }

  /** Comparisons with a column name, an operator and a number or quoted text; empty predicates may occur. */
  predicate WellFormed(p: Predicate) {
    match p
    case QueryPredicate(symbol, memberName, value) =>
      IsName(memberName) && IsOperator(symbol) && (IsNumberText(value) || IsQuotedText(value))
    case EmptyPredicate => true
    case AndPredicate(l, r) => WellFormed(l) && WellFormed(r)
    case OrPredicate(l, r) => WellFormed(l) && WellFormed(r)
  }

  predicate HasEmpty(p: Predicate) {
    match p
    case QueryPredicate(_, _, _) => false
    case EmptyPredicate => true
    case AndPredicate(l, r) => HasEmpty(l) || HasEmpty(r)
    case OrPredicate(l, r) => HasEmpty(l) || HasEmpty(r)
  }

  /** The tree of a predicate as the engine represents it. */
  function ConditionOf(p: Predicate): (c: Condition)
    requires WellFormed(p) && !HasEmpty(p)
    ensures Named(c)
  {
    match p
    case QueryPredicate(symbol, memberName, value) => Compare(memberName, OperatorOf(symbol), LiteralOfValue(value))
    case AndPredicate(l, r) => And(ConditionOf(l), ConditionOf(r))
    case OrPredicate(l, r) => Or(ConditionOf(l), ConditionOf(r))
  }

  function Tokens(p: Predicate): seq<Token>
    requires WellFormed(p)
  {
    match p
    case QueryPredicate(symbol, memberName, value) =>
      [Word(memberName), ComparisonToken(OperatorOf(symbol)), LiteralToken(LiteralOfValue(value))]
    case EmptyPredicate => []
    case AndPredicate(l, r) => [Symbol("(")] + Tokens(l) + [Word("AND")] + Tokens(r) + [Symbol(")")]
    case OrPredicate(l, r) => [Symbol("(")] + Tokens(l) + [Word("OR")] + Tokens(r) + [Symbol(")")]
  }

  lemma OperatorLexes(symbol: string)
    requires IsOperator(symbol)
    ensures Lexes(symbol + " ", [ComparisonToken(OperatorOf(symbol))], true)
  {
    hide Lexes;
    if symbol == "LIKE" {
      WordSpaceLexes("LIKE");
    } else {
      ComparisonLexes(symbol);
    }
  }

  lemma ValueLexes(value: string)
    requires IsNumberText(value) || IsQuotedText(value)
    ensures Lexes(value, [LiteralToken(LiteralOfValue(value))], false)
  {
    hide Lexes, IsNumberText;
    if IsQuotedText(value) {
      var s := value[1..|value| - 1];
      assert value == "'" + s + "'";
      QuotedLexes(s);
    } else {
      NumberLexes(value);
    }
  }

  lemma ComparisonTextLexes(symbol: string, memberName: string, value: string)
    requires WellFormed(QueryPredicate(symbol, memberName, value))
    ensures Lexes(memberName + " " + symbol + " " + value, Tokens(QueryPredicate(symbol, memberName, value)), false)
  {
    hide Lexes, IsNumberText, IsQuotedText, OperatorOf, LiteralOfValue, IsOperator, IsName;
    var name, op, literal := [Word(memberName)], [ComparisonToken(OperatorOf(symbol))], [LiteralToken(LiteralOfValue(value))];
    assert IsIdentifier(memberName) by { NameIsIdentifier(memberName); }
    WordSpaceLexes(memberName);
    OperatorLexes(symbol);
    ValueLexes(value);
    LexesThen(memberName + " ", name, true, symbol + " ", op, true);
    LexesThen(memberName + " " + (symbol + " "), name + op, true, value, literal, false);
    assert memberName + " " + (symbol + " ") + value == memberName + " " + symbol + " " + value;
    assert name + op + literal == Tokens(QueryPredicate(symbol, memberName, value));
  }

  lemma NameIsIdentifier(name: string)
    requires IsName(name)
    ensures IsIdentifier(name)
  {
  }

  lemma EmptyLexes()
    ensures Lexes("", [], true)
  {
    hide Lex;
    forall rest: string ensures Lex("" + rest) == [] + Lex(rest) {
      assert "" + rest == rest;
    }
  }

  lemma ConnectiveLexes(l: string, tl: seq<Token>, keyword: string, r: string, tr: seq<Token>)
    requires Lexes(l, tl, false) && Lexes(r, tr, false) && IsIdentifier(keyword)
    ensures Lexes("(" + l + " " + keyword + " " + r + ")",
                  [Symbol("(")] + tl + [Word(keyword)] + tr + [Symbol(")")], false)
  {
    hide Lexes, IsIdentifier;
    SymbolLexes('(');
    SymbolLexes(')');
    SpaceLexes();
    WordSpaceLexes(keyword);
    var k := [Word(keyword)];
    LexesThen(" ", [], true, keyword + " ", k, true);
    assert [] + k == k && " " + (keyword + " ") == " " + keyword + " ";
    LexesThen("(", [Symbol("(")], true, l, tl, false);
    LexesThen("(" + l, [Symbol("(")] + tl, false, " " + keyword + " ", k, true);
    LexesThen("(" + l + (" " + keyword + " "), [Symbol("(")] + tl + k, true, r, tr, false);
    var a := "(" + l + (" " + keyword + " ") + r;
    LexesThen(a, [Symbol("(")] + tl + k + tr, false, ")", [Symbol(")")], true);
    LexesOpen(a + ")", [Symbol("(")] + tl + k + tr + [Symbol(")")]);
    assert a + ")" == "(" + l + " " + keyword + " " + r + ")";
  }

  lemma {:induction false} EvaluateLexes(p: Predicate)
    requires WellFormed(p)
    ensures Lexes(Evaluate(p), Tokens(p), false)
    decreases p
  {
    hide Lexes, IsName, IsOperator, IsNumberText, IsQuotedText;
    match p
    case QueryPredicate(symbol, memberName, value) => ComparisonTextLexes(symbol, memberName, value);
    case EmptyPredicate =>
      EmptyLexes();
      LexesOpen("", []);
    case AndPredicate(l, r) =>
      EvaluateLexes(l);
      EvaluateLexes(r);
      ConnectiveLexes(Evaluate(l), Tokens(l), "AND", Evaluate(r), Tokens(r));
    case OrPredicate(l, r) =>
      EvaluateLexes(l);
      EvaluateLexes(r);
      ConnectiveLexes(Evaluate(l), Tokens(l), "OR", Evaluate(r), Tokens(r));
  }

  lemma {:induction false} TokensOfCondition(p: Predicate)
    requires WellFormed(p) && !HasEmpty(p)
    ensures Tokens(p) == ConditionTokens(ConditionOf(p))
    decreases p
  {
    match p
    case QueryPredicate(_, _, _) =>
    case AndPredicate(l, r) => TokensOfCondition(l); TokensOfCondition(r);
    case OrPredicate(l, r) => TokensOfCondition(l); TokensOfCondition(r);
  }

  lemma KeywordIsNoPrimary(ts: seq<Token>)
    requires ts == [] || ts[0] == Word("AND") || ts[0] == Word("OR") || ts[0] == Symbol(")") || ts[0] == Symbol(";")
    ensures ParsePrimary(ts) == Failed
  {
    hide IsWord, Keywords, Upper, IsIdentifier, ParseOr;
    KeywordsAreUpper();
    ClauseKeywords();
    KeywordIsWord(16);
    KeywordIsWord(17);
  }

  lemma KeywordsAreUpper()
    ensures Upper("AND") == "AND" && Upper("OR") == "OR"
  {
    assert "AND"[1..] == "ND" && "ND"[1..] == "D" && "D"[1..] == "";
    assert Upper("D") == "D" && Upper("ND") == "ND";
    assert "OR"[1..] == "R" && "R"[1..] == "";
  }

  lemma FailedPrimaryFailsOr(ts: seq<Token>)
    requires ParsePrimary(ts) == Failed
    ensures ParseAnd(ts) == Failed && ParseOr(ts) == Failed
  {
    hide ParsePrimary;
  }

  lemma FailedGroup(inner: seq<Token>)
    requires ParseOr(inner) == Failed
    ensures ParsePrimary([Symbol("(")] + inner) == Failed
  {
    hide ParseOr;
    assert ([Symbol("(")] + inner)[1..] == inner;
  }

  lemma FailedRightConjunct(ts: seq<Token>, l: Condition, mid: seq<Token>)
    requires ParsePrimary(ts) == Parsed(l, [Word("AND")] + mid) && ParsePrimary(mid) == Failed
    ensures ParseOr(ts) == Failed
  {
    hide ParsePrimary;
    assert ([Word("AND")] + mid)[1..] == mid;
    assert AndTail(l, [Word("AND")] + mid) == Failed;
  }

  lemma FailedRightDisjunct(ts: seq<Token>, l: Condition, mid: seq<Token>)
    requires ParsePrimary(ts) == Parsed(l, [Word("OR")] + mid) && ParsePrimary(mid) == Failed
    ensures ParseOr(ts) == Failed
  {
    hide ParsePrimary;
    OneConjunct(ts, l, [Word("OR")] + mid);
    assert ([Word("OR")] + mid)[1..] == mid;
    assert OrTail(l, [Word("OR")] + mid) == Failed;
  }

  /** A connective with an empty operand somewhere below it never parses. */
  lemma {:induction false} EmptyOperandFails(p: Predicate, rest: seq<Token>)
    requires WellFormed(p) && HasEmpty(p)
    requires p.EmptyPredicate? ==> rest == [] || rest[0] in [Word("AND"), Word("OR"), Symbol(")"), Symbol(";")]
    ensures ParsePrimary(Tokens(p) + rest) == Failed
    decreases p, 1
  {
    hide ParsePrimary, ParseOr, IsName, IsOperator, IsNumberText, IsQuotedText;
    match p
    case EmptyPredicate =>
      assert Tokens(p) + rest == rest;
      KeywordIsNoPrimary(rest);
    case AndPredicate(l, r) => EmptyUnderConnective(p, l, "AND", r, rest);
    case OrPredicate(l, r) => EmptyUnderConnective(p, l, "OR", r, rest);
  }

  lemma {:induction false} EmptyUnderConnective(p: Predicate, l: Predicate, keyword: string, r: Predicate, rest: seq<Token>)
    requires (p == AndPredicate(l, r) && keyword == "AND") || (p == OrPredicate(l, r) && keyword == "OR")
    requires WellFormed(p) && HasEmpty(p)
    ensures ParsePrimary([Symbol("(")] + Tokens(l) + [Word(keyword)] + Tokens(r) + [Symbol(")")] + rest) == Failed
    decreases p, 0
  {
    assert WellFormed(l) && WellFormed(r);
    hide ParsePrimary, ParseOr, WellFormed;
    var afterR := [Symbol(")")] + rest;
    var right := Tokens(r) + afterR;
    var inner := Tokens(l) + ([Word(keyword)] + right);
    if HasEmpty(l) {
      EmptyOperandFails(l, [Word(keyword)] + right);
      FailedPrimaryFailsOr(inner);
    } else {
      TokensOfCondition(l);
      PrimaryOfTokens(ConditionOf(l), [Word(keyword)] + right);
      EmptyOperandFails(r, afterR);
      if keyword == "AND" {
        FailedRightConjunct(inner, ConditionOf(l), right);
      } else {
        FailedRightDisjunct(inner, ConditionOf(l), right);
      }
    }
    FailedGroup(inner);
    NestGroup(Tokens(l), Word(keyword), Tokens(r), rest);
  }

  /** The printed text parses back to the predicate's own tree exactly when no part of it is empty, whatever its nesting
      and whatever its quoted values hold. */
  lemma EvaluateParses(p: Predicate)
    requires WellFormed(p)
    ensures ParseOr(Lex(Evaluate(p))) == if HasEmpty(p) then Failed else Parsed(ConditionOf(p), [])
  {
    hide Lex, Lexes, ParseOr, ParsePrimary, WellFormed;
    EvaluateLexes(p);
    LexesAlone(Evaluate(p), Tokens(p), false);
    assert Tokens(p) + [] == Tokens(p);
    if HasEmpty(p) {
      EmptyOperandFails(p, []);
      FailedPrimaryFailsOr(Tokens(p));
    } else {
      TokensOfCondition(p);
      ConditionOfTokens(ConditionOf(p), []);
    }
  }

  // ----- Building predicates from members and values -----

  datatype Operator = IsEqual | IsUnequal | IsLike | IsGreater | IsGreaterOrEqual | IsSmaller | IsSmallerOrEqual

  function SymbolOf(op: Operator): (s: string)
    ensures IsOperator(s)
  {
    match op
    case IsEqual => "="
    case IsUnequal => "!="
    case IsLike => "LIKE"
    case IsGreater => ">"
    case IsGreaterOrEqual => ">="
    case IsSmaller => "<"
    case IsSmallerOrEqual => "<="
  }

  /** `QueryPredicate::GetStringForValue` */
  function StringForValue(f: FieldValue): string
    requires f.DateField? ==> Representable(f.t)
  {
    match f
    case IntField(v) => FromInt(v)
    case BoolField(b) => FromInt(if b then 1 else 0)
    case RealField(m) => TrimmedReal(m)
    case TextField(s) => "'" + s + "'"
    case DateField(t) => "'" + SystemTimeText(t) + "'"
  }

  /** What LIKE looks for: the value's text without quotes. */
  function LikeText(f: FieldValue): string
    requires f.DateField? ==> Representable(f.t)
  {
    Without(StringForValue(f), '\'')
  }

  /** The literal a comparison holds for a value's text. */
  function LiteralText(op: Operator, text: string): string {
    if op == IsLike then "'" + "%" + Without(text, '\'') + "%" + "'" else text
  }

  function ValueText(op: Operator, f: FieldValue): string
    requires f.DateField? ==> Representable(f.t)
  {
    LiteralText(op, StringForValue(f))
  }

  /** What the bytes of a value read as when they are taken for a value of another class. The language leaves this open, so
      it is a parameter. */
  type Misreading = (FieldValue, StorageClass) -> string

  /** Such a reading still yields a number or well-quoted text. */
  ghost predicate YieldsLiterals(misread: Misreading) {
    forall f, c :: IsNumberText(misread(f, c)) || IsQuotedText(misread(f, c))
  }

  /** `QueryPredicate::GetStringForValue`: the value's bytes are rendered by the storage class of the member found. */
  function RenderedAs(f: FieldValue, c: StorageClass, misread: Misreading): string
    requires f.DateField? ==> Representable(f.t)
  {
    if HasClass(f, c) then StringForValue(f) else misread(f, c)
  }

  /** `Like::GetStringForValue` */
  method LikeStringForValue(f: FieldValue, c: StorageClass, misread: Misreading) returns (value: string)
    requires f.DateField? ==> Representable(f.t)
    ensures value == LiteralText(IsLike, RenderedAs(f, c, misread))
  {
    hide RenderedAs, Without;
    value := RenderedAs(f, c, misread);
    value := Remove(value, "'");
    value := "'" + "%" + value + "%" + "'";
  }

  /** The predicate a pointer to member makes. */
  function PredicateFor(members: seq<Member>, pointer: seq<uint8>, op: Operator, f: FieldValue, misread: Misreading): Predicate
    requires f.DateField? ==> Representable(f.t)
  {
    match IndexOfOffset(members, LittleEndian(CString(pointer)), 0)
    case Some(i) =>
      QueryPredicate(SymbolOf(op), members[i].name, LiteralText(op, RenderedAs(f, members[i].class_, misread)))
    case None => QueryPredicate(SymbolOf(op), "", "")
  }

  /** The constructor of `QueryPredicate`: it looks for the member at the offset the pointer's bytes hold, and leaves the
      name and the value empty when there is none. */
  method MakePredicate(record: Reflected, pointer: seq<uint8>, op: Operator, f: FieldValue, misread: Misreading)
    returns (p: Predicate)
    requires pointer != [] && pointer[|pointer| - 1] == 0
    requires f.DateField? ==> Representable(f.t)
    ensures p == PredicateFor(record.members, pointer, op, f, misread)
  {
    hide RenderedAs, IndexOfOffset, LittleEndian, CString;
    var offset := OffsetFromStart(pointer);
    var i := MemberAt(record, offset);
    p := QueryPredicate(SymbolOf(op), "", "");
    if i.Some? {
      var member := record.members[i.value];
      var value := RenderedAs(f, member.class_, misread);
      if op == IsLike { value := LikeStringForValue(f, member.class_, misread); }
      p := QueryPredicate(SymbolOf(op), member.name, value);
    }
  }

  /** What a caller writes: comparisons of members with values, combined. */
  datatype Criterion =
    | Where(op: Operator, index: nat, value: FieldValue)
    | Both(left: Criterion, right: Criterion)
    | Either(left: Criterion, right: Criterion)

  /** The comparisons the constructors' types allow: order only on integers and reals. Values compared as text must be
      storable, except that LIKE takes any text. */
  predicate AllowedOn(m: Member, op: Operator, f: FieldValue) {
    && IsName(m.name) && HasClass(f, m.class_)
    && (op !in [IsEqual, IsUnequal, IsLike] ==> f.IntField? || f.RealField?)
    && (op != IsLike || !f.TextField? ==> Storable(f))
  }

  predicate Allowed(c: Criterion, members: seq<Member>) {
    match c
    case Where(op, i, f) => i < |members| && AllowedOn(members[i], op, f)
    case Both(l, r) => Allowed(l, members) && Allowed(r, members)
    case Either(l, r) => Allowed(l, members) && Allowed(r, members)
  }

  /** A comparison is written as member, operator and value, and a combination of any two predicates as both in their order, in
      parentheses. */
  lemma PredicateTexts(name: string, op: Operator, f: FieldValue, p: Predicate, q: Predicate)
    requires f.DateField? ==> Representable(f.t)
    ensures Evaluate(QueryPredicate(SymbolOf(op), name, ValueText(op, f))) == name + " " + SymbolOf(op) + " " + ValueText(op, f)
    ensures Evaluate(Conjoin(p, q)) == "(" + Evaluate(p) + " AND " + Evaluate(q) + ")"
    ensures Evaluate(Disjoin(p, q)) == "(" + Evaluate(p) + " OR " + Evaluate(q) + ")"
  {
    hide ValueText, Representable, SymbolOf, Clone;
    CloneIsSame(p);
    CloneIsSame(q);
    SpacedWord("(" + Evaluate(p), "AND", " AND ");
    SpacedWord("(" + Evaluate(p), "OR", " OR ");
  }

  lemma SpacedWord(before: string, word: string, spaced: string)
    requires " " + word + " " == spaced
    ensures before + " " + word + " " == before + spaced
  {
  }

  function Build(c: Criterion, members: seq<Member>): Predicate
    requires Allowed(c, members)
  {
    match c
    case Where(op, i, f) => QueryPredicate(SymbolOf(op), members[i].name, ValueText(op, f))
    case Both(l, r) => Conjoin(Build(l, members), Build(r, members))
    case Either(l, r) => Disjoin(Build(l, members), Build(r, members))
  }

  function NumberOf(f: FieldValue): int
    requires f.IntField? || f.RealField?
  {
    if f.IntField? then f.v * 1_000_000 else f.micro
  }

  /** A record of a type whose values can all be written. */
  predicate FitsMembers(record: Record, members: seq<Member>) {
    && |record| == |members|
    && forall i :: 0 <= i < |record| ==> HasClass(record[i], members[i].class_) && Storable(record[i])
  }

  /** Whether a member value x stands in the relation an operator names to a value f. */
  predicate Stands(x: FieldValue, op: Operator, f: FieldValue, m: Member)
    requires AllowedOn(m, op, f) && HasClass(x, m.class_) && Storable(x)
  {
    match op
    case IsEqual => x == f
    case IsUnequal => x != f
    case IsLike => LikeMatches("%" + LikeText(f) + "%", TextOf(CellOf(x)))
    case IsGreater => NumberOf(x) > NumberOf(f)
    case IsGreaterOrEqual => NumberOf(x) >= NumberOf(f)
    case IsSmaller => NumberOf(x) < NumberOf(f)
    case IsSmallerOrEqual => NumberOf(x) <= NumberOf(f)
  }

  /** Whether a record satisfies a criterion, by its member values alone. */
  predicate Satisfies(record: Record, c: Criterion, members: seq<Member>)
    requires FitsMembers(record, members) && Allowed(c, members)
  {
    match c
    case Where(op, i, f) => Stands(record[i], op, f, members[i])
    case Both(l, r) => Satisfies(record, l, members) && Satisfies(record, r, members)
    case Either(l, r) => Satisfies(record, l, members) || Satisfies(record, r, members)
  }

  // ----- What LIKE finds -----

  predicate SameFolded(s: string, t: string) {
    |s| == |t| && forall k :: 0 <= k < |s| ==> Fold(s[k]) == Fold(t[k])
  }

  /** A text occurs at a position, in either case of its letters. */
  predicate OccursFolded(w: string, s: string, k: nat) {
    k + |w| <= |s| && SameFolded(w, s[k..k + |w|])
  }

  predicate HasNoWildcard(w: string) { '%' !in w && '_' !in w }

  lemma {:induction false} AnyTail(s: string)
    ensures LikeMatches("%", s)
    decreases s
  {
    assert "%"[1..] == "";
    if s != "" { AnyTail(s[1..]); }
  }

  lemma {:induction false} PrefixMatches(w: string, s: string)
    requires HasNoWildcard(w)
    ensures LikeMatches(w + "%", s) <==> OccursFolded(w, s, 0)
    decreases w
  {
    if w == "" {
      assert w + "%" == "%";
      AnyTail(s);
    } else {
      assert (w + "%")[1..] == w[1..] + "%" && (w + "%")[0] == w[0];
      assert w[0] in w;
      if s != "" {
        PrefixMatches(w[1..], s[1..]);
        if |w| <= |s| {
          assert forall k :: 1 <= k < |w| ==> w[k] == w[1..][k - 1] && s[0..|w|][k] == s[1..][0..|w| - 1][k - 1];
          assert forall k :: 0 <= k < |w| - 1 ==> w[1..][k] == w[k + 1] && s[1..][0..|w| - 1][k] == s[0..|w|][k + 1];
        }
      }
    }
  }

  /** LIKE of a text without wildcards finds exactly the values the text occurs in, in either case of its letters. */
  lemma {:induction false} LikeFindsOccurrences(w: string, s: string)
    requires HasNoWildcard(w)
    ensures LikeMatches("%" + w + "%", s) <==> exists k :: 0 <= k <= |s| && OccursFolded(w, s, k)
    decreases s
  {
    var p := "%" + w + "%";
    assert p == "%" + (w + "%");
    assert p[0] == '%';
    assert ("%" + (w + "%"))[1..] == w + "%";
    PrefixMatches(w, s);
    if s != "" {
      LikeFindsOccurrences(w, s[1..]);
      forall k | 0 <= k <= |s| - 1 ensures OccursFolded(w, s[1..], k) <==> OccursFolded(w, s, k + 1) {
        if k + |w| <= |s| - 1 { assert s[1..][k..k + |w|] == s[k + 1..k + 1 + |w|]; }
      }
      if LikeMatches(p, s) && !LikeMatches(w + "%", s) {
        var k :| 0 <= k <= |s[1..]| && OccursFolded(w, s[1..], k);
        assert OccursFolded(w, s, k + 1);
      }
      if k :| 0 <= k <= |s| && OccursFolded(w, s, k) {
        if k > 0 { assert OccursFolded(w, s[1..], k - 1); }
      }
    }
  }

  /** The text LIKE looks for: a number as it is printed, a real with its trailing zeros erased but its point kept, a text without
      its quotes, a time as it is stored. */
  lemma LikeTextIs(f: FieldValue)
    requires f.DateField? ==> Representable(f.t)
    ensures match f
            case IntField(v) => LikeText(f) == IntText(v)
            case BoolField(b) => LikeText(f) == if b then "1" else "0"
            case RealField(m) => IsTrimmed(RealText(m), LikeText(f)) && '.' in LikeText(f)
            case TextField(s) => LikeText(f) == Without(s, '\'')
            case DateField(t) => LikeText(f) == SystemTimeText(t)
    ensures Storable(f) ==> LikeText(f) == ContentOf(f)
  {
    hide Representable, SystemTimeText, TrimmedReal, NatText, Without, RealText;
    match f
    case IntField(v) =>
      IntTextIsPlain(v);
      WithoutNothing(IntText(v), '\'');
    case BoolField(b) =>
      SmallText(b);
      WithoutNothing(if b then "1" else "0", '\'');
    case RealField(m) =>
      RealIsPlain(m);
      WithoutNothing(TrimmedReal(m), '\'');
      TrimmedRealParses(m);
      TrimmedIs(m);
    case TextField(s) =>
      WithoutQuotes(s);
      if Storable(f) { WithoutNothing(s, '\''); }
    case DateField(t) =>
      TimeIsUnquoted(t);
      WithoutQuotes(SystemTimeText(t));
      WithoutNothing(SystemTimeText(t), '\'');
  }

  lemma TrimmedIs(m: int)
    ensures IsTrimmed(RealText(m), TrimmedReal(m))
  {
  }

  lemma SmallText(b: bool)
    ensures FromInt(if b then 1 else 0) == if b then "1" else "0"
  {
  }

  lemma WithoutQuotes(s: string)
    ensures Without("'" + s + "'", '\'') == Without(s, '\'')
  {
    hide Without;
    assert "'" + s + "'" == "" + ['\''] + (s + "'") && "" + (s + "'") == s + ['\''] + "" && s + "" == s;
    WithoutSplit("", s + "'", '\'');
    WithoutSplit(s, "", '\'');
  }

  lemma OccursAtStart(w: string, s: string)
    requires w <= s
    ensures OccursFolded(w, s, 0)
  {
    assert s[0..0 + |w|] == w;
  }

  /** LIKE with the value of a stored member finds that member, in all five classes. */
  lemma LikeFindsOwnValue(f: FieldValue)
    requires Storable(f) && HasNoWildcard(LikeText(f))
    ensures LikeMatches("%" + LikeText(f) + "%", TextOf(CellOf(f)))
  {
    hide LikeText, LikeMatches, OccursFolded, SystemTimeText, TrimmedReal, IntText, RealText, CivilYear, Representable;
    LikeTextIs(f);
    if f.BoolField? { SmallText(f.b); }
    if f.TextField? { WithoutNothing(f.s, '\''); }
    if f.RealField? {
      TrimmedIs(f.micro);
      TrimIsUnique(RealText(f.micro), LikeText(f));
      TrimIsUnique(RealText(f.micro), TrimmedReal(f.micro));
    }
    assert LikeText(f) <= TextOf(CellOf(f));
    OccursAtStart(LikeText(f), TextOf(CellOf(f)));
    LikeFindsOccurrences(LikeText(f), TextOf(CellOf(f)));
  }

  // ----- Printing preserves meaning -----

  /** The columns of a type's table. */
  function ColumnsFor(members: seq<Member>): (cs: seq<Column>)
    ensures |cs| == |members|
  {
    seq(|members|, j requires 0 <= j < |members| => Column(members[j].name, AffinityOf(members[j].ColumnTypeName())))
  }

  /** The row a record is stored as. */
  function RowOf(record: Record): (row: Row)
    requires forall i :: 0 <= i < |record| ==> Storable(record[i])
    ensures |row| == |record|
  {
    seq(|record|, j requires 0 <= j < |record| => CellOf(record[j]))
  }

  lemma NatTextIsMagnitude(n: nat)
    ensures IsMagnitudeText(NatText(n))
  {
    var s := NatText(n);
    assert forall k :: 0 <= k < |s| ==> IsDigit(s[k]);
  }

  lemma IntTextIsNumber(v: int)
    ensures IsNumberText(IntText(v)) && !IsQuotedText(IntText(v))
  {
    hide IsMagnitudeText, NatText;
    NatTextIsMagnitude(if v < 0 then -v else v);
    if v < 0 {
      assert ("-" + NatText(-v))[1..] == NatText(-v);
    } else {
      assert IsDigit(NatText(v)[0]);
    }
  }

  lemma TrimmedRealIsNumber(m: int)
    ensures IsNumberText(TrimmedReal(m)) && !IsQuotedText(TrimmedReal(m))
  {
    hide NatText, Padded, Trim, RealText;
    var n := if m < 0 then -m else m;
    var sign, whole, six := if m < 0 then "-" else "", NatText(n / 1_000_000), Padded(n % 1_000_000, 6);
    RealTextParts(m);
    var j := TrimKeepsPoint(sign + whole, six);
    assert TrimmedReal(m) == sign + whole + "." + six[..j];
    MagnitudeWithPoint(whole, six[..j]);
    if m < 0 {
      assert TrimmedReal(m)[1..] == whole + "." + six[..j];
    } else {
      assert TrimmedReal(m) == whole + "." + six[..j];
    }
  }

  lemma MagnitudeWithPoint(whole: string, digits: string)
    requires AllDigits(whole) && whole != "" && AllDigits(digits)
    ensures var s := whole + "." + digits; IsMagnitudeText(s) && IsDigit(s[0])
  {
    var s := whole + "." + digits;
    assert forall k :: 0 <= k < |s| ==>
      s[k] == if k < |whole| then whole[k] else if k == |whole| then '.' else digits[k - |whole| - 1];
  }

  lemma QuotedIsQuoted(s: string)
    requires '\'' !in s
    ensures IsQuotedText("'" + s + "'") && LiteralOfValue("'" + s + "'") == TextLiteral(s)
  {
    var t := "'" + s + "'";
    assert t[1..|t| - 1] == s;
  }

  /** A number's text compares like the number. */
  lemma NumberTextConverts(f: FieldValue)
    requires f.IntField? || f.BoolField? || f.RealField?
    ensures var s := StringForValue(f);
            IsNumberText(s) && LiteralOfValue(s) == NumberLiteral(s)
            && var w := Convert(s, NumericAffinity);
               (w.Integer? || w.Real?) && Micros(w) == Micros(CellOf(f))
  {
    hide IntText, TrimmedReal, IsNumberText, IsQuotedText, ParseWhole, ParseReal;
    match f
    case IntField(v) => IntTextIsNumber(v); WholeTextParses(v);
    case BoolField(b) => IntTextIsNumber(if b then 1 else 0); WholeTextParses(if b then 1 else 0);
    case RealField(m) =>
      TrimmedRealIsNumber(m);
      TrimmedRealParses(m);
      PointIsNotWhole(TrimmedReal(m));
  }

  predicate Plain(s: string) { '\'' !in s && '\0' !in s }

  lemma DigitsArePlain(s: string)
    requires AllDigits(s)
    ensures Plain(s)
  {
    assert forall c :: c in s ==> IsDigit(c);
  }

  lemma IntTextIsPlain(v: int)
    ensures '\'' !in IntText(v)
  {
    hide NatText;
    DigitsArePlain(NatText(if v < 0 then -v else v));
  }

  lemma RealIsPlain(m: int)
    ensures '\'' !in TrimmedReal(m)
  {
    hide NatText, Padded;
    var n := if m < 0 then -m else m;
    DigitsArePlain(NatText(n / 1_000_000));
    DigitsArePlain(Padded(n % 1_000_000, 6));
    assert '\'' !in RealText(m);
    assert TrimmedReal(m) <= RealText(m);
  }

  lemma TimeIsUnquoted(t: int64)
    requires Representable(t)
    ensures '\'' !in SystemTimeText(t)
  {
    hide NatText, TwoDigits, Calendar.FromDays, TimeOfDay.MakeTime, TimeOfDay.FloorDays;
    TimeOfDay.MakeTimeRebuilds(t - TimeOfDay.FloorDays(t) * TimeOfDay.DAY);
    var ymd := Calendar.FromDays(TimeOfDay.FloorDays(t) as int32);
    var tod := TimeOfDay.MakeTime(t - TimeOfDay.FloorDays(t) * TimeOfDay.DAY);
    IntTextIsPlain(ymd.year as int);
    TwoDigitsIsPlain(ymd.month as nat);
    TwoDigitsIsPlain(ymd.day as nat);
    TwoDigitsIsPlain(tod.h);
    TwoDigitsIsPlain(tod.m);
    TwoDigitsIsPlain(tod.s);
    assert '\'' !in DateText(ymd);
    assert '\'' !in TimeText(tod);
  }

  lemma TwoDigitsIsPlain(n: nat)
    ensures '\'' !in TwoDigits(n)
  {
    hide NatText;
    DigitsArePlain(NatText(n));
  }

  /** The value text of an allowed comparison is a number or well quoted, whatever text LIKE is given. */
  lemma ValueTextWellFormed(op: Operator, f: FieldValue)
    requires op != IsLike || !f.TextField? ==> Storable(f)
    ensures IsNumberText(ValueText(op, f)) || IsQuotedText(ValueText(op, f))
    ensures op == IsLike ==> LiteralOfValue(ValueText(op, f)) == TextLiteral("%" + LikeText(f) + "%")
    ensures op != IsLike && f.TextField? ==> LiteralOfValue(ValueText(op, f)) == TextLiteral(f.s)
    ensures op != IsLike && f.DateField? ==> LiteralOfValue(ValueText(op, f)) == TextLiteral(SystemTimeText(f.t))
  {
    hide IsNumberText, IsQuotedText, LiteralOfValue, StringForValue, LikeText, SystemTimeText;
    if op == IsLike { LikeValueText(f); } else { OtherValueText(f); }
  }

  lemma LikeValueText(f: FieldValue)
    requires f.DateField? ==> Representable(f.t)
    ensures IsQuotedText(ValueText(IsLike, f)) && LiteralOfValue(ValueText(IsLike, f)) == TextLiteral("%" + LikeText(f) + "%")
  {
    hide IsQuotedText, LiteralOfValue, StringForValue, Representable;
    QuotedIsQuoted("%" + LikeText(f) + "%");
    assert ValueText(IsLike, f) == "'" + ("%" + LikeText(f) + "%") + "'";
  }

  lemma OtherValueText(f: FieldValue)
    requires Storable(f)
    ensures IsNumberText(StringForValue(f)) || IsQuotedText(StringForValue(f))
    ensures f.TextField? ==> LiteralOfValue(StringForValue(f)) == TextLiteral(f.s)
    ensures f.DateField? ==> LiteralOfValue(StringForValue(f)) == TextLiteral(SystemTimeText(f.t))
  {
    hide IsNumberText, IsQuotedText, LiteralOfValue, SystemTimeText, CivilYear, Representable, IntText, TrimmedReal, Convert;
    match f
    case TextField(s) => QuotedIsQuoted(s);
    case DateField(t) => TimeIsUnquoted(t); QuotedIsQuoted(SystemTimeText(t));
    case _ => NumberTextConverts(f);
  }

  /** A comparison of a stored member with a printed value means what the operator says of the two values. */
  lemma EqualityPreserved(x: FieldValue, f: FieldValue, c: StorageClass)
    requires HasClass(x, c) && Storable(x) && HasClass(f, c) && Storable(f)
    ensures Compares(Eq, CellOf(x), AffinityOf(ColumnType(c)), LiteralOfValue(StringForValue(f))) <==> x == f
    ensures Compares(Ne, CellOf(x), AffinityOf(ColumnType(c)), LiteralOfValue(StringForValue(f))) <==> x != f
  {
    hide LiteralOfValue, SystemTimeText, CivilYear, Representable, IntText, TrimmedReal, ParseWhole, ParseReal, IsNumberText,
         IsQuotedText;
    assert ValueText(IsEqual, f) == StringForValue(f);
    ValueTextWellFormed(IsEqual, f);
    match f
    case TextField(s) =>
    case DateField(t) =>
      SystemTimeTextIsInjective(x.t, t);
      TimeTextEndsInZ(t);
      LastCharRulesOutNumber(SystemTimeText(t));
    case _ =>
      NumberTextConverts(f);
  }

  lemma OrderPreserved(x: FieldValue, f: FieldValue, c: StorageClass)
    requires HasClass(x, c) && Storable(x) && HasClass(f, c) && (f.IntField? || f.RealField?)
    ensures var v, a, l := CellOf(x), AffinityOf(ColumnType(c)), LiteralOfValue(StringForValue(f));
            && (Compares(Gt, v, a, l) <==> NumberOf(x) > NumberOf(f))
            && (Compares(Ge, v, a, l) <==> NumberOf(x) >= NumberOf(f))
            && (Compares(Lt, v, a, l) <==> NumberOf(x) < NumberOf(f))
            && (Compares(Le, v, a, l) <==> NumberOf(x) <= NumberOf(f))
  {
    hide LiteralOfValue, IntText, TrimmedReal, ParseWhole, ParseReal, IsNumberText, IsQuotedText;
    NumberTextConverts(f);
  }

  lemma {:induction false} BuildIsWellFormed(c: Criterion, members: seq<Member>)
    requires Allowed(c, members)
    ensures WellFormed(Build(c, members)) && !HasEmpty(Build(c, members))
    decreases c
  {
    hide ValueText, IsNumberText, IsQuotedText, IsName;
    match c
    case Where(op, i, f) => ValueTextWellFormed(op, f);
    case Both(l, r) =>
      BuildIsWellFormed(l, members);
      BuildIsWellFormed(r, members);
      CloneIsSame(Build(l, members));
      CloneIsSame(Build(r, members));
    case Either(l, r) =>
      BuildIsWellFormed(l, members);
      BuildIsWellFormed(r, members);
      CloneIsSame(Build(l, members));
      CloneIsSame(Build(r, members));
  }

  predicate DistinctMembers(members: seq<Member>) {
    forall i, j :: 0 <= i < j < |members| ==> Upper(members[i].name) != Upper(members[j].name)
  }

  /** A predicate made from a pointer to member is the comparison of that member if and only if no zero byte of the member's
      offset lies below a non-zero one. */
  lemma PointerBuildsIff(members: seq<Member>, i: nat, pointer: seq<uint8>, op: Operator, f: FieldValue, misread: Misreading)
    requires DistinctOffsets(members) && DistinctMembers(members) && i < |members| && AllowedOn(members[i], op, f)
    requires LittleEndian(pointer) == members[i].offset
    ensures PredicateFor(members, pointer, op, f, misread) == Build(Where(op, i, f), members) <==> NoGap(pointer)
  {
    hide LiteralText, StringForValue, LittleEndian, CString, NoGap, Upper, Storable;
    PointerNamesMemberIff(members, i, pointer);
    assert members[i].name != "" by { NameIsIdentifier(members[i].name); }
  }

  /** A criterion whose comparisons are all made from pointers to its members. */
  function BuildFromPointers(c: Criterion, members: seq<Member>, misread: Misreading): Predicate
    requires Allowed(c, members)
  {
    match c
    case Where(op, i, f) => PredicateFor(members, PointerTo(members[i]), op, f, misread)
    case Both(l, r) => Conjoin(BuildFromPointers(l, members, misread), BuildFromPointers(r, members, misread))
    case Either(l, r) => Disjoin(BuildFromPointers(l, members, misread), BuildFromPointers(r, members, misread))
  }

  predicate ValidOffsets(members: seq<Member>) {
    DistinctOffsets(members) && forall i :: 0 <= i < |members| ==> ValidOffset(members[i])
  }

  /** No member that a criterion mentions has a gap in its offset. */
  predicate GapFree(c: Criterion, members: seq<Member>)
    requires Allowed(c, members)
  {
    match c
    case Where(_, i, _) => NoGap(PointerTo(members[i]))
    case Both(l, r) => GapFree(l, members) && GapFree(r, members)
    case Either(l, r) => GapFree(l, members) && GapFree(r, members)
  }

  /** A whole tree made from pointers is the tree of the members meant if and only if none of them has a gap in its offset. */
  lemma {:induction false} BuildFromPointersIff(c: Criterion, members: seq<Member>, misread: Misreading)
    requires ValidOffsets(members) && DistinctMembers(members) && Allowed(c, members)
    ensures BuildFromPointers(c, members, misread) == Build(c, members) <==> GapFree(c, members)
    decreases c
  {
    hide PredicateFor, NoGap, PointerTo, ValueText, DistinctMembers, ValidOffsets, DistinctOffsets, IsName, Storable;
    match c
    case Where(op, i, f) => MemberPointerBuildsIff(members, i, op, f, misread);
    case Both(l, r) =>
      BuildFromPointersIff(l, members, misread);
      BuildFromPointersIff(r, members, misread);
      ClonesOfOperands(l, r, members, misread);
    case Either(l, r) =>
      BuildFromPointersIff(l, members, misread);
      BuildFromPointersIff(r, members, misread);
      ClonesOfOperands(l, r, members, misread);
  }

  lemma MemberPointerBuildsIff(members: seq<Member>, i: nat, op: Operator, f: FieldValue, misread: Misreading)
    requires ValidOffsets(members) && DistinctMembers(members) && i < |members| && AllowedOn(members[i], op, f)
    ensures PredicateFor(members, PointerTo(members[i]), op, f, misread) == Build(Where(op, i, f), members)
            <==> NoGap(PointerTo(members[i]))
  {
    hide PredicateFor, NoGap, PointerTo, Build, DistinctMembers, IsName, Storable;
    PointerHolds(members[i]);
    PointerBuildsIff(members, i, PointerTo(members[i]), op, f, misread);
  }

  lemma ClonesOfOperands(l: Criterion, r: Criterion, members: seq<Member>, misread: Misreading)
    requires Allowed(l, members) && Allowed(r, members)
    ensures var (pl, pr) := (BuildFromPointers(l, members, misread), BuildFromPointers(r, members, misread));
            && Clone(pl) == pl && Clone(pr) == pr
            && Clone(Build(l, members)) == Build(l, members) && Clone(Build(r, members)) == Build(r, members)
  {
    hide Allowed, BuildFromPointers, Build, Clone;
    CloneIsSame(BuildFromPointers(l, members, misread));
    CloneIsSame(BuildFromPointers(r, members, misread));
    CloneIsSame(Build(l, members));
    CloneIsSame(Build(r, members));
  }

  // ----- Where pointers with a gap lead -----

  /** The member that a pointer to a member finds. */
  function FoundFrom(m: Member, members: seq<Member>): (i: Option<nat>)
    ensures i.Some? ==> i.value < |members|
  {
    IndexOfOffset(members, LittleEndian(CString(PointerTo(m))), 0)
  }

  /** Every comparison finds some member of the same class. */
  predicate Redirects(c: Criterion, members: seq<Member>)
    requires Allowed(c, members)
  {
    match c
    case Where(op, i, f) =>
      var j := FoundFrom(members[i], members);
      j.Some? && HasClass(f, members[j.value].class_)
    case Both(l, r) => Redirects(l, members) && Redirects(r, members)
    case Either(l, r) => Redirects(l, members) && Redirects(r, members)
  }

  /** The criterion on the members found. */
  function Redirected(c: Criterion, members: seq<Member>): Criterion
    requires Allowed(c, members) && Redirects(c, members)
  {
    match c
    case Where(op, i, f) => Where(op, FoundFrom(members[i], members).value, f)
    case Both(l, r) => Both(Redirected(l, members), Redirected(r, members))
    case Either(l, r) => Either(Redirected(l, members), Redirected(r, members))
  }

  /** A tree made from pointers is the tree of the members that the pointers find, whichever those are. */
  lemma {:induction false} BuildFromPointersRedirects(c: Criterion, members: seq<Member>, misread: Misreading)
    requires Allowed(c, members) && Redirects(c, members)
    requires forall i :: 0 <= i < |members| ==> IsName(members[i].name)
    ensures Allowed(Redirected(c, members), members)
    ensures BuildFromPointers(c, members, misread) == Build(Redirected(c, members), members)
    decreases c
  {
    hide FoundFrom, IndexOfOffset, PointerTo, LiteralText, StringForValue, IsName, Storable;
    match c
    case Where(op, i, f) => FoundIsNamed(members, i, op, f, misread);
    case Both(l, r) =>
      BuildFromPointersRedirects(l, members, misread);
      BuildFromPointersRedirects(r, members, misread);
    case Either(l, r) =>
      BuildFromPointersRedirects(l, members, misread);
      BuildFromPointersRedirects(r, members, misread);
  }

  lemma FoundIsNamed(members: seq<Member>, i: nat, op: Operator, f: FieldValue, misread: Misreading)
    requires i < |members| && AllowedOn(members[i], op, f)
    requires FoundFrom(members[i], members).Some?
    ensures var j := FoundFrom(members[i], members).value;
            HasClass(f, members[j].class_) ==>
              PredicateFor(members, PointerTo(members[i]), op, f, misread)
              == QueryPredicate(SymbolOf(op), members[j].name, ValueText(op, f))
  {
    hide IndexOfOffset, LittleEndian, CString, PointerTo, LiteralText, StringForValue, IsName, Storable;
  }

  lemma {:induction false} IndexOfDistinct(names: seq<string>, i: nat)
    requires i < |names| && DistinctNames(names)
    ensures IndexOf(names, names[i]) == Some(i)
    decreases names
  {
    if 0 < i {
      assert Upper(names[0]) != Upper(names[i]);
      IndexOfDistinct(names[1..], i - 1);
    }
  }

  lemma IndexOfMember(members: seq<Member>, i: nat)
    requires i < |members| && DistinctMembers(members)
    ensures IndexOf(NamesOf(ColumnsFor(members)), members[i].name) == Some(i)
  {
    var names := NamesOf(ColumnsFor(members));
    assert forall k :: 0 <= k < |members| ==> names[k] == members[k].name;
    IndexOfDistinct(names, i);
  }

  lemma OperatorOfSymbol(op: Operator)
    ensures OperatorOf(SymbolOf(op)) ==
            match op case IsEqual => Eq case IsUnequal => Ne case IsLike => LikePattern
                     case IsGreater => Gt case IsGreaterOrEqual => Ge case IsSmaller => Lt case IsSmallerOrEqual => Le
  {
  }

  lemma MemberMeaning(x: FieldValue, op: Operator, f: FieldValue, m: Member)
    requires AllowedOn(m, op, f) && HasClass(x, m.class_) && Storable(x)
    ensures Compares(OperatorOf(SymbolOf(op)), CellOf(x), AffinityOf(m.ColumnTypeName()), LiteralOfValue(ValueText(op, f)))
            <==> Stands(x, op, f, m)
  {
    hide LiteralOfValue, StringForValue, LikeText, IsName, LikeMatches, TextOf, Compares, CellOf, Representable, CivilYear,
         ValueText, AffinityOf;
    OperatorOfSymbol(op);
    assert op != IsLike ==> ValueText(op, f) == StringForValue(f) by { OtherValueTextIs(op, f); }
    match op
    case IsLike =>
      CellNotNull(x);
      LikeMeaning(CellOf(x), f, AffinityOf(m.ColumnTypeName()));
    case IsEqual => EqualityPreserved(x, f, m.class_);
    case IsUnequal => EqualityPreserved(x, f, m.class_);
    case _ => OrderPreserved(x, f, m.class_);
  }

  lemma OtherValueTextIs(op: Operator, f: FieldValue)
    requires f.DateField? ==> Representable(f.t)
    ensures op != IsLike ==> ValueText(op, f) == StringForValue(f)
  {
    hide StringForValue, LikeText;
  }

  lemma CellNotNull(x: FieldValue)
    requires Storable(x)
    ensures CellOf(x) != Null
  {
    hide SystemTimeText, Representable, CivilYear;
  }

  lemma LikeMeaning(v: Cell, f: FieldValue, a: Affinity)
    requires v != Null && (f.DateField? ==> Representable(f.t))
    ensures Compares(LikePattern, v, a, LiteralOfValue(ValueText(IsLike, f)))
            <==> LikeMatches("%" + LikeText(f) + "%", TextOf(v))
  {
    hide LiteralOfValue, LikeText, LikeMatches, TextOf, Convert, Representable, ValueText;
    LikeValueText(f);
  }

  /** Evaluating the printed predicate on the stored row decides the criterion on the record. */
  lemma {:induction false} MeaningPreserved(record: Record, c: Criterion, members: seq<Member>)
    requires FitsMembers(record, members) && Allowed(c, members) && DistinctMembers(members)
    ensures WellFormed(Build(c, members)) && !HasEmpty(Build(c, members))
    ensures var condition := ConditionOf(Build(c, members));
            && Knows(ColumnsFor(members), condition)
            && (Holds(ColumnsFor(members), RowOf(record), condition) <==> Satisfies(record, c, members))
    decreases c
  {
    hide Compares, CellOf, ValueText, LiteralOfValue, IsNumberText, IsQuotedText, IsName, DistinctMembers;
    BuildIsWellFormed(c, members);
    match c
    case Where(op, i, f) =>
      IndexOfMember(members, i);
      MemberMeaning(record[i], op, f, members[i]);
    case Both(l, r) =>
      MeaningPreserved(record, l, members);
      MeaningPreserved(record, r, members);
      CloneIsSame(Build(l, members));
      CloneIsSame(Build(r, members));
    case Either(l, r) =>
      MeaningPreserved(record, l, members);
      MeaningPreserved(record, r, members);
      CloneIsSame(Build(l, members));
      CloneIsSame(Build(r, members));
  }
}
