// A printer for conditions that writes no more parentheses than it must, and the proof that lexing and parsing undo it.
module Printer {
  import opened Bytes
  import opened Results
  import opened Values
  import opened Lexer
  import opened Grammar
  import opened Seqs
  import Ast
  import Parser

  // How a double is written.
  type Write = U64 -> seq<Byte>

  // ---------- Doubles as text ----------

  ghost predicate IsNegative(t: seq<Byte>) {
    t != [] && t[0] == 45
  }

  // Digits, a point and digits.
  ghost predicate IsFraction(t: seq<Byte>, n: nat) {
    && 0 < n < |t| - 1 && t[n] == POINT
    && forall i :: 0 <= i < |t| && i != n ==> IsDigit(t[i])
  }

  ghost predicate IsDecimal(t: seq<Byte>) {
    exists n: nat :: IsFraction(t, n)
  }

  // A double that is written as a sign or none, digits, a point and digits, and is read back from that.
  ghost predicate Readable(bits: U64, d: Decimal, w: Write) {
    d(w(bits)) == Some(bits) && IsDecimal(if IsNegative(w(bits)) then w(bits)[1..] else w(bits))
  }

  // ---------- Printing ----------

  ghost function Digits(n: nat): seq<Byte> {
    if n < 10 then [48 + n] else Digits(n / 10) + [48 + n % 10]
  }

  ghost function Doubled(t: seq<Byte>): seq<Byte> {
    if t == [] then [] else (if t[0] == QUOTE then [QUOTE, QUOTE] else [t[0]]) + Doubled(t[1..])
  }

  ghost function Quoted(t: seq<Byte>): seq<Byte> {
    [QUOTE] + (Doubled(t) + [QUOTE])
  }

  ghost function Keyword(kind: TokenType): Lexeme {
    Lexeme(kind, Word(kind))
  }

  ghost function LiteralTokens(v: Value, w: Write): seq<Lexeme> {
    match v
    case Null => [Keyword(TokenType.Null)]
    case Integer(i) =>
      var n: int := i;
      if n < 0 then [Lexeme(Minus, [45]), Lexeme(IntegerLiteral, Digits(-n))] else [Lexeme(IntegerLiteral, Digits(n))]
    case Double(bits) =>
      if IsNegative(w(bits)) then [Lexeme(Minus, [45]), Lexeme(FloatingPointLiteral, w(bits)[1..])] else [Lexeme(FloatingPointLiteral, w(bits))]
    case Varchar(t) => [Lexeme(StringLiteral, Quoted(t))]
  }

  ghost function OperatorTokens(operation: Ast.Comparison): seq<Lexeme> {
    match operation
    case Equals => [Lexeme(TokenType.Equal, [61])]
    case NotEquals => [Lexeme(NotEqual, [33, 61])]
    case LessThan => [Lexeme(LessThan, [60])]
    case LessOrEqual => [Lexeme(LessThanOrEqual, [60, 61])]
    case GreaterThan => [Lexeme(GreaterThan, [62])]
    case GreaterOrEqual => [Lexeme(GreaterThanOrEqual, [62, 61])]
    case IsNull => [Keyword(Is), Keyword(TokenType.Null)]
    case IsNotNull => [Keyword(Is), Keyword(Not), Keyword(TokenType.Null)]
  }

  ghost predicate TestsNull(operation: Ast.Comparison) {
    operation.IsNull? || operation.IsNotNull?
  }

  // A word the lexer takes for a name.
  ghost predicate IsName(c: seq<Byte>) {
    c != [] && IdentifierStart(c[0]) && (forall i :: 0 <= i < |c| ==> IdentifierPart(c[i])) && WordType(c) == Identifier
  }

  // Conditions the language can express.
  ghost predicate Printable(e: Ast.Expression, d: Decimal, w: Write) {
    match e
    case Compare(column, operation, value) => IsName(column) && (value.Double? ==> Readable(value.bits, d, w)) && (TestsNull(operation) ==> value.Null?)
    case And(left, right) => Printable(left, d, w) && Printable(right, d, w)
    case Or(left, right) => Printable(left, d, w) && Printable(right, d, w)
  }

  ghost function ComparisonTokens(e: Ast.Expression, w: Write): seq<Lexeme>
    requires e.Compare?
  {
    [Lexeme(Identifier, e.column)] +
      (if TestsNull(e.operation) then OperatorTokens(e.operation) else OperatorTokens(e.operation) + LiteralTokens(e.value, w))
  }

  // As an operand of OR on the left, of AND on the left, and of AND on the right.
  ghost function OrTokens(e: Ast.Expression, w: Write): seq<Lexeme>
    decreases e, if e.Or? then 0 else if e.And? then 1 else 2
  {
    if e.Or? then OrTokens(e.left, w) + ([Keyword(TokenType.Or)] + AndTokens(e.right, w)) else AndTokens(e, w)
  }

  ghost function AndTokens(e: Ast.Expression, w: Write): seq<Lexeme>
    decreases e, if e.And? then 0 else if e.Compare? then 1 else 2
  {
    if e.And? then AndTokens(e.left, w) + ([Keyword(TokenType.And)] + PrimaryTokens(e.right, w)) else PrimaryTokens(e, w)
  }

  ghost function PrimaryTokens(e: Ast.Expression, w: Write): seq<Lexeme>
    decreases e, if e.Compare? then 0 else if e.Or? then 1 else 2
  {
    if e.Compare? then ComparisonTokens(e, w)
    else [Lexeme(LeftParen, [40])] + (OrTokens(e, w) + [Lexeme(RightParen, [41])])
  }

  // Tokens as text, a space after each.
  ghost function Text(ls: seq<Lexeme>): seq<Byte> {
    if ls == [] then [] else ls[0].text + ([SPACE] + Text(ls[1..]))
  }

  // ---------- Parsing undoes printing, token by token ----------

  lemma {:induction false} DigitsBack(n: nat)
    ensures Digits(n) != [] && DigitsValue(Digits(n)) == n
    ensures forall i :: 0 <= i < |Digits(n)| ==> IsDigit(Digits(n)[i])
  {
    if n < 10 {
      assert Digits(n)[..0] == [];
      assert DigitsValue(Digits(n)) == 10 * DigitsValue([]) + n;
    } else {
      DigitsBack(n / 10);
      var d := Digits(n);
      assert d[..|d| - 1] == Digits(n / 10);
    }
  }

  // Zeros in front make no difference.
  lemma {:induction false} LeadingZero(t: seq<Byte>)
    ensures DigitsValue([48] + t) == DigitsValue(t)
  {
    var d := [48] + t;
    if t == [] {
      assert d[..0] == [];
      assert DigitsValue(d) == 10 * DigitsValue([]) + 0;
    } else {
      LeadingZero(t[..|t| - 1]);
      assert d[..|d| - 1] == [48] + t[..|t| - 1];
    }
  }

  lemma {:induction false} UndoubleDoubled(t: seq<Byte>)
    ensures Undouble(Doubled(t)) == t
  {
    if t != [] {
      UndoubleDoubled(t[1..]);
      var rest := Doubled(t[1..]);
      if t[0] == QUOTE {
        assert Doubled(t) == [QUOTE, QUOTE] + rest && Doubled(t)[2..] == rest;
      } else {
        assert Doubled(t) == [t[0]] + rest && Doubled(t)[1..] == rest;
      }
      assert t == [t[0]] + t[1..];
    }
  }

  // A floating-point literal with a minus sign in front is read with the sign, and without one as it stands.
  lemma DoubleIs(t: seq<Byte>, rest: seq<Lexeme>, d: Decimal)
    ensures ParseLiteral([Lexeme(Minus, [45]), Lexeme(FloatingPointLiteral, t)] + rest, d) ==
      match d([45] + t) case None => None case Some(bits) => Some((Double(bits), rest))
    ensures ParseLiteral([Lexeme(FloatingPointLiteral, t)] + rest, d) ==
      match d(t) case None => None case Some(bits) => Some((Double(bits), rest))
  {
    var number := [Lexeme(FloatingPointLiteral, t)] + rest;
    assert number[1..] == rest;
    assert ([Lexeme(Minus, [45]), Lexeme(FloatingPointLiteral, t)] + rest)[1..] == number;
  }

  lemma DoubleBack(bits: U64, rest: seq<Lexeme>, d: Decimal, w: Write)
    requires Readable(bits, d, w)
    ensures ParseLiteral(LiteralTokens(Double(bits), w) + rest, d) == Some((Double(bits), rest))
  {
    hide ParseLiteral, IsDecimal;
    var t := w(bits);
    if IsNegative(t) {
      assert [45] + t[1..] == t;
      DoubleIs(t[1..], rest, d);
    } else {
      DoubleIs(t, rest, d);
    }
  }

  lemma LiteralBack(v: Value, rest: seq<Lexeme>, d: Decimal, w: Write)
    requires v.Double? ==> Readable(v.bits, d, w)
    ensures ParseLiteral(LiteralTokens(v, w) + rest, d) == Some((v, rest))
  {
    hide Digits, DigitsValue, Undouble, Doubled, IsDecimal;
    var b := LiteralTokens(v, w) + rest;
    match v
    case Null =>
      assert b[1..] == rest;
    case Integer(i) =>
      var n: int := i;
      DigitsBack(if n < 0 then -n else n);
      if n < 0 {
        assert b[1..] == [Lexeme(IntegerLiteral, Digits(-n))] + rest;
        assert b[1..][1..] == rest;
      } else {
        assert b[1..] == rest;
      }
    case Double(bits) =>
      DoubleBack(bits, rest, d, w);
    case Varchar(t) =>
      UndoubleDoubled(t);
      var q := Quoted(t);
      assert q[1..|q| - 1] == Doubled(t) && b[1..] == rest;
  }

  lemma ComparisonBack(e: Ast.Expression, rest: seq<Lexeme>, d: Decimal, w: Write)
    requires e.Compare? && Printable(e, d, w)
    ensures ParseComparison(ComparisonTokens(e, w) + rest, d) == Some((e, rest))
    ensures NextKind(ComparisonTokens(e, w) + rest) == Identifier
  {
    hide ParseLiteral, LiteralTokens, IsName, OperatorTokens, ParseComparison;
    var b, name := ComparisonTokens(e, w) + rest, [Lexeme(Identifier, e.column)];
    if TestsNull(e.operation) {
      assert b == name + (OperatorTokens(e.operation) + rest);
      NullTestBack(b, e.column, e.operation, rest, d);
    } else {
      LiteralBack(e.value, rest, d, w);
      assert b == name + (OperatorTokens(e.operation) + (LiteralTokens(e.value, w) + rest));
      OperatorBack(b, e.column, e.operation, LiteralTokens(e.value, w) + rest, d);
    }
  }

  lemma NullTestBack(b: seq<Lexeme>, column: seq<Byte>, operation: Ast.Comparison, rest: seq<Lexeme>, d: Decimal)
    requires TestsNull(operation) && b == [Lexeme(Identifier, column)] + (OperatorTokens(operation) + rest)
    ensures ParseComparison(b, d) == Some((Ast.Compare(column, operation, Value.Null), rest))
  {
    hide ParseLiteral, ParseNullTest, OperatorTokens, OperatorOf, Word;
    var c := b[1..];
    assert c == OperatorTokens(operation) + rest;
    AfterIs(column, operation, rest);
    assert Take(b, Identifier) == Some((column, c));
  }

  lemma AfterIs(column: seq<Byte>, operation: Ast.Comparison, rest: seq<Lexeme>)
    requires TestsNull(operation)
    ensures var c := OperatorTokens(operation) + rest;
      NextKind(c) == Is && ParseNullTest(column, c[1..]) == Some((Ast.Compare(column, operation, Value.Null), rest))
  {
    hide Word;
    var c, word := OperatorTokens(operation) + rest, [Keyword(TokenType.Null)];
    if operation.IsNotNull? {
      assert c[1..][0] == Keyword(Not) && c[1..][1..] == word + rest && (word + rest)[1..] == rest;
    } else {
      assert c[1..] == word + rest && (word + rest)[1..] == rest;
    }
  }

  lemma OperatorBack(b: seq<Lexeme>, column: seq<Byte>, operation: Ast.Comparison, more: seq<Lexeme>, d: Decimal)
    requires !TestsNull(operation) && b == [Lexeme(Identifier, column)] + (OperatorTokens(operation) + more)
    ensures ParseComparison(b, d) ==
      match ParseLiteral(more, d) case None => None case Some(v) => Some((Ast.Compare(column, operation, v.0), v.1))
  {
    hide ParseLiteral, OperatorTokens, OperatorOf;
    OneOperator(operation);
    assert b[1..] == OperatorTokens(operation) + more;
    assert b[1..][1..] == more;
  }

  lemma OneOperator(operation: Ast.Comparison)
    requires !TestsNull(operation)
    ensures |OperatorTokens(operation)| == 1
    ensures var kind := OperatorTokens(operation)[0].kind; OperatorOf(kind) == Some(operation) && kind != Is
  {}

  // A condition in front of anything that does not continue it. The loops of the parser group to the left, so a
  // left operand is followed by the rest of its own loop.
  lemma {:induction false} OrBack(e: Ast.Expression, rest: seq<Lexeme>, d: Decimal, w: Write)
    requires Printable(e, d, w) && NextKind(rest) != TokenType.And
    ensures ParseOr(OrTokens(e, w) + rest, d) == OrRest(e, rest, d)
    decreases e, if e.Or? then 0 else if e.And? then 1 else 2
  {
    hide ParsePrimary;
    if e.Or? {
      var more := [Keyword(TokenType.Or)] + (AndTokens(e.right, w) + rest);
      Join(OrTokens(e.left, w), Keyword(TokenType.Or), AndTokens(e.right, w), rest);
      OrBack(e.left, more, d, w);
      AndBack(e.right, rest, d, w);
      assert more[1..] == AndTokens(e.right, w) + rest;
    } else {
      AndBack(e, rest, d, w);
    }
  }

  lemma {:induction false} AndBack(e: Ast.Expression, rest: seq<Lexeme>, d: Decimal, w: Write)
    requires Printable(e, d, w)
    ensures ParseAnd(AndTokens(e, w) + rest, d) == AndRest(e, rest, d)
    decreases e, if e.And? then 0 else if e.Compare? then 1 else 2
  {
    if e.And? {
      var more := [Keyword(TokenType.And)] + (PrimaryTokens(e.right, w) + rest);
      Join(AndTokens(e.left, w), Keyword(TokenType.And), PrimaryTokens(e.right, w), rest);
      AndBack(e.left, more, d, w);
      PrimaryBack(e.right, rest, d, w);
      assert more[1..] == PrimaryTokens(e.right, w) + rest;
    } else {
      PrimaryBack(e, rest, d, w);
    }
  }

  lemma {:induction false} PrimaryBack(e: Ast.Expression, rest: seq<Lexeme>, d: Decimal, w: Write)
    requires Printable(e, d, w)
    ensures ParsePrimary(PrimaryTokens(e, w) + rest, d) == Some((e, rest))
    decreases e, if e.Compare? then 0 else if e.Or? then 1 else 2
  {
    hide Printable, OrTokens, ComparisonTokens, NextKind, OrRest, ParseEnclosed, ParseComparison, ParseOr;
    if e.Compare? {
      ComparisonBack(e, rest, d, w);
    } else {
      var close := [Lexeme(RightParen, [41])] + rest;
      Parenthesised(OrTokens(e, w), rest);
      NextIs(Lexeme(RightParen, [41]), rest);
      OrBack(e, close, d, w);
      Closed(e, OrTokens(e, w) + close, rest, d);
    }
  }

  lemma Parenthesised(inner: seq<Lexeme>, rest: seq<Lexeme>)
    ensures var b := [Lexeme(LeftParen, [40])] + (inner + [Lexeme(RightParen, [41])]) + rest;
      NextKind(b) == LeftParen && b[1..] == inner + ([Lexeme(RightParen, [41])] + rest)
  {}

  lemma NextIs(l: Lexeme, rest: seq<Lexeme>)
    ensures NextKind([l] + rest) == l.kind
  {}

  lemma Closed(e: Ast.Expression, b: seq<Lexeme>, rest: seq<Lexeme>, d: Decimal)
    requires ParseOr(b, d) == OrRest(e, [Lexeme(RightParen, [41])] + rest, d)
    ensures ParseEnclosed(b, d) == Some((e, rest))
  {
    hide ParseOr;
    assert ([Lexeme(RightParen, [41])] + rest)[1..] == rest;
  }

  lemma Join(a: seq<Lexeme>, word: Lexeme, b: seq<Lexeme>, rest: seq<Lexeme>)
    ensures a + ([word] + b) + rest == a + ([word] + (b + rest))
  {}

  // ---------- Lexing undoes writing ----------

  // However a text goes on after a space, its first token is this one.
  ghost predicate Scannable(l: Lexeme) {
    && l.text != [] && !IsSpace(l.text[0])
    && forall rest: seq<Byte> :: Scan(l.text + ([SPACE] + rest)) == (l.kind, |l.text|)
  }

  ghost predicate AllScannable(ls: seq<Lexeme>) {
    forall i :: 0 <= i < |ls| ==> Scannable(ls[i])
  }

  lemma {:induction false} TextLexes(ls: seq<Lexeme>)
    requires AllScannable(ls)
    ensures Lex(Text(ls)) == ls + [Lexeme(EndOfInput, [])]
  {
    hide Scan;
    if ls != [] {
      TextLexes(ls[1..]);
      var tail := Text(ls[1..]);
      var s := Text(ls);
      assert Scannable(ls[0]) && Scan(s) == (ls[0].kind, |ls[0].text|);
      assert s[..|ls[0].text|] == ls[0].text && s[|ls[0].text|..] == [SPACE] + tail;
      assert ([SPACE] + tail)[1..] == tail;
      assert ls[0] == Lexeme(Scan(s).0, s[..Scan(s).1]);
      assert ls == [ls[0]] + ls[1..];
    } else {
      assert Lex([]) == [Lexeme(EndOfInput, [])];
    }
  }

  lemma RunExact(s: seq<Byte>, n: nat, p: Byte -> bool)
    requires n < |s| && !p(s[n]) && forall i :: 0 <= i < n ==> p(s[i])
    ensures Run(s, p) == n
  {}

  // A word, whether a name or a keyword.
  lemma WordScans(c: seq<Byte>)
    requires c != [] && IdentifierStart(c[0]) && forall i :: 0 <= i < |c| ==> IdentifierPart(c[i])
    ensures Scannable(Lexeme(WordType(c), c))
  {
    hide WordType;
    forall rest: seq<Byte>
      ensures Scan(c + ([SPACE] + rest)) == (WordType(c), |c|)
    {
      var s := c + ([SPACE] + rest);
      assert s[1..][|c| - 1] == SPACE && forall i :: 0 <= i < |c| - 1 ==> s[1..][i] == c[i + 1];
      RunExact(s[1..], |c| - 1, IdentifierPart);
      assert s[..|c|] == c;
    }
  }

  lemma NumberScans(t: seq<Byte>)
    requires t != [] && forall i :: 0 <= i < |t| ==> IsDigit(t[i])
    ensures Scannable(Lexeme(IntegerLiteral, t))
  {
    hide WordType;
    forall rest: seq<Byte>
      ensures Scan(t + ([SPACE] + rest)) == (IntegerLiteral, |t|)
    {
      var s := t + ([SPACE] + rest);
      assert s[|t|] == SPACE && forall i :: 0 <= i < |t| ==> s[i] == t[i];
      RunExact(s, |t|, IsDigit);
    }
  }

  lemma DecimalScans(t: seq<Byte>)
    requires IsDecimal(t)
    ensures Scannable(Lexeme(FloatingPointLiteral, t))
  {
    hide WordType, Run;
    var n: nat :| IsFraction(t, n);
    forall rest: seq<Byte>
      ensures Scan(t + ([SPACE] + rest)) == (FloatingPointLiteral, |t|)
    {
      var s := t + ([SPACE] + rest);
      assert s[|t|] == SPACE && forall i :: 0 <= i < |t| ==> s[i] == t[i];
      RunExact(s, n, IsDigit);
      var after := s[n + 1..];
      assert after[|t| - n - 1] == SPACE && forall i :: 0 <= i < |t| - n - 1 ==> after[i] == s[n + 1 + i];
      RunExact(after, |t| - n - 1, IsDigit);
    }
  }

  lemma {:induction false} QuotedCloses(t: seq<Byte>, rest: seq<Byte>)
    ensures StringRest(Doubled(t) + ([QUOTE, SPACE] + rest)) == Some(|Doubled(t)| + 1)
  {
    var s := Doubled(t) + ([QUOTE, SPACE] + rest);
    if t != [] {
      QuotedCloses(t[1..], rest);
      var more := Doubled(t[1..]) + ([QUOTE, SPACE] + rest);
      if t[0] == QUOTE {
        assert s == [QUOTE, QUOTE] + more && s[2..] == more;
      } else {
        assert s == [t[0]] + more && s[1..] == more;
      }
    } else {
      assert s == [QUOTE, SPACE] + rest;
    }
  }

  lemma QuotedScans(t: seq<Byte>)
    ensures Scannable(Lexeme(StringLiteral, Quoted(t)))
  {
    hide WordType;
    forall rest: seq<Byte>
      ensures Scan(Quoted(t) + ([SPACE] + rest)) == (StringLiteral, |Quoted(t)|)
    {
      var s := Quoted(t) + ([SPACE] + rest);
      assert s[1..] == Doubled(t) + ([QUOTE, SPACE] + rest);
      QuotedCloses(t, rest);
    }
  }

  // Length and first two letters tell the keywords apart.
  ghost function Code(word: seq<Byte>): int {
    if |word| < 2 then 0 else (|word| * 32 + word[0] - 64) * 32 + word[1] - 64
  }

  ghost function CodeOf(kind: TokenType): int {
    match kind
    case And => 3118
    case Or => 2546
    case Is => 2355
    case Not => 3535
    case Null => 4565
    case Create => 6258
    case Index => 5422
    case On => 2542
    case Database => 8321
    case Use => 3763
    case Table => 5761
    case IntWord => 3374
    case DoubleWord => 6287
    case VarcharWord => 7873
    case Primary => 7698
    case Key => 3429
    case Unique => 6830
    case Insert => 6446
    case Into => 4398
    case ValuesWord => 6849
    case Select => 6757
    case Explain => 7352
    case Delete => 6277
    case Update => 6832
    case Set => 3685
    case From => 4306
    case Where => 5864
    case _ => 0
  }

  // Where the codes of words with six letters begin.
  const LONG_WORD: int := 6 * 32 * 32

  lemma ShortWordCode(kind: TokenType)
    requires CodeOf(kind) < LONG_WORD
    ensures Code(Word(kind)) == CodeOf(kind)
  {}

  lemma LongWordCode(kind: TokenType)
    requires CodeOf(kind) >= LONG_WORD
    ensures Code(Word(kind)) == CodeOf(kind)
  {}

  lemma KeywordCode(kind: TokenType)
    ensures Code(Word(kind)) == CodeOf(kind)
  {
    hide Word, Code, CodeOf;
    if CodeOf(kind) < LONG_WORD {
      ShortWordCode(kind);
    } else {
      LongWordCode(kind);
    }
  }

  lemma ShortWordLetter(kind: TokenType, i: nat)
    requires CodeOf(kind) < LONG_WORD && i < |Word(kind)|
    ensures 65 <= Word(kind)[i] <= 90
  {}

  lemma LongWordLetter(kind: TokenType, i: nat)
    requires CodeOf(kind) >= LONG_WORD && i < |Word(kind)|
    ensures 65 <= Word(kind)[i] <= 90
  {}

  lemma KeywordLetters(kind: TokenType)
    ensures forall i :: 0 <= i < |Word(kind)| ==> 65 <= Word(kind)[i] <= 90
  {
    hide Word, CodeOf;
    forall i | 0 <= i < |Word(kind)|
      ensures 65 <= Word(kind)[i] <= 90
    {
      if CodeOf(kind) < LONG_WORD {
        ShortWordLetter(kind, i);
      } else {
        LongWordLetter(kind, i);
      }
    }
  }

  lemma ShortWordsDiffer(a: TokenType, b: TokenType)
    requires 0 < CodeOf(a) == CodeOf(b) < LONG_WORD
    ensures a == b
  {}

  lemma LongWordsDiffer(a: TokenType, b: TokenType)
    requires LONG_WORD <= CodeOf(a) == CodeOf(b)
    ensures a == b
  {}

  lemma OneSpelling(a: TokenType, b: TokenType)
    requires CodeOf(a) > 0
    ensures Spells(Word(a), b) <==> a == b
  {
    hide Word, Code, CodeOf;
    KeywordCode(a);
    KeywordCode(b);
    if CodeOf(a) == CodeOf(b) {
      if CodeOf(a) < LONG_WORD {
        ShortWordsDiffer(a, b);
      } else {
        LongWordsDiffer(a, b);
      }
    }
  }

  lemma InCapitals(kind: TokenType)
    ensures Uppercase(Word(kind)) == Word(kind)
  {
    hide Word;
    KeywordLetters(kind);
  }

  lemma ShortListed(kind: TokenType)
    requires 0 < CodeOf(kind) < LONG_WORD
    ensures kind in KEYWORDS
  {
    match kind
    case And => assert KEYWORDS[0] == kind;
    case Or => assert KEYWORDS[1] == kind;
    case Is => assert KEYWORDS[2] == kind;
    case Not => assert KEYWORDS[3] == kind;
    case Null => assert KEYWORDS[4] == kind;
    case Index => assert KEYWORDS[6] == kind;
    case On => assert KEYWORDS[7] == kind;
    case Use => assert KEYWORDS[9] == kind;
    case Table => assert KEYWORDS[10] == kind;
    case IntWord => assert KEYWORDS[11] == kind;
    case Key => assert KEYWORDS[15] == kind;
    case Into => assert KEYWORDS[18] == kind;
    case Set => assert KEYWORDS[24] == kind;
    case From => assert KEYWORDS[25] == kind;
    case Where => assert KEYWORDS[26] == kind;
    case _ =>
  }

  lemma LongListed(kind: TokenType)
    requires CodeOf(kind) >= LONG_WORD
    ensures kind in KEYWORDS
  {
    match kind
    case Create => assert KEYWORDS[5] == kind;
    case Database => assert KEYWORDS[8] == kind;
    case DoubleWord => assert KEYWORDS[12] == kind;
    case VarcharWord => assert KEYWORDS[13] == kind;
    case Primary => assert KEYWORDS[14] == kind;
    case Unique => assert KEYWORDS[16] == kind;
    case Insert => assert KEYWORDS[17] == kind;
    case ValuesWord => assert KEYWORDS[19] == kind;
    case Select => assert KEYWORDS[20] == kind;
    case Explain => assert KEYWORDS[21] == kind;
    case Delete => assert KEYWORDS[22] == kind;
    case Update => assert KEYWORDS[23] == kind;
    case _ =>
  }

  lemma Listed(kind: TokenType)
    requires CodeOf(kind) > 0
    ensures kind in KEYWORDS
  {
    hide CodeOf;
    if CodeOf(kind) < LONG_WORD {
      ShortListed(kind);
    } else {
      LongListed(kind);
    }
  }

  lemma {:induction false} SpelledBack(word: seq<Byte>, kind: TokenType, kinds: seq<TokenType>)
    requires kind in kinds && forall k :: Spells(word, k) <==> k == kind
    ensures Spelled(word, kinds) == kind
  {
    hide Spells;
    if kinds[0] != kind {
      SpelledBack(word, kind, kinds[1..]);
    }
  }

  lemma KeywordBack(kind: TokenType)
    requires CodeOf(kind) > 0
    ensures WordType(Word(kind)) == kind
  {
    hide Word, Spells, Uppercase, Spelled, CodeOf;
    Listed(kind);
    InCapitals(kind);
    forall k ensures Spells(Word(kind), k) <==> k == kind {
      OneSpelling(kind, k);
    }
    SpelledBack(Word(kind), kind, KEYWORDS);
  }

  lemma KeywordScans(kind: TokenType)
    requires CodeOf(kind) > 0
    ensures Scannable(Keyword(kind))
  {
    hide Scannable, Word, WordType;
    KeywordBack(kind);
    KeywordLetters(kind);
    KeywordCode(kind);
    WordScans(Word(kind));
  }

  lemma ConnectivesScan()
    ensures Scannable(Keyword(TokenType.And)) && Scannable(Keyword(TokenType.Or))
  {
    hide Scannable, Word;
    KeywordScans(TokenType.And);
    KeywordScans(TokenType.Or);
  }

  lemma SymbolScans(l: Lexeme)
    requires l in {Lexeme(LeftParen, [40]), Lexeme(RightParen, [41]), Lexeme(Minus, [45]), Lexeme(TokenType.Equal, [61]), Lexeme(NotEqual, [33, 61]),
                   Lexeme(LessThan, [60]), Lexeme(LessThanOrEqual, [60, 61]), Lexeme(GreaterThan, [62]), Lexeme(GreaterThanOrEqual, [62, 61]),
                   Lexeme(Comma, [44]), Lexeme(Star, [42]), Lexeme(Semicolon, [59])}
    ensures Scannable(l)
  {
    hide WordType, StringRest, Run;
    forall rest: seq<Byte>
      ensures Scan(l.text + ([SPACE] + rest)) == (l.kind, |l.text|)
    {
      var s := l.text + ([SPACE] + rest);
      assert s[0] == l.text[0] && s[1] == if |l.text| > 1 then l.text[1] else SPACE;
    }
  }

  lemma ScannableConcat(a: seq<Lexeme>, b: seq<Lexeme>)
    requires AllScannable(a) && AllScannable(b)
    ensures AllScannable(a + b)
  {
    hide Scannable;
  }

  lemma OperatorScans(operation: Ast.Comparison)
    ensures AllScannable(OperatorTokens(operation))
  {
    hide Scannable;
    KeywordScans(Is);
    KeywordScans(Not);
    KeywordScans(TokenType.Null);
    if !TestsNull(operation) {
      SymbolScans(OperatorTokens(operation)[0]);
    }
  }

  lemma LiteralScans(v: Value, d: Decimal, w: Write)
    requires v.Double? ==> Readable(v.bits, d, w)
    ensures AllScannable(LiteralTokens(v, w))
  {
    hide Scannable, Digits, Quoted, IsDecimal;
    KeywordScans(TokenType.Null);
    match v
    case Null =>
    case Integer(i) =>
      var n: int := i;
      SymbolScans(Lexeme(Minus, [45]));
      DigitsBack(if n < 0 then -n else n);
      NumberScans(Digits(if n < 0 then -n else n));
    case Double(bits) =>
      SymbolScans(Lexeme(Minus, [45]));
      DecimalScans(if IsNegative(w(bits)) then w(bits)[1..] else w(bits));
    case Varchar(t) =>
      QuotedScans(t);
  }

  lemma ComparisonScans(e: Ast.Expression, d: Decimal, w: Write)
    requires e.Compare? && Printable(e, d, w)
    ensures AllScannable(ComparisonTokens(e, w))
  {
    hide Scannable, LiteralTokens, OperatorTokens;
    WordScans(e.column);
    OperatorScans(e.operation);
    var name := [Lexeme(Identifier, e.column)];
    if TestsNull(e.operation) {
      ScannableConcat(name, OperatorTokens(e.operation));
    } else {
      LiteralScans(e.value, d, w);
      ScannableConcat(OperatorTokens(e.operation), LiteralTokens(e.value, w));
      ScannableConcat(name, OperatorTokens(e.operation) + LiteralTokens(e.value, w));
    }
  }

  lemma OneScannable(l: Lexeme)
    requires Scannable(l)
    ensures AllScannable([l])
  {}

  lemma {:induction false} OrScans(e: Ast.Expression, d: Decimal, w: Write)
    requires Printable(e, d, w)
    ensures AllScannable(OrTokens(e, w))
    decreases e, if e.Or? then 0 else if e.And? then 1 else 2
  {
    hide Scannable, AllScannable, Word;
    if e.Or? {
      var word := Keyword(TokenType.Or);
      OrScans(e.left, d, w);
      AndScans(e.right, d, w);
      ConnectivesScan();
      OneScannable(word);
      ScannableConcat([word], AndTokens(e.right, w));
      ScannableConcat(OrTokens(e.left, w), [word] + AndTokens(e.right, w));
    } else {
      AndScans(e, d, w);
    }
  }

  lemma {:induction false} AndScans(e: Ast.Expression, d: Decimal, w: Write)
    requires Printable(e, d, w)
    ensures AllScannable(AndTokens(e, w))
    decreases e, if e.And? then 0 else if e.Compare? then 1 else 2
  {
    hide Scannable, AllScannable, Word;
    if e.And? {
      var word := Keyword(TokenType.And);
      AndScans(e.left, d, w);
      PrimaryScans(e.right, d, w);
      ConnectivesScan();
      OneScannable(word);
      ScannableConcat([word], PrimaryTokens(e.right, w));
      ScannableConcat(AndTokens(e.left, w), [word] + PrimaryTokens(e.right, w));
    } else {
      PrimaryScans(e, d, w);
    }
  }

  lemma {:induction false} PrimaryScans(e: Ast.Expression, d: Decimal, w: Write)
    requires Printable(e, d, w)
    ensures AllScannable(PrimaryTokens(e, w))
    decreases e, if e.Compare? then 0 else if e.Or? then 1 else 2
  {
    hide Scannable, AllScannable;
    if e.Compare? {
      ComparisonScans(e, d, w);
    } else {
      var open, close := Lexeme(LeftParen, [40]), Lexeme(RightParen, [41]);
      OrScans(e, d, w);
      SymbolScans(open);
      SymbolScans(close);
      OneScannable(open);
      OneScannable(close);
      ScannableConcat(OrTokens(e, w), [close]);
      ScannableConcat([open], OrTokens(e, w) + [close]);
    }
  }

  // Printing a condition, lexing the text and parsing the tokens gives the condition back.
  lemma PrintLexParse(e: Ast.Expression, d: Decimal, w: Write)
    requires Printable(e, d, w)
    ensures ParseOr(Lex(Text(OrTokens(e, w))), d) == Some((e, [Lexeme(EndOfInput, [])]))
  {
    OrScans(e, d, w);
    TextLexes(OrTokens(e, w));
    OrBack(e, [Lexeme(EndOfInput, [])], d, w);
  }

  // ---------- The two stages together ----------

  lemma {:induction false} StringsAreQuoted(s: seq<Byte>)
    ensures forall i :: 0 <= i < |Lex(s)| && Lex(s)[i].kind == StringLiteral ==> |Lex(s)[i].text| >= 2
    decreases |s|
  {
    hide WordType, Run;
    if s != [] {
      if IsSpace(s[0]) {
        StringsAreQuoted(s[1..]);
      } else {
        StringsAreQuoted(s[Scan(s).1..]);
        if Scan(s).0 == StringLiteral {
          WordsAreNoStrings(s);
        }
      }
    }
  }

  lemma WordsAreNoStrings(s: seq<Byte>)
    requires s != [] && Scan(s).0 == StringLiteral
    ensures Scan(s).1 >= 2
  {
    hide Run, Spelled;
    assert StringLiteral !in KEYWORDS;
  }

  method ParseText(text: seq<Byte>, decimal: Decimal) returns (r: Option<Ast.Expression>, error: Option<Location>)
    ensures match ParseOr(Lex(text), decimal) case None => r == None && error.Some? case Some(e) => r == Some(e.0)
  {
    hide Lex, ParseOr;
    var lexer := new Lexer(text);
    var tokens := lexer.Tokenize();
    StringsAreQuoted(text);
    TokensQuoted(tokens, text);
    var parser := new Parser.Parser(tokens, decimal);
    assert tokens[0..] == tokens;
    r := parser.ParseOr();
    error := parser.error;
  }

  lemma TokensQuoted(tokens: seq<Token>, text: seq<Byte>)
    requires Lexemes(tokens) == Lex(text)
    requires forall i :: 0 <= i < |Lex(text)| && Lex(text)[i].kind == StringLiteral ==> |Lex(text)[i].text| >= 2
    ensures forall i :: 0 <= i < |tokens| && tokens[i].lexeme.kind == StringLiteral ==> |tokens[i].lexeme.text| >= 2
    ensures tokens != [] && tokens[|tokens| - 1].lexeme.kind == EndOfInput
  {
    hide Lex;
    assert forall i :: 0 <= i < |tokens| ==> Lexemes(tokens)[i] == tokens[i].lexeme;
    assert Lex(text)[|Lex(text)| - 1] == Lexeme(EndOfInput, []);
  }
}
