// The language of statements as a grammar, with nothing about how it is parsed: which runs of tokens say which statement.
// The parser accepts exactly these.
module Sentences {
  import opened Bytes
  import opened Results
  import opened Values
  import opened Lexer
  import opened Grammar
  import opened Schema
  import Ast
  import Printer
  import StatementPrinter
  import Seqs

  // ---------- Conditions ----------

  ghost predicate Kinds(p: seq<Lexeme>, kinds: seq<TokenType>) {
    |p| == |kinds| && forall i :: 0 <= i < |p| ==> p[i].kind == kinds[i]
  }

  // An integer within 64 bits, a double as far as its text means one, or a text.
  ghost predicate IsConstant(l: Lexeme, negative: bool, v: Value, d: Decimal) {
    match v
    case Null => false
    case Integer(i) =>
      var n: int := i;
      l.kind == IntegerLiteral && n == if negative then -DigitsValue(l.text) else DigitsValue(l.text)
    case Double(bits) => l.kind == FloatingPointLiteral && d(if negative then [45] + l.text else l.text) == Some(bits)
    case Varchar(t) => !negative && l.kind == StringLiteral && |l.text| >= 2 && t == Undouble(l.text[1..|l.text| - 1])
  }

  ghost predicate IsLiteral(p: seq<Lexeme>, v: Value, d: Decimal) {
    || (Kinds(p, [TokenType.Null]) && v == Value.Null)
    || (|p| == 1 && IsConstant(p[0], false, v, d))
    || (|p| == 2 && p[0].kind == Minus && IsConstant(p[1], true, v, d))
  }

  ghost function OperatorKind(operation: Ast.Comparison): TokenType {
    match operation
    case Equals => TokenType.Equal
    case NotEquals => NotEqual
    case LessThan => TokenType.LessThan
    case LessOrEqual => LessThanOrEqual
    case GreaterThan => TokenType.GreaterThan
    case GreaterOrEqual => GreaterThanOrEqual
    case IsNull => Is
    case IsNotNull => Is
  }

  ghost predicate IsComparison(p: seq<Lexeme>, e: Ast.Expression, d: Decimal) {
    && e.Compare? && |p| >= 2 && p[0] == Lexeme(Identifier, e.column) && p[1].kind == OperatorKind(e.operation)
    && match e.operation
       case IsNull => Kinds(p[2..], [TokenType.Null]) && e.value == Value.Null
       case IsNotNull => Kinds(p[2..], [Not, TokenType.Null]) && e.value == Value.Null
       case _ => IsLiteral(p[2..], e.value, d)
  }

  // A condition: operands of OR, grouped to the left; an operand of OR is operands of AND, grouped to the left; and an
  // operand of AND is a comparison, or any condition in parentheses.
  ghost predicate IsCondition(p: seq<Lexeme>, e: Ast.Expression, d: Decimal)
    decreases |p|, 2
  {
    || IsConjunction(p, e, d)
    || exists i :: 0 <= i < |p| && p[i].kind == TokenType.Or && IsOred(p, e, d, i)
  }

  ghost predicate IsOred(p: seq<Lexeme>, e: Ast.Expression, d: Decimal, i: nat)
    requires i < |p|
    decreases |p|, 0
  {
    e.Or? && IsCondition(p[..i], e.left, d) && IsConjunction(p[i + 1..], e.right, d)
  }

  ghost predicate IsConjunction(p: seq<Lexeme>, e: Ast.Expression, d: Decimal)
    decreases |p|, 1
  {
    || IsOperand(p, e, d)
    || exists i :: 0 <= i < |p| && p[i].kind == TokenType.And && IsAnded(p, e, d, i)
  }

  ghost predicate IsAnded(p: seq<Lexeme>, e: Ast.Expression, d: Decimal, i: nat)
    requires i < |p|
    decreases |p|, 0
  {
    e.And? && IsConjunction(p[..i], e.left, d) && IsOperand(p[i + 1..], e.right, d)
  }

  ghost predicate IsOperand(p: seq<Lexeme>, e: Ast.Expression, d: Decimal)
    decreases |p|, 0
  {
    || IsComparison(p, e, d)
    || (|p| >= 2 && p[0].kind == LeftParen && p[|p| - 1].kind == RightParen && IsCondition(p[1..|p| - 1], e, d))
  }

  // ---------- What the parser took ----------

  ghost predicate Ends(b: seq<Lexeme>, rest: seq<Lexeme>) {
    |rest| <= |b| && rest == b[|b| - |rest|..]
  }

  // The tokens in front of the rest.
  ghost function Read(b: seq<Lexeme>, rest: seq<Lexeme>): seq<Lexeme>
    requires Ends(b, rest)
  {
    b[..|b| - |rest|]
  }

  lemma TakeAt(b: seq<Lexeme>, k: nat, kind: TokenType)
    requires k <= |b| && kind != EndOfInput
    ensures Take(b[k..], kind) == if k < |b| && b[k].kind == kind then Some((b[k].text, b[k + 1..])) else None
  {}

  // ---------- Literals ----------

  lemma ConstantSound(b: seq<Lexeme>, negative: bool, d: Decimal)
    requires ParseConstant(b, negative, d).Some?
    ensures var (v, rest) := ParseConstant(b, negative, d).value; b != [] && rest == b[1..] && IsConstant(b[0], negative, v, d)
  {
    hide DigitsValue, Undouble;
  }

  lemma ConstantComplete(l: Lexeme, negative: bool, v: Value, rest: seq<Lexeme>, d: Decimal)
    requires IsConstant(l, negative, v, d)
    ensures l.kind != Minus && l.kind != TokenType.Null && ParseConstant([l] + rest, negative, d) == Some((v, rest))
  {
    hide DigitsValue, Undouble;
    assert ([l] + rest)[1..] == rest;
  }

  lemma LiteralSound(b: seq<Lexeme>, d: Decimal)
    requires ParseLiteral(b, d).Some?
    ensures var r := ParseLiteral(b, d).value; Ends(b, r.1) && IsLiteral(Read(b, r.1), r.0, d)
  {
    hide ParseConstant, IsConstant;
    if NextKind(b) == Minus {
      ConstantSound(b[1..], true, d);
      assert b[1..][1..] == b[2..];
      assert Read(b, b[2..]) == [b[0], b[1]];
    } else {
      if NextKind(b) != TokenType.Null {
        ConstantSound(b, false, d);
      }
      assert Read(b, b[1..]) == [b[0]];
    }
  }

  lemma LiteralComplete(p: seq<Lexeme>, v: Value, rest: seq<Lexeme>, d: Decimal)
    requires IsLiteral(p, v, d)
    ensures ParseLiteral(p + rest, d) == Some((v, rest))
  {
    hide ParseConstant, IsConstant;
    if |p| == 2 {
      assert (p + rest)[1..] == [p[1]] + rest;
      ConstantComplete(p[1], true, v, rest, d);
    } else {
      assert p == [p[0]] && (p + rest)[1..] == rest;
      if v != Value.Null || p[0].kind != TokenType.Null {
        ConstantComplete(p[0], false, v, rest, d);
      }
    }
  }

  ghost predicate NullTest(p: seq<Lexeme>, operation: Ast.Comparison) {
    if operation.IsNull? then Kinds(p, [TokenType.Null]) else operation.IsNotNull? && Kinds(p, [Not, TokenType.Null])
  }

  lemma NullTestSound(column: Name, b: seq<Lexeme>)
    requires ParseNullTest(column, b).Some?
    ensures var (e, rest) := ParseNullTest(column, b).value;
      Ends(b, rest) && e.Compare? && e.column == column && e.value == Value.Null && NullTest(Read(b, rest), e.operation)
  {
    if NextKind(b) == Not {
      assert b[1..][1..] == b[2..];
      assert Read(b, b[2..]) == [b[0], b[1]];
    } else {
      assert Read(b, b[1..]) == [b[0]];
    }
  }

  lemma NullTestComplete(p: seq<Lexeme>, column: Name, operation: Ast.Comparison, rest: seq<Lexeme>)
    requires NullTest(p, operation)
    ensures ParseNullTest(column, p + rest) == Some((Ast.Compare(column, operation, Value.Null), rest))
  {
    assert p == if operation.IsNull? then [p[0]] else [p[0], p[1]];
    assert (p + rest)[1..] == p[1..] + rest;
    assert operation.IsNotNull? ==> (p[1..] + rest)[1..] == rest;
  }

  lemma OperatorIs(kind: TokenType, operation: Ast.Comparison)
    ensures OperatorOf(kind) == Some(operation) <==> kind == OperatorKind(operation) && !operation.IsNull? && !operation.IsNotNull?
    ensures OperatorKind(operation) == Is <==> operation.IsNull? || operation.IsNotNull?
    ensures OperatorOf(Is) == None
  {}

  // A token and what follows it.
  lemma OneMore(b: seq<Lexeme>, rest: seq<Lexeme>, n: nat)
    requires n <= |b| && Ends(b[n..], rest)
    ensures Ends(b, rest) && |Read(b, rest)| >= n && Read(b, rest)[n..] == Read(b[n..], rest) && Read(b, rest)[..n] == b[..n]
  {}

  lemma FirstTwo(p: seq<Lexeme>, b: seq<Lexeme>)
    requires |p| >= 2 && |b| >= 2 && p[..2] == b[..2]
    ensures p[0] == b[0] && p[1] == b[1]
  {
    assert p[..2][0] == b[..2][0] && p[..2][1] == b[..2][1];
  }

  lemma ComparisonSound(b: seq<Lexeme>, d: Decimal)
    requires ParseComparison(b, d).Some?
    ensures var r := ParseComparison(b, d).value; Ends(b, r.1) && IsComparison(Read(b, r.1), r.0, d)
  {
    hide ParseLiteral, IsLiteral, ParseNullTest, Kinds, OperatorOf, OperatorKind, Ends, Read;
    var (e, rest) := ParseComparison(b, d).value;
    var more := b[1..][1..];
    assert more == b[2..];
    if NextKind(b[1..]) == Is {
      NullTestSound(b[0].text, more);
    } else {
      LiteralSound(more, d);
    }
    OperatorIs(b[1].kind, e.operation);
    OneMore(b, rest, 2);
    FirstTwo(Read(b, rest), b);
  }

  lemma ComparisonComplete(p: seq<Lexeme>, e: Ast.Expression, rest: seq<Lexeme>, d: Decimal)
    requires IsComparison(p, e, d)
    ensures ParseComparison(p + rest, d) == Some((e, rest)) && NextKind(p + rest) == Identifier
  {
    hide ParseLiteral, IsLiteral, ParseNullTest, Kinds, OperatorOf, OperatorKind;
    var b := p + rest;
    assert b[1..][1..] == p[2..] + rest;
    OperatorIs(p[1].kind, e.operation);
    if NullTest(p[2..], e.operation) {
      NullTestComplete(p[2..], e.column, e.operation, rest);
    } else {
      LiteralComplete(p[2..], e.value, rest, d);
    }
  }

  // ---------- Conditions ----------

  lemma {:induction false} OperandSound(b: seq<Lexeme>, d: Decimal)
    requires ParsePrimary(b, d).Some?
    ensures var (e, rest) := ParsePrimary(b, d).value; Ends(b, rest) && IsOperand(Read(b, rest), e, d)
    decreases |b|, 0
  {
    hide ParseOr, ParseComparison, IsComparison, IsCondition;
    var (e, rest) := ParsePrimary(b, d).value;
    if NextKind(b) == LeftParen {
      var close := ParseOr(b[1..], d).value.1;
      ConditionSound(b[1..], d);
      OneMore(b, close, 1);
      assert close[1..] == b[|b| - |close| + 1..] == rest;
      assert Read(b, rest)[1..|Read(b, rest)| - 1] == Read(b[1..], close);
    } else {
      ComparisonSound(b, d);
    }
  }

  lemma {:induction false} ConjunctionSound(b: seq<Lexeme>, d: Decimal)
    requires ParseAnd(b, d).Some?
    ensures var (e, rest) := ParseAnd(b, d).value; Ends(b, rest) && IsConjunction(Read(b, rest), e, d)
    decreases |b|, 1
  {
    hide ParsePrimary, AndRest, IsOperand;
    var (first, more) := ParsePrimary(b, d).value;
    OperandSound(b, d);
    AndsSound(b, first, more, d);
  }

  lemma AndedIs(p: seq<Lexeme>, left: Ast.Expression, right: Ast.Expression, d: Decimal, i: nat)
    requires i < |p| && p[i].kind == TokenType.And && IsConjunction(p[..i], left, d) && IsOperand(p[i + 1..], right, d)
    ensures IsConjunction(p, Ast.And(left, right), d)
  {
    assert IsAnded(p, Ast.And(left, right), d, i);
  }

  lemma OredIs(p: seq<Lexeme>, left: Ast.Expression, right: Ast.Expression, d: Decimal, i: nat)
    requires i < |p| && p[i].kind == TokenType.Or && IsCondition(p[..i], left, d) && IsConjunction(p[i + 1..], right, d)
    ensures IsCondition(p, Ast.Or(left, right), d)
  {
    assert IsOred(p, Ast.Or(left, right), d, i);
  }

  // The operands so far are the tokens up to here.
  lemma {:induction false} AndsSound(b: seq<Lexeme>, e: Ast.Expression, more: seq<Lexeme>, d: Decimal)
    requires Ends(b, more) && more != b && IsConjunction(Read(b, more), e, d) && AndRest(e, more, d).Some?
    ensures var (all, rest) := AndRest(e, more, d).value; Ends(b, rest) && IsConjunction(Read(b, rest), all, d)
    decreases |b|, 0, |more|
  {
    hide ParsePrimary, IsOperand, IsConjunction, Read;
    if NextKind(more) == TokenType.And {
      var (next, rest) := ParsePrimary(more[1..], d).value;
      OperandSound(more[1..], d);
      Joined(b, more, rest);
      var p, i := Read(b, rest), |b| - |more|;
      AndedIs(p, e, next, d, i);
      AndsSound(b, Ast.And(e, next), rest, d);
    }
  }

  // What was read, one token, and what was read after it.
  lemma Joined(b: seq<Lexeme>, more: seq<Lexeme>, rest: seq<Lexeme>)
    requires Ends(b, more) && more != [] && Ends(more[1..], rest)
    ensures Ends(b, rest)
    ensures var p, i := Read(b, rest), |b| - |more|;
      i < |p| && p[..i] == Read(b, more) && p[i] == more[0] && p[i + 1..] == Read(more[1..], rest)
  {}

  lemma {:induction false} ConditionSound(b: seq<Lexeme>, d: Decimal)
    requires ParseOr(b, d).Some?
    ensures var (e, rest) := ParseOr(b, d).value; Ends(b, rest) && IsCondition(Read(b, rest), e, d)
    decreases |b|, 3
  {
    hide ParseAnd, OrRest, IsConjunction;
    var (first, more) := ParseAnd(b, d).value;
    ConjunctionSound(b, d);
    OrsSound(b, first, more, d);
  }

  lemma {:induction false} OrsSound(b: seq<Lexeme>, e: Ast.Expression, more: seq<Lexeme>, d: Decimal)
    requires Ends(b, more) && more != b && IsCondition(Read(b, more), e, d) && OrRest(e, more, d).Some?
    ensures var (all, rest) := OrRest(e, more, d).value; Ends(b, rest) && IsCondition(Read(b, rest), all, d)
    decreases |b|, 2, |more|
  {
    hide ParseAnd, IsConjunction, IsCondition, Read;
    if NextKind(more) == TokenType.Or {
      var (next, rest) := ParseAnd(more[1..], d).value;
      ConjunctionSound(more[1..], d);
      Joined(b, more, rest);
      var p, i := Read(b, rest), |b| - |more|;
      OredIs(p, e, next, d, i);
      OrsSound(b, Ast.Or(e, next), rest, d);
    }
  }

  lemma {:induction false} OperandComplete(p: seq<Lexeme>, e: Ast.Expression, rest: seq<Lexeme>, d: Decimal)
    requires IsOperand(p, e, d)
    ensures ParsePrimary(p + rest, d) == Some((e, rest))
    decreases |p|, 0
  {
    hide ParseOr, OrRest, ParseComparison, IsComparison, IsCondition;
    if IsComparison(p, e, d) {
      ComparisonComplete(p, e, rest, d);
    } else {
      var inner, close := p[1..|p| - 1], [p[|p| - 1]] + rest;
      assert (p + rest)[1..] == inner + close && close[1..] == rest;
      ConditionComplete(inner, e, close, d);
      OrsEnd(e, close, d);
    }
  }

  lemma OrsEnd(e: Ast.Expression, rest: seq<Lexeme>, d: Decimal)
    requires NextKind(rest) != TokenType.Or
    ensures OrRest(e, rest, d) == Some((e, rest))
  {}

  lemma AndsEnd(e: Ast.Expression, rest: seq<Lexeme>, d: Decimal)
    requires NextKind(rest) != TokenType.And
    ensures AndRest(e, rest, d) == Some((e, rest))
  {}

  lemma Split(p: seq<Lexeme>, i: nat, rest: seq<Lexeme>)
    requires i < |p|
    ensures p + rest == p[..i] + ([p[i]] + (p[i + 1..] + rest))
    ensures ([p[i]] + (p[i + 1..] + rest))[1..] == p[i + 1..] + rest
  {}

  lemma {:induction false} ConjunctionComplete(p: seq<Lexeme>, e: Ast.Expression, rest: seq<Lexeme>, d: Decimal)
    requires IsConjunction(p, e, d)
    ensures ParseAnd(p + rest, d) == AndRest(e, rest, d)
    decreases |p|, 1
  {
    hide ParsePrimary, IsOperand;
    if IsOperand(p, e, d) {
      OperandComplete(p, e, rest, d);
    } else {
      var i :| 0 <= i < |p| && p[i].kind == TokenType.And && IsAnded(p, e, d, i);
      Split(p, i, rest);
      ConjunctionComplete(p[..i], e.left, [p[i]] + (p[i + 1..] + rest), d);
      OperandComplete(p[i + 1..], e.right, rest, d);
    }
  }

  lemma {:induction false} ConditionComplete(p: seq<Lexeme>, e: Ast.Expression, rest: seq<Lexeme>, d: Decimal)
    requires IsCondition(p, e, d) && NextKind(rest) != TokenType.And
    ensures ParseOr(p + rest, d) == OrRest(e, rest, d)
    decreases |p|, 2
  {
    hide ParseAnd, AndRest, IsConjunction;
    if IsConjunction(p, e, d) {
      ConjunctionComplete(p, e, rest, d);
      AndsEnd(e, rest, d);
    } else {
      var i :| 0 <= i < |p| && p[i].kind == TokenType.Or && IsOred(p, e, d, i);
      Split(p, i, rest);
      ConditionComplete(p[..i], e.left, [p[i]] + (p[i + 1..] + rest), d);
      ConjunctionComplete(p[i + 1..], e.right, rest, d);
      AndsEnd(e.right, rest, d);
    }
  }

  // ---------- Lists ----------

  // One or more, with commas between.
  ghost predicate IsList<T(!new)>(item: (seq<Lexeme>, T) -> bool, p: seq<Lexeme>, xs: seq<T>)
    decreases |xs|
  {
    && xs != []
    && if |xs| == 1 then item(p, xs[0])
       else exists i :: 0 <= i < |p| && p[i].kind == Comma && item(p[..i], xs[0]) && IsList(item, p[i + 1..], xs[1..])
  }

  ghost predicate IsListed<T(!new)>(item: (seq<Lexeme>, T) -> bool, p: seq<Lexeme>, xs: seq<T>) {
    |p| >= 2 && p[0].kind == LeftParen && p[|p| - 1].kind == RightParen && IsList(item, p[1..|p| - 1], xs)
  }

  ghost predicate Sound<T(!new)>(parse: seq<Lexeme> -> Option<(T, seq<Lexeme>)>, item: (seq<Lexeme>, T) -> bool) {
    forall b :: parse(b).Some? ==> Ends(b, parse(b).value.1) && item(Read(b, parse(b).value.1), parse(b).value.0)
  }

  ghost predicate Complete<T(!new)>(parse: seq<Lexeme> -> Option<(T, seq<Lexeme>)>, item: (seq<Lexeme>, T) -> bool, end: TokenType) {
    forall p, x :: item(p, x) ==> StatementPrinter.ItemBack(parse, p, x, end)
  }

  lemma {:induction false} ListSound<T(!new)>(parse: seq<Lexeme> -> Option<(T, seq<Lexeme>)>, item: (seq<Lexeme>, T) -> bool, b: seq<Lexeme>)
    requires Consumes(parse) && Sound(parse, item) && ParseList(parse, b).Some?
    ensures var (xs, rest) := ParseList(parse, b).value; Ends(b, rest) && IsList(item, Read(b, rest), xs)
    decreases |b|
  {
    hide Ends, Read;
    var (x, more) := parse(b).value;
    var (xs, rest) := ParseList(parse, b).value;
    if NextKind(more) == Comma {
      ListSound(parse, item, more[1..]);
      Joined(b, more, rest);
      assert xs[1..] == ParseList(parse, more[1..]).value.0;
    }
  }

  lemma ListOfOne<T(!new)>(parse: seq<Lexeme> -> Option<(T, seq<Lexeme>)>, item: (seq<Lexeme>, T) -> bool,
                           p: seq<Lexeme>, xs: seq<T>, end: TokenType)
    requires Complete(parse, item, end) && IsList(item, p, xs) && |xs| == 1
    ensures StatementPrinter.ItemBack(parse, p, xs[0], end)
  {}

  lemma ListOfMore<T(!new)>(parse: seq<Lexeme> -> Option<(T, seq<Lexeme>)>, item: (seq<Lexeme>, T) -> bool,
                            p: seq<Lexeme>, xs: seq<T>, end: TokenType) returns (i: nat)
    requires Complete(parse, item, end) && IsList(item, p, xs) && |xs| != 1
    ensures |xs| > 1 && i < |p| && p[i].kind == Comma && IsList(item, p[i + 1..], xs[1..])
    ensures StatementPrinter.ItemBack(parse, p[..i], xs[0], end)
  {
    i :| 0 <= i < |p| && p[i].kind == Comma && item(p[..i], xs[0]) && IsList(item, p[i + 1..], xs[1..]);
  }

  lemma {:induction false} ListComplete<T(!new)>(parse: seq<Lexeme> -> Option<(T, seq<Lexeme>)>, item: (seq<Lexeme>, T) -> bool,
                                                 p: seq<Lexeme>, xs: seq<T>, rest: seq<Lexeme>)
    requires Consumes(parse) && Complete(parse, item, NextKind(rest)) && IsList(item, p, xs) && NextKind(rest) != Comma
    ensures ParseList(parse, p + rest) == Some((xs, rest))
    decreases |xs|
  {
    hide Consumes, Complete, IsList, StatementPrinter.ItemBack;
    if |xs| == 1 {
      ListOfOne(parse, item, p, xs, NextKind(rest));
      StatementPrinter.ItemIs(parse, p, xs[0], NextKind(rest), rest);
      assert [xs[0]] == xs;
    } else {
      var i := ListOfMore(parse, item, p, xs, NextKind(rest));
      var more := [p[i]] + (p[i + 1..] + rest);
      Split(p, i, rest);
      ListComplete(parse, item, p[i + 1..], xs[1..], rest);
      StatementPrinter.ItemIs(parse, p[..i], xs[0], NextKind(rest), more);
      assert [xs[0]] + xs[1..] == xs;
    }
  }

  lemma ListedSound<T(!new)>(parse: seq<Lexeme> -> Option<(T, seq<Lexeme>)>, item: (seq<Lexeme>, T) -> bool, b: seq<Lexeme>)
    requires Consumes(parse) && Sound(parse, item) && ParseListed(parse, b).Some?
    ensures var (xs, rest) := ParseListed(parse, b).value; Ends(b, rest) && IsListed(item, Read(b, rest), xs)
  {
    hide ParseList, IsList, Sound, Consumes;
    var (xs, close) := ParseList(parse, b[1..]).value;
    ListSound(parse, item, b[1..]);
    OneMore(b, close, 1);
    assert close[1..] == b[|b| - |close| + 1..];
    assert Read(b, close[1..])[1..|Read(b, close[1..])| - 1] == Read(b[1..], close);
  }

  lemma ListedComplete<T(!new)>(parse: seq<Lexeme> -> Option<(T, seq<Lexeme>)>, item: (seq<Lexeme>, T) -> bool,
                                p: seq<Lexeme>, xs: seq<T>, rest: seq<Lexeme>)
    requires Consumes(parse) && Complete(parse, item, RightParen) && IsListed(item, p, xs)
    ensures ParseListed(parse, p + rest) == Some((xs, rest))
  {
    hide ParseList, IsList, Complete, Consumes;
    var inner, close := p[1..|p| - 1], [p[|p| - 1]] + rest;
    assert (p + rest)[1..] == inner + close && close[1..] == rest;
    ListComplete(parse, item, inner, xs, close);
  }

  ghost predicate IsName(p: seq<Lexeme>, name: Name) {
    p == [Lexeme(Identifier, name)]
  }

  lemma NamesSound()
    ensures Sound(ParseName, IsName)
  {
    forall b | ParseName(b).Some?
      ensures Ends(b, ParseName(b).value.1) && IsName(Read(b, ParseName(b).value.1), ParseName(b).value.0)
    {
      assert Read(b, b[1..]) == [b[0]];
    }
  }

  lemma NamesComplete(end: TokenType)
    ensures Complete(ParseName, IsName, end)
  {
    forall p, x | IsName(p, x)
      ensures StatementPrinter.ItemBack(ParseName, p, x, end)
    {
      forall more ensures ParseName(p + more) == Some((x, more)) {
        assert (p + more)[1..] == more;
      }
    }
  }

  // A literal, as the item of a list.
  ghost function ALiteral(d: Decimal): (seq<Lexeme>, Value) -> bool {
    (p, v) => IsLiteral(p, v, d)
  }

  lemma LiteralsSound(d: Decimal)
    ensures Sound(LiteralItem(d), ALiteral(d))
  {
    hide ParseLiteral, IsLiteral;
    forall b | LiteralItem(d)(b).Some?
      ensures var r := LiteralItem(d)(b).value; Ends(b, r.1) && ALiteral(d)(Read(b, r.1), r.0)
    {
      LiteralSound(b, d);
    }
  }

  lemma LiteralsComplete(d: Decimal, end: TokenType)
    ensures Complete(LiteralItem(d), ALiteral(d), end)
  {
    hide ParseLiteral, IsLiteral;
    forall p, x | ALiteral(d)(p, x)
      ensures StatementPrinter.ItemBack(LiteralItem(d), p, x, end)
    {
      forall more ensures LiteralItem(d)(p + more) == Some((x, more)) {
        LiteralComplete(p, x, more, d);
      }
    }
  }

  // ---------- Columns ----------

  ghost predicate IsType(p: seq<Lexeme>, t: DataType) {
    match t.kind
    case IntegerKind => Kinds(p, [IntWord]) && t.length == None
    case DoubleKind => Kinds(p, [DoubleWord]) && t.length == None
    case VarcharKind =>
      && Kinds(p, [VarcharWord, LeftParen, IntegerLiteral, RightParen])
      && t.length.Some? && t.length.value == DigitsValue(p[2].text) && 0 < t.length.value <= 0xFFFF_FFFF_FFFF_FFFF
  }

  lemma TypeSound(b: seq<Lexeme>)
    requires ParseDataType(b).Some?
    ensures var (t, rest) := ParseDataType(b).value; Ends(b, rest) && IsType(Read(b, rest), t)
  {
    hide DigitsValue;
    if NextKind(b) == IntWord || NextKind(b) == DoubleWord {
      assert Read(b, b[1..]) == [b[0]];
    } else {
      assert b[1..][1..] == b[2..] && b[2..][1..] == b[3..] && b[3..][1..] == b[4..];
      assert Read(b, b[4..]) == [b[0], b[1], b[2], b[3]];
    }
  }

  lemma TypeComplete(p: seq<Lexeme>, t: DataType, rest: seq<Lexeme>)
    requires IsType(p, t)
    ensures ParseDataType(p + rest) == Some((t, rest))
  {
    hide DigitsValue, ParseVarchar;
    if t.kind == VarcharKind {
      VarcharComplete(p, t, rest);
    } else {
      assert (p + rest)[1..] == rest;
    }
  }

  lemma VarcharComplete(p: seq<Lexeme>, t: DataType, rest: seq<Lexeme>)
    requires IsType(p, t) && t.kind == VarcharKind
    ensures NextKind(p + rest) == VarcharWord && ParseVarchar(p + rest) == Some((t, rest))
  {
    hide DigitsValue, Take, ParseLength;
    var b := p + rest;
    assert b[0..] == b;
    TakeAt(b, 0, VarcharWord);
    LengthComplete(p, t.length.value, rest);
  }

  lemma LengthComplete(p: seq<Lexeme>, length: nat, rest: seq<Lexeme>)
    requires Kinds(p, [VarcharWord, LeftParen, IntegerLiteral, RightParen])
    requires length == DigitsValue(p[2].text) && 0 < length <= 0xFFFF_FFFF_FFFF_FFFF
    ensures ParseLength((p + rest)[1..]) == Some((length, rest))
  {
    hide DigitsValue, Take;
    var b := p + rest;
    assert b[4..] == rest;
    TakeAt(b, 1, LeftParen);
    TakeAt(b, 2, IntegerLiteral);
    TakeAt(b, 3, RightParen);
  }

  datatype Said = SaidPrimaryKey | SaidUnique | SaidNotNull

  ghost function WordsFor(said: Said): seq<TokenType> {
    match said
    case SaidPrimaryKey => [Primary, Key]
    case SaidUnique => [TokenType.Unique]
    case SaidNotNull => [Not, TokenType.Null]
  }

  ghost function WordsOf(said: seq<Said>): seq<TokenType> {
    if said == [] then [] else WordsFor(said[0]) + WordsOf(said[1..])
  }

  // None is said twice, and none after PRIMARY KEY, which says them all.
  ghost predicate SaidOnce(said: seq<Said>) {
    forall i, j :: 0 <= i < j < |said| ==> said[i] != said[j] && said[i] != SaidPrimaryKey
  }

  ghost function Saying(said: seq<Said>): Constraints {
    var key := SaidPrimaryKey in said;
    Constraints(key, key || SaidUnique in said, key || SaidNotNull in said)
  }

  // The constraints of a column, in any order.
  ghost predicate IsConstraints(p: seq<Lexeme>, c: Constraints) {
    exists said :: SaidOnce(said) && Kinds(p, WordsOf(said)) && c == Saying(said)
  }

  ghost predicate MaySay(c: Constraints, next: Said) {
    match next
    case SaidPrimaryKey => !c.primaryKey
    case SaidUnique => !c.unique
    case SaidNotNull => !c.notNull
  }

  ghost function Added(c: Constraints, next: Said): Constraints {
    match next
    case SaidPrimaryKey => Constraints(true, true, true)
    case SaidUnique => c.(unique := true)
    case SaidNotNull => c.(notNull := true)
  }

  // One more said, when it may be.
  lemma SaidOneMore(said: seq<Said>, next: Said)
    requires SaidOnce(said)
    ensures SaidOnce(said + [next]) <==> MaySay(Saying(said), next)
    ensures Saying(said + [next]) == Added(Saying(said), next)
  {
    var all := said + [next];
    assert forall x :: x in all <==> x in said || x == next;
    assert forall i :: 0 <= i < |said| ==> all[i] == said[i];
    assert all[|said|] == next;
    if SaidPrimaryKey in said || next in said {
      var i :| 0 <= i < |said| && (said[i] == SaidPrimaryKey || said[i] == next);
      assert all[i] == said[i];
    }
  }

  lemma {:induction false} WordsAppend(said: seq<Said>, next: Said)
    ensures WordsOf(said + [next]) == WordsOf(said) + WordsFor(next)
  {
    hide WordsFor;
    if said == [] {
      assert [next][1..] == [];
    } else {
      WordsAppend(said[1..], next);
      assert (said + [next])[1..] == said[1..] + [next];
      Seqs.Assoc(WordsFor(said[0]), WordsOf(said[1..]), WordsFor(next));
    }
  }

  lemma KindsConcat(p: seq<Lexeme>, a: seq<TokenType>, q: seq<Lexeme>, b: seq<TokenType>)
    requires Kinds(p, a) && Kinds(q, b)
    ensures Kinds(p + q, a + b)
  {}

  lemma KindsSplit(p: seq<Lexeme>, a: seq<TokenType>, b: seq<TokenType>)
    requires Kinds(p, a + b)
    ensures |p| >= |a| && Kinds(p[..|a|], a) && Kinds(p[|a|..], b)
  {
    assert forall i :: 0 <= i < |a| ==> (a + b)[i] == a[i];
    assert forall i :: 0 <= i < |b| ==> (a + b)[|a| + i] == b[i] && p[|a|..][i] == p[|a| + i];
  }

  lemma ReadOn(b: seq<Lexeme>, more: seq<Lexeme>, rest: seq<Lexeme>)
    requires Ends(b, more) && Ends(more, rest)
    ensures Ends(b, rest) && Read(b, rest) == Read(b, more) + Read(more, rest)
  {}

  lemma ConstraintSound(b: seq<Lexeme>, c: Constraints) returns (next: Said)
    requires StartsConstraint(NextKind(b)) && ParseConstraint(b, c).Some?
    ensures var (result, rest) := ParseConstraint(b, c).value;
      MaySay(c, next) && result == Added(c, next) && Ends(b, rest) && Kinds(Read(b, rest), WordsFor(next))
  {
    assert |b| >= 2 ==> b[1..][1..] == b[2..] && Read(b, b[2..]) == [b[0], b[1]];
    assert Read(b, b[1..]) == [b[0]];
    next := if NextKind(b) == Primary then SaidPrimaryKey else if NextKind(b) == Not then SaidNotNull else SaidUnique;
  }

  lemma {:induction false} ConstraintsSound(b: seq<Lexeme>, said: seq<Said>, more: seq<Lexeme>)
    requires Ends(b, more) && SaidOnce(said) && Kinds(Read(b, more), WordsOf(said)) && ParseConstraints(more, Saying(said)).Some?
    ensures var (c, rest) := ParseConstraints(more, Saying(said)).value; Ends(b, rest) && IsConstraints(Read(b, rest), c)
    decreases |more|
  {
    hide ParseConstraint, Saying, SaidOnce, Kinds, WordsOf, WordsFor, MaySay, Added, StartsConstraint;
    if StartsConstraint(NextKind(more)) {
      var next := ConstraintSound(more, Saying(said));
      var rest := ParseConstraint(more, Saying(said)).value.1;
      SaidOneMore(said, next);
      WordsAppend(said, next);
      ReadOn(b, more, rest);
      KindsConcat(Read(b, more), WordsOf(said), Read(more, rest), WordsFor(next));
      ConstraintsSound(b, said + [next], rest);
    }
  }

  lemma ConstraintComplete(p: seq<Lexeme>, next: Said, rest: seq<Lexeme>, c: Constraints)
    requires Kinds(p, WordsFor(next)) && MaySay(c, next)
    ensures StartsConstraint(NextKind(p + rest)) && ParseConstraint(p + rest, c) == Some((Added(c, next), rest))
  {
    var b := p + rest;
    assert b[1..] == p[1..] + rest;
    assert |p| == 2 ==> b[1..][1..] == rest;
  }

  lemma SaidBefore(said: seq<Said>, more: seq<Said>)
    requires SaidOnce(said + more)
    ensures SaidOnce(said)
  {
    assert forall i :: 0 <= i < |said| ==> (said + more)[i] == said[i];
  }

  lemma {:induction false} ConstraintsComplete(said: seq<Said>, more: seq<Said>, p: seq<Lexeme>, rest: seq<Lexeme>)
    requires SaidOnce(said + more) && Kinds(p, WordsOf(more)) && !StartsConstraint(NextKind(rest))
    ensures ParseConstraints(p + rest, Saying(said)) == Some((Saying(said + more), rest))
    decreases |more|
  {
    hide ParseConstraint, Saying, SaidOnce, Kinds, WordsFor, MaySay, Added, StartsConstraint;
    if more == [] {
      NoTokens(p);
      assert p + rest == rest && said + more == said;
    } else {
      var next := more[0];
      var k := |WordsFor(next)|;
      KindsSplit(p, WordsFor(next), WordsOf(more[1..]));
      assert said + [next] + more[1..] == said + more;
      SaidBefore(said, more);
      SaidBefore(said + [next], more[1..]);
      SaidOneMore(said, next);
      ConstraintComplete(p[..k], next, p[k..] + rest, Saying(said));
      assert p[..k] + (p[k..] + rest) == p + rest;
      ConstraintsComplete(said + [next], more[1..], p[k..], rest);
    }
  }

  lemma NoTokens(p: seq<Lexeme>)
    requires Kinds(p, [])
    ensures p == []
  {}

  // A name, a type and constraints.
  ghost predicate IsColumn(p: seq<Lexeme>, c: ColumnSchema) {
    && p != [] && p[0] == Lexeme(Identifier, c.name)
    && exists n :: 0 < n <= |p| && IsType(p[1..n], c.dataType) && IsConstraints(p[n..], Constraints(c.primaryKey, c.unique, c.notNull))
  }

  lemma ColumnSound(b: seq<Lexeme>)
    requires ParseColumn(b).Some?
    ensures var (c, rest) := ParseColumn(b).value; Ends(b, rest) && IsColumn(Read(b, rest), c)
  {
    hide ParseDataType, ParseConstraints, IsType, IsConstraints, Ends, Read;
    var (c, rest) := ParseColumn(b).value;
    var more := ParseDataType(b[1..]).value.1;
    TypeSound(b[1..]);
    AllConstraintsSound(more);
    ColumnCut(b, more, rest);
    var p, n := Read(b, rest), |b| - |more|;
    assert IsType(p[1..n], c.dataType) && IsConstraints(p[n..], Constraints(c.primaryKey, c.unique, c.notNull));
  }

  lemma AllConstraintsSound(b: seq<Lexeme>)
    requires ParseConstraints(b, Constraints(false, false, false)).Some?
    ensures var (c, rest) := ParseConstraints(b, Constraints(false, false, false)).value; Ends(b, rest) && IsConstraints(Read(b, rest), c)
  {
    hide ParseConstraints, IsConstraints;
    assert Read(b, b) == [];
    ConstraintsSound(b, [], b);
  }

  lemma ColumnCut(b: seq<Lexeme>, more: seq<Lexeme>, rest: seq<Lexeme>)
    requires b != [] && Ends(b[1..], more) && Ends(more, rest)
    ensures Ends(b, rest)
    ensures var p, n := Read(b, rest), |b| - |more|;
      && 0 < n <= |p| && p[0] == b[0] && p[1..n] == Read(b[1..], more) && p[n..] == Read(more, rest)
  {}

  lemma ColumnComplete(p: seq<Lexeme>, c: ColumnSchema, rest: seq<Lexeme>)
    requires IsColumn(p, c) && !StartsConstraint(NextKind(rest))
    ensures ParseColumn(p + rest) == Some((c, rest))
  {
    hide ParseDataType, ParseConstraints, IsType, IsConstraints, StartsConstraint, NextKind;
    var n :| 0 < n <= |p| && IsType(p[1..n], c.dataType) && IsConstraints(p[n..], Constraints(c.primaryKey, c.unique, c.notNull));
    var more := p[n..] + rest;
    StatementPrinter.OneToken(p[0], p[1..n] + more);
    assert p + rest == [p[0]] + (p[1..n] + more);
    TypeComplete(p[1..n], c.dataType, more);
    AllConstraintsComplete(p[n..], Constraints(c.primaryKey, c.unique, c.notNull), rest);
  }

  lemma AllConstraintsComplete(p: seq<Lexeme>, c: Constraints, rest: seq<Lexeme>)
    requires IsConstraints(p, c) && !StartsConstraint(NextKind(rest))
    ensures ParseConstraints(p + rest, Constraints(false, false, false)) == Some((c, rest))
  {
    hide ParseConstraints, StartsConstraint, NextKind, WordsOf, Kinds;
    var said :| SaidOnce(said) && Kinds(p, WordsOf(said)) && c == Saying(said);
    assert [] + said == said;
    ConstraintsComplete([], said, p, rest);
  }

  lemma ColumnsSound()
    ensures Sound(ParseColumn, IsColumn)
  {
    hide ParseColumn, IsColumn;
    forall b | ParseColumn(b).Some?
      ensures Ends(b, ParseColumn(b).value.1) && IsColumn(Read(b, ParseColumn(b).value.1), ParseColumn(b).value.0)
    {
      ColumnSound(b);
    }
  }

  lemma ColumnsComplete()
    ensures Complete(ParseColumn, IsColumn, RightParen)
  {
    hide ParseColumn, IsColumn;
    forall p, x | IsColumn(p, x)
      ensures StatementPrinter.ItemBack(ParseColumn, p, x, RightParen)
    {
      forall more | NextKind(more) == Comma || NextKind(more) == RightParen
        ensures ParseColumn(p + more) == Some((x, more))
      {
        ColumnComplete(p, x, more);
      }
    }
  }

  // ---------- Statements ----------

  ghost predicate Begins(p: seq<Lexeme>, kinds: seq<TokenType>) {
    |p| >= |kinds| && forall i :: 0 <= i < |kinds| ==> p[i].kind == kinds[i]
  }

  ghost predicate IsWhere(p: seq<Lexeme>, condition: Option<Ast.Expression>, d: Decimal) {
    match condition
    case None => p == []
    case Some(e) => Begins(p, [Where]) && IsCondition(p[1..], e, d)
  }

  // A star, or the names of columns.
  ghost predicate IsSelected(p: seq<Lexeme>, columns: seq<Name>) {
    (columns == [] && Kinds(p, [Star])) || IsList(IsName, p, columns)
  }

  // What follows SELECT.
  ghost predicate IsSelect(p: seq<Lexeme>, s: Ast.SelectStatement, d: Decimal) {
    exists n: nat :: IsSelectAt(p, s, d, n)
  }

  ghost predicate IsSelectAt(p: seq<Lexeme>, s: Ast.SelectStatement, d: Decimal, n: nat) {
    && n <= |p| && IsSelected(p[..n], s.columns)
    && Begins(p[n..], [From, Identifier]) && p[n..][1].text == s.tableName && IsWhere(p[n..][2..], s.condition, d)
  }

  ghost predicate IsSet(p: seq<Lexeme>, value: Value, condition: Option<Ast.Expression>, d: Decimal, n: nat) {
    n <= |p| && IsLiteral(p[..n], value, d) && IsWhere(p[n..], condition, d)
  }

  ghost predicate IsStatement(p: seq<Lexeme>, s: Ast.Statement, d: Decimal) {
    match s
    case CreateDatabase(name) => Kinds(p, [Create, Database, Identifier]) && p[2].text == name
    case UseDatabase(name) => Kinds(p, [Use, Identifier]) && p[1].text == name
    case CreateTable(name, columns) => Begins(p, [Create, Table, Identifier]) && p[2].text == name && IsListed(IsColumn, p[3..], columns)
    case CreateIndex(name, table, column) =>
      && Kinds(p, [Create, Index, Identifier, On, Identifier, LeftParen, Identifier, RightParen])
      && p[2].text == name && p[4].text == table && p[6].text == column
    case Insert(table, values) =>
      && Begins(p, [TokenType.Insert, Into, Identifier, ValuesWord])
      && p[2].text == table && IsListed(ALiteral(d), p[4..], values)
    case Select(select) => Begins(p, [TokenType.Select]) && IsSelect(p[1..], select, d)
    case Delete(table, condition) =>
      Begins(p, [TokenType.Delete, From, Identifier]) && p[2].text == table && IsWhere(p[3..], condition, d)
    case Update(table, column, value, condition) =>
      && Begins(p, [TokenType.Update, Identifier, Set, Identifier, TokenType.Equal])
      && p[1].text == table && p[3].text == column && exists n: nat :: IsSet(p[5..], value, condition, d, n)
    case Explain(select) => Begins(p, [TokenType.Explain, TokenType.Select]) && IsSelect(p[2..], select, d)
  }

  // One statement, a semicolon, and nothing more.
  ghost predicate IsSentence(b: seq<Lexeme>, s: Ast.Statement, d: Decimal) {
    exists n: nat :: IsSentenceAt(b, s, d, n)
  }

  ghost predicate IsSentenceAt(b: seq<Lexeme>, s: Ast.Statement, d: Decimal, n: nat) {
    n < |b| && b[n].kind == Semicolon && (n + 1 == |b| || b[n + 1].kind == EndOfInput) && IsStatement(b[..n], s, d)
  }

  // What comes before the rest, when a run of tokens comes first.
  lemma BeginsRead(b: seq<Lexeme>, kinds: seq<TokenType>, rest: seq<Lexeme>)
    requires Begins(b, kinds) && Ends(b[|kinds|..], rest)
    ensures Ends(b, rest)
    ensures var p := Read(b, rest);
      Begins(p, kinds) && p[|kinds|..] == Read(b[|kinds|..], rest) && forall i :: 0 <= i < |kinds| ==> p[i] == b[i]
  {}

  lemma BeginsOn(p: seq<Lexeme>, kinds: seq<TokenType>, rest: seq<Lexeme>)
    requires Begins(p, kinds)
    ensures var b := p + rest;
      Begins(b, kinds) && b[|kinds|..] == p[|kinds|..] + rest && forall i :: 0 <= i < |kinds| ==> b[i] == p[i]
  {}

  lemma WhereSound(b: seq<Lexeme>, d: Decimal)
    requires ParseWhere(b, d).Some?
    ensures var (condition, rest) := ParseWhere(b, d).value; Ends(b, rest) && IsWhere(Read(b, rest), condition, d)
  {
    hide ParseOr, IsCondition;
    if NextKind(b) == Where {
      ConditionSound(b[1..], d);
      BeginsRead(b, [Where], ParseOr(b[1..], d).value.1);
    }
  }

  lemma WhereComplete(p: seq<Lexeme>, condition: Option<Ast.Expression>, rest: seq<Lexeme>, d: Decimal)
    requires IsWhere(p, condition, d) && NextKind(rest) == Semicolon
    ensures ParseWhere(p + rest, d) == Some((condition, rest))
  {
    hide ParseOr, IsCondition, OrRest;
    match condition
    case None =>
      assert p + rest == rest;
    case Some(e) =>
      BeginsOn(p, [Where], rest);
      ConditionComplete(p[1..], e, rest, d);
      OrsEnd(e, rest, d);
  }

  lemma SelectedSound(b: seq<Lexeme>)
    requires ParseSelected(b).Some?
    ensures var (columns, rest) := ParseSelected(b).value; Ends(b, rest) && IsSelected(Read(b, rest), columns)
  {
    hide ParseList, IsList;
    if NextKind(b) == Star {
      assert Read(b, b[1..]) == [b[0]];
    } else {
      NamesSound();
      ListSound(ParseName, IsName, b);
    }
  }

  lemma SelectedComplete(p: seq<Lexeme>, columns: seq<Name>, rest: seq<Lexeme>)
    requires IsSelected(p, columns) && NextKind(rest) == From
    ensures ParseSelected(p + rest) == Some((columns, rest))
  {
    hide ParseList, IsList;
    if Kinds(p, [Star]) && columns == [] {
      assert (p + rest)[1..] == rest;
    } else {
      NamesComplete(From);
      ListComplete(ParseName, IsName, p, columns, rest);
      NamesStart(p, columns);
    }
  }

  lemma NamesStart(p: seq<Lexeme>, columns: seq<Name>)
    requires IsList(IsName, p, columns)
    ensures p != [] && p[0].kind == Identifier
  {
    if |columns| > 1 {
      var i :| 0 <= i < |p| && p[i].kind == Comma && IsName(p[..i], columns[0]) && IsList(IsName, p[i + 1..], columns[1..]);
      assert p[0] == p[..i][0];
    }
  }

  lemma TakeNameAt(b: seq<Lexeme>, k: nat, kind: TokenType)
    requires k <= |b| && kind != EndOfInput
    ensures TakeName(b[k..], kind) ==
      if k + 1 < |b| && b[k].kind == kind && b[k + 1].kind == Identifier then Some((b[k + 1].text, b[k + 2..])) else None
  {
    TakeAt(b, k, kind);
    if k < |b| {
      TakeAt(b, k + 1, Identifier);
    }
  }

  // CREATE DATABASE and USE.
  lemma NamedSound(b: seq<Lexeme>, d: Decimal)
    requires b != []
    ensures b[0].kind == Create && NextKind(b[1..]) == Database && ParseCreateDatabase(b[2..]).Some? ==>
      var (s, rest) := ParseCreateDatabase(b[2..]).value; Ends(b, rest) && IsStatement(Read(b, rest), s, d)
    ensures b[0].kind == Use && ParseUse(b[1..]).Some? ==>
      var (s, rest) := ParseUse(b[1..]).value; Ends(b, rest) && IsStatement(Read(b, rest), s, d)
  {
    hide Take;
    if |b| >= 2 {
      TakeAt(b, 1, Identifier);
      TakeAt(b, 2, Identifier);
    }
  }

  lemma CreateTableSound(b: seq<Lexeme>, d: Decimal)
    requires Begins(b, [Create, Table]) && ParseCreateTable(b[2..]).Some?
    ensures var (s, rest) := ParseCreateTable(b[2..]).value; Ends(b, rest) && IsStatement(Read(b, rest), s, d)
  {
    hide Take, ParseListed, Sound, IsListed, Ends, Read;
    TakeAt(b, 2, Identifier);
    ColumnsSound();
    ListedSound(ParseColumn, IsColumn, b[3..]);
    BeginsRead(b, [Create, Table, Identifier], ParseListed(ParseColumn, b[3..]).value.1);
  }

  lemma CreateIndexSound(b: seq<Lexeme>, d: Decimal)
    requires Begins(b, [Create, Index]) && ParseCreateIndex(b[2..]).Some?
    ensures var (s, rest) := ParseCreateIndex(b[2..]).value; Ends(b, rest) && IsStatement(Read(b, rest), s, d)
  {
    hide ParseCreateIndex, IsStatement, Kinds, Read;
    IndexAt(b);
    IndexSaid(b, d);
  }

  lemma IndexAt(b: seq<Lexeme>)
    requires |b| >= 2 && ParseCreateIndex(b[2..]).Some?
    ensures |b| >= 8 && ParseCreateIndex(b[2..]) == Some((Ast.CreateIndex(b[2].text, b[4].text, b[6].text), b[8..]))
    ensures b[2].kind == b[4].kind == b[6].kind == Identifier && b[3].kind == On && b[5].kind == LeftParen && b[7].kind == RightParen
  {
    hide Take, TakeName;
    TakeAt(b, 2, Identifier);
    TakeNameAt(b, 3, On);
    TakeNameAt(b, 5, LeftParen);
    TakeAt(b, 7, RightParen);
  }

  lemma IndexSaid(b: seq<Lexeme>, d: Decimal)
    requires |b| >= 8 && b[0].kind == Create && b[1].kind == Index
    requires b[2].kind == b[4].kind == b[6].kind == Identifier && b[3].kind == On && b[5].kind == LeftParen && b[7].kind == RightParen
    ensures Ends(b, b[8..]) && IsStatement(Read(b, b[8..]), Ast.CreateIndex(b[2].text, b[4].text, b[6].text), d)
  {
    assert Read(b, b[8..]) == b[..8];
  }

  lemma InsertSound(b: seq<Lexeme>, d: Decimal)
    requires Begins(b, [TokenType.Insert]) && ParseInsert(b[1..], d).Some?
    ensures var (s, rest) := ParseInsert(b[1..], d).value; Ends(b, rest) && IsStatement(Read(b, rest), s, d)
  {
    hide Take, TakeName, ParseRow, ParseListed, Sound, IsListed, Ends, Read, IsStatement, LiteralItem, ALiteral;
    TakeNameAt(b, 1, Into);
    RowAt(b, d);
    LiteralsSound(d);
    ListedSound(LiteralItem(d), ALiteral(d), b[4..]);
    var (values, rest) := ParseListed(LiteralItem(d), b[4..]).value;
    InsertSaid(b, rest, values, d);
  }

  lemma RowAt(b: seq<Lexeme>, d: Decimal)
    requires |b| >= 3
    ensures ParseRow(b[3..], d) == if |b| > 3 && b[3].kind == ValuesWord then ParseListed(LiteralItem(d), b[4..]) else None
  {
    hide Take, ParseListed, LiteralItem;
    TakeAt(b, 3, ValuesWord);
  }

  lemma InsertSaid(b: seq<Lexeme>, rest: seq<Lexeme>, values: seq<Value>, d: Decimal)
    requires Begins(b, [TokenType.Insert, Into, Identifier, ValuesWord]) && Ends(b[4..], rest)
    requires IsListed(ALiteral(d), Read(b[4..], rest), values)
    ensures Ends(b, rest) && IsStatement(Read(b, rest), Ast.Insert(b[2].text, values), d)
  {
    hide IsListed, Ends, Read, ALiteral;
    BeginsRead(b, [TokenType.Insert, Into, Identifier, ValuesWord], rest);
  }

  lemma SelectSound(b: seq<Lexeme>, d: Decimal)
    requires ParseSelect(b, d).Some?
    ensures var (s, rest) := ParseSelect(b, d).value; Ends(b, rest) && IsSelect(Read(b, rest), s, d)
  {
    hide TakeName, ParseSelected, ParseWhere, IsSelected, IsWhere, Ends, Read;
    var (s, rest) := ParseSelect(b, d).value;
    var more := ParseSelected(b).value.1;
    SelectedSound(b);
    assert more[0..] == more;
    TakeNameAt(more, 0, From);
    WhereSound(more[2..], d);
    BeginsRead(more, [From, Identifier], rest);
    ReadOn(b, more, rest);
    var n := |Read(b, more)|;
    assert Read(b, rest)[..n] == Read(b, more) && Read(b, rest)[n..] == Read(more, rest);
    assert IsSelectAt(Read(b, rest), s, d, n);
  }

  lemma DeleteSound(b: seq<Lexeme>, d: Decimal)
    requires Begins(b, [TokenType.Delete]) && ParseDelete(b[1..], d).Some?
    ensures var (s, rest) := ParseDelete(b[1..], d).value; Ends(b, rest) && IsStatement(Read(b, rest), s, d)
  {
    hide TakeName, ParseWhere, IsWhere, Ends, Read;
    TakeNameAt(b, 1, From);
    WhereSound(b[3..], d);
    BeginsRead(b, [TokenType.Delete, From, Identifier], ParseWhere(b[3..], d).value.1);
  }

  lemma UpdateSound(b: seq<Lexeme>, d: Decimal)
    requires Begins(b, [TokenType.Update]) && ParseUpdate(b[1..], d).Some?
    ensures var (s, rest) := ParseUpdate(b[1..], d).value; Ends(b, rest) && IsStatement(Read(b, rest), s, d)
  {
    hide Take, ParseAssignment, ParseLiteral, ParseWhere, IsLiteral, IsWhere, Ends, Read, IsStatement, IsSet;
    TakeAt(b, 1, Identifier);
    AssignmentAt(b, d);
    LiteralSound(b[5..], d);
    var (value, more) := ParseLiteral(b[5..], d).value;
    WhereSound(more, d);
    var (condition, rest) := ParseWhere(more, d).value;
    SetIs(b[5..], more, rest, value, condition, d);
    UpdateSaid(b, rest, value, condition, d);
  }

  lemma AssignmentAt(b: seq<Lexeme>, d: Decimal)
    requires |b| >= 2
    ensures ParseAssignment(b[2..], d).Some? ==>
      && |b| >= 5 && b[2].kind == Set && b[3].kind == Identifier && b[4].kind == TokenType.Equal && ParseLiteral(b[5..], d).Some?
      && var (value, more) := ParseLiteral(b[5..], d).value;
         ParseAssignment(b[2..], d) == Some(((b[3].text, value), more))
  {
    hide Take, TakeName, ParseLiteral;
    TakeNameAt(b, 2, Set);
    if |b| >= 4 {
      TakeAt(b, 4, TokenType.Equal);
    }
  }

  lemma UpdateSaid(b: seq<Lexeme>, rest: seq<Lexeme>, value: Value, condition: Option<Ast.Expression>, d: Decimal)
    requires Begins(b, [TokenType.Update, Identifier, Set, Identifier, TokenType.Equal]) && Ends(b[5..], rest)
    requires exists n: nat :: IsSet(Read(b[5..], rest), value, condition, d, n)
    ensures Ends(b, rest) && IsStatement(Read(b, rest), Ast.Update(b[1].text, b[3].text, value, condition), d)
  {
    hide IsSet, Ends, Read;
    BeginsRead(b, [TokenType.Update, Identifier, Set, Identifier, TokenType.Equal], rest);
  }

  lemma SetIs(b: seq<Lexeme>, more: seq<Lexeme>, rest: seq<Lexeme>, value: Value, condition: Option<Ast.Expression>, d: Decimal)
    requires Ends(b, more) && Ends(more, rest) && IsLiteral(Read(b, more), value, d) && IsWhere(Read(more, rest), condition, d)
    ensures Ends(b, rest) && exists n: nat :: IsSet(Read(b, rest), value, condition, d, n)
  {
    hide IsLiteral, IsWhere, Read;
    ReadOn(b, more, rest);
    var p, n := Read(b, rest), |Read(b, more)|;
    assert p[..n] == Read(b, more) && p[n..] == Read(more, rest);
    assert IsSet(p, value, condition, d, n);
  }

  lemma QuerySound(b: seq<Lexeme>, d: Decimal)
    requires Begins(b, [TokenType.Select]) && ParseQuery(b[1..], d).Some?
    ensures var (s, rest) := ParseQuery(b[1..], d).value; Ends(b, rest) && IsStatement(Read(b, rest), s, d)
  {
    hide ParseSelect, IsSelect, Ends, Read;
    SelectSound(b[1..], d);
    BeginsRead(b, [TokenType.Select], ParseSelect(b[1..], d).value.1);
  }

  lemma ExplainSound(b: seq<Lexeme>, d: Decimal)
    requires Begins(b, [TokenType.Explain]) && ParseExplain(b[1..], d).Some?
    ensures var (s, rest) := ParseExplain(b[1..], d).value; Ends(b, rest) && IsStatement(Read(b, rest), s, d)
  {
    hide Take, ParseSelect, IsSelect, Ends, Read;
    TakeAt(b, 1, TokenType.Select);
    SelectSound(b[2..], d);
    BeginsRead(b, [TokenType.Explain, TokenType.Select], ParseSelect(b[2..], d).value.1);
  }

  lemma StatementSound(b: seq<Lexeme>, d: Decimal)
    requires ParseAnyStatement(b, d).Some?
    ensures var (s, rest) := ParseAnyStatement(b, d).value; Ends(b, rest) && IsStatement(Read(b, rest), s, d)
  {
    hide ParseCreateDatabase, ParseCreateTable, ParseCreateIndex, ParseUse, ParseInsert, ParseQuery, ParseDelete, ParseUpdate, ParseExplain,
         IsStatement, Ends, Read;
    assert |b| > 1 ==> b[1..][1..] == b[2..] && b[1..][0] == b[1];
    match b[0].kind
    case Create =>
      if NextKind(b[1..]) == Database {
        NamedSound(b, d);
      } else if NextKind(b[1..]) == Table {
        CreateTableSound(b, d);
      } else {
        CreateIndexSound(b, d);
      }
    case Use => NamedSound(b, d);
    case Insert => InsertSound(b, d);
    case Select => QuerySound(b, d);
    case Delete => DeleteSound(b, d);
    case Update => UpdateSound(b, d);
    case Explain => ExplainSound(b, d);
  }

  lemma CreateAt(b: seq<Lexeme>, d: Decimal)
    requires |b| >= 2 && b[0].kind == Create
    ensures b[1].kind == Database ==> ParseAnyStatement(b, d) == ParseCreateDatabase(b[2..])
    ensures b[1].kind == Table ==> ParseAnyStatement(b, d) == ParseCreateTable(b[2..])
    ensures b[1].kind == Index ==> ParseAnyStatement(b, d) == ParseCreateIndex(b[2..])
  {
    hide ParseCreateDatabase, ParseCreateTable, ParseCreateIndex;
    assert b[1..][1..] == b[2..] && b[1..][0] == b[1];
  }

  lemma CreateDatabaseComplete(p: seq<Lexeme>, name: Name, rest: seq<Lexeme>, d: Decimal)
    requires IsStatement(p, Ast.CreateDatabase(name), d)
    ensures ParseAnyStatement(p + rest, d) == Some((Ast.CreateDatabase(name), rest))
  {
    hide Take, ParseAnyStatement;
    var b := p + rest;
    assert b[3..] == rest;
    CreateAt(b, d);
    TakeAt(b, 2, Identifier);
  }

  lemma UseComplete(p: seq<Lexeme>, name: Name, rest: seq<Lexeme>, d: Decimal)
    requires IsStatement(p, Ast.UseDatabase(name), d)
    ensures ParseAnyStatement(p + rest, d) == Some((Ast.UseDatabase(name), rest))
  {
    hide Take;
    assert (p + rest)[2..] == rest;
    TakeAt(p + rest, 1, Identifier);
  }

  lemma CreateTableComplete(p: seq<Lexeme>, name: Name, columns: seq<ColumnSchema>, rest: seq<Lexeme>, d: Decimal)
    requires IsStatement(p, Ast.CreateTable(name, columns), d)
    ensures ParseAnyStatement(p + rest, d) == Some((Ast.CreateTable(name, columns), rest))
  {
    hide Take, ParseListed, IsListed, Complete, ParseAnyStatement;
    var b := p + rest;
    BeginsOn(p, [Create, Table, Identifier], rest);
    CreateAt(b, d);
    TakeAt(b, 2, Identifier);
    ColumnsComplete();
    ListedComplete(ParseColumn, IsColumn, p[3..], columns, rest);
  }

  lemma CreateIndexComplete(p: seq<Lexeme>, name: Name, table: Name, column: Name, rest: seq<Lexeme>, d: Decimal)
    requires IsStatement(p, Ast.CreateIndex(name, table, column), d)
    ensures ParseAnyStatement(p + rest, d) == Some((Ast.CreateIndex(name, table, column), rest))
  {
    hide ParseCreateIndex, IsStatement, ParseAnyStatement;
    var b := p + rest;
    IndexWords(p, name, table, column, d);
    CreateAt(b, d);
    assert b[8..] == rest;
    IndexReads(b);
  }

  lemma IndexWords(p: seq<Lexeme>, name: Name, table: Name, column: Name, d: Decimal)
    requires IsStatement(p, Ast.CreateIndex(name, table, column), d)
    ensures |p| == 8 && p[0].kind == Create && p[1].kind == Index
    ensures p[2] == Lexeme(Identifier, name) && p[4] == Lexeme(Identifier, table) && p[6] == Lexeme(Identifier, column)
    ensures p[3].kind == On && p[5].kind == LeftParen && p[7].kind == RightParen
  {
    hide Kinds;
    EightKinds(p);
  }

  lemma EightKinds(p: seq<Lexeme>)
    requires Kinds(p, [Create, Index, Identifier, On, Identifier, LeftParen, Identifier, RightParen])
    ensures |p| == 8 && p[0].kind == Create && p[1].kind == Index && p[3].kind == On && p[5].kind == LeftParen && p[7].kind == RightParen
    ensures p[2].kind == p[4].kind == p[6].kind == Identifier
  {}

  lemma IndexReads(b: seq<Lexeme>)
    requires |b| >= 8
    requires b[2].kind == b[4].kind == b[6].kind == Identifier && b[3].kind == On && b[5].kind == LeftParen && b[7].kind == RightParen
    ensures ParseCreateIndex(b[2..]) == Some((Ast.CreateIndex(b[2].text, b[4].text, b[6].text), b[8..]))
  {
    hide Take, TakeName;
    TakeAt(b, 2, Identifier);
    TakeNameAt(b, 3, On);
    TakeNameAt(b, 5, LeftParen);
    TakeAt(b, 7, RightParen);
  }

  lemma InsertComplete(p: seq<Lexeme>, table: Name, values: seq<Value>, rest: seq<Lexeme>, d: Decimal)
    requires IsStatement(p, Ast.Insert(table, values), d)
    ensures ParseAnyStatement(p + rest, d) == Some((Ast.Insert(table, values), rest))
  {
    hide Take, TakeName, ParseRow, ParseListed, IsListed, Complete, LiteralItem, ALiteral;
    var b := p + rest;
    BeginsOn(p, [TokenType.Insert, Into, Identifier, ValuesWord], rest);
    TakeNameAt(b, 1, Into);
    RowAt(b, d);
    LiteralsComplete(d, RightParen);
    ListedComplete(LiteralItem(d), ALiteral(d), p[4..], values, rest);
  }

  lemma SelectComplete(p: seq<Lexeme>, s: Ast.SelectStatement, rest: seq<Lexeme>, d: Decimal)
    requires IsSelect(p, s, d) && NextKind(rest) == Semicolon
    ensures ParseSelect(p + rest, d) == Some((s, rest))
  {
    hide TakeName, ParseSelected, ParseWhere, IsSelected, IsWhere, Kinds;
    var n: nat :| IsSelectAt(p, s, d, n);
    var more := p[n..] + rest;
    assert p[..n] + more == p + rest;
    BeginsOn(p[n..], [From, Identifier], rest);
    SelectedComplete(p[..n], s.columns, more);
    assert more[0..] == more;
    TakeNameAt(more, 0, From);
    WhereComplete(p[n..][2..], s.condition, rest, d);
  }

  lemma DeleteComplete(p: seq<Lexeme>, table: Name, condition: Option<Ast.Expression>, rest: seq<Lexeme>, d: Decimal)
    requires IsStatement(p, Ast.Delete(table, condition), d) && NextKind(rest) == Semicolon
    ensures ParseAnyStatement(p + rest, d) == Some((Ast.Delete(table, condition), rest))
  {
    hide TakeName, ParseWhere, IsWhere;
    BeginsOn(p, [TokenType.Delete, From, Identifier], rest);
    TakeNameAt(p + rest, 1, From);
    WhereComplete(p[3..], condition, rest, d);
  }

  lemma SetComplete(p: seq<Lexeme>, value: Value, condition: Option<Ast.Expression>, rest: seq<Lexeme>, d: Decimal)
    requires (exists n: nat :: IsSet(p, value, condition, d, n)) && NextKind(rest) == Semicolon
    ensures ParseLiteral(p + rest, d).Some? && ParseLiteral(p + rest, d).value.0 == value
    ensures ParseWhere(ParseLiteral(p + rest, d).value.1, d) == Some((condition, rest))
  {
    hide IsLiteral, IsWhere, ParseLiteral, ParseWhere;
    var n: nat :| IsSet(p, value, condition, d, n);
    assert p[..n] + (p[n..] + rest) == p + rest;
    LiteralComplete(p[..n], value, p[n..] + rest, d);
    WhereComplete(p[n..], condition, rest, d);
  }

  lemma UpdateComplete(p: seq<Lexeme>, table: Name, column: Name, value: Value, condition: Option<Ast.Expression>, rest: seq<Lexeme>,
                       d: Decimal)
    requires IsStatement(p, Ast.Update(table, column, value, condition), d) && NextKind(rest) == Semicolon
    ensures ParseAnyStatement(p + rest, d) == Some((Ast.Update(table, column, value, condition), rest))
  {
    hide Take, ParseAssignment, ParseLiteral, ParseWhere, IsSet;
    var b := p + rest;
    BeginsOn(p, [TokenType.Update, Identifier, Set, Identifier, TokenType.Equal], rest);
    TakeAt(b, 1, Identifier);
    SetComplete(p[5..], value, condition, rest, d);
    AssignmentReads(b, d);
  }

  lemma AssignmentReads(b: seq<Lexeme>, d: Decimal)
    requires |b| >= 5 && b[2].kind == Set && b[3].kind == Identifier && b[4].kind == TokenType.Equal && ParseLiteral(b[5..], d).Some?
    ensures var (value, more) := ParseLiteral(b[5..], d).value; ParseAssignment(b[2..], d) == Some(((b[3].text, value), more))
  {
    hide Take, TakeName, ParseLiteral;
    TakeNameAt(b, 2, Set);
    TakeAt(b, 4, TokenType.Equal);
  }

  lemma QueryComplete(p: seq<Lexeme>, s: Ast.SelectStatement, rest: seq<Lexeme>, d: Decimal)
    requires IsStatement(p, Ast.Select(s), d) && NextKind(rest) == Semicolon
    ensures ParseAnyStatement(p + rest, d) == Some((Ast.Select(s), rest))
  {
    hide ParseSelect, IsSelect;
    BeginsOn(p, [TokenType.Select], rest);
    SelectComplete(p[1..], s, rest, d);
  }

  lemma ExplainComplete(p: seq<Lexeme>, s: Ast.SelectStatement, rest: seq<Lexeme>, d: Decimal)
    requires IsStatement(p, Ast.Explain(s), d) && NextKind(rest) == Semicolon
    ensures ParseAnyStatement(p + rest, d) == Some((Ast.Explain(s), rest))
  {
    hide Take, ParseSelect, IsSelect;
    BeginsOn(p, [TokenType.Explain, TokenType.Select], rest);
    TakeAt(p + rest, 1, TokenType.Select);
    SelectComplete(p[2..], s, rest, d);
  }

  lemma StatementComplete(p: seq<Lexeme>, s: Ast.Statement, rest: seq<Lexeme>, d: Decimal)
    requires IsStatement(p, s, d) && NextKind(rest) == Semicolon
    ensures ParseAnyStatement(p + rest, d) == Some((s, rest))
  {
    hide IsStatement, ParseAnyStatement, NextKind;
    match s
    case CreateDatabase(name) => CreateDatabaseComplete(p, name, rest, d);
    case UseDatabase(name) => UseComplete(p, name, rest, d);
    case CreateTable(name, columns) => CreateTableComplete(p, name, columns, rest, d);
    case CreateIndex(name, table, column) => CreateIndexComplete(p, name, table, column, rest, d);
    case Insert(table, values) => InsertComplete(p, table, values, rest, d);
    case Select(select) => QueryComplete(p, select, rest, d);
    case Delete(table, condition) => DeleteComplete(p, table, condition, rest, d);
    case Update(table, column, value, condition) => UpdateComplete(p, table, column, value, condition, rest, d);
    case Explain(select) => ExplainComplete(p, select, rest, d);
  }

  // ---------- The parser accepts exactly the sentences ----------

  lemma SentenceSound(b: seq<Lexeme>, d: Decimal)
    requires ParseStatement(b, d).Some?
    ensures IsSentence(b, ParseStatement(b, d).value, d)
  {
    hide ParseAnyStatement, IsStatement;
    var (s, rest) := ParseAnyStatement(b, d).value;
    StatementSound(b, d);
    var n: nat := |b| - |rest|;
    assert rest == b[n..] && rest[1..] == b[n + 1..];
    assert IsSentenceAt(b, s, d, n);
  }

  lemma SentenceComplete(b: seq<Lexeme>, s: Ast.Statement, d: Decimal)
    requires IsSentence(b, s, d)
    ensures ParseStatement(b, d) == Some(s)
  {
    hide ParseAnyStatement, IsStatement;
    var n: nat :| IsSentenceAt(b, s, d, n);
    assert b[..n] + b[n..] == b;
    StatementComplete(b[..n], s, b[n..], d);
    TakeAt(b, n, Semicolon);
  }

  // And so no run of tokens is a sentence for two statements.
  lemma SentenceIs(b: seq<Lexeme>, s: Ast.Statement, d: Decimal)
    ensures ParseStatement(b, d) == Some(s) <==> IsSentence(b, s, d)
  {
    hide ParseStatement, IsSentence;
    if ParseStatement(b, d).Some? {
      SentenceSound(b, d);
    }
    if IsSentence(b, s, d) {
      SentenceComplete(b, s, d);
    }
  }

  lemma ConditionIs(p: seq<Lexeme>, e: Ast.Expression, d: Decimal)
    ensures ParseOr(p, d) == Some((e, [])) <==> IsCondition(p, e, d)
  {
    hide ParseOr, IsCondition;
    assert p + [] == p;
    if ParseOr(p, d) == Some((e, [])) {
      ConditionSound(p, d);
      assert Read(p, []) == p;
    }
    if IsCondition(p, e, d) {
      ConditionComplete(p, e, [], d);
      OrsEnd(e, [], d);
    }
  }
}
