// A printer for statements, and the proof that lexing and parsing undo it.
module StatementPrinter {
  import opened Bytes
  import opened Results
  import opened Values
  import opened Lexer
  import opened Grammar
  import opened Schema
  import opened Printer
  import Ast
  import Parser
  import Seqs

  // ---------- Printing ----------

  const OPEN: Lexeme := Lexeme(LeftParen, [40])
  const CLOSE: Lexeme := Lexeme(RightParen, [41])
  const COMMA: Lexeme := Lexeme(Comma, [44])
  const STAR: Lexeme := Lexeme(Star, [42])
  const SEMICOLON: Lexeme := Lexeme(Semicolon, [59])
  const EQUALS: Lexeme := Lexeme(TokenType.Equal, [61])

  // A statement is printed in parts, each a run of tokens.
  type Parts = seq<seq<Lexeme>>

  ghost function Flat(parts: Parts, rest: seq<Lexeme>): seq<Lexeme> {
    if parts == [] then rest else parts[0] + Flat(parts[1..], rest)
  }

  ghost function Then(l: Lexeme, parts: Parts): Parts {
    [[l]] + parts
  }

  ghost function Named(name: Name): Lexeme {
    Lexeme(Identifier, name)
  }

  ghost function ListParts(items: Parts): Parts {
    if |items| <= 1 then items else [items[0]] + Then(COMMA, ListParts(items[1..]))
  }

  ghost function Listed(items: Parts, parts: Parts): Parts {
    Then(OPEN, ListParts(items) + Then(CLOSE, parts))
  }

  ghost function TypeTokens(t: DataType): seq<Lexeme> {
    match t.kind
    case IntegerKind => [Keyword(IntWord)]
    case DoubleKind => [Keyword(DoubleWord)]
    case VarcharKind => [Keyword(VarcharWord)] + ([OPEN] + ([Lexeme(IntegerLiteral, Digits(if t.length.Some? then t.length.value else 0))] + [CLOSE]))
  }

  // PRIMARY KEY says the other two as well.
  ghost function ConstraintTokens(c: ColumnSchema): seq<Lexeme> {
    if c.primaryKey then [Keyword(Primary), Keyword(Key)]
    else (if c.unique then [Keyword(TokenType.Unique)] else []) +
         (if c.notNull then [Keyword(Not), Keyword(TokenType.Null)] else [])
  }

  ghost function ColumnTokens(c: ColumnSchema): seq<Lexeme> {
    [Named(c.name)] + (TypeTokens(c.dataType) + ConstraintTokens(c))
  }

  ghost function NameItems(names: seq<Name>): (items: Parts)
    ensures |items| == |names|
  {
    seq(|names|, i requires 0 <= i < |names| => [Named(names[i])])
  }

  ghost function LiteralItems(values: seq<Value>, w: Write): (items: Parts)
    ensures |items| == |values|
  {
    seq(|values|, i requires 0 <= i < |values| => LiteralTokens(values[i], w))
  }

  ghost function ColumnItems(columns: seq<ColumnSchema>): (items: Parts)
    ensures |items| == |columns|
  {
    seq(|columns|, i requires 0 <= i < |columns| => ColumnTokens(columns[i]))
  }

  ghost function WhereParts(condition: Option<Ast.Expression>, w: Write): Parts {
    match condition
    case None => []
    case Some(e) => Then(Keyword(Where), [OrTokens(e, w)])
  }

  ghost function SelectedParts(columns: seq<Name>): Parts {
    if columns == [] then [[STAR]] else ListParts(NameItems(columns))
  }

  ghost function SelectParts(s: Ast.SelectStatement, w: Write): Parts {
    SelectedParts(s.columns) + Then(Keyword(From), Then(Named(s.tableName), WhereParts(s.condition, w)))
  }

  // What follows the first word.
  ghost function PartsAfter(s: Ast.Statement, w: Write): Parts {
    match s
    case CreateDatabase(name) => Then(Keyword(Database), Then(Named(name), []))
    case UseDatabase(name) => Then(Named(name), [])
    case CreateTable(name, columns) => Then(Keyword(Table), Then(Named(name), Listed(ColumnItems(columns), [])))
    case CreateIndex(name, table, column) =>
      Then(Keyword(Index), Then(Named(name), Then(Keyword(On), Then(Named(table), Then(OPEN, Then(Named(column), Then(CLOSE, [])))))))
    case Insert(table, values) =>
      Then(Keyword(Into), Then(Named(table), Then(Keyword(ValuesWord), Listed(LiteralItems(values, w), []))))
    case Select(select) => SelectParts(select, w)
    case Delete(table, condition) => Then(Keyword(From), Then(Named(table), WhereParts(condition, w)))
    case Update(table, column, value, condition) =>
      Then(Named(table), Then(Keyword(Set), Then(Named(column), Then(EQUALS, [LiteralTokens(value, w)] + WhereParts(condition, w)))))
    case Explain(select) => Then(Keyword(TokenType.Select), SelectParts(select, w))
  }

  ghost function FirstWord(s: Ast.Statement): TokenType {
    match s
    case CreateDatabase(_) => Create
    case UseDatabase(_) => Use
    case CreateTable(_, _) => Create
    case CreateIndex(_, _, _) => Create
    case Insert(_, _) => TokenType.Insert
    case Select(_) => TokenType.Select
    case Delete(_, _) => TokenType.Delete
    case Update(_, _, _, _) => TokenType.Update
    case Explain(_) => TokenType.Explain
  }

  ghost function StatementTokens(s: Ast.Statement, w: Write): seq<Lexeme> {
    Flat(Then(Keyword(FirstWord(s)), PartsAfter(s, w)), [SEMICOLON])
  }

  // ---------- Statements the language can express ----------

  ghost predicate TypeExpressible(t: DataType) {
    if t.kind == VarcharKind then t.length.Some? && 0 < t.length.value <= MAX_SIZE else t.length == None
  }

  ghost predicate ColumnExpressible(c: ColumnSchema) {
    IsName(c.name) && TypeExpressible(c.dataType) && (c.primaryKey ==> c.unique && c.notNull)
  }

  ghost predicate WhereExpressible(condition: Option<Ast.Expression>, d: Decimal, w: Write) {
    condition.Some? ==> Printable(condition.value, d, w)
  }

  ghost predicate SelectExpressible(s: Ast.SelectStatement, d: Decimal, w: Write) {
    && (forall i :: 0 <= i < |s.columns| ==> IsName(s.columns[i]))
    && IsName(s.tableName) && WhereExpressible(s.condition, d, w)
  }

  ghost predicate Expressible(s: Ast.Statement, d: Decimal, w: Write) {
    match s
    case CreateDatabase(name) => IsName(name)
    case UseDatabase(name) => IsName(name)
    case CreateTable(name, columns) => IsName(name) && columns != [] && forall i :: 0 <= i < |columns| ==> ColumnExpressible(columns[i])
    case CreateIndex(name, table, column) => IsName(name) && IsName(table) && IsName(column)
    case Insert(table, values) => IsName(table) && values != [] && forall i :: 0 <= i < |values| && values[i].Double? ==> Readable(values[i].bits, d, w)
    case Select(select) => SelectExpressible(select, d, w)
    case Delete(table, condition) => IsName(table) && WhereExpressible(condition, d, w)
    case Update(table, column, value, condition) => IsName(table) && IsName(column) && (value.Double? ==> Readable(value.bits, d, w)) && WhereExpressible(condition, d, w)
    case Explain(select) => SelectExpressible(select, d, w)
  }

  // ---------- Parts put together ----------

  lemma FlatFirst(part: seq<Lexeme>, parts: Parts, rest: seq<Lexeme>)
    ensures Flat([part] + parts, rest) == part + Flat(parts, rest)
  {
    assert ([part] + parts)[1..] == parts;
  }

  lemma {:induction false} FlatConcat(a: Parts, b: Parts, rest: seq<Lexeme>)
    ensures Flat(a + b, rest) == Flat(a, Flat(b, rest))
  {
    if a == [] {
      assert a + b == b;
    } else {
      FlatConcat(a[1..], b, rest);
      assert a + b == [a[0]] + (a[1..] + b);
      FlatFirst(a[0], a[1..] + b, rest);
    }
  }

  lemma {:induction false} FlatAppend(parts: Parts, a: seq<Lexeme>, b: seq<Lexeme>)
    ensures Flat(parts, a) + b == Flat(parts, a + b)
  {
    if parts != [] {
      FlatAppend(parts[1..], a, b);
      Seqs.Assoc(parts[0], Flat(parts[1..], a), b);
    }
  }

  // One token taken off the front.
  lemma Taken(l: Lexeme, parts: Parts, rest: seq<Lexeme>)
    requires l.kind != EndOfInput
    ensures Take(Flat(Then(l, parts), rest), l.kind) == Some((l.text, Flat(parts, rest)))
  {
    hide Flat, Then;
    StartsWith(l, parts, rest);
  }

  lemma StartsWith(l: Lexeme, parts: Parts, rest: seq<Lexeme>)
    ensures NextKind(Flat(Then(l, parts), rest)) == l.kind && Flat(Then(l, parts), rest) != []
    ensures Flat(Then(l, parts), rest)[0] == l && Flat(Then(l, parts), rest)[1..] == Flat(parts, rest)
  {
    FlatFirst([l], parts, rest);
    assert ([l] + Flat(parts, rest))[1..] == Flat(parts, rest);
  }

  lemma NameTaken(l: Lexeme, name: Name, parts: Parts, rest: seq<Lexeme>)
    requires l.kind != EndOfInput
    ensures TakeName(Flat(Then(l, Then(Named(name), parts)), rest), l.kind) == Some((name, Flat(parts, rest)))
  {
    hide Flat, Take, Then;
    Taken(l, Then(Named(name), parts), rest);
    Taken(Named(name), parts, rest);
  }

  // ---------- Parsing undoes printing: lists ----------

  ghost predicate ItemBack<T(!new)>(item: seq<Lexeme> -> Option<(T, seq<Lexeme>)>, part: seq<Lexeme>, x: T, end: TokenType) {
    forall more :: NextKind(more) == Comma || NextKind(more) == end ==> item(part + more) == Some((x, more))
  }

  lemma {:induction false} ListBack<T(!new)>(item: seq<Lexeme> -> Option<(T, seq<Lexeme>)>, items: Parts, xs: seq<T>, rest: seq<Lexeme>)
    requires Consumes(item) && |items| == |xs| > 0 && NextKind(rest) != Comma
    requires forall i :: 0 <= i < |xs| ==> ItemBack(item, items[i], xs[i], NextKind(rest))
    ensures ParseList(item, Flat(ListParts(items), rest)) == Some((xs, rest))
  {
    hide Consumes, ItemBack, Take, NextKind, Flat, Then;
    if |items| == 1 {
      FlatFirst(items[0], [], rest);
      FlatNothing(rest);
      assert [items[0]] + [] == items;
      ItemIs(item, items[0], xs[0], NextKind(rest), rest);
      assert [xs[0]] == xs;
    } else {
      var tail := Flat(ListParts(items[1..]), rest);
      ListBack(item, items[1..], xs[1..], rest);
      FlatFirst(items[0], Then(COMMA, ListParts(items[1..])), rest);
      StartsWith(COMMA, ListParts(items[1..]), rest);
      ItemIs(item, items[0], xs[0], NextKind(rest), Flat(Then(COMMA, ListParts(items[1..])), rest));
      assert [xs[0]] + xs[1..] == xs;
    }
  }

  lemma ItemIs<T(!new)>(item: seq<Lexeme> -> Option<(T, seq<Lexeme>)>, part: seq<Lexeme>, x: T, end: TokenType, more: seq<Lexeme>)
    requires ItemBack(item, part, x, end) && (NextKind(more) == Comma || NextKind(more) == end)
    ensures item(part + more) == Some((x, more))
  {}

  lemma ListedBack<T(!new)>(item: seq<Lexeme> -> Option<(T, seq<Lexeme>)>, items: Parts, xs: seq<T>, parts: Parts, rest: seq<Lexeme>)
    requires Consumes(item) && |items| == |xs| > 0
    requires forall i :: 0 <= i < |xs| ==> ItemBack(item, items[i], xs[i], RightParen)
    ensures ParseListed(item, Flat(Listed(items, parts), rest)) == Some((xs, Flat(parts, rest)))
  {
    hide Flat, Consumes, ItemBack, Take, NextKind, Then, ListParts, ParseList;
    Taken(OPEN, ListParts(items) + Then(CLOSE, parts), rest);
    FlatConcat(ListParts(items), Then(CLOSE, parts), rest);
    Taken(CLOSE, parts, rest);
    StartsWith(CLOSE, parts, rest);
    ListBack(item, items, xs, Flat(Then(CLOSE, parts), rest));
  }

  lemma LiteralsBack(values: seq<Value>, d: Decimal, w: Write)
    requires forall i :: 0 <= i < |values| && values[i].Double? ==> Readable(values[i].bits, d, w)
    ensures forall i :: 0 <= i < |values| ==> ItemBack(LiteralItem(d), LiteralItems(values, w)[i], values[i], RightParen)
  {
    hide LiteralTokens, Grammar.ParseLiteral;
    forall i | 0 <= i < |values|
      ensures ItemBack(LiteralItem(d), LiteralItems(values, w)[i], values[i], RightParen)
    {
      forall more
        ensures LiteralItem(d)(LiteralItems(values, w)[i] + more) == Some((values[i], more))
      {
        LiteralBack(values[i], more, d, w);
      }
    }
  }

  lemma NamesBack(names: seq<Name>, end: TokenType)
    ensures forall i :: 0 <= i < |names| ==> ItemBack(ParseName, NameItems(names)[i], names[i], end)
  {
    forall i | 0 <= i < |names|
      ensures ItemBack(ParseName, NameItems(names)[i], names[i], end)
    {
      forall more
        ensures ParseName(NameItems(names)[i] + more) == Some((names[i], more))
      {
        assert ([Named(names[i])] + more)[1..] == more;
      }
    }
  }

  // ---------- Parsing undoes printing: columns ----------

  lemma OneToken(l: Lexeme, more: seq<Lexeme>)
    requires l.kind != EndOfInput
    ensures NextKind([l] + more) == l.kind && ([l] + more)[1..] == more && Take([l] + more, l.kind) == Some((l.text, more))
  {}

  lemma TypeBack(t: DataType, more: seq<Lexeme>)
    requires TypeExpressible(t)
    ensures ParseDataType(TypeTokens(t) + more) == Some((t, more))
  {
    hide Digits, DigitsValue, Word, Take, NextKind, ParseLength;
    match t.kind
    case IntegerKind =>
      OneToken(Keyword(IntWord), more);
    case DoubleKind =>
      OneToken(Keyword(DoubleWord), more);
    case VarcharKind =>
      var size := Lexeme(IntegerLiteral, Digits(t.length.value));
      FourTokens(Keyword(VarcharWord), OPEN, size, CLOSE, more);
      OneToken(Keyword(VarcharWord), [OPEN] + ([size] + ([CLOSE] + more)));
      LengthBack(t.length.value, more);
  }

  lemma LengthBack(length: nat, more: seq<Lexeme>)
    requires 0 < length <= MAX_SIZE
    ensures ParseLength([OPEN] + ([Lexeme(IntegerLiteral, Digits(length))] + ([CLOSE] + more))) == Some((length, more))
  {
    hide Digits, DigitsValue, Take, NextKind;
    var size := Lexeme(IntegerLiteral, Digits(length));
    DigitsBack(length);
    OneToken(OPEN, [size] + ([CLOSE] + more));
    OneToken(size, [CLOSE] + more);
    OneToken(CLOSE, more);
  }

  lemma FourTokens(a: Lexeme, b: Lexeme, c: Lexeme, d: Lexeme, more: seq<Lexeme>)
    ensures [a] + ([b] + ([c] + [d])) + more == [a] + ([b] + ([c] + ([d] + more)))
  {}

  lemma ConstraintsEnd(c: Constraints, more: seq<Lexeme>)
    requires !StartsConstraint(NextKind(more))
    ensures ParseConstraints(more, c) == Some((c, more))
  {}

  lemma ConstraintsBack(c: ColumnSchema, more: seq<Lexeme>)
    requires (c.primaryKey ==> c.unique && c.notNull) && !StartsConstraint(NextKind(more))
    ensures ParseConstraints(ConstraintTokens(c) + more, Constraints(false, false, false)) ==
      Some((Constraints(c.primaryKey, c.unique, c.notNull), more))
  {
    hide Word, ParseConstraints, NextKind;
    if c.primaryKey {
      KeyBack(more);
    } else {
      hide ConstraintTokens, StartsConstraint;
      var rest := (if c.notNull then [Keyword(Not), Keyword(TokenType.Null)] else []) + more;
      NoKeyTokens(c, more, rest);
      NotNullBack(c, more);
      UniqueBack(rest);
    }
  }

  lemma NoKeyTokens(c: ColumnSchema, more: seq<Lexeme>, rest: seq<Lexeme>)
    requires !c.primaryKey && rest == (if c.notNull then [Keyword(Not), Keyword(TokenType.Null)] else []) + more
    ensures ConstraintTokens(c) + more == if c.unique then [Keyword(TokenType.Unique)] + rest else rest
  {
    hide Word;
  }

  lemma KeyBack(more: seq<Lexeme>)
    requires !StartsConstraint(NextKind(more))
    ensures ParseConstraints([Keyword(Primary), Keyword(Key)] + more, Constraints(false, false, false)) ==
      Some((Constraints(true, true, true), more))
  {
    hide Word;
    ConstraintsEnd(Constraints(true, true, true), more);
    TwoTokens(Keyword(Primary), Keyword(Key), more);
    OneToken(Keyword(Primary), [Keyword(Key)] + more);
    OneToken(Keyword(Key), more);
  }

  lemma UniqueBack(rest: seq<Lexeme>)
    ensures ParseConstraints([Keyword(TokenType.Unique)] + rest, Constraints(false, false, false)) ==
      ParseConstraints(rest, Constraints(false, true, false))
  {
    hide Word;
    OneToken(Keyword(TokenType.Unique), rest);
  }

  lemma NotNullBack(c: ColumnSchema, more: seq<Lexeme>)
    requires !c.primaryKey && !StartsConstraint(NextKind(more))
    ensures ParseConstraints((if c.notNull then [Keyword(Not), Keyword(TokenType.Null)] else []) + more, Constraints(false, c.unique, false)) ==
      Some((Constraints(false, c.unique, c.notNull), more))
  {
    hide Word;
    ConstraintsEnd(Constraints(false, c.unique, c.notNull), more);
    if c.notNull {
      TwoTokens(Keyword(Not), Keyword(TokenType.Null), more);
      OneToken(Keyword(Not), [Keyword(TokenType.Null)] + more);
      OneToken(Keyword(TokenType.Null), more);
    } else {
      assert [] + more == more;
    }
  }

  lemma TwoTokens(a: Lexeme, b: Lexeme, more: seq<Lexeme>)
    ensures [a, b] + more == [a] + ([b] + more)
  {}

  lemma ColumnBack(c: ColumnSchema, more: seq<Lexeme>)
    requires ColumnExpressible(c) && !StartsConstraint(NextKind(more))
    ensures ParseColumn(ColumnTokens(c) + more) == Some((c, more))
  {
    hide TypeTokens, ConstraintTokens, ParseDataType, ParseConstraints, IsName, Take, NextKind;
    var rest := ConstraintTokens(c) + more;
    ThreeRuns([Named(c.name)], TypeTokens(c.dataType), ConstraintTokens(c), more);
    OneToken(Named(c.name), TypeTokens(c.dataType) + rest);
    TypeBack(c.dataType, rest);
    ConstraintsBack(c, more);
  }

  lemma ThreeRuns(a: seq<Lexeme>, b: seq<Lexeme>, c: seq<Lexeme>, more: seq<Lexeme>)
    ensures a + (b + c) + more == a + (b + (c + more))
  {}

  lemma ColumnsBack(columns: seq<ColumnSchema>)
    requires forall i :: 0 <= i < |columns| ==> ColumnExpressible(columns[i])
    ensures forall i :: 0 <= i < |columns| ==> ItemBack(ParseColumn, ColumnItems(columns)[i], columns[i], RightParen)
  {
    hide ColumnExpressible, ColumnTokens, ParseColumn;
    forall i | 0 <= i < |columns|
      ensures ItemBack(ParseColumn, ColumnItems(columns)[i], columns[i], RightParen)
    {
      forall more | NextKind(more) == Comma || NextKind(more) == RightParen
        ensures ParseColumn(ColumnItems(columns)[i] + more) == Some((columns[i], more))
      {
        ColumnBack(columns[i], more);
      }
    }
  }

  // ---------- Parsing undoes printing: statements ----------

  lemma WhereBack(condition: Option<Ast.Expression>, rest: seq<Lexeme>, d: Decimal, w: Write)
    requires WhereExpressible(condition, d, w) && NextKind(rest) == Semicolon
    ensures ParseWhere(Flat(WhereParts(condition, w), rest), d) == Some((condition, rest))
  {
    hide Flat, ParseOr, OrTokens, Printable, Then;
    match condition
    case None =>
      FlatNothing(rest);
    case Some(e) =>
      StartsWith(Keyword(Where), [OrTokens(e, w)], rest);
      FlatFirst(OrTokens(e, w), [], rest);
      assert [OrTokens(e, w)] + [] == [OrTokens(e, w)];
      FlatNothing(rest);
      OrBack(e, rest, d, w);
      OrEnds(e, rest, d);
  }

  lemma FlatNothing(rest: seq<Lexeme>)
    ensures Flat([], rest) == rest
  {}

  lemma OrEnds(e: Ast.Expression, rest: seq<Lexeme>, d: Decimal)
    requires NextKind(rest) == Semicolon
    ensures OrRest(e, rest, d) == Some((e, rest))
  {}

  lemma SelectedBack(columns: seq<Name>, parts: Parts, rest: seq<Lexeme>)
    requires NextKind(Flat(parts, rest)) == From
    ensures ParseSelected(Flat(SelectedParts(columns) + parts, rest)) == Some((columns, Flat(parts, rest)))
  {
    hide Flat, Take, Then, ListParts, ParseList;
    if columns == [] {
      assert SelectedParts(columns) + parts == Then(STAR, parts) by {
        ThenIs(STAR, parts);
      }
      StartsWith(STAR, parts, rest);
    } else {
      var items := NameItems(columns);
      FlatConcat(ListParts(items), parts, rest);
      NamesBack(columns, From);
      ListBack(ParseName, items, columns, Flat(parts, rest));
      NoStar(items, Flat(parts, rest));
    }
  }

  lemma ThenIs(l: Lexeme, parts: Parts)
    ensures Then(l, parts) == [[l]] + parts
  {}

  // A list of names does not start with a star.
  lemma NoStar(items: Parts, rest: seq<Lexeme>)
    requires |items| > 0 && |items[0]| == 1 && items[0][0].kind == Identifier
    ensures NextKind(Flat(ListParts(items), rest)) == Identifier
  {
    var parts := ListParts(items);
    assert parts == [items[0]] + parts[1..];
    FlatFirst(items[0], parts[1..], rest);
  }

  lemma SelectBack(s: Ast.SelectStatement, rest: seq<Lexeme>, d: Decimal, w: Write)
    requires SelectExpressible(s, d, w) && NextKind(rest) == Semicolon
    ensures ParseSelect(Flat(SelectParts(s, w), rest), d) == Some((s, rest))
  {
    hide Flat, Take, TakeName, Then, SelectedParts, WhereParts, ParseSelected, ParseWhere, IsName, WhereExpressible;
    var where := WhereParts(s.condition, w);
    var parts := Then(Keyword(From), Then(Named(s.tableName), where));
    StartsWith(Keyword(From), Then(Named(s.tableName), where), rest);
    SelectedBack(s.columns, parts, rest);
    NameTaken(Keyword(From), s.tableName, where, rest);
    WhereBack(s.condition, rest, d, w);
  }

  lemma CreateTableBack(name: Name, columns: seq<ColumnSchema>, rest: seq<Lexeme>, d: Decimal, w: Write)
    requires Expressible(Ast.CreateTable(name, columns), d, w)
    ensures ParseCreate(Flat(PartsAfter(Ast.CreateTable(name, columns), w), rest)) == Some((Ast.CreateTable(name, columns), rest))
  {
    hide Flat, Take, Then, Listed, ParseListed, IsName, ColumnExpressible, ParseCreateIndex, ParseCreateDatabase;
    var listed := Listed(ColumnItems(columns), []);
    FlatNothing(rest);
    StartsWith(Keyword(Table), Then(Named(name), listed), rest);
    Taken(Named(name), listed, rest);
    ColumnsBack(columns);
    ListedBack(ParseColumn, ColumnItems(columns), columns, [], rest);
  }

  lemma IndexPartsBack(name: Name, table: Name, column: Name, rest: seq<Lexeme>)
    ensures ParseCreateIndex(Flat(Then(Named(name), Then(Keyword(On), Then(Named(table), Then(OPEN, Then(Named(column), Then(CLOSE, [])))))), rest)) ==
      Some((Ast.CreateIndex(name, table, column), rest))
  {
    hide Flat, Take, TakeName, Then, NextKind, Word;
    var third := Then(OPEN, Then(Named(column), Then(CLOSE, [])));
    FlatNothing(rest);
    Taken(Named(name), Then(Keyword(On), Then(Named(table), third)), rest);
    NameTaken(Keyword(On), table, third, rest);
    NameTaken(OPEN, column, Then(CLOSE, []), rest);
    Taken(CLOSE, [], rest);
  }

  lemma CreateIndexBack(name: Name, table: Name, column: Name, rest: seq<Lexeme>, d: Decimal, w: Write)
    requires Expressible(Ast.CreateIndex(name, table, column), d, w)
    ensures ParseCreate(Flat(PartsAfter(Ast.CreateIndex(name, table, column), w), rest)) == Some((Ast.CreateIndex(name, table, column), rest))
  {
    hide Flat, Take, Then, IsName, ParseCreateTable, ParseCreateDatabase, ParseCreateIndex, Word;
    var third := Then(OPEN, Then(Named(column), Then(CLOSE, [])));
    StartsWith(Keyword(Index), Then(Named(name), Then(Keyword(On), Then(Named(table), third))), rest);
    IndexPartsBack(name, table, column, rest);
  }

  lemma CreateDatabaseBack(name: Name, rest: seq<Lexeme>, w: Write)
    requires IsName(name)
    ensures ParseCreate(Flat(PartsAfter(Ast.CreateDatabase(name), w), rest)) == Some((Ast.CreateDatabase(name), rest))
  {
    hide Flat, Take, Then, IsName;
    FlatNothing(rest);
    StartsWith(Keyword(Database), Then(Named(name), []), rest);
    Taken(Named(name), [], rest);
  }

  lemma InsertBack(table: Name, values: seq<Value>, rest: seq<Lexeme>, d: Decimal, w: Write)
    requires Expressible(Ast.Insert(table, values), d, w)
    ensures ParseInsert(Flat(PartsAfter(Ast.Insert(table, values), w), rest), d) == Some((Ast.Insert(table, values), rest))
  {
    hide Flat, Take, TakeName, Then, Listed, ParseListed, IsName;
    var listed := Listed(LiteralItems(values, w), []);
    FlatNothing(rest);
    NameTaken(Keyword(Into), table, Then(Keyword(ValuesWord), listed), rest);
    Taken(Keyword(ValuesWord), listed, rest);
    LiteralsBack(values, d, w);
    ListedBack(LiteralItem(d), LiteralItems(values, w), values, [], rest);
  }

  lemma AssignmentBack(column: Name, value: Value, parts: Parts, rest: seq<Lexeme>, d: Decimal, w: Write)
    requires value.Double? ==> Readable(value.bits, d, w)
    ensures ParseAssignment(Flat(Then(Keyword(Set), Then(Named(column), Then(EQUALS, [LiteralTokens(value, w)] + parts))), rest), d) ==
      Some(((column, value), Flat(parts, rest)))
  {
    hide Flat, Take, TakeName, Then, ParseLiteral, LiteralTokens;
    var third := [LiteralTokens(value, w)] + parts;
    NameTaken(Keyword(Set), column, Then(EQUALS, third), rest);
    Taken(EQUALS, third, rest);
    FlatFirst(LiteralTokens(value, w), parts, rest);
    LiteralBack(value, Flat(parts, rest), d, w);
  }

  lemma UpdateBack(table: Name, column: Name, value: Value, condition: Option<Ast.Expression>, rest: seq<Lexeme>, d: Decimal, w: Write)
    requires Expressible(Ast.Update(table, column, value, condition), d, w) && NextKind(rest) == Semicolon
    ensures ParseUpdate(Flat(PartsAfter(Ast.Update(table, column, value, condition), w), rest), d) ==
      Some((Ast.Update(table, column, value, condition), rest))
  {
    hide Flat, Take, Then, ParseAssignment, ParseWhere, WhereParts, LiteralTokens, IsName, WhereExpressible;
    var second := Then(EQUALS, [LiteralTokens(value, w)] + WhereParts(condition, w));
    Taken(Named(table), Then(Keyword(Set), Then(Named(column), second)), rest);
    AssignmentBack(column, value, WhereParts(condition, w), rest, d, w);
    WhereBack(condition, rest, d, w);
  }

  lemma DeleteBack(table: Name, condition: Option<Ast.Expression>, rest: seq<Lexeme>, d: Decimal, w: Write)
    requires Expressible(Ast.Delete(table, condition), d, w) && NextKind(rest) == Semicolon
    ensures ParseDelete(Flat(PartsAfter(Ast.Delete(table, condition), w), rest), d) == Some((Ast.Delete(table, condition), rest))
  {
    hide Flat, Take, TakeName, Then, ParseWhere, WhereParts, WhereExpressible;
    NameTaken(Keyword(From), table, WhereParts(condition, w), rest);
    WhereBack(condition, rest, d, w);
  }

  lemma UseBack(name: Name, rest: seq<Lexeme>, d: Decimal, w: Write)
    requires Expressible(Ast.UseDatabase(name), d, w)
    ensures ParseUse(Flat(PartsAfter(Ast.UseDatabase(name), w), rest)) == Some((Ast.UseDatabase(name), rest))
  {
    hide Flat, Take, Then, IsName;
    FlatNothing(rest);
    Taken(Named(name), [], rest);
  }

  lemma QueryBack(select: Ast.SelectStatement, rest: seq<Lexeme>, d: Decimal, w: Write)
    requires SelectExpressible(select, d, w) && NextKind(rest) == Semicolon
    ensures ParseQuery(Flat(PartsAfter(Ast.Select(select), w), rest), d) == Some((Ast.Select(select), rest))
  {
    hide Flat, ParseSelect, SelectParts, SelectExpressible;
    SelectBack(select, rest, d, w);
  }

  lemma ExplainBack(select: Ast.SelectStatement, rest: seq<Lexeme>, d: Decimal, w: Write)
    requires SelectExpressible(select, d, w) && NextKind(rest) == Semicolon
    ensures ParseExplain(Flat(PartsAfter(Ast.Explain(select), w), rest), d) == Some((Ast.Explain(select), rest))
  {
    hide Flat, Take, Then, ParseSelect, SelectParts, SelectExpressible;
    Taken(Keyword(TokenType.Select), SelectParts(select, w), rest);
    SelectBack(select, rest, d, w);
  }

  lemma AfterBack(s: Ast.Statement, rest: seq<Lexeme>, d: Decimal, w: Write)
    requires Expressible(s, d, w) && NextKind(rest) == Semicolon
    ensures ParseAfter(FirstWord(s), Flat(PartsAfter(s, w), rest), d) == Some((s, rest))
  {
    hide Flat, PartsAfter, NextKind, ParseCreate, ParseUse, ParseInsert, ParseQuery, ParseDelete, ParseUpdate, ParseExplain,
         IsName, SelectExpressible, WhereExpressible, ColumnExpressible;
    match s
    case CreateDatabase(name) => CreateDatabaseBack(name, rest, w);
    case UseDatabase(name) => UseBack(name, rest, d, w);
    case CreateTable(name, columns) => CreateTableBack(name, columns, rest, d, w);
    case CreateIndex(name, table, column) => CreateIndexBack(name, table, column, rest, d, w);
    case Insert(table, values) => InsertBack(table, values, rest, d, w);
    case Select(select) => QueryBack(select, rest, d, w);
    case Delete(table, condition) => DeleteBack(table, condition, rest, d, w);
    case Update(table, column, value, condition) => UpdateBack(table, column, value, condition, rest, d, w);
    case Explain(select) => ExplainBack(select, rest, d, w);
  }

  // Parsing undoes printing of any statement in front of a semicolon.
  lemma StatementBack(s: Ast.Statement, rest: seq<Lexeme>, d: Decimal, w: Write)
    requires Expressible(s, d, w) && NextKind(rest) == Semicolon
    ensures ParseAnyStatement(Flat(Then(Keyword(FirstWord(s)), PartsAfter(s, w)), rest), d) == Some((s, rest))
  {
    hide Flat, Take, Then, PartsAfter, Expressible, ParseAfter, Word;
    StartsWith(Keyword(FirstWord(s)), PartsAfter(s, w), rest);
    AfterBack(s, rest, d, w);
  }

  // ---------- Lexing undoes writing ----------

  ghost predicate PartsScan(parts: Parts) {
    forall i :: 0 <= i < |parts| ==> AllScannable(parts[i])
  }

  lemma {:induction false} FlatScans(parts: Parts, rest: seq<Lexeme>)
    requires PartsScan(parts) && AllScannable(rest)
    ensures AllScannable(Flat(parts, rest))
  {
    hide AllScannable;
    if parts != [] {
      FlatScans(parts[1..], rest);
      ScannableConcat(parts[0], Flat(parts[1..], rest));
    }
  }

  lemma ThenScans(l: Lexeme, parts: Parts)
    requires Scannable(l) && PartsScan(parts)
    ensures PartsScan(Then(l, parts))
  {
    hide Scannable;
    OneScannable(l);
  }

  lemma ConcatScans(a: Parts, b: Parts)
    requires PartsScan(a) && PartsScan(b)
    ensures PartsScan(a + b)
  {
    hide AllScannable;
  }

  lemma MarksScan()
    ensures Scannable(OPEN) && Scannable(CLOSE) && Scannable(EQUALS)
    ensures Scannable(COMMA) && Scannable(STAR) && Scannable(SEMICOLON)
  {
    hide Scannable;
    SymbolScans(OPEN);
    SymbolScans(CLOSE);
    SymbolScans(EQUALS);
    SymbolScans(COMMA);
    SymbolScans(STAR);
    SymbolScans(SEMICOLON);
  }

  lemma NameScans(name: Name)
    requires IsName(name)
    ensures Scannable(Named(name))
  {
    hide Scannable, WordType;
    WordScans(name);
  }

  lemma {:induction false} ListScans(items: Parts)
    requires PartsScan(items)
    ensures PartsScan(ListParts(items))
  {
    hide AllScannable, Scannable;
    if |items| > 1 {
      ListScans(items[1..]);
      MarksScan();
      ThenScans(COMMA, ListParts(items[1..]));
      ConcatScans([items[0]], Then(COMMA, ListParts(items[1..])));
    }
  }

  lemma ListedScans(items: Parts)
    requires PartsScan(items)
    ensures PartsScan(Listed(items, []))
  {
    hide PartsScan, Scannable, Then, ListParts;
    MarksScan();
    NoParts();
    ListScans(items);
    ThenScans(CLOSE, []);
    ConcatScans(ListParts(items), Then(CLOSE, []));
    ThenScans(OPEN, ListParts(items) + Then(CLOSE, []));
  }

  lemma NoParts()
    ensures PartsScan([])
  {}

  lemma WhereScans(condition: Option<Ast.Expression>, d: Decimal, w: Write)
    requires WhereExpressible(condition, d, w)
    ensures PartsScan(WhereParts(condition, w))
  {
    hide Scannable, AllScannable, Printable, OrTokens, Word;
    if condition.Some? {
      OrScans(condition.value, d, w);
      KeywordScans(Where);
      ThenScans(Keyword(Where), [OrTokens(condition.value, w)]);
    }
  }

  lemma NamesScan(names: seq<Name>)
    requires forall i :: 0 <= i < |names| ==> IsName(names[i])
    ensures PartsScan(NameItems(names))
  {
    hide Scannable, AllScannable, IsName;
    forall i | 0 <= i < |names|
      ensures AllScannable(NameItems(names)[i])
    {
      NameScans(names[i]);
      OneScannable(Named(names[i]));
    }
  }

  lemma LiteralsScan(values: seq<Value>, d: Decimal, w: Write)
    requires forall i :: 0 <= i < |values| && values[i].Double? ==> Readable(values[i].bits, d, w)
    ensures PartsScan(LiteralItems(values, w))
  {
    hide AllScannable, LiteralTokens;
    forall i | 0 <= i < |values|
      ensures AllScannable(LiteralItems(values, w)[i])
    {
      LiteralScans(values[i], d, w);
    }
  }

  lemma TypeScans(t: DataType)
    requires TypeExpressible(t)
    ensures AllScannable(TypeTokens(t))
  {
    hide Scannable, Digits, Word;
    KeywordScans(IntWord);
    KeywordScans(DoubleWord);
    KeywordScans(VarcharWord);
    MarksScan();
    if t.kind == VarcharKind {
      DigitsBack(t.length.value);
      NumberScans(Digits(t.length.value));
    }
  }

  lemma ConstraintsScan(c: ColumnSchema)
    ensures AllScannable(ConstraintTokens(c))
  {
    hide Scannable, Word;
    KeywordScans(Primary);
    KeywordScans(Key);
    KeywordScans(TokenType.Unique);
    KeywordScans(Not);
    KeywordScans(TokenType.Null);
  }

  lemma ColumnsScan(columns: seq<ColumnSchema>)
    requires forall i :: 0 <= i < |columns| ==> ColumnExpressible(columns[i])
    ensures PartsScan(ColumnItems(columns))
  {
    hide Scannable, AllScannable, TypeTokens, ConstraintTokens, IsName, TypeExpressible;
    forall i | 0 <= i < |columns|
      ensures AllScannable(ColumnItems(columns)[i])
    {
      var c := columns[i];
      NameScans(c.name);
      OneScannable(Named(c.name));
      TypeScans(c.dataType);
      ConstraintsScan(c);
      ScannableConcat(TypeTokens(c.dataType), ConstraintTokens(c));
      ScannableConcat([Named(c.name)], TypeTokens(c.dataType) + ConstraintTokens(c));
    }
  }

  lemma SelectScans(s: Ast.SelectStatement, d: Decimal, w: Write)
    requires SelectExpressible(s, d, w)
    ensures PartsScan(SelectParts(s, w))
  {
    hide Scannable, PartsScan, IsName, WhereExpressible, WhereParts, ListParts, Then, Word;
    WhereScans(s.condition, d, w);
    NameScans(s.tableName);
    ThenScans(Named(s.tableName), WhereParts(s.condition, w));
    KeywordScans(From);
    ThenScans(Keyword(From), Then(Named(s.tableName), WhereParts(s.condition, w)));
    SelectedScan(s.columns);
    ConcatScans(SelectedParts(s.columns), Then(Keyword(From), Then(Named(s.tableName), WhereParts(s.condition, w))));
  }

  lemma SelectedScan(columns: seq<Name>)
    requires forall i :: 0 <= i < |columns| ==> IsName(columns[i])
    ensures PartsScan(SelectedParts(columns))
  {
    hide Scannable, AllScannable, IsName, ListParts;
    MarksScan();
    OneScannable(STAR);
    NamesScan(columns);
    ListScans(NameItems(columns));
  }

  lemma FirstWordScans(s: Ast.Statement)
    ensures Scannable(Keyword(FirstWord(s)))
  {
    hide Scannable, Word;
    KeywordScans(FirstWord(s));
  }

  lemma WordThen(kind: TokenType, name: Name, parts: Parts)
    requires CodeOf(kind) > 0 && IsName(name) && PartsScan(parts)
    ensures PartsScan(Then(Keyword(kind), Then(Named(name), parts)))
  {
    hide Scannable, PartsScan, IsName, Then, Word, CodeOf;
    KeywordScans(kind);
    NameScans(name);
    ThenScans(Named(name), parts);
    ThenScans(Keyword(kind), Then(Named(name), parts));
  }

  lemma CreateIndexScans(name: Name, table: Name, column: Name, w: Write)
    requires IsName(name) && IsName(table) && IsName(column)
    ensures PartsScan(PartsAfter(Ast.CreateIndex(name, table, column), w))
  {
    hide Scannable, PartsScan, IsName, Then, Word;
    NoParts();
    MarksScan();
    NameScans(column);
    ThenScans(CLOSE, []);
    ThenScans(Named(column), Then(CLOSE, []));
    ThenScans(OPEN, Then(Named(column), Then(CLOSE, [])));
    WordThen(On, table, Then(OPEN, Then(Named(column), Then(CLOSE, []))));
    WordThen(Index, name, Then(Keyword(On), Then(Named(table), Then(OPEN, Then(Named(column), Then(CLOSE, []))))));
  }

  lemma UpdateScans(table: Name, column: Name, value: Value, condition: Option<Ast.Expression>, d: Decimal, w: Write)
    requires Expressible(Ast.Update(table, column, value, condition), d, w)
    ensures PartsScan(PartsAfter(Ast.Update(table, column, value, condition), w))
  {
    hide Scannable, AllScannable, PartsScan, IsName, Then, Word, WhereExpressible, WhereParts, LiteralTokens;
    WhereScans(condition, d, w);
    LiteralScans(value, d, w);
    OnePart(LiteralTokens(value, w));
    MarksScan();
    NameScans(table);
    ConcatScans([LiteralTokens(value, w)], WhereParts(condition, w));
    ThenScans(EQUALS, [LiteralTokens(value, w)] + WhereParts(condition, w));
    WordThen(Set, column, Then(EQUALS, [LiteralTokens(value, w)] + WhereParts(condition, w)));
    ThenScans(Named(table), Then(Keyword(Set), Then(Named(column), Then(EQUALS, [LiteralTokens(value, w)] + WhereParts(condition, w)))));
  }

  lemma OnePart(part: seq<Lexeme>)
    requires AllScannable(part)
    ensures PartsScan([part])
  {}

  lemma InsertScans(table: Name, values: seq<Value>, d: Decimal, w: Write)
    requires Expressible(Ast.Insert(table, values), d, w)
    ensures PartsScan(PartsAfter(Ast.Insert(table, values), w))
  {
    hide Scannable, PartsScan, IsName, Then, Word, Listed;
    LiteralsScan(values, d, w);
    ListedScans(LiteralItems(values, w));
    KeywordScans(ValuesWord);
    ThenScans(Keyword(ValuesWord), Listed(LiteralItems(values, w), []));
    WordThen(Into, table, Then(Keyword(ValuesWord), Listed(LiteralItems(values, w), [])));
  }

  lemma StatementScans(s: Ast.Statement, d: Decimal, w: Write)
    requires Expressible(s, d, w)
    ensures PartsScan(PartsAfter(s, w))
  {
    hide Scannable, PartsScan, IsName, Then, Word, Listed, SelectParts, WhereParts, SelectExpressible, WhereExpressible, ColumnExpressible;
    NoParts();
    match s
    case CreateDatabase(name) => WordThen(Database, name, []);
    case UseDatabase(name) =>
      NameScans(name);
      ThenScans(Named(name), []);
    case CreateTable(name, columns) =>
      ColumnsScan(columns);
      ListedScans(ColumnItems(columns));
      WordThen(Table, name, Listed(ColumnItems(columns), []));
    case CreateIndex(name, table, column) => CreateIndexScans(name, table, column, w);
    case Insert(table, values) => InsertScans(table, values, d, w);
    case Select(select) => SelectScans(select, d, w);
    case Delete(table, condition) =>
      WhereScans(condition, d, w);
      WordThen(From, table, WhereParts(condition, w));
    case Update(table, column, value, condition) => UpdateScans(table, column, value, condition, d, w);
    case Explain(select) =>
      SelectScans(select, d, w);
      KeywordScans(TokenType.Select);
      ThenScans(Keyword(TokenType.Select), SelectParts(select, w));
  }

  // ---------- The whole way ----------

  // Printing a statement, lexing the text and parsing the tokens gives the statement back.
  lemma PrintLexParseStatement(s: Ast.Statement, d: Decimal, w: Write)
    requires Expressible(s, d, w)
    ensures ParseStatement(Lex(Text(StatementTokens(s, w))), d) == Some(s)
  {
    hide Flat, PartsAfter, ParseAnyStatement, Expressible, Then, Scannable, PartsScan, Text, Lex, Word;
    var parts, end := Then(Keyword(FirstWord(s)), PartsAfter(s, w)), [Lexeme(EndOfInput, [])];
    StatementScans(s, d, w);
    FirstWordScans(s);
    ThenScans(Keyword(FirstWord(s)), PartsAfter(s, w));
    MarksScan();
    OneScannable(SEMICOLON);
    FlatScans(parts, [SEMICOLON]);
    TextLexes(StatementTokens(s, w));
    FlatAppend(parts, [SEMICOLON], end);
    OneToken(SEMICOLON, end);
    StatementBack(s, [SEMICOLON] + end, d, w);
  }

  lemma PlacesInText(tokens: seq<Token>, text: seq<Byte>)
    requires AllInPlace(text, tokens)
    ensures forall i :: 0 <= i < |tokens| ==> PlaceIn(text, tokens[i].location)
  {
    hide LocationOf;
    forall i | 0 <= i < |tokens|
      ensures PlaceIn(text, tokens[i].location)
    {
      assert InPlace(text, tokens[i]);
    }
  }

  ghost predicate PlaceIn(text: seq<Byte>, place: Location) {
    exists offset: nat :: offset <= |text| && place == LocationOf(text, offset)
  }

  // A text gives the statement that the grammar gives, or the place of a token as that of the first error.
  method ParseSql(text: seq<Byte>, decimal: Decimal) returns (r: Result<Ast.Statement, Location>)
    ensures match ParseStatement(Lex(text), decimal) case None => r.Err? case Some(statement) => r == Ok(statement)
    ensures r.Err? ==> exists offset: nat :: offset <= |text| && r.error == LocationOf(text, offset)
  {
    hide Lex, ParseStatement, LocationOf, Tiled;
    var lexer := new Lexer(text);
    var tokens := lexer.Tokenize();
    StringsAreQuoted(text);
    TokensQuoted(tokens, text);
    var parser := new Parser.Parser(tokens, decimal);
    assert tokens[0..] == tokens;
    r := parser.ParseStatement();
    PlacesInText(tokens, text);
  }
}
