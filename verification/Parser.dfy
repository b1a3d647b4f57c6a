// Statements by recursive descent, one token at a time.
module Parser {
  import opened Bytes
  import opened Results
  import opened Values
  import opened Lexer
  import Seqs
  import opened Grammar
  import opened Schema
  import Ast

  method DecodeSqlString(lexeme: seq<Byte>) returns (value: seq<Byte>)
    requires |lexeme| >= 2
    ensures value == Undouble(lexeme[1..|lexeme| - 1])
  {
    hide Undouble;
    value := [];
    var index := 1;
    ghost var end := |lexeme| - 1;
    while index + 1 < |lexeme|
      invariant 1 <= index <= |lexeme| - 1
      invariant value + Undouble(lexeme[index..end]) == Undouble(lexeme[1..end])
    {
      UndoubleStep(lexeme, index, end);
      ghost var skipped := if lexeme[index] == QUOTE && index + 1 < end && lexeme[index + 1] == QUOTE then 2 else 1;
      Seqs.Assoc(value, [lexeme[index]], Undouble(lexeme[index + skipped..end]));
      if lexeme[index] == QUOTE && index + 1 < |lexeme| - 1 && lexeme[index + 1] == QUOTE {
        index := index + 1;
      }
      value := value + [lexeme[index]];
      index := index + 1;
    }
    NothingLeft(lexeme[index..end]);
  }

  lemma UndoubleStep(s: seq<Byte>, at: nat, end: nat)
    requires at < end <= |s|
    ensures Undouble(s[at..end]) ==
      [s[at]] + Undouble(s[at + (if s[at] == QUOTE && at + 1 < end && s[at + 1] == QUOTE then 2 else 1)..end])
  {
    var rest := s[at..end];
    assert rest[1..] == s[at + 1..end] && (|rest| > 1 ==> rest[2..] == s[at + 2..end]);
  }

  lemma NothingLeft(s: seq<Byte>)
    requires s == []
    ensures Undouble(s) == []
  {}

  class Parser {
    const tokens: seq<Token>
    const decimal: Decimal
    var currentIndex: nat
    // Where the first error was found.
    var error: Option<Location>

    constructor (tokens: seq<Token>, decimal: Decimal)
      requires forall i :: 0 <= i < |tokens| && tokens[i].lexeme.kind == StringLiteral ==> |tokens[i].lexeme.text| >= 2
      ensures Valid() && currentIndex == 0 && error == None && this.decimal == decimal
      ensures this.tokens ==
        if tokens == [] || tokens[|tokens| - 1].lexeme.kind != EndOfInput
        then tokens + [Token(Lexeme(EndOfInput, []), Location(0, 1, 1))] else tokens
    {
      this.tokens :=
        if tokens == [] || tokens[|tokens| - 1].lexeme.kind != EndOfInput
        then tokens + [Token(Lexeme(EndOfInput, []), Location(0, 1, 1))] else tokens;
      this.decimal := decimal;
      currentIndex := 0;
      error := None;
    }

    // The current token exists, and the last one marks the end of the input.
    ghost predicate Valid()
      reads `currentIndex
    {
      && currentIndex < |tokens| && tokens[|tokens| - 1].lexeme.kind == EndOfInput
      && forall i :: 0 <= i < |tokens| && tokens[i].lexeme.kind == StringLiteral ==> |tokens[i].lexeme.text| >= 2
    }

    ghost function Rest(): seq<Lexeme>
      reads `currentIndex
      requires currentIndex <= |tokens|
    {
      Lexemes(tokens[currentIndex..])
    }

    function Current(): Token
      reads `currentIndex
      requires Valid()
    {
      tokens[currentIndex]
    }

    // Reading never goes back, and the first error stays.
    ghost predicate Onward(from: nat, before: Option<Location>)
      reads this
    {
      Valid() && from <= currentIndex <= |tokens| && (before.Some? ==> error == before)
    }

    // The error is at the current token, or at the one just read.
    ghost predicate ErrorHere()
      reads this
      requires currentIndex < |tokens|
    {
      error == Some(tokens[currentIndex].location) || (currentIndex > 0 && error == Some(tokens[currentIndex - 1].location))
    }

    // What the grammar gives has been read; or it gives nothing, and an error has been recorded where reading stopped.
    ghost predicate Gives<T>(r: Option<T>, expected: Option<(T, seq<Lexeme>)>, before: Option<Location>)
      reads this
      requires currentIndex < |tokens|
    {
      match expected
      case None => r == None && error.Some? && (before.None? ==> ErrorHere())
      case Some(e) => r == Some(e.0) && Rest() == e.1 && error == before
    }

    lemma Nothing<T>(before: Option<Location>)
      requires currentIndex < |tokens| && error.Some? && (before.None? ==> ErrorHere())
      ensures Gives<T>(None, None, before)
    {}

    lemma Something<T>(value: T)
      requires currentIndex < |tokens|
      ensures Gives(Some(value), Some((value, Rest())), error)
    {}

    // The first token of what is left, and what is left after it.
    lemma RestParts()
      requires Valid()
      ensures Rest() != [] && Rest()[0] == Current().lexeme && NextKind(Rest()) == Current().lexeme.kind
      ensures currentIndex + 1 <= |tokens| && Rest()[1..] == Lexemes(tokens[currentIndex + 1..])
      ensures Current().lexeme.kind != EndOfInput ==> currentIndex + 1 < |tokens|
    {}

    method Advance() returns (t: Token)
      requires Valid()
      modifies this`currentIndex
      ensures Valid() && t == old(Current()) && currentIndex >= old(currentIndex)
      ensures Rest() == if t.lexeme.kind == EndOfInput then old(Rest()) else old(Rest())[1..]
      ensures t.lexeme.kind != EndOfInput ==> currentIndex == old(currentIndex) + 1
    {
      RestParts();
      t := Current();
      if t.lexeme.kind != EndOfInput {
        currentIndex := currentIndex + 1;
      }
    }

    method Match(kind: TokenType) returns (matched: bool)
      requires Valid() && kind != EndOfInput
      modifies this`currentIndex
      ensures Valid() && matched == (NextKind(old(Rest())) == kind) && currentIndex == old(currentIndex) + (if matched then 1 else 0)
      ensures Rest() == if matched then old(Rest())[1..] else old(Rest())
    {
      RestParts();
      if Current().lexeme.kind != kind {
        return false;
      }
      var t := Advance();
      return true;
    }

    method ReportError(location: Location)
      modifies this`error
      ensures error == if old(error).None? then Some(location) else old(error)
    {
      if error.None? {
        error := Some(location);
      }
    }

    // The next token if it is of the kind wanted; else an error is recorded.
    method Consume(kind: TokenType) returns (t: Option<Token>)
      requires Valid() && kind != EndOfInput
      modifies this`currentIndex, this`error
      ensures Onward(old(currentIndex), old(error))
      ensures Gives(if t.None? then None else Some(t.value.lexeme.text), Take(old(Rest()), kind), old(error))
      ensures t.Some? ==> t.value == old(Current()) && t.value.lexeme.kind == kind && currentIndex == old(currentIndex) + 1 && error == old(error)
      ensures t.None? ==> currentIndex == old(currentIndex) && error == if old(error).None? then Some(old(Current()).location) else old(error)
    {
      RestParts();
      if Current().lexeme.kind == kind {
        var token := Advance();
        return Some(token);
      }
      ReportError(Current().location);
      return None;
    }

    method ParseLiteral() returns (r: Option<Value>)
      requires Valid()
      modifies this`currentIndex, this`error
      ensures Onward(old(currentIndex), old(error)) && Gives(r, Grammar.ParseLiteral(old(Rest()), decimal), old(error))
    {
      hide Gives, NextKind, Grammar.ParseConstant, Valid, Lexemes, Rest;
      var negative := Match(Minus);
      if !negative {
        var isNull := Match(TokenType.Null);
        if isNull {
          Something(Value.Null);
          return Some(Value.Null);
        }
      }
      r := ParseConstant(negative);
    }

    // The part of parse_literal after the sign.
    method ParseConstant(negative: bool) returns (r: Option<Value>)
      requires Valid()
      modifies this`currentIndex, this`error
      ensures Onward(old(currentIndex), old(error)) && Gives(r, Grammar.ParseConstant(old(Rest()), negative, decimal), old(error))
    {
      hide Gives, NextKind, Grammar.ParseInteger, Grammar.ParseDouble, Grammar.ParseText, Valid, Lexemes, Rest;
      RestParts();
      var kind := Current().lexeme.kind;
      if kind == IntegerLiteral {
        r := ParseInteger(negative);
        return;
      }
      if kind == FloatingPointLiteral {
        r := ParseDouble(negative);
        return;
      }
      if !negative && kind == StringLiteral {
        r := ParseText();
        return;
      }
      ReportError(Current().location);
      Nothing<Value>(old(error));
      return None;
    }

    method ParseText() returns (r: Option<Value>)
      requires Valid() && Current().lexeme.kind == StringLiteral
      modifies this`currentIndex, this`error
      ensures Onward(old(currentIndex), old(error)) && Gives(r, Grammar.ParseText(old(Rest())), old(error))
    {
      hide Undouble, Lexemes, Rest;
      RestParts();
      var token := Advance();
      var text := DecodeSqlString(token.lexeme.text);
      return Some(Varchar(text));
    }

    method ParseInteger(negative: bool) returns (r: Option<Value>)
      requires Valid() && Current().lexeme.kind == IntegerLiteral
      modifies this`currentIndex, this`error
      ensures Onward(old(currentIndex), old(error)) && Gives(r, Grammar.ParseInteger(old(Rest()), negative), old(error))
    {
      hide IntegerOf, Lexemes, Rest;
      RestParts();
      var token := Advance();
      var value := IntegerOf(token.lexeme.text, negative);
      if value.None? {
        ReportError(token.location);
        return None;
      }
      return Some(Integer(value.value));
    }

    method ParseDouble(negative: bool) returns (r: Option<Value>)
      requires Valid() && Current().lexeme.kind == FloatingPointLiteral
      modifies this`currentIndex, this`error
      ensures Onward(old(currentIndex), old(error)) && Gives(r, Grammar.ParseDouble(old(Rest()), negative, decimal), old(error))
    {
      hide Lexemes, Rest;
      RestParts();
      var token := Advance();
      var value := decimal(Signed(token.lexeme.text, negative));
      if value.None? {
        ReportError(token.location);
        return None;
      }
      return Some(Double(value.value));
    }

    method ParseComparison() returns (r: Option<Ast.Expression>)
      requires Valid()
      modifies this`currentIndex, this`error
      ensures Onward(old(currentIndex), old(error)) && Gives(r, Grammar.ParseComparison(old(Rest()), decimal), old(error))
      ensures r.Some? ==> currentIndex > old(currentIndex)
    {
      hide NextKind, Grammar.ParseCompared, Grammar.ParseNullTest, Take, Valid, Lexemes, Rest;
      var column := Consume(Identifier);
      if column.None? {
        return None;
      }
      var name := column.value.lexeme.text;
      var isWord := Match(Is);
      if isWord {
        r := ParseNullTest(name);
        return;
      }
      r := ParseCompared(name);
    }

    // The part of parse_comparison after the column, without IS.
    method ParseCompared(column: Name) returns (r: Option<Ast.Expression>)
      requires Valid()
      modifies this`currentIndex, this`error
      ensures Onward(old(currentIndex), old(error)) && Gives(r, Grammar.ParseCompared(column, old(Rest()), decimal), old(error))
    {
      hide NextKind, Grammar.ParseLiteral, Valid, Lexemes, Rest;
      RestParts();
      var operation := OperatorOf(Current().lexeme.kind);
      if operation.None? {
        ReportError(Current().location);
        return None;
      }
      var symbol := Advance();
      var value := ParseLiteral();
      if value.None? {
        return None;
      }
      return Some(Ast.Compare(column, operation.value, value.value));
    }

    // The part of parse_comparison after IS.
    method ParseNullTest(column: Name) returns (r: Option<Ast.Expression>)
      requires Valid()
      modifies this`currentIndex, this`error
      ensures Onward(old(currentIndex), old(error)) && Gives(r, Grammar.ParseNullTest(column, old(Rest())), old(error))
    {
      hide NextKind, Take, Valid, Lexemes, Rest;
      var negated := Match(Not);
      var nullWord := Consume(TokenType.Null);
      if nullWord.None? {
        return None;
      }
      return Some(Ast.Compare(column, if negated then Ast.IsNotNull else Ast.IsNull, Value.Null));
    }

    method ParsePrimary() returns (r: Option<Ast.Expression>)
      requires Valid()
      modifies this`currentIndex, this`error
      ensures Onward(old(currentIndex), old(error)) && Gives(r, Grammar.ParsePrimary(old(Rest()), decimal), old(error))
      ensures r.Some? ==> currentIndex > old(currentIndex)
      decreases |tokens| - currentIndex, 0
    {
      hide Gives, Grammar.ParseEnclosed, Valid, NextKind, Grammar.ParseComparison, Lexemes, Rest;
      var open := Match(LeftParen);
      if open {
        r := ParseEnclosed();
        return;
      }
      r := ParseComparison();
    }

    // The condition after an opening parenthesis, and the closing one.
    method ParseEnclosed() returns (r: Option<Ast.Expression>)
      requires Valid()
      modifies this`currentIndex, this`error
      ensures Onward(old(currentIndex), old(error)) && Gives(r, Grammar.ParseEnclosed(old(Rest()), decimal), old(error))
      ensures r.Some? ==> currentIndex > old(currentIndex)
      decreases |tokens| - currentIndex, 3
    {
      hide Grammar.ParseOr, Valid, NextKind, Lexemes, Rest;
      r := ParseOr();
      if r.None? {
        return;
      }
      var close := Consume(RightParen);
      if close.None? {
        return None;
      }
    }

    method ParseAnd() returns (r: Option<Ast.Expression>)
      requires Valid()
      modifies this`currentIndex, this`error
      ensures Onward(old(currentIndex), old(error)) && Gives(r, Grammar.ParseAnd(old(Rest()), decimal), old(error))
      ensures r.Some? ==> currentIndex > old(currentIndex)
      decreases |tokens| - currentIndex, 1
    {
      hide NextKind, Grammar.ParsePrimary, Lexemes, Rest;
      r := ParsePrimary();
      if r.None? {
        return;
      }
      ghost var whole := Grammar.ParseAnd(old(Rest()), decimal);
      while true
        invariant Valid() && currentIndex > old(currentIndex) && r.Some?
        invariant whole == AndRest(r.value, Rest(), decimal)
        invariant error == old(error)
        decreases |tokens| - currentIndex
      {
        var andWord := Match(TokenType.And);
        if !andWord {
          return;
        }
        var right := ParsePrimary();
        if right.None? {
          return None;
        }
        r := Some(Ast.And(r.value, right.value));
      }
    }

    method ParseOr() returns (r: Option<Ast.Expression>)
      requires Valid()
      modifies this`currentIndex, this`error
      ensures Onward(old(currentIndex), old(error)) && Gives(r, Grammar.ParseOr(old(Rest()), decimal), old(error))
      ensures r.Some? ==> currentIndex > old(currentIndex)
      decreases |tokens| - currentIndex, 2
    {
      hide NextKind, Grammar.ParseAnd, Lexemes, Rest;
      r := ParseAnd();
      if r.None? {
        return;
      }
      ghost var whole := Grammar.ParseOr(old(Rest()), decimal);
      while true
        invariant Valid() && currentIndex > old(currentIndex) && r.Some?
        invariant whole == OrRest(r.value, Rest(), decimal)
        invariant error == old(error)
        decreases |tokens| - currentIndex
      {
        var orWord := Match(TokenType.Or);
        if !orWord {
          return;
        }
        var right := ParseAnd();
        if right.None? {
          return None;
        }
        r := Some(Ast.Or(r.value, right.value));
      }
    }

    // ---------- Statements ----------

    // A word or a mark with a name after it: FROM table, INTO table, ON table, SET column, ( column.
    method ConsumeName(kind: TokenType) returns (r: Option<Name>)
      requires Valid() && kind != EndOfInput
      modifies this`currentIndex, this`error
      ensures Onward(old(currentIndex), old(error)) && Gives(r, TakeName(old(Rest()), kind), old(error))
    {
      hide Take, Valid, Lexemes, Rest;
      var word := Consume(kind);
      if word.None? {
        return None;
      }
      var name := Consume(Identifier);
      if name.None? {
        return None;
      }
      return Some(name.value.lexeme.text);
    }

    method ParseWhere() returns (r: Option<Option<Ast.Expression>>)
      requires Valid()
      modifies this`currentIndex, this`error
      ensures Onward(old(currentIndex), old(error)) && Gives(r, Grammar.ParseWhere(old(Rest()), decimal), old(error))
    {
      hide Grammar.ParseOr, Take, Valid, Lexemes, Rest;
      var where := Match(Where);
      if !where {
        return Some(None);
      }
      var condition := ParseOr();
      if condition.None? {
        return None;
      }
      return Some(condition);
    }

    method ParseStatement() returns (r: Result<Ast.Statement, Location>)
      requires Valid()
      modifies this`currentIndex, this`error
      ensures Onward(old(currentIndex), old(error))
      ensures match Grammar.ParseStatement(old(Rest()), decimal)
              case None => r.Err? && error == Some(r.error) && (old(error).None? ==> ErrorHere())
              case Some(statement) => r == Ok(statement)
    {
      hide NextKind, Grammar.ParseAnyStatement, Take, Valid, Lexemes, Rest;
      var statement := ParseAnyStatement();
      if statement.Some? {
        var semicolon := Consume(Semicolon);
        if semicolon.None? {
          statement := None;
        }
      }
      RestParts();
      if statement.Some? && Current().lexeme.kind != EndOfInput {
        ReportError(Current().location);
        statement := None;
      }
      if statement.Some? {
        return Ok(statement.value);
      }
      return Err(error.value);
    }

    // The branches of parse_statement.
    method ParseAnyStatement() returns (r: Option<Ast.Statement>)
      requires Valid()
      modifies this`currentIndex, this`error
      ensures Onward(old(currentIndex), old(error)) && Gives(r, Grammar.ParseAnyStatement(old(Rest()), decimal), old(error))
    {
      hide Gives, NextKind, Grammar.ParseCreate, Grammar.ParseUse, Grammar.ParseInsert, Grammar.ParseQuery, Grammar.ParseDelete,
           Grammar.ParseUpdate, Grammar.ParseExplain, Valid, Lexemes, Rest;
      RestParts();
      match Current().lexeme.kind {
        case Create => r := ParseCreate();
        case Use => r := ParseUse();
        case Insert => r := ParseInsert();
        case Select => r := ParseQuery();
        case Delete => r := ParseDelete();
        case Update => r := ParseUpdate();
        case Explain => r := ParseExplain();
        case _ =>
          ReportError(Current().location);
          Nothing<Ast.Statement>(old(error));
          r := None;
      }
    }

    // A SELECT as a statement of its own.
    method ParseQuery() returns (r: Option<Ast.Statement>)
      requires Valid() && Current().lexeme.kind == Select
      modifies this`currentIndex, this`error
      ensures Onward(old(currentIndex), old(error)) && Gives(r, Grammar.ParseQuery(old(Rest())[1..], decimal), old(error))
    {
      hide Grammar.ParseSelect, Valid, Lexemes, Rest;
      var select := ParseSelect();
      return if select.Some? then Some(Ast.Select(select.value)) else None;
    }

    method ParseCreate() returns (r: Option<Ast.Statement>)
      requires Valid() && Current().lexeme.kind == Create
      modifies this`currentIndex, this`error
      ensures Onward(old(currentIndex), old(error)) && Gives(r, Grammar.ParseCreate(old(Rest())[1..]), old(error))
    {
      hide Gives, Grammar.ParseCreate, Valid, Lexemes, Rest;
      var word := Advance();
      r := ParseCreated();
    }

    // What is created.
    method ParseCreated() returns (r: Option<Ast.Statement>)
      requires Valid()
      modifies this`currentIndex, this`error
      ensures Onward(old(currentIndex), old(error)) && Gives(r, Grammar.ParseCreate(old(Rest())), old(error))
    {
      hide Gives, NextKind, Grammar.ParseCreateDatabase, Grammar.ParseCreateTable, Grammar.ParseCreateIndex, Take, Valid, Lexemes, Rest;
      var database := Match(Database);
      if database {
        r := ParseCreateDatabase();
        return;
      }
      var table := Match(Table);
      if table {
        r := ParseCreateTable();
        return;
      }
      var index := Match(Index);
      if index {
        r := ParseCreateIndex();
        return;
      }
      ReportError(Current().location);
      Nothing<Ast.Statement>(old(error));
      return None;
    }

    method ParseCreateDatabase() returns (r: Option<Ast.Statement>)
      requires Valid()
      modifies this`currentIndex, this`error
      ensures Onward(old(currentIndex), old(error)) && Gives(r, Grammar.ParseCreateDatabase(old(Rest())), old(error))
    {
      hide Take, Valid, Lexemes, Rest;
      var name := Consume(Identifier);
      if name.None? {
        return None;
      }
      return Some(Ast.CreateDatabase(name.value.lexeme.text));
    }

    method ParseCreateIndex() returns (r: Option<Ast.Statement>)
      requires Valid()
      modifies this`currentIndex, this`error
      ensures Onward(old(currentIndex), old(error)) && Gives(r, Grammar.ParseCreateIndex(old(Rest())), old(error))
    {
      hide Take, TakeName, Valid, Lexemes, Rest;
      var name := Consume(Identifier);
      if name.None? {
        return None;
      }
      var table := ConsumeName(On);
      if table.None? {
        return None;
      }
      var column := ConsumeName(LeftParen);
      if column.None? {
        return None;
      }
      var close := Consume(RightParen);
      if close.None? {
        return None;
      }
      return Some(Ast.CreateIndex(name.value.lexeme.text, table.value, column.value));
    }

    method ParseCreateTable() returns (r: Option<Ast.Statement>)
      requires Valid()
      modifies this`currentIndex, this`error
      ensures Onward(old(currentIndex), old(error)) && Gives(r, Grammar.ParseCreateTable(old(Rest())), old(error))
    {
      hide Consumes, Take, ParseListed, Valid, Lexemes, Rest;
      var name := Consume(Identifier);
      if name.None? {
        return None;
      }
      var columns := ParseColumns();
      if columns.None? {
        return None;
      }
      return Some(Ast.CreateTable(name.value.lexeme.text, columns.value));
    }

    // The columns in parentheses; at least one.
    method ParseColumns() returns (r: Option<seq<ColumnSchema>>)
      requires Valid()
      modifies this`currentIndex, this`error
      ensures Onward(old(currentIndex), old(error)) && Gives(r, ParseListed(Grammar.ParseColumn, old(Rest())), old(error))
    {
      hide Consumes, Grammar.ParseColumn, ParseList, Take, Valid, Lexemes, Rest;
      var open := Consume(LeftParen);
      if open.None? {
        return None;
      }
      RestParts();
      if Current().lexeme.kind == RightParen {
        NoColumn(Rest());
        ReportError(Current().location);
        return None;
      }
      var columns := ParseColumnList();
      if columns.None? {
        return None;
      }
      var close := Consume(RightParen);
      if close.None? {
        return None;
      }
      return columns;
    }

    static lemma NoColumn(b: seq<Lexeme>)
      requires NextKind(b) == RightParen
      ensures ParseList(Grammar.ParseColumn, b) == None
    {}

    // Columns with commas between.
    method ParseColumnList() returns (r: Option<seq<ColumnSchema>>)
      requires Valid()
      modifies this`currentIndex, this`error
      ensures Onward(old(currentIndex), old(error)) && Gives(r, ParseList(Grammar.ParseColumn, old(Rest())), old(error))
    {
      hide Grammar.ParseColumn, ParseList, Valid, Lexemes, Rest;
      RestParts();
      var columns: seq<ColumnSchema> := [];
      ghost var list := ParseList(Grammar.ParseColumn, Rest());
      ListStarts(list);
      while true
        invariant Onward(old(currentIndex), old(error)) && error == old(error)
        invariant After(columns, ParseList(Grammar.ParseColumn, Rest())) == list
        decreases |tokens| - currentIndex
      {
        ListStep(Grammar.ParseColumn, Rest(), columns);
        var column := ParseColumn();
        if column.None? {
          return None;
        }
        columns := columns + [column.value];
        var comma := Match(Comma);
        if !comma {
          return Some(columns);
        }
      }
    }

    method ParseColumn() returns (r: Option<ColumnSchema>)
      requires Valid()
      modifies this`currentIndex, this`error
      ensures Onward(old(currentIndex), old(error)) && Gives(r, Grammar.ParseColumn(old(Rest())), old(error))
    {
      hide Grammar.ParseDataType, Grammar.ParseConstraints, Take, Valid, Lexemes, Rest;
      var name := Consume(Identifier);
      if name.None? {
        return None;
      }
      var dataType := ParseDataType();
      if dataType.None? {
        return None;
      }
      var c := ParseConstraints();
      if c.None? {
        return None;
      }
      return Some(ColumnSchema(name.value.lexeme.text, dataType.value, c.value.primaryKey, c.value.unique, c.value.notNull));
    }

    // The loop of parse_column.
    method ParseConstraints() returns (r: Option<Constraints>)
      requires Valid()
      modifies this`currentIndex, this`error
      ensures Onward(old(currentIndex), old(error))
      ensures Gives(r, Grammar.ParseConstraints(old(Rest()), Constraints(false, false, false)), old(error))
    {
      hide Grammar.ParseConstraint, Valid, Lexemes, Rest;
      RestParts();
      var c := Constraints(false, false, false);
      ghost var whole := Grammar.ParseConstraints(Rest(), c);
      while StartsConstraint(Current().lexeme.kind)
        invariant Onward(old(currentIndex), old(error)) && error == old(error)
        invariant Grammar.ParseConstraints(Rest(), c) == whole
        decreases |tokens| - currentIndex
      {
        RestParts();
        var more := ParseConstraint(c);
        if more.None? {
          return None;
        }
        c := more.value;
      }
      RestParts();
      return Some(c);
    }

    method ParseConstraint(c: Constraints) returns (r: Option<Constraints>)
      requires Valid() && StartsConstraint(Current().lexeme.kind)
      modifies this`currentIndex, this`error
      ensures Onward(old(currentIndex), old(error)) && old(Rest()) != [] && old(Rest())[0] == old(Current()).lexeme
      ensures Gives(r, Grammar.ParseConstraint(old(Rest()), c), old(error))
      ensures r.Some? ==> currentIndex > old(currentIndex)
    {
      hide Gives, NextKind, Grammar.ParsePrimaryKey, Grammar.ParseUnique, Grammar.ParseNotNull, Valid, Lexemes, Rest;
      RestParts();
      var primaryWord := Match(Primary);
      if primaryWord {
        r := ParsePrimaryKey(c);
        return;
      }
      var uniqueWord := Match(TokenType.Unique);
      if uniqueWord {
        r := ParseUnique(c);
        return;
      }
      var notWord := Advance();
      r := ParseNotNull(c);
    }

    // The part of a constraint after PRIMARY.
    method ParsePrimaryKey(c: Constraints) returns (r: Option<Constraints>)
      requires Valid()
      modifies this`currentIndex, this`error
      ensures Onward(old(currentIndex), old(error)) && Gives(r, Grammar.ParsePrimaryKey(old(Rest()), c), old(error))
    {
      hide Take, Valid, Lexemes, Rest;
      if c.primaryKey {
        RestParts();
        ReportError(Current().location);
        return None;
      }
      var key := Consume(Key);
      return if key.None? then None else Some(Constraints(true, true, true));
    }

    // The part of a constraint after UNIQUE.
    method ParseUnique(c: Constraints) returns (r: Option<Constraints>)
      requires Valid()
      modifies this`error
      ensures Onward(old(currentIndex), old(error)) && Gives(r, Grammar.ParseUnique(old(Rest()), c), old(error))
    {
      if c.unique {
        ReportError(Current().location);
        return None;
      }
      return Some(c.(unique := true));
    }

    // The part of a constraint after NOT.
    method ParseNotNull(c: Constraints) returns (r: Option<Constraints>)
      requires Valid()
      modifies this`currentIndex, this`error
      ensures Onward(old(currentIndex), old(error)) && Gives(r, Grammar.ParseNotNull(old(Rest()), c), old(error))
    {
      hide Take, Valid, Lexemes, Rest;
      if c.notNull {
        RestParts();
        ReportError(Current().location);
        return None;
      }
      var nullWord := Consume(TokenType.Null);
      return if nullWord.None? then None else Some(c.(notNull := true));
    }

    method ParseDataType() returns (r: Option<DataType>)
      requires Valid()
      modifies this`currentIndex, this`error
      ensures Onward(old(currentIndex), old(error)) && Gives(r, Grammar.ParseDataType(old(Rest())), old(error))
    {
      hide Gives, NextKind, Grammar.ParseVarchar, Valid, Lexemes, Rest;
      var integer := Match(IntWord);
      if integer {
        Something(DataType(IntegerKind, None));
        return Some(DataType(IntegerKind, None));
      }
      var double := Match(DoubleWord);
      if double {
        Something(DataType(DoubleKind, None));
        return Some(DataType(DoubleKind, None));
      }
      r := ParseVarchar();
    }

    method ParseVarchar() returns (r: Option<DataType>)
      requires Valid()
      modifies this`currentIndex, this`error
      ensures Onward(old(currentIndex), old(error)) && Gives(r, Grammar.ParseVarchar(old(Rest())), old(error))
    {
      hide NextKind, Grammar.ParseLength, Valid, Lexemes, Rest;
      var varchar := Match(VarcharWord);
      if !varchar {
        RestParts();
        ReportError(Current().location);
        return None;
      }
      var length := ParseLength();
      return if length.None? then None else Some(DataType(VarcharKind, length));
    }

    method ParseLength() returns (r: Option<nat>)
      requires Valid()
      modifies this`currentIndex, this`error
      ensures Onward(old(currentIndex), old(error)) && Gives(r, Grammar.ParseLength(old(Rest())), old(error))
    {
      hide Take, Valid, Lexemes, Rest, SizeOf;
      var open := Consume(LeftParen);
      if open.None? {
        return None;
      }
      var size := Consume(IntegerLiteral);
      if size.None? {
        return None;
      }
      var length := SizeOf(size.value.lexeme.text);
      if length.None? {
        ReportError(size.value.location);
        return None;
      }
      var close := Consume(RightParen);
      if close.None? {
        return None;
      }
      return length;
    }

    method ParseUse() returns (r: Option<Ast.Statement>)
      requires Valid() && Current().lexeme.kind == Use
      modifies this`currentIndex, this`error
      ensures Onward(old(currentIndex), old(error)) && Gives(r, Grammar.ParseUse(old(Rest())[1..]), old(error))
    {
      hide Take, Valid, Lexemes, Rest;
      var word := Advance();
      var name := Consume(Identifier);
      if name.None? {
        return None;
      }
      return Some(Ast.UseDatabase(name.value.lexeme.text));
    }

    method ParseInsert() returns (r: Option<Ast.Statement>)
      requires Valid() && Current().lexeme.kind == Insert
      modifies this`currentIndex, this`error
      ensures Onward(old(currentIndex), old(error)) && Gives(r, Grammar.ParseInsert(old(Rest())[1..], decimal), old(error))
    {
      hide NextKind, Take, TakeName, Grammar.ParseRow, Valid, Lexemes, Rest;
      var word := Advance();
      var table := ConsumeName(Into);
      if table.None? {
        return None;
      }
      var values := ParseRow();
      if values.None? {
        return None;
      }
      return Some(Ast.Insert(table.value, values.value));
    }

    // VALUES and what follows it.
    method ParseRow() returns (r: Option<seq<Value>>)
      requires Valid()
      modifies this`currentIndex, this`error
      ensures Onward(old(currentIndex), old(error)) && Gives(r, Grammar.ParseRow(old(Rest()), decimal), old(error))
    {
      hide LiteralItem, Consumes, Take, ParseListed, Valid, Lexemes, Rest;
      var valuesWord := Consume(ValuesWord);
      if valuesWord.None? {
        return None;
      }
      r := ParseValues();
    }

    // The values in parentheses; at least one.
    method ParseValues() returns (r: Option<seq<Value>>)
      requires Valid()
      modifies this`currentIndex, this`error
      ensures Onward(old(currentIndex), old(error)) && Gives(r, ParseListed(LiteralItem(decimal), old(Rest())), old(error))
    {
      hide LiteralItem, Consumes, Grammar.ParseLiteral, ParseList, Take, Valid, Lexemes, Rest;
      var open := Consume(LeftParen);
      if open.None? {
        return None;
      }
      RestParts();
      if Current().lexeme.kind == RightParen {
        NoValue(Rest(), decimal);
        ReportError(Current().location);
        return None;
      }
      var values := ParseValueList();
      if values.None? {
        return None;
      }
      var close := Consume(RightParen);
      if close.None? {
        return None;
      }
      return values;
    }

    static lemma NoValue(b: seq<Lexeme>, d: Decimal)
      requires NextKind(b) == RightParen
      ensures ParseList(LiteralItem(d), b) == None
    {}

    // Values with commas between.
    method ParseValueList() returns (r: Option<seq<Value>>)
      requires Valid()
      modifies this`currentIndex, this`error
      ensures Onward(old(currentIndex), old(error)) && Gives(r, ParseList(LiteralItem(decimal), old(Rest())), old(error))
    {
      hide Consumes, Grammar.ParseLiteral, ParseList, Valid, Lexemes, Rest;
      RestParts();
      var values: seq<Value> := [];
      ghost var list := ParseList(LiteralItem(decimal), Rest());
      ListStarts(list);
      while true
        invariant Onward(old(currentIndex), old(error)) && error == old(error)
        invariant After(values, ParseList(LiteralItem(decimal), Rest())) == list
        decreases |tokens| - currentIndex
      {
        ListStep(LiteralItem(decimal), Rest(), values);
        var value := ParseLiteral();
        if value.None? {
          return None;
        }
        values := values + [value.value];
        var comma := Match(Comma);
        if !comma {
          return Some(values);
        }
      }
    }

    method ParseSelect() returns (r: Option<Ast.SelectStatement>)
      requires Valid() && Current().lexeme.kind == Select
      modifies this`currentIndex, this`error
      ensures Onward(old(currentIndex), old(error)) && Gives(r, Grammar.ParseSelect(old(Rest())[1..], decimal), old(error))
    {
      hide TakeName, Grammar.ParseSelected, Grammar.ParseWhere, Take, Valid, Lexemes, Rest;
      var word := Advance();
      var columns := ParseSelected();
      if columns.None? {
        return None;
      }
      var table := ConsumeName(From);
      if table.None? {
        return None;
      }
      var condition := ParseWhere();
      if condition.None? {
        return None;
      }
      return Some(Ast.SelectStatement(columns.value, table.value, condition.value));
    }

    // The columns of parse_select.
    method ParseSelected() returns (r: Option<seq<Name>>)
      requires Valid()
      modifies this`currentIndex, this`error
      ensures Onward(old(currentIndex), old(error)) && Gives(r, Grammar.ParseSelected(old(Rest())), old(error))
    {
      hide ParseList, Take, Valid, Lexemes, Rest;
      var star := Match(Star);
      if star {
        return Some([]);
      }
      var columns: seq<Name> := [];
      ghost var list := ParseList(ParseName, Rest());
      ListStarts(list);
      while true
        invariant Onward(old(currentIndex), old(error)) && error == old(error)
        invariant After(columns, ParseList(ParseName, Rest())) == list
        decreases |tokens| - currentIndex
      {
        ListStep(ParseName, Rest(), columns);
        var column := Consume(Identifier);
        if column.None? {
          return None;
        }
        columns := columns + [column.value.lexeme.text];
        var comma := Match(Comma);
        if !comma {
          break;
        }
      }
      return Some(columns);
    }

    method ParseExplain() returns (r: Option<Ast.Statement>)
      requires Valid() && Current().lexeme.kind == Explain
      modifies this`currentIndex, this`error
      ensures Onward(old(currentIndex), old(error)) && Gives(r, Grammar.ParseExplain(old(Rest())[1..], decimal), old(error))
    {
      hide NextKind, Grammar.ParseSelect, Valid, Lexemes, Rest;
      var word := Advance();
      RestParts();
      if Current().lexeme.kind != Select {
        ReportError(Current().location);
        return None;
      }
      var select := ParseSelect();
      if select.None? {
        return None;
      }
      return Some(Ast.Explain(select.value));
    }

    method ParseDelete() returns (r: Option<Ast.Statement>)
      requires Valid() && Current().lexeme.kind == Delete
      modifies this`currentIndex, this`error
      ensures Onward(old(currentIndex), old(error)) && Gives(r, Grammar.ParseDelete(old(Rest())[1..], decimal), old(error))
    {
      hide TakeName, Grammar.ParseWhere, Take, Valid, Lexemes, Rest;
      var word := Advance();
      var table := ConsumeName(From);
      if table.None? {
        return None;
      }
      var condition := ParseWhere();
      if condition.None? {
        return None;
      }
      return Some(Ast.Delete(table.value, condition.value));
    }

    method ParseUpdate() returns (r: Option<Ast.Statement>)
      requires Valid() && Current().lexeme.kind == Update
      modifies this`currentIndex, this`error
      ensures Onward(old(currentIndex), old(error)) && Gives(r, Grammar.ParseUpdate(old(Rest())[1..], decimal), old(error))
    {
      hide Take, Grammar.ParseAssignment, Grammar.ParseWhere, Valid, Lexemes, Rest;
      var word := Advance();
      var table := Consume(Identifier);
      if table.None? {
        return None;
      }
      var change := ParseAssignment();
      if change.None? {
        return None;
      }
      var condition := ParseWhere();
      if condition.None? {
        return None;
      }
      return Some(Ast.Update(table.value.lexeme.text, change.value.0, change.value.1, condition.value));
    }

    method ParseAssignment() returns (r: Option<(Name, Value)>)
      requires Valid()
      modifies this`currentIndex, this`error
      ensures Onward(old(currentIndex), old(error)) && Gives(r, Grammar.ParseAssignment(old(Rest()), decimal), old(error))
    {
      hide Take, TakeName, Grammar.ParseLiteral, Valid, Lexemes, Rest;
      var column := ConsumeName(Set);
      if column.None? {
        return None;
      }
      var equal := Consume(TokenType.Equal);
      if equal.None? {
        return None;
      }
      var value := ParseLiteral();
      if value.None? {
        return None;
      }
      return Some((column.value, value.value));
    }
  }
}
