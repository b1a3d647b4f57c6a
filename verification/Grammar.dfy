// The grammar of statements over tokens. In conditions OR is weaker than AND, and both group to the left.
module Grammar {
  import opened Bytes
  import opened Results
  import opened Values
  import opened Lexer
  import opened Schema
  import Ast
  import Seqs

  // How the text of a floating-point literal becomes a double; None when it is out of range.
  type Decimal = seq<Byte> -> Option<U64>

  // ---------- Literals ----------

  function DigitsValue(text: seq<Byte>): int {
    if text == [] then 0
    else
      var digit: int := text[|text| - 1];
      10 * DigitsValue(text[..|text| - 1]) + digit - 48
  }

  function IntegerOf(text: seq<Byte>, negative: bool): Option<I64> {
    var value := if negative then -DigitsValue(text) else DigitsValue(text);
    if -0x8000_0000_0000_0000 <= value < 0x8000_0000_0000_0000 then Some(value) else None
  }

  // The inside of a string literal with each doubled quote made one.
  function Undouble(s: seq<Byte>): seq<Byte> {
    if s == [] then []
    else if s[0] == QUOTE && |s| > 1 && s[1] == QUOTE then [QUOTE] + Undouble(s[2..])
    else [s[0]] + Undouble(s[1..])
  }

  // ---------- The grammar ----------

  function NextKind(b: seq<Lexeme>): TokenType {
    if b == [] then EndOfInput else b[0].kind
  }

  // The text of the token in front, if it is of this kind.
  ghost function Take(b: seq<Lexeme>, kind: TokenType): (r: Option<(seq<Byte>, seq<Lexeme>)>)
    requires kind != EndOfInput
    ensures r.Some? ==> |r.value.1| < |b|
  {
    if NextKind(b) == kind then Some((b[0].text, b[1..])) else None
  }

  // A word or a mark with a name after it.
  ghost function TakeName(b: seq<Lexeme>, kind: TokenType): (r: Option<(Name, seq<Lexeme>)>)
    requires kind != EndOfInput
    ensures r.Some? ==> |r.value.1| < |b|
  {
    match Take(b, kind)
    case None => None
    case Some(word) => Take(word.1, Identifier)
  }

  ghost function ParseLiteral(b: seq<Lexeme>, d: Decimal): (r: Option<(Value, seq<Lexeme>)>)
    ensures r.Some? ==> |r.value.1| < |b|
  {
    if NextKind(b) == TokenType.Null then Some((Value.Null, b[1..]))
    else if NextKind(b) == Minus then ParseConstant(b[1..], true, d)
    else ParseConstant(b, false, d)
  }

  // A number, or without a sign in front of it a string.
  ghost function ParseConstant(b: seq<Lexeme>, negative: bool, d: Decimal): (r: Option<(Value, seq<Lexeme>)>)
    ensures r.Some? ==> |r.value.1| < |b|
  {
    if NextKind(b) == IntegerLiteral then ParseInteger(b, negative)
    else if NextKind(b) == FloatingPointLiteral then ParseDouble(b, negative, d)
    else if !negative && NextKind(b) == StringLiteral then ParseText(b)
    else None
  }

  ghost function ParseText(b: seq<Lexeme>): (r: Option<(Value, seq<Lexeme>)>)
    requires b != []
    ensures r.Some? ==> |r.value.1| < |b|
  {
    if |b[0].text| < 2 then None else Some((Varchar(Undouble(b[0].text[1..|b[0].text| - 1])), b[1..]))
  }

  ghost function ParseInteger(b: seq<Lexeme>, negative: bool): (r: Option<(Value, seq<Lexeme>)>)
    requires b != []
    ensures r.Some? ==> |r.value.1| < |b|
  {
    match IntegerOf(b[0].text, negative)
    case None => None
    case Some(i) => Some((Integer(i), b[1..]))
  }

  ghost function ParseDouble(b: seq<Lexeme>, negative: bool, d: Decimal): (r: Option<(Value, seq<Lexeme>)>)
    requires b != []
    ensures r.Some? ==> |r.value.1| < |b|
  {
    match d(Signed(b[0].text, negative))
    case None => None
    case Some(bits) => Some((Double(bits), b[1..]))
  }

  function Signed(text: seq<Byte>, negative: bool): seq<Byte> {
    if negative then [45] + text else text
  }

  function OperatorOf(k: TokenType): Option<Ast.Comparison> {
    match k
    case Equal => Some(Ast.Equals)
    case NotEqual => Some(Ast.NotEquals)
    case LessThan => Some(Ast.LessThan)
    case LessThanOrEqual => Some(Ast.LessOrEqual)
    case GreaterThan => Some(Ast.GreaterThan)
    case GreaterThanOrEqual => Some(Ast.GreaterOrEqual)
    case _ => None
  }

  ghost function ParseComparison(b: seq<Lexeme>, d: Decimal): (r: Option<(Ast.Expression, seq<Lexeme>)>)
    ensures r.Some? ==> |r.value.1| < |b|
  {
    match Take(b, Identifier)
    case None => None
    case Some(column) =>
      if NextKind(column.1) == Is then ParseNullTest(column.0, column.1[1..])
      else ParseCompared(column.0, column.1, d)
  }

  // An operator and a value.
  ghost function ParseCompared(column: Name, b: seq<Lexeme>, d: Decimal): (r: Option<(Ast.Expression, seq<Lexeme>)>)
    ensures r.Some? ==> |r.value.1| < |b|
  {
    match OperatorOf(NextKind(b))
    case None => None
    case Some(operation) =>
      match ParseLiteral(b[1..], d)
      case None => None
      case Some(v) => Some((Ast.Compare(column, operation, v.0), v.1))
  }

  // What follows IS.
  ghost function ParseNullTest(column: Name, b: seq<Lexeme>): (r: Option<(Ast.Expression, seq<Lexeme>)>)
    ensures r.Some? ==> |r.value.1| < |b|
  {
    var negated := NextKind(b) == Not;
    match Take(if negated then b[1..] else b, TokenType.Null)
    case None => None
    case Some(word) => Some((Ast.Compare(column, if negated then Ast.IsNotNull else Ast.IsNull, Value.Null), word.1))
  }

  ghost function ParsePrimary(b: seq<Lexeme>, d: Decimal): (r: Option<(Ast.Expression, seq<Lexeme>)>)
    ensures r.Some? ==> |r.value.1| < |b|
    decreases |b|, 0
  {
    if NextKind(b) == LeftParen then ParseEnclosed(b[1..], d) else ParseComparison(b, d)
  }

  // What follows an opening parenthesis.
  ghost function ParseEnclosed(b: seq<Lexeme>, d: Decimal): (r: Option<(Ast.Expression, seq<Lexeme>)>)
    ensures r.Some? ==> |r.value.1| < |b|
    decreases |b|, 3
  {
    match ParseOr(b, d)
    case None => None
    case Some(e) => if NextKind(e.1) == RightParen then Some((e.0, e.1[1..])) else None
  }

  ghost function ParseAnd(b: seq<Lexeme>, d: Decimal): (r: Option<(Ast.Expression, seq<Lexeme>)>)
    ensures r.Some? ==> |r.value.1| < |b|
    decreases |b|, 1
  {
    match ParsePrimary(b, d)
    case None => None
    case Some(first) => AndRest(first.0, first.1, d)
  }

  // What follows a first operand of AND.
  ghost function AndRest(e: Ast.Expression, b: seq<Lexeme>, d: Decimal): (r: Option<(Ast.Expression, seq<Lexeme>)>)
    ensures r.Some? ==> |r.value.1| <= |b|
    decreases |b|, 0
  {
    if NextKind(b) == TokenType.And then
      match ParsePrimary(b[1..], d)
      case None => None
      case Some(next) => AndRest(Ast.And(e, next.0), next.1, d)
    else Some((e, b))
  }

  ghost function ParseOr(b: seq<Lexeme>, d: Decimal): (r: Option<(Ast.Expression, seq<Lexeme>)>)
    ensures r.Some? ==> |r.value.1| < |b|
    decreases |b|, 2
  {
    match ParseAnd(b, d)
    case None => None
    case Some(first) => OrRest(first.0, first.1, d)
  }

  ghost function OrRest(e: Ast.Expression, b: seq<Lexeme>, d: Decimal): (r: Option<(Ast.Expression, seq<Lexeme>)>)
    ensures r.Some? ==> |r.value.1| <= |b|
    decreases |b|, 1
  {
    if NextKind(b) == TokenType.Or then
      match ParseAnd(b[1..], d)
      case None => None
      case Some(next) => OrRest(Ast.Or(e, next.0), next.1, d)
    else Some((e, b))
  }

  // ---------- Pieces of statements ----------

  ghost function ParseWhere(b: seq<Lexeme>, d: Decimal): Option<(Option<Ast.Expression>, seq<Lexeme>)> {
    if NextKind(b) != Where then Some((None, b))
    else
      match ParseOr(b[1..], d)
      case None => None
      case Some(e) => Some((Some(e.0), e.1))
  }

  ghost predicate Consumes<T(!new)>(item: seq<Lexeme> -> Option<(T, seq<Lexeme>)>) {
    forall b :: item(b).Some? ==> |item(b).value.1| < |b|
  }

  // One or more, with commas between.
  ghost function ParseList<T(!new)>(item: seq<Lexeme> -> Option<(T, seq<Lexeme>)>, b: seq<Lexeme>): (r: Option<(seq<T>, seq<Lexeme>)>)
    requires Consumes(item)
    decreases |b|
  {
    match item(b)
    case None => None
    case Some(first) =>
      if NextKind(first.1) != Comma then Some(([first.0], first.1))
      else
        match ParseList(item, first.1[1..])
        case None => None
        case Some(more) => Some(([first.0] + more.0, more.1))
  }

  // A list of which some has been read.
  ghost function After<T>(read: seq<T>, more: Option<(seq<T>, seq<Lexeme>)>): Option<(seq<T>, seq<Lexeme>)> {
    match more
    case None => None
    case Some(m) => Some((read + m.0, m.1))
  }

  lemma ListStarts<T(!new)>(list: Option<(seq<T>, seq<Lexeme>)>)
    ensures After([], list) == list
  {
    if list.Some? {
      assert [] + list.value.0 == list.value.0;
    }
  }

  lemma ListStep<T(!new)>(item: seq<Lexeme> -> Option<(T, seq<Lexeme>)>, b: seq<Lexeme>, read: seq<T>)
    requires Consumes(item)
    ensures match item(b)
            case None => After(read, ParseList(item, b)) == None
            case Some(first) =>
              After(read, ParseList(item, b)) ==
              if NextKind(first.1) == Comma then After(read + [first.0], ParseList(item, first.1[1..])) else Some((read + [first.0], first.1))
  {
    match item(b)
    case None =>
    case Some(first) =>
      if NextKind(first.1) == Comma {
        var more := ParseList(item, first.1[1..]);
        if more.Some? {
          Seqs.Assoc(read, [first.0], more.value.0);
        }
      }
  }

  // ---------- Column definitions ----------

  const MAX_SIZE: nat := 0xFFFF_FFFF_FFFF_FFFF

  function SizeOf(text: seq<Byte>): Option<nat> {
    var value := DigitsValue(text);
    if 0 < value <= MAX_SIZE then Some(value) else None
  }

  ghost function ParseLength(b: seq<Lexeme>): (r: Option<(nat, seq<Lexeme>)>)
    ensures r.Some? ==> |r.value.1| < |b|
  {
    match Take(b, LeftParen) case None => None case Some(open) =>
    match Take(open.1, IntegerLiteral) case None => None case Some(size) =>
    match SizeOf(size.0) case None => None case Some(length) =>
    match Take(size.1, RightParen) case None => None case Some(close) =>
    Some((length, close.1))
  }

  ghost function ParseDataType(b: seq<Lexeme>): (r: Option<(DataType, seq<Lexeme>)>)
    ensures r.Some? ==> |r.value.1| < |b|
  {
    if NextKind(b) == IntWord then Some((DataType(IntegerKind, None), b[1..]))
    else if NextKind(b) == DoubleWord then Some((DataType(DoubleKind, None), b[1..]))
    else ParseVarchar(b)
  }

  ghost function ParseVarchar(b: seq<Lexeme>): (r: Option<(DataType, seq<Lexeme>)>)
    ensures r.Some? ==> |r.value.1| < |b|
  {
    match Take(b, VarcharWord) case None => None case Some(word) =>
    match ParseLength(word.1) case None => None case Some(length) =>
    Some((DataType(VarcharKind, Some(length.0)), length.1))
  }

  datatype Constraints = Constraints(primaryKey: bool, unique: bool, notNull: bool)

  predicate StartsConstraint(kind: TokenType) {
    kind == Primary || kind == TokenType.Unique || kind == Not
  }

  // PRIMARY KEY stands for the other two as well; none may be said twice.
  ghost function ParseConstraint(b: seq<Lexeme>, c: Constraints): (r: Option<(Constraints, seq<Lexeme>)>)
    requires StartsConstraint(NextKind(b))
    ensures r.Some? ==> |r.value.1| < |b|
  {
    if NextKind(b) == Primary then ParsePrimaryKey(b[1..], c)
    else if NextKind(b) == TokenType.Unique then ParseUnique(b[1..], c)
    else ParseNotNull(b[1..], c)
  }

  // What follows PRIMARY.
  ghost function ParsePrimaryKey(b: seq<Lexeme>, c: Constraints): (r: Option<(Constraints, seq<Lexeme>)>)
    ensures r.Some? ==> |r.value.1| < |b|
  {
    if c.primaryKey then None
    else
      match Take(b, Key)
      case None => None
      case Some(key) => Some((Constraints(true, true, true), key.1))
  }

  ghost function ParseUnique(b: seq<Lexeme>, c: Constraints): Option<(Constraints, seq<Lexeme>)> {
    if c.unique then None else Some((c.(unique := true), b))
  }

  // What follows NOT.
  ghost function ParseNotNull(b: seq<Lexeme>, c: Constraints): (r: Option<(Constraints, seq<Lexeme>)>)
    ensures r.Some? ==> |r.value.1| < |b|
  {
    if c.notNull then None
    else
      match Take(b, TokenType.Null)
      case None => None
      case Some(word) => Some((c.(notNull := true), word.1))
  }

  ghost function ParseConstraints(b: seq<Lexeme>, c: Constraints): (r: Option<(Constraints, seq<Lexeme>)>)
    ensures r.Some? ==> |r.value.1| <= |b|
    decreases |b|
  {
    if StartsConstraint(NextKind(b)) then
      match ParseConstraint(b, c)
      case None => None
      case Some(more) => ParseConstraints(more.1, more.0)
    else Some((c, b))
  }

  ghost function ParseColumn(b: seq<Lexeme>): (r: Option<(ColumnSchema, seq<Lexeme>)>)
    ensures r.Some? ==> |r.value.1| < |b|
  {
    match Take(b, Identifier) case None => None case Some(name) =>
    match ParseDataType(name.1) case None => None case Some(dataType) =>
    match ParseConstraints(dataType.1, Constraints(false, false, false)) case None => None case Some(c) =>
    Some((ColumnSchema(name.0, dataType.0, c.0.primaryKey, c.0.unique, c.0.notNull), c.1))
  }

  // ---------- Statements, after their first word ----------

  ghost function ParseCreate(b: seq<Lexeme>): Option<(Ast.Statement, seq<Lexeme>)> {
    if NextKind(b) == Database then ParseCreateDatabase(b[1..])
    else if NextKind(b) == Table then ParseCreateTable(b[1..])
    else if NextKind(b) == Index then ParseCreateIndex(b[1..])
    else None
  }

  ghost function ParseCreateDatabase(b: seq<Lexeme>): Option<(Ast.Statement, seq<Lexeme>)> {
    match Take(b, Identifier)
    case None => None
    case Some(name) => Some((Ast.CreateDatabase(name.0), name.1))
  }

  ghost function ParseCreateTable(b: seq<Lexeme>): Option<(Ast.Statement, seq<Lexeme>)> {
    match Take(b, Identifier) case None => None case Some(name) =>
    match ParseListed(ParseColumn, name.1) case None => None case Some(columns) =>
    Some((Ast.CreateTable(name.0, columns.0), columns.1))
  }

  // A list in parentheses.
  ghost function ParseListed<T(!new)>(item: seq<Lexeme> -> Option<(T, seq<Lexeme>)>, b: seq<Lexeme>): Option<(seq<T>, seq<Lexeme>)>
    requires Consumes(item)
  {
    match Take(b, LeftParen) case None => None case Some(open) =>
    match ParseList(item, open.1) case None => None case Some(list) =>
    match Take(list.1, RightParen) case None => None case Some(close) =>
    Some((list.0, close.1))
  }

  ghost function ParseCreateIndex(b: seq<Lexeme>): Option<(Ast.Statement, seq<Lexeme>)> {
    match Take(b, Identifier) case None => None case Some(name) =>
    match TakeName(name.1, On) case None => None case Some(table) =>
    match TakeName(table.1, LeftParen) case None => None case Some(column) =>
    match Take(column.1, RightParen) case None => None case Some(close) =>
    Some((Ast.CreateIndex(name.0, table.0, column.0), close.1))
  }

  ghost function ParseUse(b: seq<Lexeme>): Option<(Ast.Statement, seq<Lexeme>)> {
    match Take(b, Identifier)
    case None => None
    case Some(name) => Some((Ast.UseDatabase(name.0), name.1))
  }

  ghost function LiteralItem(d: Decimal): (item: seq<Lexeme> -> Option<(Value, seq<Lexeme>)>)
    ensures Consumes(item)
  {
    b => ParseLiteral(b, d)
  }

  ghost function ParseInsert(b: seq<Lexeme>, d: Decimal): Option<(Ast.Statement, seq<Lexeme>)> {
    match TakeName(b, Into) case None => None case Some(table) =>
    match ParseRow(table.1, d) case None => None case Some(values) =>
    Some((Ast.Insert(table.0, values.0), values.1))
  }

  ghost function ParseRow(b: seq<Lexeme>, d: Decimal): Option<(seq<Value>, seq<Lexeme>)> {
    match Take(b, ValuesWord) case None => None case Some(word) =>
    ParseListed(LiteralItem(d), word.1)
  }

  ghost function ParseName(b: seq<Lexeme>): (r: Option<(Name, seq<Lexeme>)>)
    ensures r.Some? ==> |r.value.1| < |b|
  {
    Take(b, Identifier)
  }

  ghost function ParseSelected(b: seq<Lexeme>): Option<(seq<Name>, seq<Lexeme>)> {
    if NextKind(b) == Star then Some(([], b[1..])) else ParseList(ParseName, b)
  }

  ghost function ParseSelect(b: seq<Lexeme>, d: Decimal): Option<(Ast.SelectStatement, seq<Lexeme>)> {
    match ParseSelected(b) case None => None case Some(columns) =>
    match TakeName(columns.1, From) case None => None case Some(table) =>
    match ParseWhere(table.1, d) case None => None case Some(condition) =>
    Some((Ast.SelectStatement(columns.0, table.0, condition.0), condition.1))
  }

  ghost function ParseDelete(b: seq<Lexeme>, d: Decimal): Option<(Ast.Statement, seq<Lexeme>)> {
    match TakeName(b, From) case None => None case Some(table) =>
    match ParseWhere(table.1, d) case None => None case Some(condition) =>
    Some((Ast.Delete(table.0, condition.0), condition.1))
  }

  // SET column = value.
  ghost function ParseAssignment(b: seq<Lexeme>, d: Decimal): Option<((Name, Value), seq<Lexeme>)> {
    match TakeName(b, Set) case None => None case Some(column) =>
    match Take(column.1, Equal) case None => None case Some(equal) =>
    match ParseLiteral(equal.1, d) case None => None case Some(value) =>
    Some(((column.0, value.0), value.1))
  }

  ghost function ParseUpdate(b: seq<Lexeme>, d: Decimal): Option<(Ast.Statement, seq<Lexeme>)> {
    match Take(b, Identifier) case None => None case Some(table) =>
    match ParseAssignment(table.1, d) case None => None case Some(change) =>
    match ParseWhere(change.1, d) case None => None case Some(condition) =>
    Some((Ast.Update(table.0, change.0.0, change.0.1, condition.0), condition.1))
  }

  ghost function ParseExplain(b: seq<Lexeme>, d: Decimal): Option<(Ast.Statement, seq<Lexeme>)> {
    match Take(b, Select) case None => None case Some(word) =>
    match ParseSelect(word.1, d) case None => None case Some(select) =>
    Some((Ast.Explain(select.0), select.1))
  }

  // ---------- Whole statements ----------

  ghost function ParseAnyStatement(b: seq<Lexeme>, d: Decimal): Option<(Ast.Statement, seq<Lexeme>)> {
    if b == [] then None else ParseAfter(b[0].kind, b[1..], d)
  }

  // What follows the first word.
  ghost function ParseAfter(word: TokenType, b: seq<Lexeme>, d: Decimal): Option<(Ast.Statement, seq<Lexeme>)> {
    match word
    case Create => ParseCreate(b)
    case Use => ParseUse(b)
    case Insert => ParseInsert(b, d)
    case Select => ParseQuery(b, d)
    case Delete => ParseDelete(b, d)
    case Update => ParseUpdate(b, d)
    case Explain => ParseExplain(b, d)
    case _ => None
  }

  ghost function ParseQuery(b: seq<Lexeme>, d: Decimal): Option<(Ast.Statement, seq<Lexeme>)> {
    match ParseSelect(b, d)
    case None => None
    case Some(select) => Some((Ast.Select(select.0), select.1))
  }

  // One statement, a semicolon, and nothing more.
  ghost function ParseStatement(b: seq<Lexeme>, d: Decimal): Option<Ast.Statement> {
    match ParseAnyStatement(b, d) case None => None case Some(statement) =>
    match Take(statement.1, Semicolon) case None => None case Some(semicolon) =>
    if NextKind(semicolon.1) == EndOfInput then Some(statement.0) else None
  }
}
