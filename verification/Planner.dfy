// SELECT: binding the WHERE clause, choosing between a scan and an index, and running the plan.
module Planner {
  import opened Bytes
  import opened Results
  import opened Values
  import opened Ast
  import opened TableLog
  import opened Agreement
  import opened Schema
  import opened TableState
  import opened Updates
  import opened DatabaseState
  import TableWork
  import DiskStorage

  datatype PlannerError = NoSuchColumn(column: Name) | TypeMismatch(column: Name) | SelectedTwice(column: Name)

  // ---------- Comparing values ----------

  datatype Ordering = Less | Same | Greater | Unordered

  function OrderOf(a: int, b: int): Ordering {
    if a < b then Less else if a == b then Same else Greater
  }

  // Byte by byte, a prefix before what it is a prefix of.
  function TextOrder(a: seq<Byte>, b: seq<Byte>): Ordering {
    if a == [] || b == [] then OrderOf(|a|, |b|)
    else if a[0] != b[0] then OrderOf(a[0], b[0])
    else TextOrder(a[1..], b[1..])
  }

  // operator<=> on values.
  function Order(a: Value, b: Value): Ordering {
    match (a, b)
    case (Integer(x), Integer(y)) => OrderOf(x, y)
    case (Double(x), Double(y)) => if IsNaN(x) || IsNaN(y) then Unordered else OrderOf(Magnitude(x), Magnitude(y))
    case (Varchar(x), Varchar(y)) => TextOrder(x, y)
    case _ => Unordered
  }

  function Matches(left: Value, operation: Comparison, right: Value): bool {
    match operation
    case IsNull => left.Null?
    case IsNotNull => !left.Null?
    case _ =>
      if left.Null? || right.Null? then false
      else
        match operation
        case Equals => Equal(left, right)
        case NotEquals => !Equal(left, right)
        case LessThan => Order(left, right) == Less
        case LessOrEqual => Order(left, right) in {Less, Same}
        case GreaterThan => Order(left, right) == Greater
        case _ => Order(left, right) in {Greater, Same}
  }

  // The order and the equality of values agree, so <= is < or =.
  lemma {:induction false} TextOrderIsEquality(a: seq<Byte>, b: seq<Byte>)
    ensures TextOrder(a, b) == Same <==> a == b
    ensures TextOrder(a, b) != Unordered
  {
    if a != [] && b != [] && a[0] == b[0] {
      TextOrderIsEquality(a[1..], b[1..]);
      assert a == [a[0]] + a[1..] && b == [b[0]] + b[1..];
    }
  }

  lemma OrderIsEquality(a: Value, b: Value)
    requires !a.Null? && !b.Null?
    ensures Order(a, b) == Same <==> Equal(a, b)
    ensures Matches(a, LessOrEqual, b) <==> Matches(a, LessThan, b) || Matches(a, Equals, b)
    ensures Matches(a, GreaterOrEqual, b) <==> Matches(a, GreaterThan, b) || Matches(a, Equals, b)
  {
    if a.Varchar? && b.Varchar? {
      TextOrderIsEquality(a.text, b.text);
    }
  }

  // What the six comparisons say of two values that are not NULL, spelled out kind by kind; of values of two kinds none
  // holds but !=.
  lemma MatchesIntegers(i: I64, k: I64)
    ensures var a, b := Integer(i), Integer(k);
      && (Matches(a, Equals, b) <==> i == k) && (Matches(a, NotEquals, b) <==> i != k)
      && (Matches(a, LessThan, b) <==> i < k) && (Matches(a, LessOrEqual, b) <==> i <= k)
      && (Matches(a, GreaterThan, b) <==> i > k) && (Matches(a, GreaterOrEqual, b) <==> i >= k)
  {}

  // A text comes before another when it is a proper beginning of it, or has the smaller byte where they first differ.
  ghost predicate TextBefore(a: seq<Byte>, b: seq<Byte>) {
    exists n: nat :: FirstDiffer(a, b, n)
  }

  ghost predicate FirstDiffer(a: seq<Byte>, b: seq<Byte>, n: nat) {
    n <= |a| && n < |b| && a[..n] == b[..n] && (n == |a| || a[n] < b[n])
  }

  lemma {:induction false} TextOrderIs(a: seq<Byte>, b: seq<Byte>)
    ensures TextOrder(a, b) == Less <==> TextBefore(a, b)
    ensures TextOrder(a, b) == Greater <==> TextBefore(b, a)
  {
    hide TextBefore;
    if a == [] || b == [] {
      NothingBefore(a, b);
      NothingBefore(b, a);
    } else if a[0] != b[0] {
      FirstBytes(a, b);
      FirstBytes(b, a);
    } else {
      TextOrderIs(a[1..], b[1..]);
      SameFirst(a, b);
      SameFirst(b, a);
    }
  }

  lemma NothingBefore(a: seq<Byte>, b: seq<Byte>)
    requires a == [] || b == []
    ensures TextBefore(a, b) <==> |a| < |b|
  {
    if |a| < |b| {
      assert FirstDiffer(a, b, 0);
    }
  }

  lemma FirstBytes(a: seq<Byte>, b: seq<Byte>)
    requires a != [] && b != [] && a[0] != b[0]
    ensures TextBefore(a, b) <==> a[0] < b[0]
  {
    if n: nat :| FirstDiffer(a, b, n) {
      SameStart(a, b, n);
    }
    if a[0] < b[0] {
      assert FirstDiffer(a, b, 0);
    }
  }

  lemma SameStart(a: seq<Byte>, b: seq<Byte>, n: nat)
    requires n <= |a| && n <= |b| && a[..n] == b[..n]
    ensures n > 0 ==> a[0] == b[0]
  {
    if n > 0 {
      assert a[..n][0] == a[0] && b[..n][0] == b[0];
    }
  }

  lemma SameFirst(a: seq<Byte>, b: seq<Byte>)
    requires a != [] && b != [] && a[0] == b[0]
    ensures TextBefore(a, b) <==> TextBefore(a[1..], b[1..])
  {
    if n: nat :| FirstDiffer(a, b, n) {
      assert a[1..][..n - 1] == a[..n][1..] && b[1..][..n - 1] == b[..n][1..];
      assert FirstDiffer(a[1..], b[1..], n - 1);
    }
    if m: nat :| FirstDiffer(a[1..], b[1..], m) {
      assert a[..m + 1] == [a[0]] + a[1..][..m] && b[..m + 1] == [b[0]] + b[1..][..m];
      assert FirstDiffer(a, b, m + 1);
    }
  }

  lemma MatchesTexts(s: seq<Byte>, t: seq<Byte>)
    ensures var a, b := Varchar(s), Varchar(t);
      var before := exists n: nat :: n <= |s| && n < |t| && s[..n] == t[..n] && (n == |s| || s[n] < t[n]);
      var after := exists n: nat :: n <= |t| && n < |s| && t[..n] == s[..n] && (n == |t| || t[n] < s[n]);
      && (Matches(a, Equals, b) <==> s == t) && (Matches(a, NotEquals, b) <==> s != t)
      && (Matches(a, LessThan, b) <==> before) && (Matches(a, LessOrEqual, b) <==> before || s == t)
      && (Matches(a, GreaterThan, b) <==> after) && (Matches(a, GreaterOrEqual, b) <==> after || s == t)
  {
    hide TextOrder;
    TextOrderIs(s, t);
    TextOrderIsEquality(s, t);
    BeforeIs(s, t);
    BeforeIs(t, s);
  }

  lemma BeforeIs(s: seq<Byte>, t: seq<Byte>)
    ensures TextBefore(s, t) <==> exists n: nat :: n <= |s| && n < |t| && s[..n] == t[..n] && (n == |s| || s[n] < t[n])
  {
    if n: nat :| n <= |s| && n < |t| && s[..n] == t[..n] && (n == |s| || s[n] < t[n]) {
      assert FirstDiffer(s, t, n);
    }
    if n: nat :| FirstDiffer(s, t, n) {
      assert n <= |s| && n < |t| && s[..n] == t[..n];
    }
  }

  // Doubles by sign and size: zeros of both signs are equal, and what is no number matches nothing but !=.
  lemma MatchesDoubles(x: U64, y: U64)
    ensures var a, b := Double(x), Double(y);
      var number := x % 0x8000_0000_0000_0000 <= 0x7FF0_0000_0000_0000 && y % 0x8000_0000_0000_0000 <= 0x7FF0_0000_0000_0000;
      var zeros := x % 0x8000_0000_0000_0000 == 0 && y % 0x8000_0000_0000_0000 == 0;
      var less := if x < 0x8000_0000_0000_0000 then x < y < 0x8000_0000_0000_0000 else y < x;
      var more := if y < 0x8000_0000_0000_0000 then y < x < 0x8000_0000_0000_0000 else x < y;
      && (Matches(a, Equals, b) <==> number && (zeros || x == y)) && (Matches(a, NotEquals, b) <==> !(number && (zeros || x == y)))
      && (Matches(a, LessThan, b) <==> number && !zeros && less)
      && (Matches(a, LessOrEqual, b) <==> number && (zeros || less || x == y))
      && (Matches(a, GreaterThan, b) <==> number && !zeros && more)
      && (Matches(a, GreaterOrEqual, b) <==> number && (zeros || more || x == y))
  {}

  lemma MatchesNull(a: Value, b: Value, operation: Comparison)
    ensures Matches(a, IsNull, b) <==> a.Null?
    ensures Matches(a, IsNotNull, b) <==> !a.Null?
    ensures operation != IsNull && operation != IsNotNull && (a.Null? || b.Null?) ==> !Matches(a, operation, b)
    ensures !a.Null? && !b.Null? && (a.Integer? != b.Integer? || a.Double? != b.Double?) ==>
      (Matches(a, operation, b) <==> operation == NotEquals || operation == IsNotNull)
  {}

  // So a condition says of a row, column by column.
  lemma SaysIs(name: Name, operation: Comparison, value: Value, left: Expression, right: Expression, schema: TableSchema, row: Row, c: nat)
    requires ColumnsDistinct(schema.columns) && c < |schema.columns| == |row|
    requires Normalize(schema.columns[c].name) == Normalize(name)
    ensures Says(Compare(name, operation, value), schema, row) <==> Matches(row[c], operation, value)
    ensures Says(And(left, right), schema, row) <==> Says(left, schema, row) && Says(right, schema, row)
    ensures Says(Or(left, right), schema, row) <==> Says(left, schema, row) || Says(right, schema, row)
  {
    hide Normalize, Matches, ColumnsDistinct;
    SameName(schema.columns, name, schema.columns[c].name);
    FindsItself(schema.columns, c);
  }

  // ---------- Binding ----------

  // A condition with its columns resolved to positions.
  datatype Bound =
    | Test(index: nat, operation: Comparison, value: Value)
    | Both(left: Bound, right: Bound)
    | Either(left: Bound, right: Bound)

  predicate Holds(b: Bound, row: Row) {
    match b
    case Test(index, operation, value) => Matches(Cell(row, index), operation, value)
    case Both(left, right) => Holds(left, row) && Holds(right, row)
    case Either(left, right) => Holds(left, row) || Holds(right, row)
  }

  function Bind(e: Expression, schema: TableSchema): Result<Bound, PlannerError> {
    match e
    case Compare(name, operation, value) =>
      var index := FindColumn(schema.columns, name);
      if index == |schema.columns| then Err(NoSuchColumn(name))
      else if !value.Null? && KindOf(value) != schema.columns[index].dataType.kind then Err(PlannerError.TypeMismatch(schema.columns[index].name))
      else Ok(Test(index, operation, value))
    case And(left, right) =>
      (match Bind(left, schema)
       case Err(error) => Err(error)
       case Ok(l) =>
         match Bind(right, schema)
         case Err(error) => Err(error)
         case Ok(r) => Ok(Both(l, r)))
    case Or(left, right) =>
      (match Bind(left, schema)
       case Err(error) => Err(error)
       case Ok(l) =>
         match Bind(right, schema)
         case Err(error) => Err(error)
         case Ok(r) => Ok(Either(l, r)))
  }

  // What a condition says of a row, with no binding in between.
  ghost predicate Says(e: Expression, schema: TableSchema, row: Row) {
    match e
    case Compare(name, operation, value) => Matches(Cell(row, FindColumn(schema.columns, name)), operation, value)
    case And(left, right) => Says(left, schema, row) && Says(right, schema, row)
    case Or(left, right) => Says(left, schema, row) || Says(right, schema, row)
  }

  lemma {:induction false} BindMeans(e: Expression, schema: TableSchema, row: Row)
    requires Bind(e, schema).Ok?
    ensures Holds(Bind(e, schema).value, row) <==> Says(e, schema, row)
  {
    match e
    case Compare(_, _, _) =>
    case And(left, right) =>
      BindMeans(left, schema, row);
      BindMeans(right, schema, row);
    case Or(left, right) =>
      BindMeans(left, schema, row);
      BindMeans(right, schema, row);
  }

  // A condition is turned down for its first comparison, from the left, with a column that is not there or a value of
  // another kind than the column.
  lemma BindIs(name: Name, operation: Comparison, value: Value, schema: TableSchema)
    ensures var bound := Bind(Compare(name, operation, value), schema);
      var missing := forall c :: 0 <= c < |schema.columns| ==> Normalize(schema.columns[c].name) != Normalize(name);
      && (bound == Err(NoSuchColumn(name)) <==> missing)
      && (bound.Err? && !missing <==> exists c ::
        && 0 <= c < |schema.columns| && Normalize(schema.columns[c].name) == Normalize(name)
        && (forall d :: 0 <= d < c ==> Normalize(schema.columns[d].name) != Normalize(name))
        && match value
           case Null => false
           case Integer(_) => schema.columns[c].dataType.kind != IntegerKind
           case Double(_) => schema.columns[c].dataType.kind != DoubleKind
           case Varchar(_) => schema.columns[c].dataType.kind != VarcharKind)
  {
    hide Normalize;
    var index := FindColumn(schema.columns, name);
    if index < |schema.columns| {
      forall c | 0 <= c < |schema.columns| && Normalize(schema.columns[c].name) == Normalize(name)
          && forall d :: 0 <= d < c ==> Normalize(schema.columns[d].name) != Normalize(name)
        ensures c == index
      {
        assert !(c < index) && !(index < c);
      }
    }
  }

  lemma BindBothIs(left: Expression, right: Expression, schema: TableSchema)
    ensures var l, r := Bind(left, schema), Bind(right, schema);
      forall e :: e in {And(left, right), Or(left, right)} ==>
        && (Bind(e, schema).Ok? <==> l.Ok? && r.Ok?)
        && (l.Err? ==> Bind(e, schema) == Err(l.error))
        && (l.Ok? && r.Err? ==> Bind(e, schema) == Err(r.error))
  {}

  // ---------- Plans ----------

  datatype PlanNode =
    | SequentialScan(tableName: Name)
    | IndexScan(tableName: Name, indexName: Name, columnName: Name, key: I64)
    | Filter(condition: Bound, child: PlanNode)
    | Projection(columnIndexes: seq<nat>, columnNames: seq<Name>, child: PlanNode)

  // The columns asked for: positions of existing columns, none twice.
  ghost function ColumnsAsked(names: seq<Name>, schema: TableSchema, n: nat): Result<seq<nat>, PlannerError>
    requires n <= |names|
  {
    if n == 0 then Ok([])
    else
      match ColumnsAsked(names, schema, n - 1)
      case Err(error) => Err(error)
      case Ok(before) =>
        var c := FindColumn(schema.columns, names[n - 1]);
        if c == |schema.columns| then Err(NoSuchColumn(names[n - 1]))
        else if c in before then Err(SelectedTwice(names[n - 1]))
        else Ok(before + [c])
  }

  ghost function ColumnsSelected(statement: SelectStatement, schema: TableSchema): Result<seq<nat>, PlannerError> {
    if statement.columns == [] then Ok(seq(|schema.columns|, i => i))
    else ColumnsAsked(statement.columns, schema, |statement.columns|)
  }

  // Can this index answer the condition?
  predicate Serves(index: StoredIndex, condition: Option<Expression>) {
    && condition.Some? && condition.value.Compare?
    && Normalize(index.columnName) == Normalize(condition.value.column)
    && condition.value.operation == Equals && condition.value.value.Integer?
  }

  // The first index that can.
  ghost predicate Chosen(indexes: seq<StoredIndex>, condition: Option<Expression>, i: nat) {
    i < |indexes| && Serves(indexes[i], condition) && forall j :: 0 <= j < i ==> !Serves(indexes[j], condition)
  }

  ghost predicate ScanFor(scan: PlanNode, statement: SelectStatement, schema: TableSchema, indexes: seq<StoredIndex>) {
    if scan.SequentialScan? then
      scan.tableName == schema.name && forall i :: 0 <= i < |indexes| ==> !Serves(indexes[i], statement.condition)
    else
      && scan.IndexScan? && scan.tableName == schema.name
      && exists i: nat ::
        && Chosen(indexes, statement.condition, i)
        && scan == IndexScan(schema.name, indexes[i].name, indexes[i].columnName, statement.condition.value.value.i)
  }

  // A plan: projection over a filter, when there is a condition, over a scan.
  ghost predicate PlanFor(plan: PlanNode, statement: SelectStatement, schema: TableSchema, indexes: seq<StoredIndex>) {
    && plan.Projection? && ColumnsSelected(statement, schema) == Ok(plan.columnIndexes)
    && plan.columnNames == NamesOf(schema, plan.columnIndexes)
    && match statement.condition
       case None => ScanFor(plan.child, statement, schema, indexes)
       case Some(e) =>
         && plan.child.Filter? && Bind(e, schema) == Ok(plan.child.condition)
         && ScanFor(plan.child.child, statement, schema, indexes)
  }

  ghost function NamesOf(schema: TableSchema, columns: seq<nat>): seq<Name> {
    seq(|columns|, i requires 0 <= i < |columns| => if columns[i] < |schema.columns| then schema.columns[columns[i]].name else [])
  }

  ghost function Refused(statement: SelectStatement, schema: TableSchema): Option<PlannerError> {
    if statement.condition.Some? && Bind(statement.condition.value, schema).Err? then Some(Bind(statement.condition.value, schema).error)
    else if ColumnsSelected(statement, schema).Err? then Some(ColumnsSelected(statement, schema).error)
    else None
  }

  lemma {:induction false} AskedExist(names: seq<Name>, schema: TableSchema, n: nat)
    requires n <= |names| && ColumnsAsked(names, schema, n).Ok?
    ensures forall i :: 0 <= i < |ColumnsAsked(names, schema, n).value| ==> ColumnsAsked(names, schema, n).value[i] < |schema.columns|
  {
    if n > 0 {
      AskedExist(names, schema, n - 1);
    }
  }

  lemma {:induction false} AskedFails(names: seq<Name>, schema: TableSchema, k: nat, n: nat)
    requires k <= n <= |names| && ColumnsAsked(names, schema, k).Err?
    ensures ColumnsAsked(names, schema, n) == ColumnsAsked(names, schema, k)
    decreases n
  {
    if k < n {
      AskedFails(names, schema, k, n - 1);
    }
  }

  ghost predicate HasColumn(schema: TableSchema, name: Name) {
    exists c :: 0 <= c < |schema.columns| && Normalize(schema.columns[c].name) == Normalize(name)
  }

  // The columns of a SELECT: all of them in order for a star, else for each name the column of that name, none twice; it
  // is turned down exactly when a name has no column or two names have the same.
  lemma ColumnsSelectedIs(statement: SelectStatement, schema: TableSchema)
    requires ColumnsDistinct(schema.columns)
    ensures var names, columns := statement.columns, ColumnsSelected(statement, schema);
      && (names == [] ==> columns.Ok? && |columns.value| == |schema.columns| && forall i :: 0 <= i < |columns.value| ==> columns.value[i] == i)
      && (names != [] && columns.Ok? ==>
        && |columns.value| == |names|
        && forall i :: 0 <= i < |names| ==>
          columns.value[i] < |schema.columns| && Normalize(schema.columns[columns.value[i]].name) == Normalize(names[i]))
      && (columns.Ok? <==>
        && (forall i :: 0 <= i < |names| ==> HasColumn(schema, names[i]))
        && (forall i, j :: 0 <= i < j < |names| ==> Normalize(names[i]) != Normalize(names[j])))
  {
    hide Normalize, FindColumn, ColumnsDistinct, ColumnsAsked, HasColumn;
    if statement.columns != [] {
      AskedIs(statement.columns, schema, |statement.columns|);
    } else {
      assert ColumnsSelected(statement, schema).value == seq(|schema.columns|, i => i);
    }
  }

  lemma {:induction false} AskedIs(names: seq<Name>, schema: TableSchema, n: nat)
    requires n <= |names| && ColumnsDistinct(schema.columns)
    ensures var columns := ColumnsAsked(names, schema, n);
      && (columns.Ok? ==>
        && |columns.value| == n
        && forall i :: 0 <= i < n ==>
          columns.value[i] < |schema.columns| && Normalize(schema.columns[columns.value[i]].name) == Normalize(names[i]))
      && (columns.Ok? <==>
        && (forall i :: 0 <= i < n ==> HasColumn(schema, names[i]))
        && (forall i, j :: 0 <= i < j < n ==> Normalize(names[i]) != Normalize(names[j])))
  {
    hide Normalize, ColumnsDistinct, FindColumn, HasColumn;
    if n > 0 {
      AskedIs(names, schema, n - 1);
      AskedLast(names, schema, n);
    }
  }

  lemma AskedLast(names: seq<Name>, schema: TableSchema, n: nat)
    requires 0 < n <= |names| && ColumnsDistinct(schema.columns)
    requires ColumnsAsked(names, schema, n - 1).Ok? ==>
      && |ColumnsAsked(names, schema, n - 1).value| == n - 1
      && forall i :: 0 <= i < n - 1 ==> var c := ColumnsAsked(names, schema, n - 1).value[i];
        c < |schema.columns| && Normalize(schema.columns[c].name) == Normalize(names[i])
    ensures ColumnsAsked(names, schema, n).Ok? <==>
      && ColumnsAsked(names, schema, n - 1).Ok?
      && HasColumn(schema, names[n - 1])
      && forall i :: 0 <= i < n - 1 ==> Normalize(names[i]) != Normalize(names[n - 1])
    ensures ColumnsAsked(names, schema, n).Ok? ==>
      var c := FindColumn(schema.columns, names[n - 1]);
      && ColumnsAsked(names, schema, n).value == ColumnsAsked(names, schema, n - 1).value + [c]
      && c < |schema.columns| && Normalize(schema.columns[c].name) == Normalize(names[n - 1])
  {
    hide Normalize, ColumnsDistinct;
    var c := FindColumn(schema.columns, names[n - 1]);
    var before := ColumnsAsked(names, schema, n - 1);
    if before.Ok? && c < |schema.columns| {
      if c in before.value {
        var i :| 0 <= i < |before.value| && before.value[i] == c;
        assert Normalize(names[i]) == Normalize(names[n - 1]);
      }
      forall i | 0 <= i < n - 1 && Normalize(names[i]) == Normalize(names[n - 1])
        ensures before.value[i] == c
      {
        OneName(schema.columns, before.value[i], c);
      }
    }
  }

  lemma OneName(columns: seq<ColumnSchema>, c: nat, d: nat)
    requires ColumnsDistinct(columns) && c < |columns| && d < |columns| && Normalize(columns[c].name) == Normalize(columns[d].name)
    ensures c == d
  {
    hide Normalize;
    assert !(c < d) && !(d < c);
  }

  // A plan reads through an index exactly when the whole condition asks an indexed column to equal an integer, and then
  // through the first such index; the columns it gives carry their names in the schema.
  lemma PlanIs(plan: PlanNode, statement: SelectStatement, schema: TableSchema, indexes: seq<StoredIndex>)
    requires PlanFor(plan, statement, schema, indexes)
    ensures plan.Projection? && |plan.columnNames| == |plan.columnIndexes|
    ensures forall i :: 0 <= i < |plan.columnIndexes| && plan.columnIndexes[i] < |schema.columns| ==>
      plan.columnNames[i] == schema.columns[plan.columnIndexes[i]].name
    ensures statement.condition == None ==> plan.child == SequentialScan(schema.name)
    ensures statement.condition.Some? && !EqualsInteger(statement.condition.value) ==>
      plan.child.Filter? && plan.child.child == SequentialScan(schema.name)
    ensures statement.condition.Some? && EqualsInteger(statement.condition.value) ==>
      && plan.child.Filter?
      && var name, scan := statement.condition.value.column, plan.child.child;
      && (scan == SequentialScan(schema.name) <==> forall j :: 0 <= j < |indexes| ==> Normalize(indexes[j].columnName) != Normalize(name))
      && (scan != SequentialScan(schema.name) ==> exists i ::
        && 0 <= i < |indexes| && Normalize(indexes[i].columnName) == Normalize(name)
        && (forall j :: 0 <= j < i ==> Normalize(indexes[j].columnName) != Normalize(name))
        && scan == IndexScan(schema.name, indexes[i].name, indexes[i].columnName, statement.condition.value.value.i))
  {
    hide Normalize, ColumnsSelected, Bind;
    if statement.condition.Some? && EqualsInteger(statement.condition.value) {
      var scan := plan.child.child;
      assert forall j :: 0 <= j < |indexes| ==>
        (Serves(indexes[j], statement.condition) <==> Normalize(indexes[j].columnName) == Normalize(statement.condition.value.column));
      if scan.IndexScan? {
        var i: nat :| Chosen(indexes, statement.condition, i)
          && scan == IndexScan(schema.name, indexes[i].name, indexes[i].columnName, statement.condition.value.value.i);
        assert Normalize(indexes[i].columnName) == Normalize(statement.condition.value.column);
      }
    }
  }

  ghost predicate EqualsInteger(e: Expression) {
    e.Compare? && e.operation == Equals && e.value.Integer?
  }

  method ChooseColumns(statement: SelectStatement, schema: TableSchema) returns (r: Result<(seq<nat>, seq<Name>), PlannerError>)
    ensures match ColumnsSelected(statement, schema)
            case Err(error) => r == Err(error)
            case Ok(columns) => r == Ok((columns, NamesOf(schema, columns)))
  {
    hide FindColumn;
    var columns: seq<nat>, names: seq<Name> := [], [];
    if statement.columns == [] {
      for i := 0 to |schema.columns|
        invariant columns == seq(i, j => j) && names == NamesOf(schema, columns)
      {
        columns := columns + [i];
        names := names + [schema.columns[i].name];
      }
      return Ok((columns, names));
    }
    for k := 0 to |statement.columns|
      invariant ColumnsAsked(statement.columns, schema, k) == Ok(columns) && names == NamesOf(schema, columns)
    {
      var name := statement.columns[k];
      var c := FindColumn(schema.columns, name);
      if c == |schema.columns| || c in columns {
        AskedFails(statement.columns, schema, k + 1, |statement.columns|);
        return Err(if c == |schema.columns| then NoSuchColumn(name) else SelectedTwice(name));
      }
      columns := columns + [c];
      names := names + [schema.columns[c].name];
    }
    return Ok((columns, names));
  }

  method PlanSelect(statement: SelectStatement, schema: TableSchema, indexes: seq<StoredIndex>) returns (r: Result<PlanNode, PlannerError>)
    ensures r.Ok? ==> PlanFor(r.value, statement, schema, indexes)
    ensures Refused(statement, schema) == if r.Ok? then None else Some(r.error)
  {
    hide ColumnsSelected, NamesOf, Bind;
    var current := SequentialScan(schema.name);
    var i := 0;
    while i < |indexes| && !Serves(indexes[i], statement.condition)
      invariant i <= |indexes| && forall j :: 0 <= j < i ==> !Serves(indexes[j], statement.condition)
    {
      i := i + 1;
    }
    if i < |indexes| {
      current := IndexScan(schema.name, indexes[i].name, indexes[i].columnName, statement.condition.value.value.i);
      assert Chosen(indexes, statement.condition, i);
    }
    assert ScanFor(current, statement, schema, indexes);
    if statement.condition.Some? {
      var bound := Bind(statement.condition.value, schema);
      if bound.Err? {
        return Err(bound.error);
      }
      current := Filter(bound.value, current);
    }
    var chosen := ChooseColumns(statement, schema);
    if chosen.Err? {
      return Err(chosen.error);
    }
    return Ok(Projection(chosen.value.0, chosen.value.1, current));
  }

  // ---------- Running a plan ----------

  ghost function Select(rows: seq<Row>, b: Bound): seq<Row> {
    if rows == [] then []
    else Select(rows[..|rows| - 1], b) + if Holds(b, rows[|rows| - 1]) then [rows[|rows| - 1]] else []
  }

  method RunFilter(input: seq<Row>, b: Bound) returns (rows: seq<Row>)
    ensures rows == Select(input, b)
  {
    rows := [];
    for i := 0 to |input|
      invariant rows == Select(input[..i], b)
    {
      assert input[..i + 1][..i] == input[..i];
      if Holds(b, input[i]) {
        rows := rows + [input[i]];
      }
    }
    assert input[..|input|] == input;
  }

  ghost function Project(rows: seq<Row>, columns: seq<nat>): seq<seq<Value>> {
    seq(|rows|, i requires 0 <= i < |rows| => ProjectRow(rows[i], columns))
  }

  ghost function ProjectRow(row: Row, columns: seq<nat>): seq<Value> {
    seq(|columns|, i requires 0 <= i < |columns| => Cell(row, columns[i]))
  }

  method RunProjection(input: seq<Row>, columns: seq<nat>) returns (rows: seq<seq<Value>>)
    requires forall i, j :: 0 <= i < |input| && 0 <= j < |columns| ==> columns[j] < |input[i]|
    ensures rows == Project(input, columns)
  {
    rows := [];
    for i := 0 to |input|
      invariant rows == Project(input[..i], columns)
    {
      var values: seq<Value> := [];
      for j := 0 to |columns|
        invariant values == ProjectRow(input[i], columns[..j])
      {
        values := values + [input[i][columns[j]]];
      }
      assert columns[..|columns|] == columns;
      assert Project(input[..i + 1], columns) == Project(input[..i], columns) + [ProjectRow(input[i], columns)];
      rows := rows + [values];
    }
    assert input[..|input|] == input;
  }

  // The rows of the scan at the bottom, filtered on the way up.
  ghost function ExecuteRows(plan: PlanNode, rows: seq<Row>): seq<Row> {
    if plan.Filter? then Select(ExecuteRows(plan.child, rows), plan.condition) else rows
  }

  method RunRows(plan: PlanNode, input: seq<Row>) returns (rows: seq<Row>)
    ensures rows == ExecuteRows(plan, input)
    decreases plan
  {
    if !plan.Filter? {
      return input;
    }
    rows := RunRows(plan.child, input);
    rows := RunFilter(rows, plan.condition);
  }

  // Each row is cut down to the columns asked for, in the order asked.
  lemma ProjectIs(rows: seq<Row>, columns: seq<nat>)
    requires forall i, j :: 0 <= i < |rows| && 0 <= j < |columns| ==> columns[j] < |rows[i]|
    ensures |Project(rows, columns)| == |rows|
    ensures forall i :: 0 <= i < |rows| ==> |Project(rows, columns)[i]| == |columns|
    ensures forall i, j :: 0 <= i < |rows| && 0 <= j < |columns| ==> Project(rows, columns)[i][j] == rows[i][columns[j]]
  {}

  // ---------- What a SELECT means ----------

  ghost function Answer(statement: SelectStatement, schema: TableSchema, rows: seq<Row>): seq<seq<Value>>
    requires Refused(statement, schema).None?
  {
    var kept := match statement.condition case None => rows case Some(e) => Keep(rows, e, schema);
    Project(kept, ColumnsSelected(statement, schema).value)
  }

  // The rows a condition is true of.
  ghost function Keep(rows: seq<Row>, e: Expression, schema: TableSchema): seq<Row> {
    if rows == [] then []
    else Keep(rows[..|rows| - 1], e, schema) + if Says(e, schema, rows[|rows| - 1]) then [rows[|rows| - 1]] else []
  }

  // Row by row, in order.
  lemma KeepIs(rows: seq<Row>, row: Row, e: Expression, schema: TableSchema)
    ensures Keep([], e, schema) == []
    ensures Keep(rows + [row], e, schema) == Keep(rows, e, schema) + if Says(e, schema, row) then [row] else []
  {
    hide Says;
    assert (rows + [row])[..|rows|] == rows;
  }

  lemma {:induction false} SelectIsKeep(rows: seq<Row>, e: Expression, schema: TableSchema)
    requires Bind(e, schema).Ok?
    ensures Select(rows, Bind(e, schema).value) == Keep(rows, e, schema)
  {
    hide Bind, Says, Holds;
    if rows != [] {
      SelectIsKeep(rows[..|rows| - 1], e, schema);
      BindMeans(e, schema, rows[|rows| - 1]);
    }
  }

  // Filtering what an index lookup gives is filtering the whole scan.
  lemma {:induction false} LookupIsFilter(log: Log, c: nat, key: I64)
    ensures Select(RowsIn(log), Test(c, Equals, Integer(key))) == WithKey(log, c, key)
    ensures Select(WithKey(log, c, key), Test(c, Equals, Integer(key))) == WithKey(log, c, key)
  {
    var b := Test(c, Equals, Integer(key));
    if log == [] {
      assert RowsIn(log) == [];
    } else {
      hide Holds;
      var front, h := log[..|log| - 1], log[|log| - 1];
      LookupIsFilter(front, c, key);
      assert log == front + [h];
      assert RowsIn(log) == RowsIn(front) + [h.row];
      TestIsEquality(h.row, c, key);
      SelectSnoc(RowsIn(front), h.row, b);
      SelectSnoc(WithKey(front, c, key), h.row, b);
      assert WithKey(front, c, key) + [] == WithKey(front, c, key);
    }
  }

  lemma TestIsEquality(row: Row, c: nat, key: I64)
    ensures Holds(Test(c, Equals, Integer(key)), row) <==> Cell(row, c) == Integer(key)
  {
    EqualInteger(Cell(row, c), Integer(key));
  }

  lemma SelectSnoc(rows: seq<Row>, row: Row, b: Bound)
    ensures Select(rows + [row], b) == Select(rows, b) + if Holds(b, row) then [row] else []
  {
    assert (rows + [row])[..|rows|] == rows;
  }

  // Whichever scan a plan starts from, the rows that come out of its filter are those the condition is true of.
  lemma PlanMeans(plan: PlanNode, statement: SelectStatement, schema: TableSchema, indexes: seq<StoredIndex>, log: Log, i: nat)
    requires PlanFor(plan, statement, schema, indexes)
    ensures Refused(statement, schema).None?
    ensures statement.condition.None? ==> plan.child.SequentialScan? && ExecuteRows(plan.child, RowsIn(log)) == RowsIn(log)
    ensures statement.condition.Some? ==>
      && plan.child.Filter? && !plan.child.child.Filter?
      && ExecuteRows(plan.child, RowsIn(log)) == Keep(RowsIn(log), statement.condition.value, schema)
      && (plan.child.child.IndexScan? && i < |indexes| && Normalize(indexes[i].columnName) == Normalize(plan.child.child.columnName) ==>
        ExecuteRows(plan.child, WithKey(log, ColumnOf(schema, indexes[i]), plan.child.child.key)) ==
          Keep(RowsIn(log), statement.condition.value, schema))
  {
    hide ColumnsSelected, NamesOf, Keep, Select, WithKey, FindColumn;
    if statement.condition.Some? {
      SelectIsKeep(RowsIn(log), statement.condition.value, schema);
      var scan := plan.child.child;
      if scan.IndexScan? && i < |indexes| && Normalize(indexes[i].columnName) == Normalize(scan.columnName) {
        SameName(schema.columns, indexes[i].columnName, statement.condition.value.column);
        LookupIsFilter(log, ColumnOf(schema, indexes[i]), scan.key);
      }
    }
  }

  // The plan made with the table's indexes and the plan made with none give the same rows in the same order, each
  // from the scan it asks for.
  lemma PlansAgree(p: PlanNode, q: PlanNode, statement: SelectStatement, schema: TableSchema, indexes: seq<StoredIndex>, log: Log, i: nat)
    requires PlanFor(p, statement, schema, indexes) && PlanFor(q, statement, schema, [])
    ensures p.columnIndexes == q.columnIndexes && p.columnNames == q.columnNames
    ensures var scan := if p.child.Filter? then p.child.child else p.child;
      if scan.SequentialScan? then ExecuteRows(p.child, RowsIn(log)) == ExecuteRows(q.child, RowsIn(log))
      else
        && scan.IndexScan?
        && (i < |indexes| && Normalize(indexes[i].columnName) == Normalize(scan.columnName) ==>
          ExecuteRows(p.child, WithKey(log, ColumnOf(schema, indexes[i]), scan.key)) == ExecuteRows(q.child, RowsIn(log)))
  {
    hide ColumnsSelected, NamesOf, Keep, Select, WithKey, FindColumn, ExecuteRows, RowsIn;
    PlanMeans(p, statement, schema, indexes, log, i);
    PlanMeans(q, statement, schema, [], log, i);
  }

  // ---------- Running a SELECT ----------

  ghost predicate Wide(rows: seq<Row>, n: nat) {
    forall i :: 0 <= i < |rows| ==> |rows[i]| == n
  }

  lemma {:induction false} SelectWide(rows: seq<Row>, b: Bound, n: nat)
    requires Wide(rows, n)
    ensures Wide(Select(rows, b), n)
  {
    if rows != [] {
      SelectWide(rows[..|rows| - 1], b, n);
    }
  }

  lemma {:induction false} ExecuteWide(plan: PlanNode, rows: seq<Row>, n: nat)
    requires Wide(rows, n)
    ensures Wide(ExecuteRows(plan, rows), n)
  {
    if plan.Filter? {
      ExecuteWide(plan.child, rows, n);
      SelectWide(ExecuteRows(plan.child, rows), plan.condition, n);
    }
  }

  lemma {:induction false} LookupWide(log: Log, c: nat, key: I64, n: nat)
    requires Wide(RowsIn(log), n)
    ensures Wide(WithKey(log, c, key), n)
  {
    if log != [] {
      var front := log[..|log| - 1];
      assert RowsIn(front) == RowsIn(log)[..|log| - 1];
      LookupWide(front, c, key, n);
      assert |RowsIn(log)[|log| - 1]| == n;
    }
  }

  lemma ColumnsExist(statement: SelectStatement, schema: TableSchema)
    requires ColumnsSelected(statement, schema).Ok?
    ensures forall j :: 0 <= j < |ColumnsSelected(statement, schema).value| ==> ColumnsSelected(statement, schema).value[j] < |schema.columns|
  {
    if statement.columns != [] {
      AskedExist(statement.columns, schema, |statement.columns|);
    }
  }

  lemma TableWide(storage: DiskStorage.DiskStorage, t: nat)
    requires storage.Valid() && t < |storage.tables|
    ensures Wide(RowsIn(storage.RowsOf(t)), |storage.tables[t].schema.columns|)
  {
    hide StateOk, SchemaOk, TableOk, Rows, ColumnFault;
    DiskStorage.DiskStorage.StateFacts(storage.pool.View(), storage.tables, storage.shapes, t);
    TableWork.TableFacts(storage.pool.View(), storage.tables[t], storage.shapes[t]);
    var log, rows := storage.RowsOf(t), RowsIn(storage.RowsOf(t));
    forall i | 0 <= i < |rows|
      ensures |rows[i]| == |storage.tables[t].schema.columns|
    {
      assert rows[i] == log[i].row;
    }
  }

  datatype SelectError = PlanRefused(plan: PlannerError) | StorageFailed(storage: TableWork.StorageError)

  // The answer is the rows the condition is true of, in scan order, with the columns asked for. It does not depend
  // on whether the planner is shown the table's indexes or none of them.
  method ExecuteSelect(storage: DiskStorage.DiskStorage, statement: SelectStatement, available: seq<StoredIndex>)
    returns (r: Result<(seq<Name>, seq<seq<Value>>), SelectError>)
    requires storage.Valid() && FindTable(storage.tables, statement.tableName) < |storage.tables|
    requires available == [] || available == storage.tables[FindTable(storage.tables, statement.tableName)].indexes
    modifies storage.pool, storage.pool.disk
    ensures storage.Valid() && storage.pool.View() == old(storage.pool.View())
    ensures var t := FindTable(storage.tables, statement.tableName);
      var schema := storage.tables[t].schema;
      match Refused(statement, schema)
      case Some(error) => r == Err(PlanRefused(error))
      case None =>
        && ColumnsSelected(statement, schema).Ok?
        && r == Ok((NamesOf(schema, ColumnsSelected(statement, schema).value), Answer(statement, schema, RowsIn(storage.RowsOf(t)))))
  {
    hide StateOk, Refused, ColumnsSelected, NamesOf, Keep, Select, WithKey, ExecuteRows, Rows, RowsIn, Bind, Wide, Project;
    hide DiskStorage.DiskStorage.Valid;
    var t := FindTable(storage.tables, statement.tableName);
    var schema := storage.tables[t].schema;
    ghost var log := storage.RowsOf(t);
    TableWide(storage, t);
    var planned := PlanSelect(statement, schema, available);
    if planned.Err? {
      return Err(PlanRefused(planned.error));
    }
    var plan := planned.value;
    var scanNode := plan.child;
    if scanNode.Filter? {
      scanNode := scanNode.child;
    }
    ghost var i := if scanNode.IndexScan? then FindIndex(available, scanNode.columnName) else 0;
    PlanMeans(plan, statement, schema, available, log, i);
    var scanned;
    if scanNode.IndexScan? {
      IndexIsThere(plan, statement, schema, available);
      scanned := storage.IndexScan(statement.tableName, scanNode.columnName, scanNode.key);
      LookupWide(log, ColumnOf(schema, available[i]), scanNode.key, |schema.columns|);
    } else {
      scanned := storage.Scan(statement.tableName);
    }
    match scanned {
      case Err(error) => return Err(StorageFailed(error));
      case Ok(_) =>
    }
    var rows := RunRows(plan.child, scanned.value);
    ExecuteWide(plan.child, scanned.value, |schema.columns|);
    ColumnsExist(statement, schema);
    WideEnough(rows, plan.columnIndexes, |schema.columns|);
    AnswerIs(statement, schema, RowsIn(log), rows);
    var projected := RunProjection(rows, plan.columnIndexes);
    return Ok((plan.columnNames, projected));
  }

  lemma WideEnough(rows: seq<Row>, columns: seq<nat>, n: nat)
    requires Wide(rows, n) && forall j :: 0 <= j < |columns| ==> columns[j] < n
    ensures forall i, j :: 0 <= i < |rows| && 0 <= j < |columns| ==> columns[j] < |rows[i]|
  {}

  lemma AnswerIs(statement: SelectStatement, schema: TableSchema, all: seq<Row>, rows: seq<Row>)
    requires Refused(statement, schema).None?
    requires rows == match statement.condition case None => all case Some(e) => Keep(all, e, schema)
    ensures ColumnsSelected(statement, schema).Ok?
    ensures Answer(statement, schema, all) == Project(rows, ColumnsSelected(statement, schema).value)
  {}

  // The index a plan names is found again by its column.
  lemma IndexIsThere(plan: PlanNode, statement: SelectStatement, schema: TableSchema, indexes: seq<StoredIndex>)
    requires PlanFor(plan, statement, schema, indexes) && statement.condition.Some? && plan.child.child.IndexScan?
    ensures FindIndex(indexes, plan.child.child.columnName) < |indexes|
  {
    hide ColumnsSelected, NamesOf, Bind, Normalize;
    var i: nat :| Chosen(indexes, statement.condition, i) && plan.child.child.columnName == indexes[i].columnName;
    var found := FindIndex(indexes, plan.child.child.columnName);
  }
}
