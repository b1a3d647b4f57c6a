// Table schemas, the checks a row must pass, and what the catalog keeps about tables and indexes.
module Schema {
  import opened Bytes
  import opened Results
  import opened Values
  import PoolSpec

  type Name = seq<Byte>

  // Names are compared without regard to the case of ASCII letters.
  function Normalize(name: Name): (n: Name)
    ensures |n| == |name|
  {
    seq(|name|, i requires 0 <= i < |name| => Lower(name[i]))
  }

  function Lower(c: Byte): Byte {
    if 65 <= c <= 90 then c + 32 else c
  }

  // Two names are one when they are letter for letter the same but for the case of A to Z.
  lemma SameNameIs(a: Name, b: Name)
    ensures Normalize(a) == Normalize(b) <==>
      && |a| == |b|
      && forall i :: 0 <= i < |a| ==>
        || a[i] == b[i]
        || (65 <= a[i] <= 90 && b[i] == a[i] + 32)
        || (65 <= b[i] <= 90 && a[i] == b[i] + 32)
  {
    if Normalize(a) == Normalize(b) {
      assert |a| == |Normalize(a)| && |b| == |Normalize(b)|;
      forall i | 0 <= i < |a|
        ensures Lower(a[i]) == Lower(b[i])
      {
        assert Normalize(a)[i] == Normalize(b)[i];
      }
    }
  }

  datatype DataType = DataType(kind: Kind, length: Option<nat>)

  datatype ColumnSchema = ColumnSchema(name: Name, dataType: DataType, primaryKey: bool, unique: bool, notNull: bool)

  datatype TableSchema = TableSchema(name: Name, columns: seq<ColumnSchema>)

  datatype StoredIndex = StoredIndex(name: Name, columnName: Name, root: Option<nat>)

  datatype StoredTable = StoredTable(schema: TableSchema, pageIds: seq<PoolSpec.PageId>, indexes: seq<StoredIndex>)

  datatype StoredCatalog = StoredCatalog(databaseName: Name, tables: seq<StoredTable>)

  // The first column of that name; the number of columns when there is none.
  function FindColumn(columns: seq<ColumnSchema>, name: Name): (c: nat)
    ensures c <= |columns|
    ensures c < |columns| ==> Normalize(columns[c].name) == Normalize(name)
    ensures forall i :: 0 <= i < c ==> Normalize(columns[i].name) != Normalize(name)
  {
    if columns == [] || Normalize(columns[0].name) == Normalize(name) then 0 else 1 + FindColumn(columns[1..], name)
  }

  // Columns have different names, as the catalog checks before a table is created.
  ghost predicate ColumnsDistinct(columns: seq<ColumnSchema>) {
    forall i, j :: 0 <= i < j < |columns| ==> Normalize(columns[i].name) != Normalize(columns[j].name)
  }

  lemma {:induction false} SameName(columns: seq<ColumnSchema>, a: Name, b: Name)
    requires Normalize(a) == Normalize(b)
    ensures FindColumn(columns, a) == FindColumn(columns, b)
  {
    hide Normalize;
    if columns != [] {
      SameName(columns[1..], a, b);
    }
  }

  lemma FindsItself(columns: seq<ColumnSchema>, c: nat)
    requires ColumnsDistinct(columns) && c < |columns|
    ensures FindColumn(columns, columns[c].name) == c
  {
    assert forall i :: 0 <= i < c ==> Normalize(columns[i].name) != Normalize(columns[c].name);
  }

  // The first table of that name; the number of tables when there is none.
  function FindTable(tables: seq<StoredTable>, name: Name): (t: nat)
    ensures t <= |tables|
    ensures t < |tables| ==> Normalize(tables[t].schema.name) == Normalize(name)
    ensures forall i :: 0 <= i < t ==> Normalize(tables[i].schema.name) != Normalize(name)
  {
    if tables == [] || Normalize(tables[0].schema.name) == Normalize(name) then 0 else 1 + FindTable(tables[1..], name)
  }

  // The first index on a column of that name; the number of indexes when there is none.
  function FindIndex(indexes: seq<StoredIndex>, column: Name): (i: nat)
    ensures i <= |indexes|
    ensures i < |indexes| ==> Normalize(indexes[i].columnName) == Normalize(column)
    ensures forall j :: 0 <= j < i ==> Normalize(indexes[j].columnName) != Normalize(column)
  {
    if indexes == [] || Normalize(indexes[0].columnName) == Normalize(column) then 0 else 1 + FindIndex(indexes[1..], column)
  }

  predicate IndexNamed(tables: seq<StoredTable>, name: Name) {
    exists t :: 0 <= t < |tables| && exists i :: 0 <= i < |tables[t].indexes| && Normalize(tables[t].indexes[i].name) == Normalize(name)
  }

  lemma IndexNamedIs(tables: seq<StoredTable>, name: Name)
    ensures IndexNamed(tables, name) <==>
      exists t, i :: 0 <= t < |tables| && 0 <= i < |tables[t].indexes| && Normalize(tables[t].indexes[i].name) == Normalize(name)
  {
    hide Normalize;
  }

  // ---------- Row validation ----------

  datatype RowError = ValueCountMismatch | InvalidSchema | NullNotAllowed | TypeMismatch | VarcharTooLong

  function ColumnFault(column: ColumnSchema, value: Value): Option<RowError> {
    var varchar := column.dataType.kind == VarcharKind;
    if varchar && (column.dataType.length.None? || column.dataType.length.value == 0) then Some(InvalidSchema)
    else if !varchar && column.dataType.length.Some? then Some(InvalidSchema)
    else if value.Null? then (if column.notNull || column.primaryKey then Some(NullNotAllowed) else None)
    else if KindOf(value) != column.dataType.kind then Some(TypeMismatch)
    else if varchar && |value.text| > column.dataType.length.value then Some(VarcharTooLong)
    else None
  }

  // What the checks of one value come to.
  lemma ColumnFaultIs(column: ColumnSchema, value: Value)
    ensures var kind, length, fault := column.dataType.kind, column.dataType.length, ColumnFault(column, value);
      var proper := if kind == VarcharKind then length.Some? && length.value > 0 else length.None?;
      && (fault == Some(InvalidSchema) <==> !proper)
      && (fault == Some(NullNotAllowed) <==> proper && value.Null? && (column.notNull || column.primaryKey))
      && (fault == Some(TypeMismatch) <==>
        && proper && !value.Null? && !(value.Integer? && kind == IntegerKind)
        && !(value.Double? && kind == DoubleKind) && !(value.Varchar? && kind == VarcharKind))
      && (fault == Some(VarcharTooLong) <==> proper && value.Varchar? && kind == VarcharKind && |value.text| > length.value)
      && (fault.None? <==> proper && match value
            case Null => !column.notNull && !column.primaryKey
            case Integer(_) => kind == IntegerKind
            case Double(_) => kind == DoubleKind
            case Varchar(text) => kind == VarcharKind && |text| <= length.value)
  {}

  // Every value suits its column.
  ghost predicate RowOk(schema: TableSchema, row: Row) {
    |row| == |schema.columns| && forall c :: 0 <= c < |row| ==> ColumnFault(schema.columns[c], row[c]).None?
  }

  // A row suits a schema exactly when it has a value for every column, NULL only where it may stand, values of the right
  // kind, and no text longer than its column allows.
  lemma RowOkIs(schema: TableSchema, row: Row)
    ensures RowOk(schema, row) <==>
      && |row| == |schema.columns|
      && forall c :: 0 <= c < |row| ==>
        var column, kind, length := schema.columns[c], schema.columns[c].dataType.kind, schema.columns[c].dataType.length;
        && (if kind == VarcharKind then length.Some? && length.value > 0 else length.None?)
        && match row[c]
           case Null => !column.notNull && !column.primaryKey
           case Integer(_) => kind == IntegerKind
           case Double(_) => kind == DoubleKind
           case Varchar(text) => kind == VarcharKind && |text| <= length.value
  {}

  // The first thing wrong with a row.
  ghost function RowFault(schema: TableSchema, row: Row): Option<RowError> {
    if |row| != |schema.columns| then Some(ValueCountMismatch) else FaultFrom(schema, row, 0)
  }

  ghost function FaultFrom(schema: TableSchema, row: Row, c: nat): Option<RowError>
    requires c <= |row| == |schema.columns|
    decreases |row| - c
  {
    if c == |row| then None
    else if ColumnFault(schema.columns[c], row[c]).Some? then ColumnFault(schema.columns[c], row[c])
    else FaultFrom(schema, row, c + 1)
  }

  // It is the fault of the first column that has one.
  lemma {:induction false} FaultFromIs(schema: TableSchema, row: Row, c: nat)
    requires c <= |row| == |schema.columns|
    ensures FaultFrom(schema, row, c).None? <==> forall d :: c <= d < |row| ==> ColumnFault(schema.columns[d], row[d]).None?
    ensures FaultFrom(schema, row, c).Some? ==>
      exists d :: c <= d < |row| && ColumnFault(schema.columns[d], row[d]) == FaultFrom(schema, row, c)
               && forall e :: c <= e < d ==> ColumnFault(schema.columns[e], row[e]).None?
    decreases |row| - c
  {
    hide ColumnFault;
    if c < |row| {
      FaultFromIs(schema, row, c + 1);
    }
  }

  // Accepts exactly the rows that suit the schema, and else names what is wrong with the first column at fault.
  method ValidateRow(schema: TableSchema, row: Row) returns (fault: Option<RowError>)
    ensures fault == RowFault(schema, row) && (fault.None? <==> RowOk(schema, row))
    ensures fault.None? <==>
      && |row| == |schema.columns|
      && forall c :: 0 <= c < |row| ==>
        var column, kind, length := schema.columns[c], schema.columns[c].dataType.kind, schema.columns[c].dataType.length;
        && (if kind == VarcharKind then length.Some? && length.value > 0 else length.None?)
        && match row[c]
           case Null => !column.notNull && !column.primaryKey
           case Integer(_) => kind == IntegerKind
           case Double(_) => kind == DoubleKind
           case Varchar(text) => kind == VarcharKind && |text| <= length.value
    ensures fault == Some(ValueCountMismatch) <==> |row| != |schema.columns|
    ensures fault.Some? && |row| == |schema.columns| ==>
      exists c :: 0 <= c < |row| && ColumnFault(schema.columns[c], row[c]) == fault
               && forall d :: 0 <= d < c ==> ColumnFault(schema.columns[d], row[d]).None?
  {
    hide FaultFrom, ColumnFault, RowOk;
    RowOkIs(schema, row);
    if |row| != |schema.columns| {
      return Some(ValueCountMismatch);
    }
    FaultFromIs(schema, row, 0);
    AllSuit(schema, row);
    for c := 0 to |row|
      invariant FaultFrom(schema, row, c) == FaultFrom(schema, row, 0)
    {
      FaultStep(schema, row, c);
      ColumnFaultIs(schema.columns[c], row[c]);
      var column, value := schema.columns[c], row[c];
      var varchar := column.dataType.kind == VarcharKind;
      if (varchar && (column.dataType.length.None? || column.dataType.length.value == 0))
         || (!varchar && column.dataType.length.Some?) {
        return Some(InvalidSchema);
      }
      if value.Null? {
        if column.notNull || column.primaryKey {
          return Some(NullNotAllowed);
        }
        continue;
      }
      if KindOf(value) != column.dataType.kind {
        return Some(TypeMismatch);
      }
      if varchar && |value.text| > column.dataType.length.value {
        return Some(VarcharTooLong);
      }
    }
    FaultStep(schema, row, |row|);
    return None;
  }

  lemma FaultStep(schema: TableSchema, row: Row, c: nat)
    requires c <= |row| == |schema.columns|
    ensures c == |row| ==> FaultFrom(schema, row, c) == None
    ensures c < |row| ==>
      var fault := ColumnFault(schema.columns[c], row[c]);
      FaultFrom(schema, row, c) == if fault.Some? then fault else FaultFrom(schema, row, c + 1)
  {
    hide ColumnFault;
  }

  lemma AllSuit(schema: TableSchema, row: Row)
    ensures RowOk(schema, row) <==> |row| == |schema.columns| && forall c :: 0 <= c < |row| ==> ColumnFault(schema.columns[c], row[c]).None?
  {
    hide ColumnFault;
  }
}
