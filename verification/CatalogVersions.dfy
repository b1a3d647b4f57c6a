// Catalogs of every version of the format: the bytes each version has for a catalog, and the proof that reading accepts
// exactly those. Version 1 knows no indexes, version 2 no constraints.
module CatalogVersions {
  import opened Bytes
  import opened Results
  import opened Seqs
  import opened Values
  import opened Schema
  import opened CatalogFormat
  import PoolSpec

  // ---------- The bytes ----------

  ghost function ColumnBytes(c: ColumnSchema, version: nat): seq<Byte> {
    EncodeName(c.name) + ([KindByte(c.dataType.kind)] + (Encode(LengthOf(c), 4) + if version < 3 then [] else [Flags(c)]))
  }

  ghost function ColumnIn(version: nat): ColumnSchema -> seq<Byte> {
    c => ColumnBytes(c, version)
  }

  ghost function TableBytes(t: StoredTable, version: nat): seq<Byte> {
    EncodeName(t.schema.name) +
      (EncodeList(t.schema.columns, ColumnIn(version)) +
       (EncodeList(t.pageIds, EncodePageId) + if version < 2 then [] else EncodeList(t.indexes, EncodeIndex)))
  }

  ghost function TableIn(version: nat): StoredTable -> seq<Byte> {
    t => TableBytes(t, version)
  }

  ghost function CatalogBytes(c: StoredCatalog, version: nat): seq<Byte> {
    EncodeName(c.databaseName) + EncodeList(c.tables, TableIn(version))
  }

  // ---------- What a version can say ----------

  ghost predicate ColumnKnown(c: ColumnSchema, version: nat) {
    && |c.name| <= MAX_U32 && LengthOf(c) <= MAX_U32 && ColumnSensible(c)
    && (version < 3 ==> !c.primaryKey && !c.unique && !c.notNull)
  }

  ghost predicate IndexKnown(i: StoredIndex) {
    |i.name| <= MAX_U32 && |i.columnName| <= MAX_U32 && IndexSensible(i)
  }

  ghost predicate PageKnown(id: PoolSpec.PageId) {
    id != CATALOG_PAGE
  }

  ghost predicate TableKnown(t: StoredTable, version: nat) {
    && |t.schema.name| <= MAX_U32 && |t.schema.columns| <= MAX_U32 && |t.pageIds| <= MAX_U32 && |t.indexes| <= MAX_U32
    && (forall i :: 0 <= i < |t.schema.columns| ==> ColumnKnown(t.schema.columns[i], version))
    && (forall i :: 0 <= i < |t.pageIds| ==> PageKnown(t.pageIds[i]))
    && (forall i :: 0 <= i < |t.indexes| ==> IndexKnown(t.indexes[i]))
    && (version < 2 ==> t.indexes == [])
  }

  ghost predicate CatalogKnown(c: StoredCatalog, version: nat) {
    |c.databaseName| <= MAX_U32 && |c.tables| <= MAX_U32 && forall t :: 0 <= t < |c.tables| ==> TableKnown(c.tables[t], version)
  }

  // ---------- What was read is what was written ----------

  lemma IntegerFront(b: seq<Byte>, width: nat)
    requires TakeInteger(b, width).Some?
    ensures var (n, rest) := TakeInteger(b, width).value; b == Encode(n, width) + rest && n < Pow256(width)
  {
    EncodeDecode(b[..width]);
  }

  lemma ByteFront(b: seq<Byte>)
    requires TakeInteger(b, 1).Some?
    ensures var (n, rest) := TakeInteger(b, 1).value; n < 256 && b == [n] + rest
  {
    IntegerFront(b, 1);
    Widths();
    var n := TakeInteger(b, 1).value.0;
    assert Encode(n, 1) == [n % 256] + Encode(n / 256, 0);
  }

  lemma NameFront(b: seq<Byte>)
    requires TakeName(b).Some?
    ensures var (n, rest) := TakeName(b).value; b == EncodeName(n) + rest && |n| <= MAX_U32
  {
    hide Encode, TakeInteger;
    Widths();
    IntegerFront(b, 4);
    var (size, more) := TakeInteger(b, 4).value;
    Assoc(Encode(size, 4), more[..size], more[size..]);
    assert more[..size] + more[size..] == more;
  }

  // Whatever it takes was written so, and is known.
  ghost predicate Front<T(!new)>(take: Taking<T>, encode: T -> seq<Byte>, known: T -> bool) {
    forall b :: take(b).Some? ==> b == encode(take(b).value.0) + take(b).value.1 && known(take(b).value.0)
  }

  lemma {:induction false} ManyFront<T(!new)>(b: seq<Byte>, n: nat, take: Taking<T>, encode: T -> seq<Byte>, known: T -> bool)
    requires Front(take, encode, known) && TakeMany(b, n, take).Some?
    ensures var (xs, rest) := TakeMany(b, n, take).value;
      |xs| == n && b == Concat(xs, encode) + rest && forall i :: 0 <= i < n ==> known(xs[i])
    decreases n
  {
    if n == 0 {
      assert Concat([], encode) + b == b;
    } else {
      var (x, more) := take(b).value;
      ManyFront(more, n - 1, take, encode, known);
      var (xs, rest) := TakeMany(more, n - 1, take).value;
      assert ([x] + xs)[1..] == xs;
      Assoc(encode(x), Concat(xs, encode), rest);
    }
  }

  lemma ListFront<T(!new)>(b: seq<Byte>, take: Taking<T>, encode: T -> seq<Byte>, known: T -> bool)
    requires Front(take, encode, known) && TakeList(b, take).Some?
    ensures var (xs, rest) := TakeList(b, take).value;
      b == EncodeList(xs, encode) + rest && |xs| <= MAX_U32 && forall i :: 0 <= i < |xs| ==> known(xs[i])
  {
    hide Encode, TakeInteger, TakeMany, Concat, Front;
    Widths();
    IntegerFront(b, 4);
    var (count, more) := TakeInteger(b, 4).value;
    ManyFront(more, count, take, encode, known);
    var (xs, rest) := TakeMany(more, count, take).value;
    Assoc(Encode(count, 4), Concat(xs, encode), rest);
  }

  lemma FieldsFront(name: Name, kind: nat, length: nat, flags: nat)
    requires kind <= 2 && flags <= 7 && (kind == 2 <==> length != 0)
    ensures var c := ColumnOfFields(name, kind, length, flags);
      && c.name == name && KindByte(c.dataType.kind) == kind && LengthOf(c) == length && Flags(c) == flags && ColumnSensible(c)
      && (flags == 0 ==> !c.primaryKey && !c.unique && !c.notNull)
  {}

  lemma ColumnFront(b: seq<Byte>, version: nat)
    requires TakeColumn(b, version).Some?
    ensures var (c, rest) := TakeColumn(b, version).value; b == ColumnBytes(c, version) + rest && ColumnKnown(c, version)
  {
    hide Encode, TakeInteger, TakeName, EncodeName, ColumnOfFields, KindByte, Flags, LengthOf, ColumnSensible;
    Widths();
    NameFront(b);
    var (name, afterName) := TakeName(b).value;
    ByteFront(afterName);
    var (kind, afterKind) := TakeInteger(afterName, 1).value;
    IntegerFront(afterKind, 4);
    var (length, afterLength) := TakeInteger(afterKind, 4).value;
    if version < 3 {
      FieldsFront(name, kind, length, 0);
      JoinFour(EncodeName(name), [kind], Encode(length, 4), [], afterLength);
      assert [] + afterLength == afterLength;
    } else {
      ByteFront(afterLength);
      var (flags, rest) := TakeInteger(afterLength, 1).value;
      FieldsFront(name, kind, length, flags);
      JoinFour(EncodeName(name), [kind], Encode(length, 4), [flags], rest);
    }
  }

  lemma JoinFour<T>(a: seq<T>, b: seq<T>, c: seq<T>, d: seq<T>, rest: seq<T>)
    ensures a + (b + (c + (d + rest))) == a + (b + (c + d)) + rest
  {}

  lemma PageIdFront(b: seq<Byte>)
    requires TakePageId(b).Some?
    ensures var (id, rest) := TakePageId(b).value; b == EncodePageId(id) + rest && PageKnown(id)
  {
    hide Encode, TakeInteger;
    IntegerFront(b, 4);
  }

  lemma IndexFront(b: seq<Byte>)
    requires TakeIndex(b).Some?
    ensures var (i, rest) := TakeIndex(b).value; b == EncodeIndex(i) + rest && IndexKnown(i)
  {
    hide Encode, TakeInteger, TakeName, EncodeName;
    Widths();
    NameFront(b);
    var (name, more) := TakeName(b).value;
    NameFront(more);
    var (column, last) := TakeName(more).value;
    IntegerFront(last, 4);
    var (root, rest) := TakeInteger(last, 4).value;
    JoinFour([], EncodeName(name), EncodeName(column), Encode(root, 4), rest);
    assert [] + (EncodeName(name) + (EncodeName(column) + Encode(root, 4))) == EncodeName(name) + (EncodeName(column) + Encode(root, 4));
    assert [] + b == b;
  }

  ghost function Columns(version: nat): Taking<ColumnSchema> {
    b => TakeColumn(b, version)
  }

  ghost function Tables(version: nat): Taking<StoredTable> {
    b => TakeTable(b, version)
  }

  lemma ColumnsFront(version: nat)
    ensures Front(Columns(version), ColumnIn(version), (c: ColumnSchema) => ColumnKnown(c, version))
  {
    hide TakeColumn, ColumnBytes, ColumnKnown;
    forall b | Columns(version)(b).Some?
      ensures var (c, rest) := Columns(version)(b).value; b == ColumnIn(version)(c) + rest && ColumnKnown(c, version)
    {
      ColumnFront(b, version);
    }
  }

  lemma PageIdsFront()
    ensures Front(TakePageId, EncodePageId, PageKnown)
  {
    hide TakePageId, EncodePageId, PageKnown;
    forall b | TakePageId(b).Some?
      ensures var (id, rest) := TakePageId(b).value; b == EncodePageId(id) + rest && PageKnown(id)
    {
      PageIdFront(b);
    }
  }

  lemma IndexesFront()
    ensures Front(TakeIndex, EncodeIndex, IndexKnown)
  {
    hide TakeIndex, EncodeIndex, IndexKnown;
    forall b | TakeIndex(b).Some?
      ensures var (i, rest) := TakeIndex(b).value; b == EncodeIndex(i) + rest && IndexKnown(i)
    {
      IndexFront(b);
    }
  }

  lemma TableFront(b: seq<Byte>, version: nat)
    requires TakeTable(b, version).Some?
    ensures var (t, rest) := TakeTable(b, version).value; b == TableBytes(t, version) + rest && TableKnown(t, version)
  {
    hide TakeName, EncodeName, TakeList, EncodeList, TakeColumn, TakePageId, TakeIndex, ColumnKnown, PageKnown, IndexKnown, Front, ColumnIn;
    NameFront(b);
    var (name, afterName) := TakeName(b).value;
    ColumnsFront(version);
    ListFront(afterName, Columns(version), ColumnIn(version), (c: ColumnSchema) => ColumnKnown(c, version));
    var (columns, afterColumns) := TakeList(afterName, Columns(version)).value;
    PageIdsFront();
    ListFront(afterColumns, TakePageId, EncodePageId, PageKnown);
    var (pages, afterPages) := TakeList(afterColumns, TakePageId).value;
    var some, more := EncodeList(columns, ColumnIn(version)), EncodeList(pages, EncodePageId);
    if version < 2 {
      JoinFour(EncodeName(name), some, more, [], afterPages);
      assert [] + afterPages == afterPages;
    } else {
      IndexesFront();
      ListFront(afterPages, TakeIndex, EncodeIndex, IndexKnown);
      var (indexes, rest) := TakeList(afterPages, TakeIndex).value;
      JoinFour(EncodeName(name), some, more, EncodeList(indexes, EncodeIndex), rest);
    }
  }

  lemma TablesFront(version: nat)
    ensures Front(Tables(version), TableIn(version), (t: StoredTable) => TableKnown(t, version))
  {
    hide TakeTable, TableBytes, TableKnown;
    forall b | Tables(version)(b).Some?
      ensures var (t, rest) := Tables(version)(b).value; b == TableIn(version)(t) + rest && TableKnown(t, version)
    {
      TableFront(b, version);
    }
  }

  lemma CatalogFront(b: seq<Byte>, version: nat)
    requires DecodeCatalog(b, version).Some?
    ensures var c := DecodeCatalog(b, version).value; b == CatalogBytes(c, version) && CatalogKnown(c, version)
  {
    hide TakeName, EncodeName, TakeList, EncodeList, TakeTable, TableKnown, Front, TableIn;
    NameFront(b);
    var more := TakeName(b).value.1;
    TablesFront(version);
    ListFront(more, Tables(version), TableIn(version), (t: StoredTable) => TableKnown(t, version));
    var tables := TakeList(more, Tables(version)).value.0;
    assert EncodeList(tables, TableIn(version)) + [] == EncodeList(tables, TableIn(version));
  }

  // ---------- What is written is read back ----------

  lemma FieldsBack(c: ColumnSchema, version: nat)
    requires ColumnKnown(c, version)
    ensures ColumnOfFields(c.name, KindByte(c.dataType.kind), LengthOf(c), if version < 3 then 0 else Flags(c)) == c
    ensures KindByte(c.dataType.kind) <= 2 && (KindByte(c.dataType.kind) == 2 <==> LengthOf(c) != 0) && Flags(c) <= 7
  {}

  lemma ColumnBack(c: ColumnSchema, version: nat, rest: seq<Byte>)
    requires ColumnKnown(c, version)
    ensures TakeColumn(ColumnBytes(c, version) + rest, version) == Some((c, rest))
  {
    hide Encode, TakeInteger, TakeName, EncodeName, ColumnOfFields, KindByte, Flags, LengthOf, ColumnSensible;
    Widths();
    FieldsBack(c, version);
    var flags := if version < 3 then [] else [Flags(c)];
    var length := Encode(LengthOf(c), 4) + (flags + rest);
    JoinFour(EncodeName(c.name), [KindByte(c.dataType.kind)], Encode(LengthOf(c), 4), flags, rest);
    NameBack(c.name, [KindByte(c.dataType.kind)] + length);
    ByteBack(KindByte(c.dataType.kind), length);
    IntegerBack(LengthOf(c), 4, flags + rest);
    if version < 3 {
      assert flags + rest == rest;
    } else {
      ByteBack(Flags(c), rest);
    }
  }

  lemma KnownIndex(i: StoredIndex)
    ensures IndexKnown(i) <==> IndexFits(i) && IndexSensible(i)
  {}

  lemma ColumnsBack(columns: seq<ColumnSchema>, version: nat, rest: seq<Byte>)
    requires |columns| <= MAX_U32 && forall i :: 0 <= i < |columns| ==> ColumnKnown(columns[i], version)
    ensures TakeList(EncodeList(columns, ColumnIn(version)) + rest, Columns(version)) == Some((columns, rest))
  {
    hide TakeColumn, ColumnBytes, ColumnKnown, TakeList, EncodeList;
    forall i, more | 0 <= i < |columns|
      ensures Columns(version)(ColumnIn(version)(columns[i]) + more) == Some((columns[i], more))
    {
      ColumnBack(columns[i], version, more);
    }
    ListBack(columns, ColumnIn(version), Columns(version), rest);
  }

  lemma PagesBack(pages: seq<PoolSpec.PageId>, rest: seq<Byte>)
    requires |pages| <= MAX_U32 && forall i :: 0 <= i < |pages| ==> PageKnown(pages[i])
    ensures TakeList(EncodeList(pages, EncodePageId) + rest, TakePageId) == Some((pages, rest))
  {
    hide TakePageId, EncodePageId, TakeList, EncodeList;
    forall i, more | 0 <= i < |pages|
      ensures TakePageId(EncodePageId(pages[i]) + more) == Some((pages[i], more))
    {
      PageIdBack(pages[i], more);
    }
    ListBack(pages, EncodePageId, TakePageId, rest);
  }

  lemma IndexesBack(indexes: seq<StoredIndex>, rest: seq<Byte>)
    requires |indexes| <= MAX_U32 && forall i :: 0 <= i < |indexes| ==> IndexKnown(indexes[i])
    ensures TakeList(EncodeList(indexes, EncodeIndex) + rest, TakeIndex) == Some((indexes, rest))
  {
    hide TakeIndex, EncodeIndex, IndexKnown, TakeList, EncodeList, IndexFits, IndexSensible;
    forall i, more | 0 <= i < |indexes|
      ensures TakeIndex(EncodeIndex(indexes[i]) + more) == Some((indexes[i], more))
    {
      KnownIndex(indexes[i]);
      IndexBack(indexes[i], more);
    }
    ListBack(indexes, EncodeIndex, TakeIndex, rest);
  }

  lemma TableBack(t: StoredTable, version: nat, rest: seq<Byte>)
    requires TableKnown(t, version)
    ensures TakeTable(TableBytes(t, version) + rest, version) == Some((t, rest))
  {
    hide TakeName, EncodeName, TakeList, EncodeList, TakeColumn, TakePageId, TakeIndex, ColumnKnown, PageKnown, IndexKnown, ColumnIn;
    var columns, pages := EncodeList(t.schema.columns, ColumnIn(version)), EncodeList(t.pageIds, EncodePageId);
    var indexes := if version < 2 then [] else EncodeList(t.indexes, EncodeIndex);
    JoinFour(EncodeName(t.schema.name), columns, pages, indexes, rest);
    NameBack(t.schema.name, columns + (pages + (indexes + rest)));
    ColumnsBack(t.schema.columns, version, pages + (indexes + rest));
    PagesBack(t.pageIds, indexes + rest);
    if version < 2 {
      assert indexes + rest == rest;
    } else {
      IndexesBack(t.indexes, rest);
    }
  }

  lemma CatalogBack(c: StoredCatalog, version: nat)
    requires CatalogKnown(c, version)
    ensures DecodeCatalog(CatalogBytes(c, version), version) == Some(c)
  {
    hide TakeName, EncodeName, TakeList, EncodeList, TakeTable, TableBytes, TableKnown;
    var tables := EncodeList(c.tables, TableIn(version));
    NameBack(c.databaseName, tables);
    forall t, more | 0 <= t < |c.tables|
      ensures Tables(version)(TableIn(version)(c.tables[t]) + more) == Some((c.tables[t], more))
    {
      TableBack(c.tables[t], version, more);
    }
    ListBack(c.tables, TableIn(version), Tables(version), []);
    assert tables + [] == tables;
  }

  // Reading bytes of some version gives a catalog exactly when they are the bytes of that version for it and it is one
  // that the version can say; anything else is corrupt.
  lemma DecodeIs(b: seq<Byte>, version: nat, c: StoredCatalog)
    ensures DecodeCatalog(b, version) == Some(c) <==> CatalogKnown(c, version) && b == CatalogBytes(c, version)
  {
    hide DecodeCatalog, CatalogKnown, CatalogBytes;
    if DecodeCatalog(b, version) == Some(c) {
      CatalogFront(b, version);
    }
    if CatalogKnown(c, version) {
      CatalogBack(c, version);
    }
  }

  // ---------- The version that is written ----------

  lemma {:induction false} SameConcat<T>(xs: seq<T>, f: T -> seq<Byte>, g: T -> seq<Byte>)
    requires forall i :: 0 <= i < |xs| ==> f(xs[i]) == g(xs[i])
    ensures Concat(xs, f) == Concat(xs, g)
  {
    if xs != [] {
      SameConcat(xs[1..], f, g);
    }
  }

  lemma NowWritten(c: StoredCatalog)
    ensures EncodeCatalog(c) == CatalogBytes(c, 3)
  {
    hide EncodeName, Concat, EncodeColumn, EncodeIndex;
    forall t | 0 <= t < |c.tables|
      ensures EncodeTable(c.tables[t]) == TableIn(3)(c.tables[t])
    {
      var columns := c.tables[t].schema.columns;
      forall i | 0 <= i < |columns|
        ensures EncodeColumn(columns[i]) == ColumnIn(3)(columns[i])
      {
        ColumnNow(columns[i]);
      }
      SameConcat(columns, EncodeColumn, ColumnIn(3));
    }
    SameConcat(c.tables, EncodeTable, TableIn(3));
  }

  lemma ColumnNow(c: ColumnSchema)
    ensures EncodeColumn(c) == ColumnBytes(c, 3)
  {}

  // What page 0 says, for every page there is.
  lemma PageIs(p: Page, c: StoredCatalog)
    ensures DecodePage(p) == Ok(c) <==>
      && (forall i :: 0 <= i < 8 ==> p[i] as char == "CURIODBC"[i])
      && var version, size := U32At(p, 8), U32At(p, 12);
      && 1 <= version <= 3 && size <= 4080 && CatalogKnown(c, version) && p[16..16 + size] == CatalogBytes(c, version)
    ensures DecodePage(p) == Err(InvalidMagic) <==> exists i :: 0 <= i < 8 && p[i] as char != "CURIODBC"[i]
    ensures DecodePage(p) == Err(UnsupportedVersion) <==>
      (forall i :: 0 <= i < 8 ==> p[i] as char == "CURIODBC"[i]) && !(1 <= U32At(p, 8) <= 3)
    ensures DecodePage(p).Err? ==> DecodePage(p).error in {InvalidMagic, UnsupportedVersion, CorruptMetadata}
  {
    hide DecodeCatalog, CatalogKnown, CatalogBytes, Decode;
    var version, size := U32At(p, 8), U32At(p, 12);
    if size <= 4080 {
      DecodeIs(p[16..16 + size], version, c);
    }
    assert forall i :: 0 <= i < 8 ==> p[..8][i] == p[i];
    assert p[..8] == MAGIC <==> forall i :: 0 <= i < 8 ==> p[i] as char == "CURIODBC"[i];
  }
}
