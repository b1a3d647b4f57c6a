// Page 0: the catalog written whole, and read back.
module CatalogStorage {
  import opened Bytes
  import opened Results
  import opened Seqs
  import opened Values
  import opened Schema
  import opened CatalogFormat
  import Serialization
  import PoolSpec
  import BufferPool

  // ---------- Writing ----------

  method AppendName(out: seq<Byte>, name: Name) returns (r: Option<seq<Byte>>)
    ensures r == if |name| <= MAX_U32 then Some(out + EncodeName(name)) else None
  {
    hide Encode;
    if |name| > MAX_U32 {
      return None;
    }
    var bytes := Serialization.AppendInteger(out, |name|, 4);
    for i := 0 to |name|
      invariant bytes == out + Encode(|name|, 4) + name[..i]
    {
      bytes := bytes + [name[i]];
    }
    assert name[..|name|] == name;
    Assoc(out, Encode(|name|, 4), name);
    return Some(bytes);
  }

  method AppendColumn(out: seq<Byte>, column: ColumnSchema) returns (r: Option<seq<Byte>>)
    ensures r == if ColumnFits(column) then Some(out + EncodeColumn(column)) else None
  {
    hide Encode, EncodeName;
    var named := AppendName(out, column.name);
    if named.None? {
      return None;
    }
    var kind, length, flags := [KindByte(column.dataType.kind)], LengthOf(column), [Flags(column)];
    if length > MAX_U32 {
      return None;
    }
    var bytes := Serialization.AppendInteger(named.value + kind, length, 4);
    Assoc(out, EncodeName(column.name), kind);
    Assoc(out, EncodeName(column.name) + kind, Encode(length, 4));
    Assoc(out, EncodeName(column.name) + kind + Encode(length, 4), flags);
    Assoc(EncodeName(column.name), kind, Encode(length, 4));
    Assoc(EncodeName(column.name), kind + Encode(length, 4), flags);
    Assoc(kind, Encode(length, 4), flags);
    return Some(bytes + flags);
  }

  method AppendColumns(out: seq<Byte>, columns: seq<ColumnSchema>) returns (r: Option<seq<Byte>>)
    ensures r.Some? <==> forall i :: 0 <= i < |columns| ==> ColumnFits(columns[i])
    ensures r.Some? ==> r.value == out + Concat(columns, EncodeColumn)
  {
    hide ColumnFits, EncodeColumn;
    var bytes := out;
    NothingYet(out, columns, EncodeColumn);
    for i := 0 to |columns|
      invariant bytes == out + Concat(columns[..i], EncodeColumn)
      invariant forall j :: 0 <= j < i ==> ColumnFits(columns[j])
    {
      var appended := AppendColumn(bytes, columns[i]);
      if appended.None? {
        return None;
      }
      ConcatSnoc(columns, i, EncodeColumn);
      Assoc(out, Concat(columns[..i], EncodeColumn), EncodeColumn(columns[i]));
      bytes := appended.value;
    }
    assert columns[..|columns|] == columns;
    return Some(bytes);
  }

  lemma NothingYet<T>(out: seq<Byte>, xs: seq<T>, encode: T -> seq<Byte>)
    ensures out == out + Concat(xs[..0], encode)
  {}

  method AppendPageIds(out: seq<Byte>, pages: seq<PoolSpec.PageId>) returns (bytes: seq<Byte>)
    ensures bytes == out + Concat(pages, EncodePageId)
  {
    hide Encode;
    bytes := out;
    NothingYet(out, pages, EncodePageId);
    for i := 0 to |pages|
      invariant bytes == out + Concat(pages[..i], EncodePageId)
    {
      ConcatSnoc(pages, i, EncodePageId);
      Assoc(out, Concat(pages[..i], EncodePageId), EncodePageId(pages[i]));
      bytes := Serialization.AppendInteger(bytes, pages[i], 4);
    }
    assert pages[..|pages|] == pages;
  }

  method AppendIndex(out: seq<Byte>, index: StoredIndex) returns (r: Option<seq<Byte>>)
    ensures r == if IndexFits(index) then Some(out + EncodeIndex(index)) else None
  {
    hide Encode, EncodeName;
    var named := AppendName(out, index.name);
    if named.None? {
      return None;
    }
    var columned := AppendName(named.value, index.columnName);
    if columned.None? {
      return None;
    }
    var bytes := Serialization.AppendInteger(columned.value, RootOf(index), 4);
    var name, column, root := EncodeName(index.name), EncodeName(index.columnName), Encode(RootOf(index), 4);
    Assoc(out, name, column);
    Assoc(out, name + column, root);
    Assoc(name, column, root);
    return Some(bytes);
  }

  method AppendIndexes(out: seq<Byte>, indexes: seq<StoredIndex>) returns (r: Option<seq<Byte>>)
    ensures r.Some? <==> forall i :: 0 <= i < |indexes| ==> IndexFits(indexes[i])
    ensures r.Some? ==> r.value == out + Concat(indexes, EncodeIndex)
  {
    hide IndexFits, EncodeIndex;
    var bytes := out;
    NothingYet(out, indexes, EncodeIndex);
    for i := 0 to |indexes|
      invariant bytes == out + Concat(indexes[..i], EncodeIndex)
      invariant forall j :: 0 <= j < i ==> IndexFits(indexes[j])
    {
      var appended := AppendIndex(bytes, indexes[i]);
      if appended.None? {
        return None;
      }
      ConcatSnoc(indexes, i, EncodeIndex);
      Assoc(out, Concat(indexes[..i], EncodeIndex), EncodeIndex(indexes[i]));
      bytes := appended.value;
    }
    assert indexes[..|indexes|] == indexes;
    return Some(bytes);
  }

  method AppendTable(out: seq<Byte>, table: StoredTable) returns (r: Option<seq<Byte>>)
    ensures r == if TableFits(table) then Some(out + EncodeTable(table)) else None
  {
    hide Encode, EncodeName, Concat, ColumnFits, IndexFits;
    var named := AppendName(out, table.schema.name);
    if named.None? || |table.schema.columns| > MAX_U32 || |table.pageIds| > MAX_U32 {
      return None;
    }
    var bytes := Serialization.AppendInteger(named.value, |table.schema.columns|, 4);
    var columned := AppendColumns(bytes, table.schema.columns);
    if columned.None? {
      return None;
    }
    bytes := Serialization.AppendInteger(columned.value, |table.pageIds|, 4);
    bytes := AppendPageIds(bytes, table.pageIds);
    if |table.indexes| > MAX_U32 {
      return None;
    }
    bytes := Serialization.AppendInteger(bytes, |table.indexes|, 4);
    var indexed := AppendIndexes(bytes, table.indexes);
    if indexed.None? {
      return None;
    }
    ThreeLists(out, EncodeName(table.schema.name),
               Encode(|table.schema.columns|, 4), Concat(table.schema.columns, EncodeColumn),
               Encode(|table.pageIds|, 4), Concat(table.pageIds, EncodePageId),
               Encode(|table.indexes|, 4), Concat(table.indexes, EncodeIndex));
    return indexed;
  }

  lemma ThreeLists(out: seq<Byte>, name: seq<Byte>, a: seq<Byte>, b: seq<Byte>, c: seq<Byte>, d: seq<Byte>, e: seq<Byte>, f: seq<Byte>)
    ensures out + name + a + b + c + d + e + f == out + (name + ((a + b) + ((c + d) + (e + f))))
  {
    Assoc(c + d, e, f);
    Assoc(c + d + e, f, []);
    Assoc(a + b, c + d, e + f);
    Assoc(name, a + b, (c + d) + (e + f));
    Assoc(out, name, (a + b) + ((c + d) + (e + f)));
    Assoc(out + name, a, b);
    Assoc(out + name, a + b, (c + d) + (e + f));
    Assoc(out + name + (a + b), c, d);
    Assoc(out + name + (a + b), c + d, e + f);
    Assoc(out + name + (a + b) + (c + d), e, f);
  }

  method Serialize(catalog: StoredCatalog) returns (r: Result<seq<Byte>, CatalogError>)
    ensures r == if CatalogFits(catalog) then Ok(EncodeCatalog(catalog)) else Err(MetadataTooLarge)
  {
    hide Encode, EncodeName, EncodeTable, TableFits;
    if |catalog.tables| > MAX_U32 {
      return Err(MetadataTooLarge);
    }
    var named := AppendName([], catalog.databaseName);
    if named.None? {
      return Err(MetadataTooLarge);
    }
    assert [] + EncodeName(catalog.databaseName) == EncodeName(catalog.databaseName);
    var start := Serialization.AppendInteger(named.value, |catalog.tables|, 4);
    var bytes := start;
    NothingYet(start, catalog.tables, EncodeTable);
    for i := 0 to |catalog.tables|
      invariant bytes == start + Concat(catalog.tables[..i], EncodeTable)
      invariant forall j :: 0 <= j < i ==> TableFits(catalog.tables[j])
    {
      var appended := AppendTable(bytes, catalog.tables[i]);
      if appended.None? {
        return Err(MetadataTooLarge);
      }
      ConcatSnoc(catalog.tables, i, EncodeTable);
      Assoc(start, Concat(catalog.tables[..i], EncodeTable), EncodeTable(catalog.tables[i]));
      bytes := appended.value;
    }
    assert catalog.tables[..|catalog.tables|] == catalog.tables;
    Assoc(EncodeName(catalog.databaseName), Encode(|catalog.tables|, 4), Concat(catalog.tables, EncodeTable));
    if |bytes| > PAGE_SIZE - HEADER_SIZE {
      return Err(MetadataTooLarge);
    }
    return Ok(bytes);
  }

  // ---------- Reading ----------

  method ReadName(reader: Serialization.Reader) returns (r: Option<Name>)
    requires reader.Valid()
    modifies reader
    ensures reader.Valid()
    ensures match TakeName(old(reader.Rest())) case None => r == None case Some(n) => r == Some(n.0) && reader.Rest() == n.1
  {
    hide Decode;
    var size := reader.ReadInteger(4);
    if size.None? {
      return None;
    }
    var text := reader.ReadString(size.value);
    return text;
  }

  method ReadColumn(reader: Serialization.Reader, version: nat) returns (r: Option<ColumnSchema>)
    requires reader.Valid()
    modifies reader
    ensures reader.Valid()
    ensures match TakeColumn(old(reader.Rest()), version) case None => r == None case Some(c) => r == Some(c.0) && reader.Rest() == c.1
  {
    hide Decode, TakeName, ColumnOfFields;
    var name := ReadName(reader);
    if name.None? {
      return None;
    }
    var kind := reader.ReadInteger(1);
    if kind.None? {
      return None;
    }
    var length := reader.ReadInteger(4);
    if length.None? || kind.value > 2 {
      return None;
    }
    if kind.value == 2 {
      if length.value == 0 {
        return None;
      }
    } else if length.value != 0 {
      return None;
    }
    var flags := 0;
    if version >= 3 {
      var constraints := reader.ReadInteger(1);
      if constraints.None? || constraints.value > 7 {
        return None;
      }
      flags := constraints.value;
    }
    return Some(ColumnOfFields(name.value, kind.value, length.value, flags));
  }

  // One more item of a list has been read.
  lemma OneTaken<T>(b: seq<Byte>, i: nat, n: nat, take: Taking<T>, xs: seq<T>, rest: seq<Byte>)
    requires i < n && TakeMany(b, i, take) == Some((xs, rest))
    ensures take(rest).None? ==> TakeMany(b, n, take) == None
    ensures take(rest).Some? ==> TakeMany(b, i + 1, take) == Some((xs + [take(rest).value.0], take(rest).value.1))
  {
    TakeManySplit(b, i, n, take);
    TakeManySplit(b, i, i + 1, take);
    if take(rest).Some? {
      var x := take(rest).value;
      assert TakeMany(x.1, 0, take) == Some(([], x.1));
      assert [x.0] + [] == [x.0];
    }
  }

  method ReadColumns(reader: Serialization.Reader, count: nat, version: nat) returns (r: Option<seq<ColumnSchema>>)
    requires reader.Valid()
    modifies reader
    ensures reader.Valid()
    ensures match TakeMany(old(reader.Rest()), count, (c: seq<Byte>) => TakeColumn(c, version))
            case None => r == None
            case Some(cs) => r == Some(cs.0) && reader.Rest() == cs.1
  {
    hide TakeColumn;
    ghost var start, take := reader.Rest(), (c: seq<Byte>) => TakeColumn(c, version);
    var columns: seq<ColumnSchema> := [];
    for i := 0 to count
      invariant reader.Valid() && TakeMany(start, i, take) == Some((columns, reader.Rest()))
    {
      OneTaken(start, i, count, take, columns, reader.Rest());
      var column := ReadColumn(reader, version);
      if column.None? {
        return None;
      }
      columns := columns + [column.value];
    }
    return Some(columns);
  }

  method ReadPageIds(reader: Serialization.Reader, count: nat) returns (r: Option<seq<PoolSpec.PageId>>)
    requires reader.Valid()
    modifies reader
    ensures reader.Valid()
    ensures match TakeMany(old(reader.Rest()), count, TakePageId)
            case None => r == None
            case Some(ps) => r == Some(ps.0) && reader.Rest() == ps.1
  {
    hide Decode;
    ghost var start := reader.Rest();
    var pages: seq<PoolSpec.PageId> := [];
    for i := 0 to count
      invariant reader.Valid() && TakeMany(start, i, TakePageId) == Some((pages, reader.Rest()))
    {
      OneTaken(start, i, count, TakePageId, pages, reader.Rest());
      FourBytes(reader.Rest());
      var id := reader.ReadInteger(4);
      if id.None? || id.value == CATALOG_PAGE {
        return None;
      }
      pages := pages + [id.value];
    }
    return Some(pages);
  }

  lemma FourBytes(b: seq<Byte>)
    ensures |b| >= 4 ==> Decode(b[..4]) <= MAX_U32
  {
    if |b| >= 4 {
      EncodeDecode(b[..4]);
      Widths();
    }
  }

  method ReadIndex(reader: Serialization.Reader) returns (r: Option<StoredIndex>)
    requires reader.Valid()
    modifies reader
    ensures reader.Valid()
    ensures match TakeIndex(old(reader.Rest())) case None => r == None case Some(i) => r == Some(i.0) && reader.Rest() == i.1
  {
    hide Decode, TakeName;
    var name := ReadName(reader);
    if name.None? {
      return None;
    }
    var column := ReadName(reader);
    if column.None? {
      return None;
    }
    var root := reader.ReadInteger(4);
    if root.None? || root.value == 0 {
      return None;
    }
    return Some(StoredIndex(name.value, column.value, if root.value == NO_ROOT then None else Some(root.value)));
  }

  method ReadIndexes(reader: Serialization.Reader, count: nat) returns (r: Option<seq<StoredIndex>>)
    requires reader.Valid()
    modifies reader
    ensures reader.Valid()
    ensures match TakeMany(old(reader.Rest()), count, TakeIndex)
            case None => r == None
            case Some(list) => r == Some(list.0) && reader.Rest() == list.1
  {
    hide TakeIndex;
    ghost var start := reader.Rest();
    var indexes: seq<StoredIndex> := [];
    for i := 0 to count
      invariant reader.Valid() && TakeMany(start, i, TakeIndex) == Some((indexes, reader.Rest()))
    {
      OneTaken(start, i, count, TakeIndex, indexes, reader.Rest());
      var index := ReadIndex(reader);
      if index.None? {
        return None;
      }
      indexes := indexes + [index.value];
    }
    return Some(indexes);
  }

  method ReadTable(reader: Serialization.Reader, version: nat) returns (r: Option<StoredTable>)
    requires reader.Valid()
    modifies reader
    ensures reader.Valid()
    ensures match TakeTable(old(reader.Rest()), version) case None => r == None case Some(t) => r == Some(t.0) && reader.Rest() == t.1
  {
    hide Decode, TakeName, TakeMany;
    var name := ReadName(reader);
    if name.None? {
      return None;
    }
    var columnCount := reader.ReadInteger(4);
    if columnCount.None? {
      return None;
    }
    var columns := ReadColumns(reader, columnCount.value, version);
    if columns.None? {
      return None;
    }
    var pageCount := reader.ReadInteger(4);
    if pageCount.None? {
      return None;
    }
    var pages := ReadPageIds(reader, pageCount.value);
    if pages.None? {
      return None;
    }
    var indexes: seq<StoredIndex> := [];
    if version >= 2 {
      var indexCount := reader.ReadInteger(4);
      if indexCount.None? {
        return None;
      }
      var found := ReadIndexes(reader, indexCount.value);
      if found.None? {
        return None;
      }
      indexes := found.value;
    }
    return Some(StoredTable(TableSchema(name.value, columns.value), pages.value, indexes));
  }

  method ReadTables(reader: Serialization.Reader, count: nat, version: nat) returns (r: Option<seq<StoredTable>>)
    requires reader.Valid()
    modifies reader
    ensures reader.Valid()
    ensures match TakeMany(old(reader.Rest()), count, (t: seq<Byte>) => TakeTable(t, version))
            case None => r == None
            case Some(ts) => r == Some(ts.0) && reader.Rest() == ts.1
  {
    hide TakeTable;
    ghost var start, take := reader.Rest(), (t: seq<Byte>) => TakeTable(t, version);
    var tables: seq<StoredTable> := [];
    for i := 0 to count
      invariant reader.Valid() && TakeMany(start, i, take) == Some((tables, reader.Rest()))
    {
      OneTaken(start, i, count, take, tables, reader.Rest());
      var table := ReadTable(reader, version);
      if table.None? {
        return None;
      }
      tables := tables + [table.value];
    }
    return Some(tables);
  }

  method Deserialize(bytes: seq<Byte>, version: nat) returns (r: Result<StoredCatalog, CatalogError>)
    ensures r == match DecodeCatalog(bytes, version) case None => Err(CorruptMetadata) case Some(c) => Ok(c)
  {
    hide Decode, TakeName, TakeTable, TakeMany;
    var reader := new Serialization.Reader(bytes);
    assert bytes[0..] == bytes;
    var name := ReadName(reader);
    if name.None? {
      return Err(CorruptMetadata);
    }
    var count := reader.ReadInteger(4);
    if count.None? {
      return Err(CorruptMetadata);
    }
    var tables := ReadTables(reader, count.value, version);
    if tables.None? || reader.Remaining() != 0 {
      return Err(CorruptMetadata);
    }
    return Ok(StoredCatalog(name.value, tables.value));
  }

  // ---------- The catalog page ----------

  // Writes the whole catalog over page 0, or nothing.
  method StoreCatalog(disk: BufferPool.DiskManager, catalog: StoredCatalog) returns (error: Option<CatalogError>)
    modifies disk
    ensures error == if |old(disk.pages)| == 0 then Some(CorruptMetadata)
                     else if !CatalogFits(catalog) then Some(MetadataTooLarge) else None
    ensures error.Some? ==> disk.pages == old(disk.pages)
    ensures error.None? ==> disk.pages == old(disk.pages)[CATALOG_PAGE := CatalogPage(catalog)]
  {
    hide Encode, TableFits, EncodeCatalog;
    if |disk.pages| == 0 {
      return Some(CorruptMetadata);
    }
    var serialized := Serialize(catalog);
    if serialized.Err? {
      return Some(serialized.error);
    }
    var payload := serialized.value;
    var page := Serialization.AppendInteger(MAGIC, FORMAT_VERSION, 4);
    page := Serialization.AppendInteger(page, |payload|, 4);
    page := page + payload + Zeros(PAGE_SIZE - HEADER_SIZE - |payload|);
    var failed := disk.WritePage(CATALOG_PAGE, page);
    return if failed.Some? then Some(DiskFailure) else None;
  }

  method LoadCatalog(disk: BufferPool.DiskManager) returns (r: Result<StoredCatalog, CatalogError>)
    ensures r == if |disk.pages| == 0 then Err(DiskFailure) else DecodePage(disk.pages[CATALOG_PAGE])
  {
    hide Decode, DecodeCatalog;
    var read := disk.ReadPage(CATALOG_PAGE);
    if read.Err? {
      return Err(DiskFailure);
    }
    var page := read.value;
    if page[..8] != MAGIC {
      return Err(InvalidMagic);
    }
    var header := new Serialization.Reader(page[8..16]);
    HeaderFields(page);
    var version := header.ReadInteger(4);
    var size := header.ReadInteger(4);
    if version.None? || size.None? {
      return Err(CorruptMetadata);
    }
    if version.value < 1 || version.value > FORMAT_VERSION {
      return Err(UnsupportedVersion);
    }
    if size.value > PAGE_SIZE - HEADER_SIZE {
      return Err(CorruptMetadata);
    }
    r := Deserialize(page[HEADER_SIZE..HEADER_SIZE + size.value], version.value);
  }

  lemma HeaderFields(page: Page)
    ensures var h := page[8..16]; h[0..] == h && h[..4] == page[8..12] && h[4..][..4] == page[12..16] && |h[4..]| == 4
  {}

  // A new database: page 0 is allocated and written.
  method InitializeCatalog(disk: BufferPool.DiskManager, catalog: StoredCatalog) returns (error: Option<CatalogError>)
    modifies disk
    ensures error == if |old(disk.pages)| != 0 then Some(DatabaseNotEmpty)
                     else if !CatalogFits(catalog) then Some(MetadataTooLarge) else None
    ensures error.Some? ==> disk.pages == old(disk.pages)
    ensures error.None? ==> disk.pages == [CatalogPage(catalog)]
  {
    hide CatalogFits, EncodeCatalog, CatalogPage;
    FitsAPage(catalog);
    if |disk.pages| != 0 {
      return Some(DatabaseNotEmpty);
    }
    var serialized := Serialize(catalog);
    if serialized.Err? {
      return Some(serialized.error);
    }
    var allocation := disk.AllocatePage();
    match allocation {
      case Err(_) => return Some(DiskFailure);
      case Ok(_) =>
    }
    if allocation.value != CATALOG_PAGE {
      return Some(DiskFailure);
    }
    error := StoreCatalog(disk, catalog);
  }

  lemma FitsAPage(catalog: StoredCatalog)
    ensures CatalogFits(catalog) ==> |EncodeCatalog(catalog)| <= PAGE_SIZE - HEADER_SIZE
  {}
}
