// The catalog as bytes: a list of tables, each with its columns, heap pages and indexes.
module CatalogFormat {
  import opened Bytes
  import opened Results
  import opened Seqs
  import opened Values
  import opened Schema
  import PoolSpec

  const NO_ROOT: nat := 0xFFFF_FFFF
  const CATALOG_PAGE: nat := 0
  const FORMAT_VERSION: nat := 3
  const MAGIC: seq<Byte> := [67, 85, 82, 73, 79, 68, 66, 67]
  const HEADER_SIZE: nat := 16

  // ---------- Lists of anything ----------

  ghost function Concat<T>(xs: seq<T>, encode: T -> seq<Byte>): seq<Byte> {
    if xs == [] then [] else encode(xs[0]) + Concat(xs[1..], encode)
  }

  type Taking<T> = seq<Byte> -> Option<(T, seq<Byte>)>

  ghost function TakeMany<T>(b: seq<Byte>, n: nat, take: Taking<T>): Option<(seq<T>, seq<Byte>)>
    decreases n
  {
    if n == 0 then Some(([], b))
    else
      match take(b)
      case None => None
      case Some(first) =>
        match TakeMany(first.1, n - 1, take)
        case None => None
        case Some(rest) => Some(([first.0] + rest.0, rest.1))
  }

  // If every item can be read back, so can the list.
  lemma {:induction false} ManyRoundTrip<T(!new)>(xs: seq<T>, encode: T -> seq<Byte>, take: Taking<T>, rest: seq<Byte>)
    requires forall i, more :: 0 <= i < |xs| ==> take(encode(xs[i]) + more) == Some((xs[i], more))
    ensures TakeMany(Concat(xs, encode) + rest, |xs|, take) == Some((xs, rest))
  {
    if xs == [] {
      assert Concat(xs, encode) + rest == rest;
    } else {
      var tail := Concat(xs[1..], encode) + rest;
      assert Concat(xs, encode) + rest == encode(xs[0]) + tail;
      forall i, more | 0 <= i < |xs[1..]|
        ensures take(encode(xs[1..][i]) + more) == Some((xs[1..][i], more))
      {
        assert xs[1..][i] == xs[i + 1];
      }
      ManyRoundTrip(xs[1..], encode, take, rest);
      assert [xs[0]] + xs[1..] == xs;
    }
  }

  lemma {:induction false} ConcatSnoc<T>(xs: seq<T>, i: nat, encode: T -> seq<Byte>)
    requires i < |xs|
    ensures Concat(xs[..i + 1], encode) == Concat(xs[..i], encode) + encode(xs[i])
  {
    if i == 0 {
      assert xs[..1][1..] == [];
      assert Concat(xs[..1], encode) == encode(xs[0]) + Concat<T>([], encode);
    } else {
      ConcatSnoc(xs[1..], i - 1, encode);
      assert xs[..i + 1][1..] == xs[1..][..i] && xs[..i][1..] == xs[1..][..i - 1];
      Assoc(encode(xs[0]), Concat(xs[1..][..i - 1], encode), encode(xs[i]));
    }
  }

  // Reading n items is reading i of them and then the others.
  lemma {:induction false} TakeManySplit<T>(b: seq<Byte>, i: nat, n: nat, take: Taking<T>)
    requires i <= n && TakeMany(b, i, take).Some?
    ensures var done := TakeMany(b, i, take).value;
      TakeMany(b, n, take) ==
        match TakeMany(done.1, n - i, take)
        case None => None
        case Some(rest) => Some((done.0 + rest.0, rest.1))
    decreases i
  {
    if i == 0 {
      if TakeMany(b, n, take).Some? {
        assert [] + TakeMany(b, n, take).value.0 == TakeMany(b, n, take).value.0;
      }
    } else {
      var first := take(b).value;
      TakeManySplit(first.1, i - 1, n - 1, take);
      var some := TakeMany(first.1, i - 1, take).value;
      var more := TakeMany(some.1, n - i, take);
      if more.Some? {
        assert [first.0] + (some.0 + more.value.0) == ([first.0] + some.0) + more.value.0;
      }
    }
  }

  // ---------- The format ----------

  ghost function EncodeName(n: Name): seq<Byte> {
    Encode(|n|, 4) + n
  }

  function KindByte(k: Kind): Byte {
    match k
    case IntegerKind => 0
    case DoubleKind => 1
    case VarcharKind => 2
  }

  function LengthOf(c: ColumnSchema): nat {
    match c.dataType.length
    case None => 0
    case Some(n) => n
  }

  function Flags(c: ColumnSchema): Byte {
    (if c.primaryKey then 1 else 0) + (if c.unique then 2 else 0) + (if c.notNull then 4 else 0)
  }

  function RootOf(i: StoredIndex): nat {
    match i.root
    case None => NO_ROOT
    case Some(id) => id
  }

  ghost function EncodeColumn(c: ColumnSchema): seq<Byte> {
    EncodeName(c.name) + ([KindByte(c.dataType.kind)] + (Encode(LengthOf(c), 4) + [Flags(c)]))
  }

  ghost function EncodePageId(id: PoolSpec.PageId): seq<Byte> {
    Encode(id, 4)
  }

  ghost function EncodeIndex(i: StoredIndex): seq<Byte> {
    EncodeName(i.name) + (EncodeName(i.columnName) + Encode(RootOf(i), 4))
  }

  // A list with its length in front.
  ghost function EncodeList<T>(xs: seq<T>, encode: T -> seq<Byte>): seq<Byte> {
    Encode(|xs|, 4) + Concat(xs, encode)
  }

  ghost function EncodeTable(t: StoredTable): seq<Byte> {
    EncodeName(t.schema.name) +
      (EncodeList(t.schema.columns, EncodeColumn) + (EncodeList(t.pageIds, EncodePageId) + EncodeList(t.indexes, EncodeIndex)))
  }

  ghost function EncodeCatalog(c: StoredCatalog): seq<Byte> {
    EncodeName(c.databaseName) + EncodeList(c.tables, EncodeTable)
  }

  // ---------- What serialize refuses ----------

  ghost predicate ColumnFits(c: ColumnSchema) {
    |c.name| <= MAX_U32 && LengthOf(c) <= MAX_U32
  }

  ghost predicate IndexFits(i: StoredIndex) {
    |i.name| <= MAX_U32 && |i.columnName| <= MAX_U32
  }

  ghost predicate TableFits(t: StoredTable) {
    && |t.schema.name| <= MAX_U32 && |t.schema.columns| <= MAX_U32 && |t.pageIds| <= MAX_U32 && |t.indexes| <= MAX_U32
    && (forall i :: 0 <= i < |t.schema.columns| ==> ColumnFits(t.schema.columns[i]))
    && (forall i :: 0 <= i < |t.indexes| ==> IndexFits(t.indexes[i]))
  }

  ghost predicate CatalogFits(c: StoredCatalog) {
    && |c.tables| <= MAX_U32 && |c.databaseName| <= MAX_U32
    && (forall i :: 0 <= i < |c.tables| ==> TableFits(c.tables[i]))
    && |EncodeCatalog(c)| <= PAGE_SIZE - HEADER_SIZE
  }

  // ---------- What the size depends on ----------

  // A list of pages with so many more; which ones makes no difference to the size of the catalog.
  ghost function Lengthened(pages: seq<PoolSpec.PageId>, more: nat): (longer: seq<PoolSpec.PageId>)
    ensures |longer| == |pages| + more
  {
    pages + seq(more, _ => 0)
  }

  // The same table but for the ids of its heap pages and of its index roots.
  ghost predicate SameOutline(a: StoredTable, b: StoredTable) {
    && a.schema == b.schema && |a.pageIds| == |b.pageIds| && |a.indexes| == |b.indexes|
    && forall i :: 0 <= i < |a.indexes| ==> b.indexes[i] == a.indexes[i].(root := b.indexes[i].root)
  }

  lemma {:induction false} ConcatSize<T>(xs: seq<T>, ys: seq<T>, encode: T -> seq<Byte>)
    requires |xs| == |ys| && forall i :: 0 <= i < |xs| ==> |encode(xs[i])| == |encode(ys[i])|
    ensures |Concat(xs, encode)| == |Concat(ys, encode)|
  {
    if xs != [] {
      forall i | 0 <= i < |xs[1..]|
        ensures |encode(xs[1..][i])| == |encode(ys[1..][i])|
      {
        assert xs[1..][i] == xs[i + 1] && ys[1..][i] == ys[i + 1];
      }
      ConcatSize(xs[1..], ys[1..], encode);
    }
  }

  lemma TableSize(a: StoredTable, b: StoredTable)
    requires SameOutline(a, b)
    ensures |EncodeTable(a)| == |EncodeTable(b)| && (TableFits(a) <==> TableFits(b))
  {
    hide EncodeColumn, EncodeName, ColumnFits;
    forall i | 0 <= i < |a.pageIds|
      ensures |EncodePageId(a.pageIds[i])| == |EncodePageId(b.pageIds[i])|
    {
    }
    ConcatSize(a.pageIds, b.pageIds, EncodePageId);
    forall i | 0 <= i < |a.indexes|
      ensures |EncodeIndex(a.indexes[i])| == |EncodeIndex(b.indexes[i])| && (IndexFits(a.indexes[i]) <==> IndexFits(b.indexes[i]))
    {
      assert b.indexes[i] == a.indexes[i].(root := b.indexes[i].root);
    }
    ConcatSize(a.indexes, b.indexes, EncodeIndex);
  }

  lemma CatalogSize(name: Name, tables: seq<StoredTable>, t: nat, a: StoredTable, b: StoredTable)
    requires t < |tables| && SameOutline(a, b)
    ensures CatalogFits(StoredCatalog(name, tables[t := a])) <==> CatalogFits(StoredCatalog(name, tables[t := b]))
  {
    hide EncodeTable, EncodeName, TableFits, SameOutline;
    TableSize(a, b);
    var xs, ys := tables[t := a], tables[t := b];
    forall i | 0 <= i < |xs|
      ensures |EncodeTable(xs[i])| == |EncodeTable(ys[i])| && (TableFits(xs[i]) <==> TableFits(ys[i]))
    {
      assert i != t ==> xs[i] == ys[i];
    }
    ConcatSize(xs, ys, EncodeTable);
  }

  lemma {:induction false} PagesSize(pages: seq<PoolSpec.PageId>)
    ensures |Concat(pages, EncodePageId)| == 4 * |pages|
  {
    if pages != [] {
      PagesSize(pages[1..]);
    }
  }

  // Each page more takes four bytes.
  lemma LongerTable(table: StoredTable, more: nat)
    ensures var longer := table.(pageIds := Lengthened(table.pageIds, more));
      && |EncodeTable(longer)| == |EncodeTable(table)| + 4 * more
      && |EncodeTable(table)| >= 4 * |table.pageIds|
      && (TableFits(longer) <==> TableFits(table) && |longer.pageIds| <= MAX_U32)
  {
    hide EncodeColumn, EncodeIndex, EncodeName, ColumnFits, IndexFits, Lengthened;
    PagesSize(table.pageIds);
    PagesSize(Lengthened(table.pageIds, more));
  }

  lemma {:induction false} ConcatChanged<T>(xs: seq<T>, t: nat, x: T, encode: T -> seq<Byte>)
    requires t < |xs|
    ensures |Concat(xs[t := x], encode)| == |Concat(xs, encode)| - |encode(xs[t])| + |encode(x)|
    ensures |Concat(xs, encode)| >= |encode(xs[t])|
  {
    if t > 0 {
      ConcatChanged(xs[1..], t - 1, x, encode);
      assert xs[t := x][1..] == xs[1..][t - 1 := x];
    } else {
      assert xs[t := x][1..] == xs[1..];
    }
  }

  // The catalog once one of its tables has so many heap pages more.
  ghost function WithPages(c: StoredCatalog, t: nat, more: nat): StoredCatalog
    requires t < |c.tables|
  {
    StoredCatalog(c.databaseName, c.tables[t := c.tables[t].(pageIds := Lengthened(c.tables[t].pageIds, more))])
  }

  // It still fits exactly when there are four bytes left for each.
  lemma PagesFit(c: StoredCatalog, t: nat, more: nat)
    requires t < |c.tables| && CatalogFits(c)
    ensures CatalogFits(WithPages(c, t, more)) <==> |EncodeCatalog(c)| + 4 * more <= PAGE_SIZE - HEADER_SIZE
  {
    hide EncodeTable, EncodeName, TableFits, Lengthened;
    var longer := c.tables[t].(pageIds := Lengthened(c.tables[t].pageIds, more));
    LongerTable(c.tables[t], more);
    ConcatChanged(c.tables, t, longer, EncodeTable);
    var after := c.tables[t := longer];
    assert after[t] == longer && forall i :: 0 <= i < |c.tables| && i != t ==> after[i] == c.tables[i];
  }

  // A catalog that fills its page, and no longer fits when its one table gets its first page.
  lemma FullCatalog(column: ColumnSchema)
    requires ColumnFits(column) && |column.name| == PAGE_SIZE - HEADER_SIZE - 36
    ensures var c := StoredCatalog([98], [StoredTable(TableSchema([97], [column]), [], [])]);
      CatalogFits(c) && !CatalogFits(WithPages(c, 0, 1))
  {
    hide WithPages, ColumnFits;
    var table := StoredTable(TableSchema([97], [column]), [], []);
    assert Concat([column], EncodeColumn) == EncodeColumn(column) + Concat([], EncodeColumn);
    assert Concat([table], EncodeTable) == EncodeTable(table) + Concat([], EncodeTable);
    assert |EncodeColumn(column)| == |column.name| + 10;
    assert |EncodeCatalog(StoredCatalog([98], [table]))| == PAGE_SIZE - HEADER_SIZE;
    PagesFit(StoredCatalog([98], [table]), 0, 1);
  }

  // Which pages are added, and where the roots of the indexes are, makes no difference.
  lemma AnyPages(c: StoredCatalog, t: nat, more: nat, now: StoredTable)
    requires t < |c.tables| && SameOutline(c.tables[t].(pageIds := Lengthened(c.tables[t].pageIds, more)), now)
    ensures CatalogFits(WithPages(c, t, more)) <==> CatalogFits(StoredCatalog(c.databaseName, c.tables[t := now]))
  {
    hide CatalogFits, SameOutline, Lengthened;
    CatalogSize(c.databaseName, c.tables, t, c.tables[t].(pageIds := Lengthened(c.tables[t].pageIds, more)), now);
  }

  // ---------- What deserialize insists on ----------

  ghost predicate ColumnSensible(c: ColumnSchema) {
    if c.dataType.kind == VarcharKind then c.dataType.length.Some? && c.dataType.length.value > 0 else c.dataType.length.None?
  }

  ghost predicate IndexSensible(i: StoredIndex) {
    i.root.Some? ==> 0 < i.root.value < NO_ROOT
  }

  ghost predicate TableSensible(t: StoredTable) {
    && (forall i :: 0 <= i < |t.schema.columns| ==> ColumnSensible(t.schema.columns[i]))
    && (forall i :: 0 <= i < |t.pageIds| ==> t.pageIds[i] != CATALOG_PAGE)
    && (forall i :: 0 <= i < |t.indexes| ==> IndexSensible(t.indexes[i]))
  }

  ghost predicate CatalogSensible(c: StoredCatalog) {
    forall i :: 0 <= i < |c.tables| ==> TableSensible(c.tables[i])
  }

  // ---------- Reading it back ----------

  ghost function TakeInteger(b: seq<Byte>, width: nat): Option<(nat, seq<Byte>)> {
    if |b| < width then None else Some((Decode(b[..width]), b[width..]))
  }

  ghost function TakeName(b: seq<Byte>): Option<(Name, seq<Byte>)> {
    match TakeInteger(b, 4)
    case None => None
    case Some(size) => if |size.1| < size.0 then None else Some((size.1[..size.0], size.1[size.0..]))
  }

  ghost function TakeList<T>(b: seq<Byte>, take: Taking<T>): Option<(seq<T>, seq<Byte>)> {
    match TakeInteger(b, 4)
    case None => None
    case Some(count) => TakeMany(count.1, count.0, take)
  }

  function KindOfByte(k: nat): Kind {
    if k == 0 then IntegerKind else if k == 1 then DoubleKind else VarcharKind
  }

  function LengthOfField(kind: Kind, length: nat): Option<nat> {
    if kind == VarcharKind then Some(length) else None
  }

  function ColumnOfFields(name: Name, kind: nat, length: nat, flags: nat): ColumnSchema {
    ColumnSchema(name, DataType(KindOfByte(kind), LengthOfField(KindOfByte(kind), length)),
                 flags % 2 == 1, flags / 2 % 2 == 1, flags / 4 % 2 == 1)
  }

  // Constraints came with version 3 of the format, indexes with version 2.
  ghost function TakeColumn(b: seq<Byte>, version: nat): Option<(ColumnSchema, seq<Byte>)> {
    match TakeName(b)
    case None => None
    case Some(name) =>
      match TakeInteger(name.1, 1)
      case None => None
      case Some(kind) =>
        match TakeInteger(kind.1, 4)
        case None => None
        case Some(length) =>
          if kind.0 > 2 || (kind.0 == 2 && length.0 == 0) || (kind.0 != 2 && length.0 != 0) then None
          else if version < 3 then Some((ColumnOfFields(name.0, kind.0, length.0, 0), length.1))
          else
            match TakeInteger(length.1, 1)
            case None => None
            case Some(flags) =>
              if flags.0 > 7 then None else Some((ColumnOfFields(name.0, kind.0, length.0, flags.0), flags.1))
  }

  ghost function TakePageId(b: seq<Byte>): Option<(PoolSpec.PageId, seq<Byte>)> {
    match TakeInteger(b, 4)
    case None => None
    case Some(id) => if id.0 == CATALOG_PAGE || id.0 > MAX_U32 then None else Some((id.0, id.1))
  }

  ghost function TakeIndex(b: seq<Byte>): Option<(StoredIndex, seq<Byte>)> {
    match TakeName(b)
    case None => None
    case Some(name) =>
      match TakeName(name.1)
      case None => None
      case Some(column) =>
        match TakeInteger(column.1, 4)
        case None => None
        case Some(root) =>
          if root.0 == 0 then None
          else Some((StoredIndex(name.0, column.0, if root.0 == NO_ROOT then None else Some(root.0)), root.1))
  }

  ghost function TakeTable(b: seq<Byte>, version: nat): Option<(StoredTable, seq<Byte>)> {
    match TakeName(b)
    case None => None
    case Some(name) =>
      match TakeList(name.1, (c: seq<Byte>) => TakeColumn(c, version))
      case None => None
      case Some(columns) =>
        match TakeList(columns.1, TakePageId)
        case None => None
        case Some(pages) =>
          if version < 2 then Some((StoredTable(TableSchema(name.0, columns.0), pages.0, []), pages.1))
          else
            match TakeList(pages.1, TakeIndex)
            case None => None
            case Some(indexes) => Some((StoredTable(TableSchema(name.0, columns.0), pages.0, indexes.0), indexes.1))
  }

  ghost function DecodeCatalog(b: seq<Byte>, version: nat): Option<StoredCatalog> {
    match TakeName(b)
    case None => None
    case Some(name) =>
      match TakeList(name.1, (t: seq<Byte>) => TakeTable(t, version))
      case None => None
      case Some(tables) => if tables.1 == [] then Some(StoredCatalog(name.0, tables.0)) else None
  }

  // ---------- The round trip ----------

  lemma IntegerBack(n: nat, width: nat, rest: seq<Byte>)
    requires n < Pow256(width)
    ensures TakeInteger(Encode(n, width) + rest, width) == Some((n, rest))
  {
    DecodeEncode(n, width);
    var b := Encode(n, width) + rest;
    assert b[..width] == Encode(n, width) && b[width..] == rest;
  }

  lemma ByteBack(n: Byte, rest: seq<Byte>)
    ensures TakeInteger([n] + rest, 1) == Some((n, rest))
  {
    var b := [n] + rest;
    assert b[..1] == [n] && b[1..] == rest && [n][1..] == [];
    assert Decode([n]) == n + 256 * Decode([]);
  }

  lemma NameBack(n: Name, rest: seq<Byte>)
    requires |n| <= MAX_U32
    ensures TakeName(EncodeName(n) + rest) == Some((n, rest))
  {
    hide Encode, TakeInteger;
    Widths();
    Assoc(Encode(|n|, 4), n, rest);
    IntegerBack(|n|, 4, n + rest);
    assert (n + rest)[..|n|] == n && (n + rest)[|n|..] == rest;
  }

  lemma ListBack<T(!new)>(xs: seq<T>, encode: T -> seq<Byte>, take: Taking<T>, rest: seq<Byte>)
    requires |xs| <= MAX_U32
    requires forall i, more :: 0 <= i < |xs| ==> take(encode(xs[i]) + more) == Some((xs[i], more))
    ensures TakeList(EncodeList(xs, encode) + rest, take) == Some((xs, rest))
  {
    hide Encode, TakeInteger, TakeMany, Concat;
    Widths();
    Assoc(Encode(|xs|, 4), Concat(xs, encode), rest);
    IntegerBack(|xs|, 4, Concat(xs, encode) + rest);
    ManyRoundTrip(xs, encode, take, rest);
  }

  lemma FieldsBack(c: ColumnSchema)
    requires ColumnSensible(c)
    ensures ColumnOfFields(c.name, KindByte(c.dataType.kind), LengthOf(c), Flags(c)) == c
    ensures KindByte(c.dataType.kind) == 2 <==> LengthOf(c) != 0
    ensures Flags(c) <= 7
  {}

  lemma ColumnBack(c: ColumnSchema, rest: seq<Byte>)
    requires ColumnFits(c) && ColumnSensible(c)
    ensures TakeColumn(EncodeColumn(c) + rest, FORMAT_VERSION) == Some((c, rest))
  {
    hide Encode, TakeInteger, TakeName, EncodeName, ColumnOfFields, KindByte, Flags, LengthOf;
    Widths();
    FieldsBack(c);
    var flags, length, kind := [Flags(c)] + rest, Encode(LengthOf(c), 4), [KindByte(c.dataType.kind)];
    Assoc(length, [Flags(c)], rest);
    Assoc(kind, length + [Flags(c)], rest);
    Assoc(EncodeName(c.name), kind + (length + [Flags(c)]), rest);
    NameBack(c.name, kind + (length + flags));
    ByteBack(KindByte(c.dataType.kind), length + flags);
    SmallLength(c);
    IntegerBack(LengthOf(c), 4, flags);
    ByteBack(Flags(c), rest);
  }

  lemma SmallLength(c: ColumnSchema)
    requires ColumnFits(c)
    ensures LengthOf(c) < Pow256(4) && KindByte(c.dataType.kind) <= 2
  {
    Widths();
  }

  lemma PageIdBack(id: PoolSpec.PageId, rest: seq<Byte>)
    requires id != CATALOG_PAGE
    ensures TakePageId(EncodePageId(id) + rest) == Some((id, rest))
  {
    hide Encode, TakeInteger;
    Widths();
    IntegerBack(id, 4, rest);
  }

  lemma IndexBack(i: StoredIndex, rest: seq<Byte>)
    requires IndexFits(i) && IndexSensible(i)
    ensures TakeIndex(EncodeIndex(i) + rest) == Some((i, rest))
  {
    hide Encode, TakeInteger, TakeName, EncodeName;
    Widths();
    var root := Encode(RootOf(i), 4);
    Assoc(EncodeName(i.columnName), root, rest);
    Assoc(EncodeName(i.name), EncodeName(i.columnName) + root, rest);
    NameBack(i.name, EncodeName(i.columnName) + (root + rest));
    NameBack(i.columnName, root + rest);
    IntegerBack(RootOf(i), 4, rest);
  }

  lemma TableBack(t: StoredTable, rest: seq<Byte>)
    requires TableFits(t) && TableSensible(t)
    ensures TakeTable(EncodeTable(t) + rest, FORMAT_VERSION) == Some((t, rest))
  {
    hide Encode, TakeInteger, TakeName, EncodeName, TakeList, EncodeList, TakeColumn, EncodeColumn, TakePageId, EncodePageId, TakeIndex,
         EncodeIndex, ColumnFits, IndexFits, ColumnSensible, IndexSensible;
    var takeColumn := (c: seq<Byte>) => TakeColumn(c, FORMAT_VERSION);
    var name, columns, pages, indexes := EncodeName(t.schema.name), EncodeList(t.schema.columns, EncodeColumn), EncodeList(t.pageIds, EncodePageId), EncodeList(t.indexes, EncodeIndex);
    Assoc(pages, indexes, rest);
    Assoc(columns, pages + indexes, rest);
    Assoc(name, columns + (pages + indexes), rest);
    NameBack(t.schema.name, columns + (pages + (indexes + rest)));
    forall i, more | 0 <= i < |t.schema.columns|
      ensures takeColumn(EncodeColumn(t.schema.columns[i]) + more) == Some((t.schema.columns[i], more))
    {
      ColumnBack(t.schema.columns[i], more);
    }
    ListBack(t.schema.columns, EncodeColumn, takeColumn, pages + (indexes + rest));
    forall i, more | 0 <= i < |t.pageIds|
      ensures TakePageId(EncodePageId(t.pageIds[i]) + more) == Some((t.pageIds[i], more))
    {
      PageIdBack(t.pageIds[i], more);
    }
    ListBack(t.pageIds, EncodePageId, TakePageId, indexes + rest);
    forall i, more | 0 <= i < |t.indexes|
      ensures TakeIndex(EncodeIndex(t.indexes[i]) + more) == Some((t.indexes[i], more))
    {
      IndexBack(t.indexes[i], more);
    }
    ListBack(t.indexes, EncodeIndex, TakeIndex, rest);
  }

  // A catalog that fits and makes sense is read back as it was written.
  lemma CatalogBack(c: StoredCatalog)
    requires CatalogFits(c) && CatalogSensible(c)
    ensures DecodeCatalog(EncodeCatalog(c), FORMAT_VERSION) == Some(c)
  {
    hide Encode, TakeInteger, TakeName, EncodeName, TakeList, EncodeList, TakeTable, EncodeTable, TableFits, TableSensible;
    var takeTable := (t: seq<Byte>) => TakeTable(t, FORMAT_VERSION);
    var tables := EncodeList(c.tables, EncodeTable);
    NameBack(c.databaseName, tables);
    forall i, more | 0 <= i < |c.tables|
      ensures takeTable(EncodeTable(c.tables[i]) + more) == Some((c.tables[i], more))
    {
      TableBack(c.tables[i], more);
    }
    ListBack(c.tables, EncodeTable, takeTable, []);
    assert tables + [] == tables;
  }

  // ---------- Page 0 ----------

  ghost function CatalogPage(c: StoredCatalog): Page
    requires |EncodeCatalog(c)| <= PAGE_SIZE - HEADER_SIZE
  {
    var payload := EncodeCatalog(c);
    MAGIC + Encode(FORMAT_VERSION, 4) + Encode(|payload|, 4) + payload + Zeros(PAGE_SIZE - HEADER_SIZE - |payload|)
  }

  datatype CatalogError = DiskFailure | DatabaseNotEmpty | MetadataTooLarge | InvalidMagic | UnsupportedVersion | CorruptMetadata

  ghost function DecodePage(p: Page): Result<StoredCatalog, CatalogError> {
    var version, size := Decode(p[8..12]), Decode(p[12..16]);
    if p[..8] != MAGIC then Err(InvalidMagic)
    else if version < 1 || version > FORMAT_VERSION then Err(UnsupportedVersion)
    else if size > PAGE_SIZE - HEADER_SIZE then Err(CorruptMetadata)
    else
      match DecodeCatalog(p[HEADER_SIZE..HEADER_SIZE + size], version)
      case None => Err(CorruptMetadata)
      case Some(c) => Ok(c)
  }

  // load_catalog inverts store_catalog.
  lemma PageBack(c: StoredCatalog)
    requires CatalogFits(c) && CatalogSensible(c)
    ensures DecodePage(CatalogPage(c)) == Ok(c)
  {
    hide EncodeCatalog, DecodeCatalog, CatalogSensible, Encode, Decode, TableFits;
    var p, payload := CatalogPage(c), EncodeCatalog(c);
    Widths();
    DecodeEncode(FORMAT_VERSION, 4);
    DecodeEncode(|payload|, 4);
    CatalogBack(c);
    PageParts(MAGIC, Encode(FORMAT_VERSION, 4), Encode(|payload|, 4), payload, Zeros(PAGE_SIZE - HEADER_SIZE - |payload|));
  }

  lemma PageParts(a: seq<Byte>, b: seq<Byte>, c: seq<Byte>, d: seq<Byte>, e: seq<Byte>)
    requires |a| == 8 && |b| == 4 && |c| == 4
    ensures var p := a + b + c + d + e;
      p[..8] == a && p[8..12] == b && p[12..16] == c && p[16..16 + |d|] == d
  {}
}
