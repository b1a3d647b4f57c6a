// Every on-disk format written out byte by byte, with the numbers in place of their names.
module Formats {
  import opened Bytes
  import opened Results
  import opened Values
  import opened Schema
  import opened TreeSpec
  import CatalogFormat
  import NodePage
  import Serialization
  import SlottedPage

  // ---------- Integers ----------

  // Byte k of an integer, counted from the least significant.
  ghost function ByteOf(n: nat, k: nat): Byte {
    n / Pow256(k) % 256
  }

  ghost predicate IsLittleEndian(s: seq<Byte>, n: nat) {
    forall k :: 0 <= k < |s| ==> s[k] == ByteOf(n, k)
  }

  lemma {:induction false} EncodeIs(n: nat, width: nat)
    ensures IsLittleEndian(Encode(n, width), n)
  {
    forall k | 0 <= k < width
      ensures Encode(n, width)[k] == ByteOf(n, k)
    {
      if k > 0 {
        EncodeIs(n / 256, width - 1);
        assert Encode(n, width)[k] == Encode(n / 256, width - 1)[k - 1] == ByteOf(n / 256, k - 1);
        DivideTwice(n, Pow256(k - 1));
      }
    }
  }

  lemma MulAtMost(a: nat, x: nat, y: nat)
    requires x <= y
    ensures a * x <= a * y
  {}

  lemma MulAssoc(a: nat, b: nat, x: nat)
    ensures a * (b * x) == (a * b) * x
  {}

  lemma QuotientIs(n: nat, d: nat, q: nat)
    requires d > 0 && d * q <= n < d * (q + 1)
    ensures n / d == q
  {
    var k := n / d;
    assert d * k <= n < d * (k + 1);
    if k < q {
      MulAtMost(d, k + 1, q);
    } else if q < k {
      MulAtMost(d, q + 1, k);
    }
  }

  lemma DivideTwice(n: nat, b: nat)
    requires b > 0
    ensures n / 256 / b == n / (256 * b)
  {
    BetweenMultiples(n / 256, b);
    var q := n / 256 / b;
    MulAssoc(256, b, q);
    MulAssoc(256, b, q + 1);
    QuotientIs(n, 256 * b, q);
  }

  lemma BetweenMultiples(n: nat, a: nat)
    requires a > 0
    ensures a * (n / a) <= n < a * (n / a + 1)
  {}

  // Two's complement.
  lemma BitsAre(k: I64)
    ensures ToBits(k) == k % 0x1_0000_0000_0000_0000
  {}

  // ---------- Rows ----------

  // A tag, then eight bytes, or four bytes for the length and the text.
  lemma ValueBytes(v: Value)
    requires Serialization.ValueFits(v)
    ensures var b := Serialization.EncodeValue(v);
      match v
      case Null => b == [0]
      case Integer(i) => |b| == 9 && b[0] == 1 && IsLittleEndian(b[1..], i % 0x1_0000_0000_0000_0000)
      case Double(bits) => |b| == 9 && b[0] == 2 && IsLittleEndian(b[1..], bits)
      case Varchar(text) => |b| == 5 + |text| && b[0] == 3 && IsLittleEndian(b[1..5], |text|) && b[5..] == text
  {
    hide Encode, IsLittleEndian;
    var b := Serialization.EncodeValue(v);
    match v
    case Null =>
    case Integer(i) =>
      EncodeIs(ToBits(i), 8);
      BitsAre(i);
      assert b[1..] == Encode(ToBits(i), 8);
    case Double(bits) =>
      EncodeIs(bits, 8);
      assert b[1..] == Encode(bits, 8);
    case Varchar(text) =>
      EncodeIs(|text|, 4);
      assert b[1..5] == Encode(|text|, 4);
  }

  // The number of values, then the values in order.
  lemma {:induction false} ValuesInOrder(row: Row, i: nat)
    requires i < |row|
    ensures Serialization.EncodeValues(row) ==
      Serialization.EncodeValues(row[..i]) + Serialization.EncodeValue(row[i]) + Serialization.EncodeValues(row[i + 1..])
  {
    hide Serialization.EncodeValue;
    if i == 0 {
      assert row[..0] == [];
    } else {
      ValuesInOrder(row[1..], i - 1);
      assert row[1..][..i - 1] == row[..i][1..] && row[1..][i..] == row[i + 1..];
    }
  }

  lemma RowBytes(row: Row, i: nat)
    requires Serialization.RowFits(row) && i < |row|
    ensures var b := Serialization.EncodeRow(row);
      && |b| >= 4 && IsLittleEndian(b[..4], |row|)
      && b[4..] == Serialization.EncodeValues(row[..i]) + Serialization.EncodeValue(row[i]) + Serialization.EncodeValues(row[i + 1..])
  {
    hide Encode, IsLittleEndian, Serialization.EncodeValue, Serialization.EncodeValues;
    ValuesInOrder(row, i);
    EncodeIs(|row|, 4);
    assert Serialization.EncodeRow(row)[..4] == Encode(|row|, 4);
  }

  // ---------- Bytes that are no row ----------

  ghost predicate AllFit(row: Row) {
    forall i :: 0 <= i < |row| ==> Serialization.ValueFits(row[i])
  }

  // After these values comes a byte that is no tag.
  ghost predicate NoTagAfter(b: seq<Byte>, values: Row) {
    && AllFit(values) && |Serialization.EncodeValues(values)| < |b|
    && b[..|Serialization.EncodeValues(values)|] == Serialization.EncodeValues(values) && b[|Serialization.EncodeValues(values)|] > 3
  }

  lemma {:induction false} TagSound(b: seq<Byte>, count: nat) returns (values: Row)
    requires Serialization.DecodeValues(b, count) == Result.Err(Serialization.InvalidTypeTag)
    ensures |values| < count && NoTagAfter(b, values)
    decreases count
  {
    hide Serialization.EncodeValue;
    if Serialization.DecodeValue(b).Err? {
      NoTag(b);
      values := [];
    } else {
      var (v, rest) := Serialization.DecodeValue(b).value;
      var more := TagSound(rest, count - 1);
      Serialization.ValueCanonical(b);
      values := [v] + more;
      TagBehind(b, v, rest, more);
    }
  }

  lemma NoTag(b: seq<Byte>)
    ensures Serialization.DecodeValue(b) == Result.Err(Serialization.InvalidTypeTag) <==> b != [] && b[0] > 3
  {}

  lemma TagBehind(b: seq<Byte>, v: Value, rest: seq<Byte>, more: Row)
    requires Serialization.ValueFits(v) && b == Serialization.EncodeValue(v) + rest && NoTagAfter(rest, more)
    ensures NoTagAfter(b, [v] + more)
  {
    hide Serialization.EncodeValue, Serialization.ValueFits;
    assert ([v] + more)[1..] == more;
    var first, tail := Serialization.EncodeValue(v), Serialization.EncodeValues(more);
    assert b[..|first + tail|] == first + rest[..|tail|];
  }

  lemma TagComplete(b: seq<Byte>, count: nat, values: Row)
    requires |values| < count && NoTagAfter(b, values)
    ensures Serialization.DecodeValues(b, count) == Result.Err(Serialization.InvalidTypeTag)
  {
    hide Serialization.EncodeValues, Serialization.ValueFits, Serialization.DecodeValues, Serialization.DecodeValue;
    var front := Serialization.EncodeValues(values);
    var rest := b[|front|..];
    assert front + rest == b;
    Serialization.ValuesRoundTrip(values, rest);
    Serialization.DecodeValuesSplit(b, |values|, count);
    NoTag(rest);
    Serialization.OneValue(rest, count - |values|);
  }

  // Of all byte strings: rows and nothing else are read; a row with more behind it has trailing data; a type tag is
  // invalid exactly when complete values, fewer than announced, come before it; and everything else ends too early.
  lemma RowErrors(b: seq<Byte>)
    ensures var r, count := Serialization.DecodeRow(b), if |b| < 4 then 0 else Decode(b[..4]);
      && (forall row :: r == Ok(row) <==> Serialization.RowFits(row) && b == Serialization.EncodeRow(row))
      && (r == Result.Err(Serialization.TrailingData) <==> exists row :: Serialization.RowFits(row) && Serialization.EncodeRow(row) < b)
      && (r == Result.Err(Serialization.InvalidTypeTag) <==> |b| >= 4 && count <= |b| - 4 && exists values ::
        |values| < count && NoTagAfter(b[4..], values))
      && (r.Err? ==> r.error in {Serialization.TrailingData, Serialization.InvalidTypeTag, Serialization.UnexpectedEnd})
  {
    hide Serialization.EncodeRow, Serialization.RowFits, Serialization.DecodeRow, NoTagAfter;
    forall row
      ensures Serialization.DecodeRow(b) == Ok(row) <==> Serialization.RowFits(row) && b == Serialization.EncodeRow(row)
    {
      if Serialization.DecodeRow(b) == Ok(row) {
        Serialization.RowCanonical(b);
      }
      if Serialization.RowFits(row) {
        Serialization.RowRoundTrip(row);
      }
    }
    Trailing(b);
    Tagged(b);
    RowErrorIs(b);
  }

  lemma Trailing(b: seq<Byte>)
    ensures Serialization.DecodeRow(b) == Result.Err(Serialization.TrailingData) <==>
      exists row :: Serialization.RowFits(row) && Serialization.EncodeRow(row) < b
  {
    hide Serialization.DecodeRow, Serialization.EncodeRow, Serialization.RowFits;
    if Serialization.DecodeRow(b) == Result.Err(Serialization.TrailingData) {
      var row := TrailingSound(b);
    }
    if row :| Serialization.RowFits(row) && Serialization.EncodeRow(row) < b {
      TrailingComplete(b, row);
    }
  }

  lemma TrailingSound(b: seq<Byte>) returns (row: Row)
    requires Serialization.DecodeRow(b) == Result.Err(Serialization.TrailingData)
    ensures Serialization.RowFits(row) && Serialization.EncodeRow(row) < b
  {
    hide Serialization.EncodeValues, Serialization.DecodeValues, Serialization.ValueFits;
    Widths();
    var count := Decode(b[..4]);
    ValuesErrors(b[4..], count);
    Serialization.ValuesCanonical(b[4..], count);
    EncodeDecode(b[..4]);
    row := Serialization.DecodeValues(b[4..], count).value.0;
    assert b == Serialization.EncodeRow(row) + Serialization.DecodeValues(b[4..], count).value.1;
  }

  lemma TrailingComplete(b: seq<Byte>, row: Row)
    requires Serialization.RowFits(row) && Serialization.EncodeRow(row) < b
    ensures Serialization.DecodeRow(b) == Result.Err(Serialization.TrailingData)
  {
    hide Serialization.EncodeValues, Serialization.DecodeValues, Serialization.ValueFits;
    Widths();
    var n := |Serialization.EncodeRow(row)|;
    Serialization.ValuesRoundTrip(row, b[n..]);
    Serialization.ValuesSize(row);
    DecodeEncode(|row|, 4);
    assert b == Serialization.EncodeRow(row) + b[n..];
    assert b[..4] == Encode(|row|, 4) && b[4..] == Serialization.EncodeValues(row) + b[n..];
  }

  lemma {:induction false} ValuesErrors(b: seq<Byte>, count: nat)
    ensures Serialization.DecodeValues(b, count).Err? ==>
      Serialization.DecodeValues(b, count).error in {Serialization.InvalidTypeTag, Serialization.UnexpectedEnd}
    decreases count
  {
    if count > 0 && Serialization.DecodeValue(b).Ok? {
      ValuesErrors(Serialization.DecodeValue(b).value.1, count - 1);
    }
  }

  lemma RowErrorIs(b: seq<Byte>)
    ensures Serialization.DecodeRow(b).Err? ==>
      Serialization.DecodeRow(b).error in {Serialization.TrailingData, Serialization.InvalidTypeTag, Serialization.UnexpectedEnd}
  {
    hide Serialization.DecodeValues;
    if |b| >= 4 {
      ValuesErrors(b[4..], Decode(b[..4]));
    }
  }

  lemma Tagged(b: seq<Byte>)
    ensures Serialization.DecodeRow(b) == Result.Err(Serialization.InvalidTypeTag) <==>
      |b| >= 4 && Decode(b[..4]) <= |b| - 4 && exists values :: |values| < Decode(b[..4]) && NoTagAfter(b[4..], values)
  {
    hide Serialization.DecodeValues, NoTagAfter;
    if Serialization.DecodeRow(b) == Result.Err(Serialization.InvalidTypeTag) {
      var values := TagSound(b[4..], Decode(b[..4]));
    }
    if |b| >= 4 && Decode(b[..4]) <= |b| - 4 {
      if values :| |values| < Decode(b[..4]) && NoTagAfter(b[4..], values) {
        TagComplete(b[4..], Decode(b[..4]), values);
      }
    }
  }

  // ---------- Tree nodes ----------

  // Signature, version, a mark for leaves, the number of keys, and the next leaf or the first child; then entries of 16
  // bytes with a row id, or of 12 with a child.
  lemma NodeBytes(n: NodePage.Node, max: nat)
    requires NodePage.Encodable(n, max)
    ensures var p := NodePage.Written(n, |n.keys|);
      && Field(p, 0, 4) == 0x5450_4243 && Field(p, 4, 2) == 1 && p[6] == (if n.LeafNode? then 1 else 0) && Field(p, 8, 2) == |n.keys|
      && Field(p, 12, 4) == (if n.BranchNode? then n.children[0] else if n.next.Some? then n.next.value else 0xFFFF_FFFF)
  {
    hide NodePage.Written, Field, NodePage.NonDecreasing;
    NodePage.WrittenOk(n, |n.keys|, max);
  }

  lemma EntryBytes(n: NodePage.Node, max: nat, i: nat)
    requires NodePage.Encodable(n, max) && i < |n.keys|
    ensures var p, at := NodePage.Written(n, |n.keys|), 16 + i * if n.LeafNode? then 16 else 12;
      var key: int := n.keys[i];
      && Field(p, at, 8) == key % 0x1_0000_0000_0000_0000
      && if n.LeafNode? then Field(p, at + 8, 4) == n.values[i].page && Field(p, at + 12, 2) == n.values[i].slot
         else Field(p, at + 8, 4) == n.children[i + 1]
  {
    hide NodePage.Written, Field, NodePage.NonDecreasing;
    NodePage.WrittenOk(n, |n.keys|, max);
    BitsAre(n.keys[i]);
    assert NodePage.EntryOk(NodePage.Written(n, |n.keys|), n, i);
  }

  // Which pages hold a node: those with the signature, the version, a count within bounds and keys that do not decrease.
  lemma NodePageIs(p: Page, leaf: bool, max: nat)
    requires leaf == (p[6] == 1)
    ensures var count := Field(p, 8, 2);
      && (NodePage.Parse(p, max).Some? <==>
        && Field(p, 0, 4) == 0x5450_4243 && Field(p, 4, 2) == 1 && count <= max && 16 + count * (if leaf then 16 else 12) <= 4096
        && forall i, j :: 0 <= i < j < count ==> NodePage.Key(p, leaf, i) <= NodePage.Key(p, leaf, j))
      && (NodePage.Parse(p, max).Some? ==> var n := NodePage.Parse(p, max).value; n.LeafNode? == leaf && |n.keys| == count)
  {
    hide NodePage.Key, Field;
    if NodePage.CountOk(p, max) {
      var keys := NodePage.KeysOf(p);
      assert forall i :: 0 <= i < |keys| ==> keys[i] == NodePage.Key(p, leaf, i);
    }
  }

  // ---------- Slotted pages ----------

  // Signature, version, the number of slots, where the slots end and where the records begin; then four bytes a slot.
  lemma SlotBytes(p: Page)
    requires SlottedPage.ValidPage(p)
    ensures U32At(p, 0) == 0x4952_5543 && U16At(p, 4) == 1
    ensures |SlottedPage.Records(p)| == U16At(p, 6) && U16At(p, 8) == 16 + 4 * U16At(p, 6) <= U16At(p, 10) <= 4096
  {
    hide U16At, U32At, SlottedPage.AllApart, SlottedPage.SlotsOk;
  }

  lemma RecordBytes(p: Page, i: nat)
    requires SlottedPage.ValidPage(p) && i < |SlottedPage.Records(p)|
    ensures 20 + 4 * i <= 4096
    ensures var offset, length := U16At(p, 16 + 4 * i), U16At(p, 18 + 4 * i);
      && U16At(p, 10) <= offset <= offset + length <= 4096
      && SlottedPage.Records(p)[i] == if length == 0 then None else Some(p[offset..offset + length])
  {
    hide U16At, U32At, SlottedPage.AllApart;
    assert SlottedPage.SlotOk(p, i) && SlottedPage.Records(p)[i] == SlottedPage.Record(p, i);
  }

  // Which pages are loaded, and what is wrong with the others.
  lemma FaultIs(p: Page)
    ensures SlottedPage.Fault(p) == Some(SlottedPage.UnsupportedVersion) <==> U32At(p, 0) == 0x4952_5543 && U16At(p, 4) != 1
    ensures SlottedPage.Fault(p) == None <==>
      && U32At(p, 0) == 0x4952_5543 && U16At(p, 4) == 1 && U16At(p, 8) == 16 + 4 * U16At(p, 6) <= U16At(p, 10) <= 4096
      && (forall i :: 0 <= i < U16At(p, 6) ==>
        U16At(p, 10) <= SlottedPage.Offset(p, i) <= SlottedPage.Offset(p, i) + SlottedPage.Length(p, i) <= 4096)
      && (forall i, j :: 0 <= i < j < U16At(p, 6) && SlottedPage.Length(p, i) > 0 && SlottedPage.Length(p, j) > 0 ==>
        || SlottedPage.Offset(p, i) + SlottedPage.Length(p, i) <= SlottedPage.Offset(p, j)
        || SlottedPage.Offset(p, j) + SlottedPage.Length(p, j) <= SlottedPage.Offset(p, i))
    ensures SlottedPage.Fault(p) in {None, Some(SlottedPage.UnsupportedVersion), Some(SlottedPage.CorruptPage)}
  {
    hide U16At, U32At, SlottedPage.Offset, SlottedPage.Length;
    if SlottedPage.Bounded(p) {
      var count := SlottedPage.Count(p);
      assert SlottedPage.SlotsOk(p) <==> forall i :: 0 <= i < count ==>
        U16At(p, 10) <= SlottedPage.Offset(p, i) <= SlottedPage.Offset(p, i) + SlottedPage.Length(p, i) <= 4096 by {
        assert forall i :: 0 <= i < count ==> (SlottedPage.SlotOk(p, i) <==>
          U16At(p, 10) <= SlottedPage.Offset(p, i) <= SlottedPage.Offset(p, i) + SlottedPage.Length(p, i) <= 4096);
      }
      ApartIs(p);
    }
  }

  lemma ApartIs(p: Page)
    requires SlottedPage.Bounded(p)
    ensures SlottedPage.AllApart(p) <==>
      forall i, j :: 0 <= i < j < U16At(p, 6) && SlottedPage.Length(p, i) > 0 && SlottedPage.Length(p, j) > 0 ==>
        || SlottedPage.Offset(p, i) + SlottedPage.Length(p, i) <= SlottedPage.Offset(p, j)
        || SlottedPage.Offset(p, j) + SlottedPage.Length(p, j) <= SlottedPage.Offset(p, i)
  {
    hide U16At, SlottedPage.Offset, SlottedPage.Length;
    forall i, j | SlottedPage.AllApart(p) && 0 <= i < j < U16At(p, 6) && SlottedPage.Length(p, i) > 0 && SlottedPage.Length(p, j) > 0
      ensures
        || SlottedPage.Offset(p, i) + SlottedPage.Length(p, i) <= SlottedPage.Offset(p, j)
        || SlottedPage.Offset(p, j) + SlottedPage.Length(p, j) <= SlottedPage.Offset(p, i)
    {
      assert SlottedPage.Apart(p, i, j);
    }
  }

  // ---------- The catalog ----------

  // "CURIODBC", the version, the size of the catalog, and the catalog.
  lemma CatalogBytes(c: StoredCatalog)
    requires CatalogFormat.CatalogFits(c)
    ensures var p, payload := CatalogFormat.CatalogPage(c), CatalogFormat.EncodeCatalog(c);
      && (forall i :: 0 <= i < 8 ==> p[i] as char == "CURIODBC"[i]) && p[8..12] == [3, 0, 0, 0]
      && IsLittleEndian(p[12..16], |payload|) && p[16..16 + |payload|] == payload
      && forall i :: 16 + |payload| <= i < 4096 ==> p[i] == 0
  {
    hide CatalogFormat.EncodeCatalog, Encode, CatalogFormat.TableFits, IsLittleEndian;
    var p, payload := CatalogFormat.CatalogPage(c), CatalogFormat.EncodeCatalog(c);
    EncodeIs(|payload|, 4);
    VersionThree();
    CatalogFormat.PageParts(CatalogFormat.MAGIC, Encode(3, 4), Encode(|payload|, 4), payload, Zeros(4080 - |payload|));
    assert p[..8] == CatalogFormat.MAGIC;
    assert forall i :: 0 <= i < 8 ==> p[i] == p[..8][i];
  }

  // A name is four bytes for its length and its bytes.
  lemma NameBytes(n: Name)
    requires |n| <= 0xFFFF_FFFF
    ensures var b := CatalogFormat.EncodeName(n); |b| == 4 + |n| && IsLittleEndian(b[..4], |n|) && b[4..] == n
  {
    hide Encode, IsLittleEndian;
    EncodeIs(|n|, 4);
    assert CatalogFormat.EncodeName(n)[..4] == Encode(|n|, 4);
  }

  // A column is its name, one byte for its kind, four for the length of a VARCHAR, and one for its constraints.
  lemma ColumnBytes(c: ColumnSchema)
    ensures var name, b := CatalogFormat.EncodeName(c.name), CatalogFormat.EncodeColumn(c);
      var n := |name|;
      && |b| == n + 6 && b[..n] == name
      && b[n] == (match c.dataType.kind case IntegerKind => 0 case DoubleKind => 1 case VarcharKind => 2)
      && IsLittleEndian(b[n + 1..n + 5], if c.dataType.length.Some? then c.dataType.length.value else 0)
      && b[n + 5] == (if c.primaryKey then 1 else 0) + (if c.unique then 2 else 0) + (if c.notNull then 4 else 0)
  {
    hide Encode, IsLittleEndian, CatalogFormat.EncodeName;
    var n, length := |CatalogFormat.EncodeName(c.name)|, CatalogFormat.LengthOf(c);
    EncodeIs(length, 4);
    assert CatalogFormat.EncodeColumn(c)[n + 1..n + 5] == Encode(length, 4);
  }

  // An index is its name, the name of its column, and four bytes for its root.
  lemma IndexBytes(i: StoredIndex)
    ensures var name, column, b := CatalogFormat.EncodeName(i.name), CatalogFormat.EncodeName(i.columnName), CatalogFormat.EncodeIndex(i);
      var n := |name + column|;
      && |b| == n + 4 && b[..n] == name + column
      && IsLittleEndian(b[n..], if i.root.Some? then i.root.value else 0xFFFF_FFFF)
  {
    hide Encode, IsLittleEndian, CatalogFormat.EncodeName;
    var n, root := |CatalogFormat.EncodeName(i.name) + CatalogFormat.EncodeName(i.columnName)|, CatalogFormat.RootOf(i);
    EncodeIs(root, 4);
    assert CatalogFormat.EncodeIndex(i)[n..] == Encode(root, 4);
  }

  lemma VersionThree()
    ensures Encode(3, 4) == [3, 0, 0, 0]
  {
    assert Encode(3, 4) == [3] + Encode(0, 3);
    assert Encode(0, 3) == [0] + Encode(0, 2);
    assert Encode(0, 2) == [0] + Encode(0, 1);
    assert Encode(0, 1) == [0] + Encode(0, 0);
  }
}
