// Rows as bytes.
module Serialization {
  import opened Bytes
  import opened Results
  import opened Seqs
  import opened Values

  datatype SerializationError = InputTooLarge | UnexpectedEnd | InvalidTypeTag | TrailingData

  const NULL_TAG: Byte := 0
  const INTEGER_TAG: Byte := 1
  const DOUBLE_TAG: Byte := 2
  const VARCHAR_TAG: Byte := 3

  // ---------- The format ----------

  predicate ValueFits(v: Value) {
    v.Varchar? ==> |v.text| <= MAX_U32
  }

  predicate RowFits(row: Row) {
    |row| <= MAX_U32 && forall i :: 0 <= i < |row| ==> ValueFits(row[i])
  }

  function EncodeValue(v: Value): seq<Byte> {
    match v
    case Null => [NULL_TAG]
    case Integer(i) => [INTEGER_TAG] + Encode(ToBits(i), 8)
    case Double(bits) => [DOUBLE_TAG] + Encode(bits, 8)
    case Varchar(text) => [VARCHAR_TAG] + Encode(|text|, 4) + text
  }

  function EncodeValues(row: Row): seq<Byte> {
    if row == [] then [] else EncodeValue(row[0]) + EncodeValues(row[1..])
  }

  function EncodeRow(row: Row): seq<Byte> {
    Encode(|row|, 4) + EncodeValues(row)
  }

  // ---------- Reading it back ----------

  function NumberOf(tag: Byte, bits: U64): Value {
    if tag == INTEGER_TAG then Integer(FromBits(bits)) else Double(bits)
  }

  // A value and the bytes after it.
  function DecodeValue(b: seq<Byte>): Result<(Value, seq<Byte>), SerializationError> {
    if b == [] then Err(UnexpectedEnd)
    else if b[0] == NULL_TAG then Ok((Null, b[1..]))
    else if b[0] == INTEGER_TAG || b[0] == DOUBLE_TAG then
      if |b| < 9 then Err(UnexpectedEnd)
      else
        EightBytes(b[1..9]);
        var bits := Decode(b[1..9]);
        Ok((NumberOf(b[0], bits), b[9..]))
    else if b[0] == VARCHAR_TAG then
      if |b| < 5 || |b| - 5 < Decode(b[1..5]) then Err(UnexpectedEnd)
      else Ok((Varchar(b[5..5 + Decode(b[1..5])]), b[5 + Decode(b[1..5])..]))
    else Err(InvalidTypeTag)
  }

  function DecodeValues(b: seq<Byte>, count: nat): Result<(seq<Value>, seq<Byte>), SerializationError>
    decreases count
  {
    if count == 0 then Ok(([], b))
    else
      match DecodeValue(b)
      case Err(e) => Err(e)
      case Ok(first) =>
        match DecodeValues(first.1, count - 1)
        case Err(e) => Err(e)
        case Ok(rest) => Ok(([first.0] + rest.0, rest.1))
  }

  function DecodeRow(b: seq<Byte>): Result<Row, SerializationError> {
    if |b| < 4 || Decode(b[..4]) > |b| - 4 then Err(UnexpectedEnd)
    else
      match DecodeValues(b[4..], Decode(b[..4]))
      case Err(e) => Err(e)
      case Ok(rest) => if rest.1 == [] then Ok(rest.0) else Err(TrailingData)
  }

  lemma EightBytes(s: seq<Byte>)
    requires |s| == 8
    ensures Decode(s) < 0x1_0000_0000_0000_0000
  {
    EncodeDecode(s);
    Widths();
  }

  // ---------- A canonical bijection onto its image ----------

  lemma ValueRoundTrip(v: Value, rest: seq<Byte>)
    requires ValueFits(v)
    ensures DecodeValue(EncodeValue(v) + rest) == Ok((v, rest))
  {
    Widths();
    var b := EncodeValue(v) + rest;
    match v
    case Null =>
      assert b[1..] == rest;
    case Integer(i) =>
      DecodeEncode(ToBits(i), 8);
      BitsRoundTrip(i, 0);
      assert b[1..9] == Encode(ToBits(i), 8) && b[9..] == rest;
    case Double(bits) =>
      DecodeEncode(bits, 8);
      assert b[1..9] == Encode(bits, 8) && b[9..] == rest;
    case Varchar(text) =>
      DecodeEncode(|text|, 4);
      assert b[1..5] == Encode(|text|, 4);
      assert b[5..5 + |text|] == text && b[5 + |text|..] == rest;
  }

  lemma {:induction false} ValuesRoundTrip(row: Row, rest: seq<Byte>)
    requires forall i :: 0 <= i < |row| ==> ValueFits(row[i])
    ensures DecodeValues(EncodeValues(row) + rest, |row|) == Ok((row, rest))
  {
    hide DecodeValue, EncodeValue, ValueFits;
    if row == [] {
      assert EncodeValues(row) + rest == rest;
    } else {
      var tail := EncodeValues(row[1..]) + rest;
      assert EncodeValues(row) + rest == EncodeValue(row[0]) + tail;
      ValueRoundTrip(row[0], tail);
      ValuesRoundTrip(row[1..], rest);
      assert [row[0]] + row[1..] == row;
    }
  }

  lemma {:induction false} ValuesSize(row: Row)
    ensures |EncodeValues(row)| >= |row|
  {
    if row != [] {
      ValuesSize(row[1..]);
    }
  }

  // deserialize_row inverts serialize_row.
  lemma RowRoundTrip(row: Row)
    requires RowFits(row)
    ensures DecodeRow(EncodeRow(row)) == Ok(row)
  {
    hide DecodeValues, EncodeValues;
    Widths();
    DecodeEncode(|row|, 4);
    var b := EncodeRow(row);
    assert b[..4] == Encode(|row|, 4) && b[4..] == EncodeValues(row) + [];
    ValuesRoundTrip(row, []);
    ValuesSize(row);
  }

  lemma ValueCanonical(b: seq<Byte>)
    requires DecodeValue(b).Ok?
    ensures ValueFits(DecodeValue(b).value.0)
    ensures b == EncodeValue(DecodeValue(b).value.0) + DecodeValue(b).value.1
  {
    Widths();
    if b[0] == NULL_TAG {
      assert b == [NULL_TAG] + b[1..];
    } else if b[0] == VARCHAR_TAG {
      EncodeDecode(b[1..5]);
      var n := Decode(b[1..5]);
      assert b == [VARCHAR_TAG] + b[1..5] + b[5..5 + n] + b[5 + n..];
    } else {
      EncodeDecode(b[1..9]);
      BitsRoundTrip(0, Decode(b[1..9]));
      assert b == [b[0]] + b[1..9] + b[9..];
    }
  }

  lemma {:induction false} ValuesCanonical(b: seq<Byte>, count: nat)
    requires DecodeValues(b, count).Ok?
    ensures var r := DecodeValues(b, count).value;
      && |r.0| == count && b == EncodeValues(r.0) + r.1
      && forall i :: 0 <= i < count ==> ValueFits(r.0[i])
    decreases count
  {
    hide DecodeValue, EncodeValue, ValueFits;
    if count == 0 {
      assert EncodeValues([]) + b == b;
    } else {
      ValueCanonical(b);
      var first := DecodeValue(b).value;
      ValuesCanonical(first.1, count - 1);
      var rest := DecodeValues(first.1, count - 1).value;
      var all := [first.0] + rest.0;
      assert all[1..] == rest.0;
      assert b == (EncodeValue(first.0) + EncodeValues(rest.0)) + rest.1;
    }
  }

  // Any bytes that deserialize serialize back to the same bytes.
  lemma RowCanonical(b: seq<Byte>)
    requires DecodeRow(b).Ok?
    ensures RowFits(DecodeRow(b).value) && EncodeRow(DecodeRow(b).value) == b
  {
    hide DecodeValues, EncodeValues;
    Widths();
    EncodeDecode(b[..4]);
    var count := Decode(b[..4]);
    ValuesCanonical(b[4..], count);
    var row := DecodeRow(b).value;
    assert EncodeValues(row) + [] == EncodeValues(row);
    assert b == b[..4] + b[4..];
  }

  lemma ValueCut(v: Value, n: nat)
    requires ValueFits(v) && n < |EncodeValue(v)|
    ensures DecodeValue(EncodeValue(v)[..n]) == Err(UnexpectedEnd)
  {
    var b := EncodeValue(v)[..n];
    if v.Varchar? && n >= 5 {
      Widths();
      DecodeEncode(|v.text|, 4);
      assert b[1..5] == Encode(|v.text|, 4);
    }
  }

  lemma {:induction false} ValuesCut(row: Row, n: nat)
    requires (forall i :: 0 <= i < |row| ==> ValueFits(row[i])) && n < |EncodeValues(row)|
    ensures DecodeValues(EncodeValues(row)[..n], |row|) == Err(UnexpectedEnd)
  {
    hide DecodeValue, EncodeValue, ValueFits;
    var first, tail := EncodeValue(row[0]), EncodeValues(row[1..]);
    var b := EncodeValues(row)[..n];
    if n < |first| {
      assert b == first[..n];
      ValueCut(row[0], n);
    } else {
      assert b == first + tail[..n - |first|];
      ValueRoundTrip(row[0], tail[..n - |first|]);
      ValuesCut(row[1..], n - |first|);
    }
  }

  // Every proper prefix of an encoded row is reported as cut short, never as anything else.
  lemma RowCut(row: Row, n: nat)
    requires RowFits(row) && n < |EncodeRow(row)|
    ensures DecodeRow(EncodeRow(row)[..n]) == Err(UnexpectedEnd)
  {
    hide DecodeValues, EncodeValues;
    var b := EncodeRow(row)[..n];
    if n >= 4 {
      Widths();
      DecodeEncode(|row|, 4);
      assert b[..4] == Encode(|row|, 4) && b[4..] == EncodeValues(row)[..n - 4];
      ValuesCut(row, n - 4);
    }
  }

  // ---------- Writing ----------

  // Appends the low `width` bytes of value, one at a time.
  method AppendInteger(bytes: seq<Byte>, value: nat, width: nat) returns (r: seq<Byte>)
    ensures r == bytes + Encode(value, width)
  {
    r := bytes;
    var remaining := value;
    for i := 0 to width
      invariant r + Encode(remaining, width - i) == bytes + Encode(value, width)
    {
      assert Encode(remaining, width - i) == [remaining % 256] + Encode(remaining / 256, width - i - 1);
      r := r + [remaining % 256];
      remaining := remaining / 256;
    }
  }

  method AppendValue(bytes: seq<Byte>, value: Value) returns (r: Option<seq<Byte>>)
    ensures r == if ValueFits(value) then Some(bytes + EncodeValue(value)) else None
  {
    hide Encode;
    match value
    case Null =>
      return Some(bytes + [NULL_TAG]);
    case Integer(i) =>
      var out := AppendInteger(bytes + [INTEGER_TAG], ToBits(i), 8);
      Assoc(bytes, [INTEGER_TAG], Encode(ToBits(i), 8));
      return Some(out);
    case Double(bits) =>
      var out := AppendInteger(bytes + [DOUBLE_TAG], bits, 8);
      Assoc(bytes, [DOUBLE_TAG], Encode(bits, 8));
      return Some(out);
    case Varchar(text) =>
      if |text| > MAX_U32 {
        return None;
      }
      var out := AppendInteger(bytes + [VARCHAR_TAG], |text|, 4);
      for i := 0 to |text|
        invariant out == bytes + [VARCHAR_TAG] + Encode(|text|, 4) + text[..i]
      {
        out := out + [text[i]];
      }
      assert text[..|text|] == text;
      Assoc(bytes, [VARCHAR_TAG], Encode(|text|, 4));
      Assoc(bytes, [VARCHAR_TAG] + Encode(|text|, 4), text);
      return Some(out);
  }

  lemma {:induction false} EncodeValuesSnoc(row: Row, i: nat)
    requires i < |row|
    ensures EncodeValues(row[..i + 1]) == EncodeValues(row[..i]) + EncodeValue(row[i])
  {
    hide EncodeValue;
    if i == 0 {
      assert row[..1][1..] == [];
    } else {
      EncodeValuesSnoc(row[1..], i - 1);
      assert row[..i + 1][1..] == row[1..][..i] && row[..i][1..] == row[1..][..i - 1];
    }
  }

  lemma EncodeNothing(row: Row)
    ensures [] + Encode(|row|, 4) == Encode(|row|, 4) + EncodeValues(row[..0])
  {}

  method SerializeRow(row: Row) returns (r: Result<seq<Byte>, SerializationError>)
    ensures r == if RowFits(row) then Ok(EncodeRow(row)) else Err(InputTooLarge)
  {
    hide EncodeValue, EncodeValues, ValueFits, Encode;
    if |row| > MAX_U32 {
      return Err(InputTooLarge);
    }
    var bytes := AppendInteger([], |row|, 4);
    EncodeNothing(row);
    for i := 0 to |row|
      invariant bytes == Encode(|row|, 4) + EncodeValues(row[..i])
      invariant forall j :: 0 <= j < i ==> ValueFits(row[j])
    {
      EncodeValuesSnoc(row, i);
      var appended := AppendValue(bytes, row[i]);
      if appended.None? {
        return Err(InputTooLarge);
      }
      Assoc(Encode(|row|, 4), EncodeValues(row[..i]), EncodeValue(row[i]));
      bytes := appended.value;
    }
    assert row[..|row|] == row;
    return Ok(bytes);
  }

  // ---------- Reading ----------

  lemma {:induction false} DecodeSnoc(s: seq<Byte>, b: Byte)
    ensures Decode(s + [b]) == Decode(s) + b * Pow256(|s|)
  {
    if s != [] {
      DecodeSnoc(s[1..], b);
      assert (s + [b])[1..] == s[1..] + [b];
      Scale(b, Pow256(|s| - 1));
    }
  }

  lemma Scale(b: nat, p: nat)
    ensures 256 * (b * p) == b * (256 * p)
  {}

  class Reader {
    const bytes: seq<Byte>
    var offset: nat

    constructor (bytes: seq<Byte>)
      ensures this.bytes == bytes && offset == 0
    {
      this.bytes := bytes;
      offset := 0;
    }

    ghost predicate Valid()
      reads this
    {
      offset <= |bytes|
    }

    // What has not been read yet.
    ghost function Rest(): seq<Byte>
      reads this
      requires Valid()
    {
      bytes[offset..]
    }

    function Remaining(): nat
      reads this
      requires Valid()
    {
      |bytes| - offset
    }

    method ReadInteger(width: nat) returns (r: Option<nat>)
      requires Valid()
      modifies this
      ensures Valid()
      ensures r == if |old(Rest())| < width then None else Some(Decode(old(Rest())[..width]))
      ensures Rest() == if |old(Rest())| < width then old(Rest()) else old(Rest())[width..]
    {
      if Remaining() < width {
        return None;
      }
      var value: nat := 0;
      var scale: nat := 1;
      ghost var start := offset;
      for i := 0 to width
        invariant offset == start + i && Valid()
        invariant scale == Pow256(i)
        invariant value == Decode(bytes[start..start + i])
      {
        DecodeSnoc(bytes[start..start + i], bytes[offset]);
        assert bytes[start..start + i + 1] == bytes[start..start + i] + [bytes[offset]];
        value := value + bytes[offset] * scale;
        scale := 256 * scale;
        offset := offset + 1;
      }
      assert old(Rest())[..width] == bytes[start..start + width];
      assert old(Rest())[width..] == bytes[offset..];
      return Some(value);
    }

    method ReadString(length: nat) returns (r: Option<seq<Byte>>)
      requires Valid()
      modifies this
      ensures Valid()
      ensures r == if |old(Rest())| < length then None else Some(old(Rest())[..length])
      ensures Rest() == if |old(Rest())| < length then old(Rest()) else old(Rest())[length..]
    {
      if Remaining() < length {
        return None;
      }
      var value: seq<Byte> := [];
      ghost var start := offset;
      for i := 0 to length
        invariant offset == start + i && Valid()
        invariant value == bytes[start..start + i]
      {
        value := value + [bytes[offset]];
        offset := offset + 1;
      }
      assert old(Rest())[..length] == bytes[start..start + length];
      assert old(Rest())[length..] == bytes[offset..];
      return Some(value);
    }

    method ReadValue() returns (r: Result<Value, SerializationError>)
      requires Valid()
      modifies this
      ensures Valid()
      ensures match DecodeValue(old(Rest()))
              case Err(e) => r == Err(e)
              case Ok(v) => r == Ok(v.0) && Rest() == v.1
    {
      hide Decode, FromBits, DecodeValue;
      ghost var b := Rest();
      var tag := ReadInteger(1);
      DecodeCases(b);
      if tag.None? {
        return Err(UnexpectedEnd);
      }
      if tag.value == NULL_TAG {
        return Ok(Null);
      }
      if tag.value == INTEGER_TAG || tag.value == DOUBLE_TAG {
        var bits := ReadInteger(8);
        if bits.None? {
          return Err(UnexpectedEnd);
        }
        return Ok(NumberOf(tag.value, bits.value));
      }
      if tag.value == VARCHAR_TAG {
        var length := ReadInteger(4);
        if length.None? {
          return Err(UnexpectedEnd);
        }
        var text := ReadString(length.value);
        if text.None? {
          return Err(UnexpectedEnd);
        }
        return Ok(Varchar(text.value));
      }
      return Err(InvalidTypeTag);
    }

    // The format again, in the order a reader meets it.
    static lemma DecodeCases(b: seq<Byte>)
      ensures b == [] ==> DecodeValue(b) == Err(UnexpectedEnd)
      ensures b != [] ==> Decode(b[..1]) == b[0]
      ensures b != [] && b[0] == NULL_TAG ==> DecodeValue(b) == Ok((Null, b[1..]))
      ensures b != [] && (b[0] == INTEGER_TAG || b[0] == DOUBLE_TAG) ==>
        if |b[1..]| < 8 then DecodeValue(b) == Err(UnexpectedEnd)
        else
          && Decode(b[1..][..8]) < 0x1_0000_0000_0000_0000
          && DecodeValue(b) == Ok((NumberOf(b[0], Decode(b[1..][..8])), b[1..][8..]))
      ensures b != [] && b[0] == VARCHAR_TAG ==>
        if |b[1..]| < 4 || |b[1..][4..]| < Decode(b[1..][..4]) then DecodeValue(b) == Err(UnexpectedEnd)
        else
          var n := Decode(b[1..][..4]);
          DecodeValue(b) == Ok((Varchar(b[1..][4..][..n]), b[1..][4..][n..]))
      ensures b != [] && b[0] > VARCHAR_TAG ==> DecodeValue(b) == Err(InvalidTypeTag)
    {
      hide Decode, FromBits;
      if b != [] {
        OneByte(b);
        if |b| >= 9 {
          CutTwice(b, 1, 8);
          EightBytes(b[1..9]);
        }
        if |b| >= 5 {
          CutTwice(b, 1, 4);
          if |b| - 5 >= Decode(b[1..5]) {
            CutTwice(b, 5, Decode(b[1..5]));
          }
        }
      }
    }

    static lemma CutTwice(b: seq<Byte>, i: nat, n: nat)
      requires i + n <= |b|
      ensures b[i..][..n] == b[i..i + n] && b[i..][n..] == b[i + n..]
    {}

    static lemma OneByte(b: seq<Byte>)
      requires b != []
      ensures Decode(b[..1]) == b[0]
    {
      assert b[..1][1..] == [];
      assert Decode(b[..1]) == b[0] + 256 * Decode([]);
    }
  }

  lemma {:induction false} DecodeValuesSplit(b: seq<Byte>, i: nat, count: nat)
    requires i <= count && DecodeValues(b, i).Ok?
    ensures var done := DecodeValues(b, i).value;
      DecodeValues(b, count) ==
        (match DecodeValues(done.1, count - i)
         case Err(e) => Err(e)
         case Ok(rest) => Ok((done.0 + rest.0, rest.1)))
    decreases i
  {
    if i == 0 {
      if DecodeValues(b, count).Ok? {
        assert [] + DecodeValues(b, count).value.0 == DecodeValues(b, count).value.0;
      }
    } else {
      var first := DecodeValue(b).value;
      DecodeValuesSplit(first.1, i - 1, count - 1);
      var some := DecodeValues(first.1, i - 1).value;
      var more := DecodeValues(some.1, count - i);
      if more.Ok? {
        assert [first.0] + (some.0 + more.value.0) == ([first.0] + some.0) + more.value.0;
      }
    }
  }

  method DeserializeRow(bytes: seq<Byte>) returns (r: Result<Row, SerializationError>)
    ensures r == DecodeRow(bytes)
  {
    hide DecodeValue;
    var reader := new Reader(bytes);
    var count := reader.ReadInteger(4);
    assert bytes[0..] == bytes;
    if count.None? || count.value > reader.Remaining() {
      return Err(UnexpectedEnd);
    }
    ghost var body := bytes[4..];
    assert reader.Rest() == body && count.value == Decode(bytes[..4]);
    var values: seq<Value> := [];
    for i := 0 to count.value
      invariant reader.Valid() && reader.bytes == bytes
      invariant DecodeValues(body, i) == Ok((values, reader.Rest()))
    {
      DecodeValuesSplit(body, i, i + 1);
      DecodeValuesSplit(body, i, count.value);
      OneValue(reader.Rest(), count.value - i);
      var value := reader.ReadValue();
      if value.Err? {
        return Err(value.error);
      }
      values := values + [value.value];
    }
    if reader.Remaining() != 0 {
      return Err(TrailingData);
    }
    return Ok(values);
  }

  lemma OneValue(b: seq<Byte>, count: nat)
    requires count > 0
    ensures DecodeValues(b, 1) == match DecodeValue(b) case Err(e) => Err(e) case Ok(v) => Ok(([v.0], v.1))
    ensures DecodeValue(b).Err? ==> DecodeValues(b, count) == Err(DecodeValue(b).error)
  {
    if DecodeValue(b).Ok? {
      var v := DecodeValue(b).value;
      assert [v.0] + [] == [v.0];
    }
  }
}
