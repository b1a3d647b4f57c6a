// Runtime values and rows.
module Values {
  import opened Bytes

  // A double is its 64-bit pattern.
  datatype Value = Null | Integer(i: I64) | Double(bits: U64) | Varchar(text: seq<Byte>)

  type Row = seq<Value>

  datatype Kind = IntegerKind | DoubleKind | VarcharKind

  function KindOf(v: Value): Kind
    requires !v.Null?
  {
    match v
    case Integer(_) => IntegerKind
    case Double(_) => DoubleKind
    case Varchar(_) => VarcharKind
  }

  // ---------- IEEE 754 comparison on bit patterns ----------

  const SIGN: nat := 0x8000_0000_0000_0000
  const INFINITY: nat := 0x7FF0_0000_0000_0000

  predicate IsNaN(b: U64) {
    b % SIGN > INFINITY
  }

  // Orders the non-NaN doubles; both zeros have magnitude 0.
  function Magnitude(b: U64): int {
    if b < SIGN then b else SIGN - b
  }

  predicate DoubleEq(a: U64, b: U64) {
    !IsNaN(a) && !IsNaN(b) && Magnitude(a) == Magnitude(b)
  }

  // operator== on values: NULL equals NULL, doubles compare as IEEE doubles.
  predicate Equal(a: Value, b: Value) {
    match (a, b)
    case (Double(x), Double(y)) => DoubleEq(x, y)
    case _ => a == b
  }

  // NULL equals NULL only; integers and texts equal themselves; of the doubles the two zeros are equal, and a pattern
  // that stands for no number equals nothing.
  lemma EqualIs(a: Value, b: Value)
    ensures a.Null? || b.Null? ==> (Equal(a, b) <==> a.Null? && b.Null?)
    ensures a.Integer? || b.Integer? ==> (Equal(a, b) <==> a.Integer? && b.Integer? && a.i == b.i)
    ensures a.Varchar? || b.Varchar? ==> (Equal(a, b) <==> a.Varchar? && b.Varchar? && a.text == b.text)
    ensures a.Double? && b.Double? ==>
      var x, y := a.bits, b.bits;
      var nan := x % 0x8000_0000_0000_0000 > 0x7FF0_0000_0000_0000;
      Equal(a, b) <==> !nan && (x == y || (x % 0x8000_0000_0000_0000 == 0 && y % 0x8000_0000_0000_0000 == 0))
  {}

  lemma EqualInteger(a: Value, b: Value)
    requires a.Integer? || b.Integer?
    ensures Equal(a, b) <==> a == b
  {}
}
