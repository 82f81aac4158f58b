/** SQL values and their order.

    A value is NULL, a 64-bit integer, a byte string or a boolean.  `Less` is the
    order that indexes and predicates compare with: by type tag first, then by
    payload.  `Rank` embeds that order into the reals; the index proofs reason
    about ranks, so that transitivity and totality are plain arithmetic.
 */
module Values {

  type Byte = x: int | 0 <= x < 256

  type Int64 = x: int | -0x8000_0000_0000_0000 <= x < 0x8000_0000_0000_0000

  type Bytes = seq<Byte>

  datatype Value =
    | Null
    | Int(n: Int64)
    | Str(s: Bytes)
    | Bool(b: bool)

  datatype ValueType = NullType | IntType | StrType | BoolType

  function TypeOf(v: Value): ValueType {
    match v
    case Null => NullType
    case Int(_) => IntType
    case Str(_) => StrType
    case Bool(_) => BoolType
  }

  /** The enumerator value of a type, as it is compared and serialized. */
  function Tag(t: ValueType): (tag: nat)
    ensures tag <= 3
  {
    match t
    case NullType => 0
    case IntType => 1
    case StrType => 2
    case BoolType => 3
  }

  /** Byte-wise lexicographic order; a proper prefix comes first. */
  predicate TextLess(a: Bytes, b: Bytes) {
    if b == [] then false
    else if a == [] then true
    else a[0] < b[0] || (a[0] == b[0] && TextLess(a[1..], b[1..]))
  }

  predicate Less(a: Value, b: Value) {
    if TypeOf(a) != TypeOf(b) then
      Tag(TypeOf(a)) < Tag(TypeOf(b))
    else
      match a
      case Null => false
      case Int(n) => n < b.n
      case Str(s) => TextLess(s, b.s)
      case Bool(x) => !x && b.b
  }

  /** A byte string read as the digits of a number in [0, 1) to base 257, each digit plus one. */
  function TextRank(s: Bytes): (r: real)
    ensures 0.0 <= r < 1.0
  {
    if s == [] then 0.0
    else (s[0] as real + 1.0 + TextRank(s[1..])) / 257.0
  }

  const TOP: real := 0x4_0000_0000_0000_0000 as real

  /** An order embedding of the values into the reals strictly between -TOP and TOP. */
  function Rank(v: Value): (r: real)
    ensures -TOP < r < TOP
  {
    match v
    case Null => -(0x2_0000_0000_0000_0000 as real)
    case Int(n) => n as real
    case Str(s) => (0x2_0000_0000_0000_0000 as real) + TextRank(s)
    case Bool(b) => (0x2_0000_0000_0000_0000 as real) + (if b then 3.0 else 2.0)
  }

  lemma {:induction false} TextRankOrder(a: Bytes, b: Bytes)
    ensures TextLess(a, b) <==> TextRank(a) < TextRank(b)
    ensures a == b <==> TextRank(a) == TextRank(b)
  {
    if a != [] && b != [] {
      TextRankOrder(a[1..], b[1..]);
      assert a == [a[0]] + a[1..] && b == [b[0]] + b[1..];
    }
  }

  /** The order on values is the order on their ranks, so it is a strict total order. */
  lemma RankOrder(a: Value, b: Value)
    ensures Less(a, b) <==> Rank(a) < Rank(b)
    ensures a == b <==> Rank(a) == Rank(b)
  {
    if a.Str? && b.Str? {
      TextRankOrder(a.s, b.s);
    }
  }
}
