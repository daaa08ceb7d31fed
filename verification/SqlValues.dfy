/** Row values and their order. */
module SqlValues {
  import opened Wrappers
  import opened Lex

  datatype Ordering = Below | Equal | Above

  /** Floats carry the sign of a zero, which comparisons do not see. */
  datatype Value =
    | Null
    | Bool(b: bool)
    | I64(n: int)
    | F64(r: real, minusZero: bool)
    | Text(text: seq<Scalar>)
    | Blob(bytes: seq<Byte>)
    | Timestamp(micros: int)
    | Array(items: nat)

  function CmpInt(a: int, b: int): Ordering {
    if a < b then Below else if a == b then Equal else Above
  }

  function CmpReal(a: real, b: real): Ordering {
    if a < b then Below else if a == b then Equal else Above
  }

  function CmpBool(a: bool, b: bool): Ordering {
    if a == b then Equal else if b then Below else Above
  }

  function CmpSeq(a: seq<int>, b: seq<int>): Ordering {
    if Less(a, b) then Below else if a == b then Equal else Above
  }

  function Reverse(o: Ordering): Ordering {
    match o
    case Below => Above
    case Equal => Equal
    case Above => Below
  }

  /** The order of `Value`: nulls first, then values of one type; other pairs have none. */
  function PartialCmp(a: Value, b: Value): Option<Ordering> {
    match (a, b)
    case (Null, Null) => Some(Equal)
    case (Null, _) => Some(Below)
    case (_, Null) => Some(Above)
    case (Bool(x), Bool(y)) => Some(CmpBool(x, y))
    case (I64(x), I64(y)) => Some(CmpInt(x, y))
    case (F64(x, _), F64(y, _)) => Some(CmpReal(x, y))
    case (Text(x), Text(y)) => Some(CmpSeq(x, y))
    case (Blob(x), Blob(y)) => Some(CmpSeq(x, y))
    case (Timestamp(x), Timestamp(y)) => Some(CmpInt(x, y))
    case _ => None
  }

  // ---- order as a relation

  predicate IsNumber(v: Value) { v.I64? || v.F64? }

  function AsReal(v: Value): real
    requires IsNumber(v)
  {
    if v.I64? then v.n as real else v.r
  }

  /** Two non-null values that SQL compares without a cast to another type. */
  predicate Comparable(a: Value, b: Value) {
    || (IsNumber(a) && IsNumber(b)) || (a.Bool? && b.Bool?) || (a.Text? && b.Text?)
    || (a.Blob? && b.Blob?) || (a.Timestamp? && b.Timestamp?)
  }

  predicate Before(a: Value, b: Value)
    requires Comparable(a, b)
  {
    if IsNumber(a) then AsReal(a) < AsReal(b)
    else match a
         case Bool(x) => !x && b.b
         case Text(x) => Less(x, b.text)
         case Blob(x) => Less(x, b.bytes)
         case Timestamp(x) => x < b.micros
         case _ => false
  }

  predicate Same(a: Value, b: Value)
    requires Comparable(a, b)
  {
    if IsNumber(a) then AsReal(a) == AsReal(b) else a == b
  }

  predicate Agrees(o: Ordering, a: Value, b: Value)
    requires Comparable(a, b)
  {
    match o
    case Below => Before(a, b) && !Same(a, b) && !Before(b, a)
    case Equal => Same(a, b) && !Before(a, b) && !Before(b, a)
    case Above => Before(b, a) && !Same(a, b) && !Before(a, b)
  }

  lemma CmpSeqAgrees(a: seq<int>, b: seq<int>)
    ensures CmpSeq(a, b).Below? ==> a != b && !Less(b, a)
    ensures CmpSeq(a, b).Equal? ==> a == b && !Less(a, b)
    ensures CmpSeq(a, b).Above? ==> a != b && !Less(a, b) && Less(b, a)
  {
    LessAsymmetric(a, b);
    LessAsymmetric(a, a);
    LessTotal(a, b);
  }

  /** The order computed for two non-null values is the order they stand in. */
  lemma PartialCmpAgrees(a: Value, b: Value)
    requires !a.Null? && !b.Null? && PartialCmp(a, b).Some?
    ensures Comparable(a, b) && Agrees(PartialCmp(a, b).value, a, b)
  {
    match (a, b) {
      case (Text(x), Text(y)) => CmpSeqAgrees(x, y);
      case (Blob(x), Blob(y)) => CmpSeqAgrees(x, y);
      case _ =>
    }
  }
}
