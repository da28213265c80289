/** The value shapes the codec's overload set accepts: fixed-width integers,
    `char`, `std::string`, and `std::vector` of any of these, nested to any
    depth. A `Shape` is the static type a reader is asked for. */
module Values {
  import opened Bytes
  import opened NativeLayout

  datatype Shape =
    | ScalarShape(kind: IntKind)
    | CharShape
    | StringShape
    | VectorShape(elem: Shape)

  datatype Value =
    | Scalar(kind: IntKind, n: int)
    | Char(c: byte)
    | Str(s: seq<byte>)
    | Vector(elem: Shape, items: seq<Value>)

  predicate ValidShape(s: Shape) {
    match s
    case ScalarShape(k) => ValidKind(k)
    case CharShape => true
    case StringShape => true
    case VectorShape(e) => ValidShape(e)
  }

  function ShapeOf(v: Value): Shape {
    match v
    case Scalar(k, _) => ScalarShape(k)
    case Char(_) => CharShape
    case Str(_) => StringShape
    case Vector(e, _) => VectorShape(e)
  }

  /** `v` is a value of a C++ type: integers lie in their type's range, sizes
      fit a `size_t`, and a vector's items all have its element type. */
  predicate WellFormed(v: Value) {
    match v
    case Scalar(k, n) => ValidKind(k) && InRange(k, n)
    case Char(_) => true
    case Str(s) => |s| < SizeLimit
    case Vector(e, items) =>
      ValidShape(e) && |items| < SizeLimit &&
      forall i :: 0 <= i < |items| ==> ShapeOf(items[i]) == e && WellFormed(items[i])
  }

  lemma VectorItems(e: Shape, items: seq<Value>)
    requires WellFormed(Vector(e, items))
    ensures ValidShape(e) && |items| < SizeLimit
    ensures forall i :: 0 <= i < |items| ==> WellFormed(items[i]) && ShapeOf(items[i]) == e
  {
  }

  /** `v` is a value the reader for shape `s` can produce: the same type at
      every level, integers in their type's range. */
  predicate Conforms(v: Value, s: Shape) {
    match v
    case Scalar(k, n) => s == ScalarShape(k) && InRange(k, n)
    case Char(_) => s == CharShape
    case Str(_) => s == StringShape
    case Vector(e, items) =>
      s == VectorShape(e) && forall i :: 0 <= i < |items| ==> Conforms(items[i], e)
  }

  /** The values whose binary layout the deserializer can read back: the
      vector reader always uses the text grammar, so no vector qualifies. */
  predicate NoVector(v: Value) {
    !v.Vector?
  }
}
