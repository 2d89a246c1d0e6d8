/** The concrete instantiation of the generic serialization protocol that the
    codec is driven by: the types a caller can ask the decoder for (`Shape`)
    and the values that travel between application code and the codec
    (`Data`). */
module DataModel {
  import opened Ascii
  import opened Ints

  /** A decode target type: an integer type, `String`, `Vec<T>`, or a tuple. */
  datatype Shape =
    | IntOf(width: IntType)
    | Text
    | VecOf(elem: Shape)
    | TupleOf(elems: seq<Shape>)

  /** A value handed to the encoder, or produced by the decoder, tagged with
      the serialization call that carries it. `Float32`/`Float64` stand for
      any floating-point value: the codec treats them all alike. */
  datatype Data =
    | Bool(b: bool)
    | Int(width: IntType, n: int)
    | Float32
    | Float64
    | Char(c: char)
    | Str(s: string)
    | Bytes(bytes: seq<Byte>)
    | OptNone
    | OptSome(inner: Data)
    | Seq(items: seq<Data>)
    | Tuple(fields: seq<Data>)

  /** No tuple anywhere inside: the encoder's tuple path is unimplemented. */
  predicate NoTuple(d: Data) {
    match d
    case OptSome(x) => NoTuple(x)
    case Seq(items) => forall i :: 0 <= i < |items| ==> NoTuple(items[i])
    case Tuple(_) => false
    case _ => true
  }

  /** `d` is a value of type `shape`. */
  predicate HasShape(d: Data, shape: Shape) {
    match shape
    case IntOf(w) => d.Int? && d.width == w && w.Fits(d.n)
    case Text => d.Str?
    case VecOf(e) => d.Seq? && forall i :: 0 <= i < |d.items| ==> HasShape(d.items[i], e)
    case TupleOf(es) =>
      d.Tuple? && |d.fields| == |es| && forall i :: 0 <= i < |es| ==> HasShape(d.fields[i], es[i])
  }
}
