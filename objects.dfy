/** The values `Comparer.Compare` receives: `object?` references of unknown
    type, the outcome of dispatching `IComparable.CompareTo`, and the
    exceptions the comparer can surface. */
module Objects {
  import opened Int32

  datatype Option<T> = None | Some(value: T)

  /** An `object?`. Every non-null object carries an `id` that stands for
      its reference identity: two distinct objects with equal contents
      differ in `id`, and a value is the same reference as another exactly
      when the two are equal as Dafny values. */
  datatype Value =
    | Null
      /** A System.String (which implements IComparable). */
    | Str(id: nat, text: string)
      /** An object of any other type that implements IComparable. */
    | Comparable(id: nat)
      /** An object whose type does not implement IComparable. */
    | Other(id: nat)

  /** `a == b` on two `object?` operands: reference equality. */
  predicate SameReference(a: Value, b: Value) {
    a == b
  }

  /** `v is IComparable`: strings and the comparable objects. */
  predicate IsComparable(v: Value) {
    v.Str? || v.Comparable?
  }

  /** What one call of a `CompareTo` implementation does: it returns an
      int or throws an exception (identified by an opaque `id`). */
  datatype Reply = Returns(n: int32) | Throws(id: nat)

  /** The `CompareTo(object?)` implementations of all IComparable types:
      `compareTo(x, y)` is `((IComparable)x).CompareTo(y)`. It is foreign
      code, so it is a parameter of the model. */
  type CompareToOracle = (Value, Value) -> Reply

  /** `CompareInfo.Compare(string, string)` of one culture. */
  type StringOrder = (string, string) -> int32

  datatype Exception =
      /** ArgumentNullException raised by `ThrowIfNull`, with the name of
          the parameter that was null. */
    | ArgumentNull(paramName: string)
      /** ArgumentException(Argument_ImplementIComparable): neither operand
          implements IComparable. */
    | NotComparable
      /** An exception thrown inside a `CompareTo` implementation that
          Compare lets propagate unchanged. */
    | Thrown(id: nat)

  datatype Result<T> = Ok(value: T) | Err(error: Exception)

  /** The outcome of `return x.CompareTo(y);`: the returned int, or the
      thrown exception propagated. */
  function Propagate(reply: Reply): (r: Result<int32>)
    ensures r.Ok? <==> reply.Returns?
    ensures reply.Returns? ==> r.value == reply.n
    ensures reply.Throws? ==> r.error == Thrown(reply.id)
  {
    match reply
    case Returns(n) => Ok(n)
    case Throws(id) => Err(Thrown(id))
  }

  /** The outcome of `return -x.CompareTo(y);` in unchecked arithmetic. */
  function PropagateNegated(reply: Reply): (r: Result<int32>)
    ensures r.Ok? <==> reply.Returns?
    ensures reply.Returns? ==> (r.value as int + reply.n as int) % 0x1_0000_0000 == 0
    ensures reply.Throws? ==> r.error == Thrown(reply.id)
  {
    match reply
    case Returns(n) => Ok(Negate(n))
    case Throws(id) => Err(Thrown(id))
  }
}
