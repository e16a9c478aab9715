/** System.Collections.Comparer: the non-generic default comparer. It is
    immutable: its one field, the culture's CompareInfo, is `readonly` and
    bound once at construction, so it is a datatype here. */
module Collections {
  import opened Int32
  import opened Objects
  import DecisionChain

  /** A culture, as far as the comparer uses it: its CompareInfo's string
      order. */
  datatype CultureInfo = CultureInfo(name: string, compareInfo: StringOrder)

  /** A SerializationInfo, as far as the deserialization constructor uses
      it: the CompareInfo that `info.GetValue("CompareInfo", ...)` yields. */
  datatype SerializationInfo = SerializationInfo(storedCompareInfo: StringOrder)

  datatype Comparer = Comparer(compareInfo: StringOrder) {

    /** `Compare(object? a, object? b)`: orders two values of unknown type.
        It fails with NotComparable exactly when neither operand is null,
        they are distinct references and neither implements IComparable;
        any other failure is an exception of a CompareTo implementation. */
    function Compare(compareTo: CompareToOracle, a: Value, b: Value): (r: Result<int32>)
      ensures r == Err(NotComparable) <==>
                !SameReference(a, b) && !a.Null? && !b.Null?
                && !IsComparable(a) && !IsComparable(b)
      ensures r.Err? ==> r == Err(NotComparable) || r.error.Thrown?
    {
      if SameReference(a, b) then Ok(0)
      else if a.Null? then Ok(-1)
      else if b.Null? then Ok(1)
      else if a.Str? && b.Str? then Ok(compareInfo(a.text, b.text))
      else if IsComparable(a) then Propagate(compareTo(a, b))
      else if IsComparable(b) then PropagateNegated(compareTo(b, a))
      else Err(NotComparable)
    }
  }

  /** `new Comparer(CultureInfo culture)`: rejects a null culture, and
      otherwise binds the culture's CompareInfo. */
  function NewComparer(culture: Option<CultureInfo>): (r: Result<Comparer>)
    ensures r.Ok? <==> culture.Some?
    ensures culture.None? ==> r.error == ArgumentNull("culture")
    ensures r.Ok? ==> r.value.compareInfo == culture.value.compareInfo
  {
    match culture
    case None => Err(ArgumentNull("culture"))
    case Some(c) => Ok(Comparer(c.compareInfo))
  }

  /** `Comparer(SerializationInfo info, StreamingContext context)`: rejects
      a null `info` before reading anything from it, and otherwise binds
      the CompareInfo stored in it. */
  function FromSerializationInfo(info: Option<SerializationInfo>): (r: Result<Comparer>)
    ensures r.Ok? <==> info.Some?
    ensures info.None? ==> r.error == ArgumentNull("info")
    ensures r.Ok? ==> r.value.compareInfo == info.value.storedCompareInfo
  {
    match info
    case None => Err(ArgumentNull("info"))
    case Some(i) => Ok(Comparer(i.storedCompareInfo))
  }

  /** `Comparer.Default`: a comparer built from the current culture, which
      is passed in because it is ambient process state. */
  function Default(currentCulture: CultureInfo): (c: Comparer)
    ensures c.compareInfo == currentCulture.compareInfo
  {
    NewComparer(Some(currentCulture)).value
  }

  /** `Comparer.DefaultInvariant`: a comparer built from the invariant
      culture. */
  function DefaultInvariant(invariantCulture: CultureInfo): (c: Comparer)
    ensures c.compareInfo == invariantCulture.compareInfo
  {
    NewComparer(Some(invariantCulture)).value
  }
}
