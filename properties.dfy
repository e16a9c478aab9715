/** What `Comparer.Compare` and the constructors promise, stated over the
    model: the priority of the resolution rules, the outcome of each rule,
    what Compare consults, and the antisymmetry it inherits (and where it
    does not) from the orders it delegates to. */
module ComparerProperties {
  import opened Int32
  import opened Objects
  import opened DecisionChain
  import opened Collections

  /** Compare gives the outcome of the first rule of the chain that
      applies. */
  lemma CompareFollowsChain(c: Comparer, compareTo: CompareToOracle, a: Value, b: Value)
    ensures FirstApplicable(Chain, a, b) < |Chain|
    ensures c.Compare(compareTo, a, b)
         == Outcome(Chain[FirstApplicable(Chain, a, b)], c.compareInfo, compareTo, a, b)
  {
    ChainDecides(a, b);
    var k := FirstApplicable(Chain, a, b);
    if SameReference(a, b) {
      FirstApplicableIsFirst(Chain, 0, a, b);
    } else if a.Null? {
      FirstApplicableIsFirst(Chain, 1, a, b);
    } else if b.Null? {
      FirstApplicableIsFirst(Chain, 2, a, b);
    } else if a.Str? && b.Str? {
      FirstApplicableIsFirst(Chain, 3, a, b);
    } else if IsComparable(a) {
      FirstApplicableIsFirst(Chain, 4, a, b);
    } else if IsComparable(b) {
      FirstApplicableIsFirst(Chain, 5, a, b);
    } else {
      FirstApplicableIsFirst(Chain, 6, a, b);
    }
  }

  /** Earlier rules take priority: whenever rule i applies and no earlier
      rule does, rule i decides, whatever later rules would say. */
  lemma EarlierRulesTakePriority(c: Comparer, compareTo: CompareToOracle, a: Value, b: Value, i: nat)
    requires i < |Chain| && Applies(Chain[i], a, b)
    requires forall j :: 0 <= j < i ==> !Applies(Chain[j], a, b)
    ensures c.Compare(compareTo, a, b) == Outcome(Chain[i], c.compareInfo, compareTo, a, b)
  {
    CompareFollowsChain(c, compareTo, a, b);
    FirstApplicableIsFirst(Chain, i, a, b);
  }

  // ---- The outcome of each rule ----

  /** Rule 1: the same reference gives 0 without consulting the culture or
      any CompareTo, so even two nulls, or one string object compared with
      itself, give 0 under every comparer and every CompareTo. */
  lemma SameReferenceGivesZero(c1: Comparer, c2: Comparer, o1: CompareToOracle, o2: CompareToOracle, x: Value)
    ensures c1.Compare(o1, x, x) == Ok(0)
    ensures c1.Compare(o1, x, x) == c2.Compare(o2, x, x)
  {
  }

  /** Rule 2: null sorts before every non-null value, and the results are
      exactly -1 and 1. */
  lemma NullOrdering(c: Comparer, compareTo: CompareToOracle, v: Value)
    requires !v.Null?
    ensures c.Compare(compareTo, Null, v) == Ok(-1)
    ensures c.Compare(compareTo, v, Null) == Ok(1)
  {
  }

  /** Rule 3: two distinct string objects are ordered by the bound culture,
      verbatim, whatever the strings' own CompareTo would say. */
  lemma DistinctStringsUseCulture(c: Comparer, o1: CompareToOracle, o2: CompareToOracle, a: Value, b: Value)
    requires a.Str? && b.Str? && a != b
    ensures c.Compare(o1, a, b) == Ok(c.compareInfo(a.text, b.text))
    ensures c.Compare(o1, a, b) == c.Compare(o2, a, b)
  {
  }

  /** Identity is by reference, not by content: two distinct string
      objects with the same text still go to the culture, which decides
      whether they are equal. */
  lemma EqualTextIsNotSameReference(c: Comparer, compareTo: CompareToOracle, i: nat, j: nat, s: string)
    requires i != j
    ensures c.Compare(compareTo, Str(i, s), Str(j, s)) == Ok(c.compareInfo(s, s))
  {
  }

  /** Rule 4: when a is IComparable and the pair is not two strings, the
      outcome is exactly a.CompareTo(b): its int, or its exception. Whether
      b is IComparable plays no part. */
  lemma FirstComparableDecides(c: Comparer, compareTo: CompareToOracle, a: Value, b: Value)
    requires a != b && !b.Null? && IsComparable(a) && !(a.Str? && b.Str?)
    ensures c.Compare(compareTo, a, b) == Propagate(compareTo(a, b))
  {
  }

  /** Rule 5: when only b is IComparable, the outcome is the unchecked
      negation of b.CompareTo(a). It is not clamped to -1, 0 or 1: away
      from int.MinValue it is exactly the negated int. */
  lemma SecondComparableDecides(c: Comparer, compareTo: CompareToOracle, a: Value, b: Value)
    requires a != b && !a.Null? && !IsComparable(a) && IsComparable(b)
    ensures c.Compare(compareTo, a, b) == PropagateNegated(compareTo(b, a))
    ensures compareTo(b, a).Returns? && compareTo(b, a).n as int != MinValue ==>
              c.Compare(compareTo, a, b).value as int == -(compareTo(b, a).n as int)
  {
  }

  /** Rule 6: two distinct non-null values neither of which is IComparable
      cannot be ordered by any comparer, whatever CompareTo does. */
  lemma NeitherComparableFails(c: Comparer, compareTo: CompareToOracle, a: Value, b: Value)
    requires a != b && !a.Null? && !b.Null? && !IsComparable(a) && !IsComparable(b)
    ensures c.Compare(compareTo, a, b) == Err(NotComparable)
  {
  }

  /** Because negation is unchecked, the borrowed order does not always flip
      the sign: if b.CompareTo(a) returns int.MinValue, Compare reports a
      before b AND b before a. */
  lemma BorrowedOrderAtMinValue(c: Comparer, compareTo: CompareToOracle, a: Value, b: Value)
    requires !a.Null? && !IsComparable(a) && IsComparable(b)
    requires compareTo(b, a) == Returns(MinValue as int32)
    ensures c.Compare(compareTo, a, b) == Ok(MinValue as int32)
    ensures c.Compare(compareTo, b, a) == Ok(MinValue as int32)
  {
  }

  // ---- What Compare consults ----

  /** Compare reads the culture's order only at (a.text, b.text) and
      CompareTo only at (a, b) and (b, a): two comparers and two CompareTo
      implementations that agree there give the same outcome. */
  lemma CompareConsultsOnly(c1: Comparer, c2: Comparer, o1: CompareToOracle, o2: CompareToOracle, a: Value, b: Value)
    requires a.Str? && b.Str? ==> c1.compareInfo(a.text, b.text) == c2.compareInfo(a.text, b.text)
    requires o1(a, b) == o2(a, b) && o1(b, a) == o2(b, a)
    ensures c1.Compare(o1, a, b) == c2.Compare(o2, a, b)
  {
  }

  // ---- Antisymmetry ----

  /** The culture's order is antisymmetric in sign. */
  ghost predicate AntisymmetricOrder(order: StringOrder) {
    forall s, t :: Sign(order(s, t)) == -Sign(order(t, s))
  }

  /** CompareTo is consistent between IComparable objects: it throws in one
      direction exactly when it throws in the other, and otherwise its
      signs are opposite. */
  ghost predicate AntisymmetricCompareTo(compareTo: CompareToOracle) {
    forall x, y :: IsComparable(x) && IsComparable(y) ==>
      (compareTo(x, y).Returns? <==> compareTo(y, x).Returns?) &&
      (compareTo(x, y).Returns? && compareTo(y, x).Returns? ==>
         Sign(compareTo(x, y).n) == -Sign(compareTo(y, x).n))
  }

  /** CompareTo never returns int.MinValue. */
  ghost predicate AvoidsMinValue(compareTo: CompareToOracle) {
    forall x, y :: compareTo(x, y).Returns? ==> compareTo(x, y).n as int != MinValue
  }

  /** When the orders Compare delegates to are antisymmetric and CompareTo
      avoids int.MinValue, Compare is antisymmetric on every pair: it
      succeeds in one direction exactly when it succeeds in the other, and
      the signs are then opposite. */
  lemma CompareAntisymmetric(c: Comparer, compareTo: CompareToOracle, a: Value, b: Value)
    requires AntisymmetricOrder(c.compareInfo)
    requires AntisymmetricCompareTo(compareTo)
    requires AvoidsMinValue(compareTo)
    ensures c.Compare(compareTo, a, b).Ok? <==> c.Compare(compareTo, b, a).Ok?
    ensures c.Compare(compareTo, a, b).Ok? ==>
              Sign(c.Compare(compareTo, a, b).value) == -Sign(c.Compare(compareTo, b, a).value)
  {
  }

  // ---- Construction ----

  /** A comparer built from a culture orders distinct string objects by
      that culture's CompareInfo, and a null culture yields no comparer. */
  lemma NewComparerUsesCulture(culture: CultureInfo, compareTo: CompareToOracle, a: Value, b: Value)
    requires a.Str? && b.Str? && a != b
    ensures NewComparer(None) == Err(ArgumentNull("culture"))
    ensures NewComparer(Some(culture)).Ok?
    ensures NewComparer(Some(culture)).value.Compare(compareTo, a, b)
         == Ok(culture.compareInfo(a.text, b.text))
  {
  }

  /** A deserialized comparer compares like a comparer built on the
      CompareInfo stored in the SerializationInfo; a null info yields no
      comparer. */
  lemma FromSerializationInfoUsesStoredOrder(info: SerializationInfo, culture: CultureInfo,
                                             compareTo: CompareToOracle, a: Value, b: Value)
    requires info.storedCompareInfo == culture.compareInfo
    ensures FromSerializationInfo(None) == Err(ArgumentNull("info"))
    ensures FromSerializationInfo(Some(info)).Ok?
    ensures FromSerializationInfo(Some(info)).value.Compare(compareTo, a, b)
         == NewComparer(Some(culture)).value.Compare(compareTo, a, b)
  {
  }

  /** Default and DefaultInvariant disagree on two distinct string objects
      whenever the current and invariant cultures order their texts
      differently. */
  lemma DefaultsCanDiverge(current: CultureInfo, invariantCulture: CultureInfo, compareTo: CompareToOracle,
                           i: nat, j: nat, s: string, t: string)
    requires i != j
    requires current.compareInfo(s, t) != invariantCulture.compareInfo(s, t)
    ensures Default(current).Compare(compareTo, Str(i, s), Str(j, t))
         != DefaultInvariant(invariantCulture).Compare(compareTo, Str(i, s), Str(j, t))
  {
  }
}
