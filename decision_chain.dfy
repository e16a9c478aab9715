/** The resolution rules of `Comparer.Compare` as a table: an ordered
    chain of rules, each with a condition under which it applies and the
    outcome it gives, and "the first rule that applies decides". This is
    the reference definition that `Collections.Comparer.Compare` is proved
    to follow. */
module DecisionChain {
  import opened Int32
  import opened Objects

  datatype Rule =
    | SameReferenceRule   // a and b are the same reference: 0
    | FirstNullRule       // a is null: -1
    | SecondNullRule      // b is null: 1
    | BothStringsRule     // two strings: the culture's string order
    | FirstComparableRule // a is IComparable: a.CompareTo(b)
    | SecondComparableRule // b is IComparable: -b.CompareTo(a)
    | RejectRule          // otherwise: ArgumentException

  /** The rules in priority order. */
  const Chain: seq<Rule> := [SameReferenceRule, FirstNullRule, SecondNullRule,
                             BothStringsRule, FirstComparableRule,
                             SecondComparableRule, RejectRule]

  predicate Applies(rule: Rule, a: Value, b: Value) {
    match rule
    case SameReferenceRule => SameReference(a, b)
    case FirstNullRule => a.Null?
    case SecondNullRule => b.Null?
    case BothStringsRule => a.Str? && b.Str?
    case FirstComparableRule => IsComparable(a)
    case SecondComparableRule => IsComparable(b)
    case RejectRule => true
  }

  /** What a rule yields when it decides. */
  function Outcome(rule: Rule, compareInfo: StringOrder, compareTo: CompareToOracle,
                   a: Value, b: Value): Result<int32>
    requires Applies(rule, a, b)
  {
    match rule
    case SameReferenceRule => Ok(0)
    case FirstNullRule => Ok(-1)
    case SecondNullRule => Ok(1)
    case BothStringsRule => Ok(compareInfo(a.text, b.text))
    case FirstComparableRule => Propagate(compareTo(a, b))
    case SecondComparableRule => PropagateNegated(compareTo(b, a))
    case RejectRule => Err(NotComparable)
  }

  /** The index of the first rule of `rules` that applies to (a, b), or
      `|rules|` when none does. */
  function FirstApplicable(rules: seq<Rule>, a: Value, b: Value): (k: nat)
    ensures k <= |rules|
    ensures k < |rules| ==> Applies(rules[k], a, b)
    ensures forall j :: 0 <= j < k ==> !Applies(rules[j], a, b)
    ensures k == |rules| <==> forall j :: 0 <= j < |rules| ==> !Applies(rules[j], a, b)
  {
    if rules == [] then 0
    else if Applies(rules[0], a, b) then 0
    else 1 + FirstApplicable(rules[1..], a, b)
  }

  /** A rule that applies, with no earlier rule applying, is the one the
      chain selects. */
  lemma FirstApplicableIsFirst(rules: seq<Rule>, i: nat, a: Value, b: Value)
    requires i < |rules| && Applies(rules[i], a, b)
    requires forall j :: 0 <= j < i ==> !Applies(rules[j], a, b)
    ensures FirstApplicable(rules, a, b) == i
  {
  }

  /** The last rule always applies, so the chain always decides. */
  lemma ChainDecides(a: Value, b: Value)
    ensures FirstApplicable(Chain, a, b) < |Chain|
  {
    assert Applies(Chain[|Chain| - 1], a, b);
  }
}
