# System.Collections.Comparer, modelled in Dafny

This project models the non-generic default comparer of .NET,
`System.Collections.Comparer`. Its `Compare(object? a, object? b)` orders two
values of unknown type. It tries a fixed chain of rules, and the first rule
that applies decides:

1. `a` and `b` are the same reference: `0`.
2. `a` is null: `-1`; `b` is null: `1`.
3. Both are strings: the culture-bound `CompareInfo.Compare(sa, sb)`.
4. `a` is `IComparable`: `a.CompareTo(b)`.
5. Only `b` is `IComparable`: `-b.CompareTo(a)`, negated in unchecked 32-bit arithmetic.
6. Otherwise: `ArgumentException`.

The comparer holds one `readonly` field, the culture's `CompareInfo`. It is
bound once by the public constructor (which rejects a null culture) or by the
deserialization constructor (which rejects a null `SerializationInfo`).

Files and modules:

- `int32.dfy`, module `Int32`: C#'s `int` and unchecked negation, which wraps at `int.MinValue`.
- `objects.dfy`, module `Objects`: `object?` values with reference identity (`Value`), the `IComparable` capability, the outcome of a `CompareTo` call (`Reply`), exceptions and `Result`.
- `decision_chain.dfy`, module `DecisionChain`: the resolution rules as a table (`Chain`) with "the first rule that applies decides" (`FirstApplicable`). This is the reference definition the comparer is proved against.
- `comparer.dfy`, module `Collections`: the `Comparer` record with `Compare`, both constructors, and `Default` / `DefaultInvariant`.
- `properties.dfy`, module `ComparerProperties`: the lemmas.

Modelling choices:

- Reference identity. Every non-null `Value` carries an `id`. Two values are the same reference exactly when they are equal as Dafny values. So two distinct string objects with the same text are not the same reference.
- Strings are `IComparable`, as `System.String` is. A string compared with a non-string therefore goes to rule 4 or 5.
- `IComparable.CompareTo` is foreign code. It is a parameter `compareTo: (Value, Value) -> Reply`. A call either returns an `int32` or throws, and `Compare` lets a thrown exception propagate unchanged.
- The culture's text ordering is locale data. It is a function `(string, string) -> int32` held by the culture and bound into the comparer.
- The comparer is an immutable datatype because its only field is `readonly`. `Compare` is a Dafny function of the bound order, the `CompareTo` implementations and its two arguments. It is deterministic only because the model takes those two foreign calls to be deterministic and free of side effects (see "## Left out").
- `Comparer.Default` and `Comparer.DefaultInvariant` are both `new Comparer(culture)` and differ only in the culture passed in: the current culture for one, the invariant culture for the other. So the two functions have the same body.
- `CompareInfo.Compare` may return any int, not only -1, 0 or 1. `StringOrder` returns an `int32`, and rule 3 passes it through unchanged.

## Model

| member | source | states |
|---|---|---|
| `Int32.Negate` | src/libraries/System.Private.CoreLib/src/System/Collections/Comparer.cs:68 | unchecked `-x` is congruent to the mathematical negation modulo 2^32 |
| `Int32.NegateUnique` | src/libraries/System.Private.CoreLib/src/System/Collections/Comparer.cs:68 | exactly one int32 meets that congruence, so the congruence fully determines `Negate` |
| `Int32.NegateExact` | src/libraries/System.Private.CoreLib/src/System/Collections/Comparer.cs:68 | away from `int.MinValue`, the negation is exact and flips the sign |
| `Int32.NegateMinValue` | src/libraries/System.Private.CoreLib/src/System/Collections/Comparer.cs:68 | `-int.MinValue` wraps to `int.MinValue`, so the sign stays negative |
| `Objects.Propagate` | src/libraries/System.Private.CoreLib/src/System/Collections/Comparer.cs:65 | `return ia.CompareTo(b)` succeeds exactly when the call returns, with that int; a thrown exception propagates |
| `Objects.PropagateNegated` | src/libraries/System.Private.CoreLib/src/System/Collections/Comparer.cs:68 | `return -ib.CompareTo(a)` gives the wrapped negation of the returned int; a thrown exception propagates |
| `DecisionChain.FirstApplicable` | src/libraries/System.Private.CoreLib/src/System/Collections/Comparer.cs:57-70 | the chosen rule applies and no earlier rule applies; the result is past the end exactly when no rule applies |
| `DecisionChain.FirstApplicableIsFirst` | src/libraries/System.Private.CoreLib/src/System/Collections/Comparer.cs:57-70 | a rule that applies, with no earlier rule applying, is the one the chain selects |
| `DecisionChain.ChainDecides` | src/libraries/System.Private.CoreLib/src/System/Collections/Comparer.cs:70 | the final rule (throw) always applies, so the chain decides every pair |
| `Collections.Comparer.Compare` | src/libraries/System.Private.CoreLib/src/System/Collections/Comparer.cs:55-71 | fails with `NotComparable` exactly when the operands are distinct, both non-null and neither is `IComparable`; any other failure comes from a propagated `CompareTo` exception |
| `ComparerProperties.CompareFollowsChain` | src/libraries/System.Private.CoreLib/src/System/Collections/Comparer.cs:49-71 | `Compare` gives the outcome of the first rule in the chain that applies |
| `ComparerProperties.EarlierRulesTakePriority` | src/libraries/System.Private.CoreLib/src/System/Collections/Comparer.cs:57-70 | if rule i applies and no earlier rule does, rule i decides, whatever later rules would say |
| `ComparerProperties.SameReferenceGivesZero` | src/libraries/System.Private.CoreLib/src/System/Collections/Comparer.cs:57 | the same reference (two nulls included) gives 0 under every culture and every `CompareTo` |
| `ComparerProperties.NullOrdering` | src/libraries/System.Private.CoreLib/src/System/Collections/Comparer.cs:58-59 | null against non-null gives exactly -1; non-null against null gives exactly 1 |
| `ComparerProperties.DistinctStringsUseCulture` | src/libraries/System.Private.CoreLib/src/System/Collections/Comparer.cs:61-62 | two distinct strings give exactly the bound culture's result, and `CompareTo` is never consulted |
| `ComparerProperties.EqualTextIsNotSameReference` | src/libraries/System.Private.CoreLib/src/System/Collections/Comparer.cs:57-62 | distinct string objects with equal text skip the identity rule and go to the culture |
| `ComparerProperties.FirstComparableDecides` | src/libraries/System.Private.CoreLib/src/System/Collections/Comparer.cs:64-65 | if `a` is `IComparable` and the pair is not two strings, the outcome is exactly `a.CompareTo(b)`, whether or not `b` is `IComparable` |
| `ComparerProperties.SecondComparableDecides` | src/libraries/System.Private.CoreLib/src/System/Collections/Comparer.cs:67-68 | if only `b` is `IComparable`, the outcome is the wrapped negation of `b.CompareTo(a)`, not clamped; away from `int.MinValue` it is exactly `-n` |
| `ComparerProperties.NeitherComparableFails` | src/libraries/System.Private.CoreLib/src/System/Collections/Comparer.cs:70 | distinct non-null values, neither `IComparable`, give `NotComparable` under every culture and `CompareTo` |
| `ComparerProperties.BorrowedOrderAtMinValue` | src/libraries/System.Private.CoreLib/src/System/Collections/Comparer.cs:64-68 | when `b.CompareTo(a)` returns `int.MinValue`, both `Compare(a, b)` and `Compare(b, a)` give `int.MinValue` |
| `ComparerProperties.CompareConsultsOnly` | src/libraries/System.Private.CoreLib/src/System/Collections/Comparer.cs:55-71 | `Compare` reads the culture only at the two texts and `CompareTo` only at (a, b) and (b, a) |
| `ComparerProperties.CompareAntisymmetric` | src/libraries/System.Private.CoreLib/src/System/Collections/Comparer.cs:49-71 | with antisymmetric delegated orders and no `int.MinValue`, `Compare(a, b)` succeeds iff `Compare(b, a)` does, and then with opposite sign |
| `Collections.NewComparer` | src/libraries/System.Private.CoreLib/src/System/Collections/Comparer.cs:26-31 | succeeds exactly for a non-null culture and binds that culture's `CompareInfo`; a null culture gives `ArgumentNullException("culture")` |
| `ComparerProperties.NewComparerUsesCulture` | src/libraries/System.Private.CoreLib/src/System/Collections/Comparer.cs:21-31 | a comparer built from a culture orders distinct strings by that culture's `CompareInfo` |
| `Collections.FromSerializationInfo` | src/libraries/System.Private.CoreLib/src/System/Collections/Comparer.cs:33-38 | a null `info` gives `ArgumentNullException("info")` before anything is read; otherwise the stored `CompareInfo` is bound |
| `ComparerProperties.FromSerializationInfoUsesStoredOrder` | src/libraries/System.Private.CoreLib/src/System/Collections/Comparer.cs:33-38 | corollary of the two constructors' contracts: a deserialized comparer compares exactly like one built from a culture with the stored `CompareInfo` (not a serialization round trip, since `GetObjectData` is not modelled) |
| `Collections.Default` | src/libraries/System.Private.CoreLib/src/System/Collections/Comparer.cs:23 | `Default` is bound to the current culture's `CompareInfo` |
| `Collections.DefaultInvariant` | src/libraries/System.Private.CoreLib/src/System/Collections/Comparer.cs:24 | `DefaultInvariant` is bound to the invariant culture's `CompareInfo` |
| `ComparerProperties.DefaultsCanDiverge` | src/libraries/System.Private.CoreLib/src/System/Collections/Comparer.cs:23-24 | if the current and invariant cultures order two texts differently, `Default` and `DefaultInvariant` disagree on two distinct strings with those texts |

## Left out

- `GetObjectData` (`info.AddValue`): obsolete legacy-formatter plumbing over `SerializationInfo`, a library that is not part of this model.
- FromSerializationInfo: the lookup `info.GetValue("CompareInfo", ...)` is not modelled. The record holds the value that lookup yields, so a missing entry, a failed cast, a stored null (the `!` at line 37) and the unused `StreamingContext` are not represented.
- The internals of `CultureInfo` and `CompareInfo` text ordering: locale data from an external library. The order is an abstract function supplied with the culture.
- The concrete `IComparable.CompareTo` implementations, such as `string.CompareTo(object)` throwing on a non-string argument: foreign code, so an abstract parameter.
- Default, DefaultInvariant: resolving `CultureInfo.CurrentCulture` and static initialisation order are ambient process state. The two cultures are parameters.
- The attributes (`Serializable`, `TypeForwardedFrom`, `Obsolete`, `EditorBrowsable`) and the text of the `SR.Argument_ImplementIComparable` message. The exception is modelled by its kind only.
- Concurrency: the comparer is immutable, so concurrent use is not modelled separately.
- Stateful or nondeterministic `CompareTo` and `CompareInfo.Compare`: both are pure Dafny functions (`CompareToOracle`, `StringOrder`). So the model assumes every such call is free of side effects and gives the same answer for the same arguments. In C#, a `CompareTo` that keeps state makes `Compare` nondeterministic as well.
- Strings holding a lone UTF-16 surrogate: `Str.text` is a Dafny `string`, which cannot hold an unpaired surrogate, while a C# string can and is passed to `CompareInfo.Compare` as it is. Such strings are outside the domain of every lemma.
