# Option<T> and the Maybe adapters, in Dafny

This project models the core of the C# library `Maybe`. The library defines an
immutable `Option<T>` struct, which is None or Some(value) with a non-null
value. It also defines the combinators of the static `Option` class (`Some`,
`None`, `Bind`, `Select`, `SelectMany`, `MPlus`, both `Or`s) and the total
adapters of the static `Maybe` class. Those adapters turn a possibly-null
reference, a `Nullable<T>`, a dictionary lookup or a sequence query into an
`Option<T>`.

Modules, leaves first:

- `Host` (host.dfy) holds what the .NET host contributes. `Ref<T>` is a
  value that may be null. `Error` is the exceptions the library raises:
  `ArgumentNull(paramName)`, `InvalidOperation(message)`, and `NullReference`
  for a null delegate that gets invoked. `Result<T>` is "returned a value" or
  "threw". `TryGetValue` is the host dictionary's lookup. Delegates that
  callers may pass as null are `Ref<...>` of a Dafny function type.
- `Options` (option.dfy) is `Option<T>` and the static `Option` class. The
  checked `Option.Some` is `MakeSome`: it takes a `Ref<T>` and rejects null.
  The checked `Value` property is the member `Value()`. Rendering and
  hashing take the payload's own `ToString`/`GetHashCode` as parameters.
- `MaybeCore` (core.dfy) is `Maybe.HasValue` (for references and for
  `System.Nullable<T>`, a separate datatype here) and `Maybe.ToNullable`.
- `OptionLaws` (option_laws.dfy) holds the monad laws and the other
  algebraic laws of the combinators.
- `EnumerableExtension` (enumerable.dfy) holds the seven sequence adapters.
  A source is `NullSource`, `ListSource(items)` (an `IList`, read by index)
  or `EnumerableSource(items)` (read by one enumeration). Each adapter is one
  method with both branches. The method's contract ties the result to one
  specification function of the contents, so the fast path and the loop are
  proved to agree.
- `DictionaryExtension` and `DictionaryExtensionSnapshot` (dictionary.dfy)
  hold the two versions of `GetValue`/`MaybeGetValue`. The first drops null
  values. The second wraps whatever value it finds.

The repository holds several copies of the same code.
`Source/Maybe/Maybe/Maybe/Maybe.EnumerableExtension.cs` is the code of
`Source/Maybe/Maybe/Maybe.EnumerableExtension.cs` without its doc comments.
`Source/Maybe/Maybe/Maybe/Maybe.Core.cs` is the code of
`Source/MaybeFailure/Maybe/Maybe.Core.cs` likewise.
`Source/Maybe/Maybe/Maybe/Maybe.core.cs` contains only `HasValue` for
references. It declares a non-partial `Maybe` class, which cannot be
compiled together with the partial ones. Identical code is modelled once.
The rows below cite each copy at the member that states its behaviour. The
two dictionary versions really differ, so each gets its own module (see
Findings).

Behaviour of the code worth noting:
- More than one match in `SingleOrNone` raises the same
  `InvalidOperationException` type as reading `Value` of a None. Only the
  message differs. The model keeps the messages.
- A null `resultSelector` in `SelectMany` is not rejected up front. It is
  invoked, and so raises a null-reference error, only when both sides are
  Some.
- A null `otherSelector` is rejected by `Bind`, with parameter name
  `"function"`.

## Model

| member | source | states |
|---|---|---|
| `Options.Option.HasValue` | Source/Maybe/Maybe/Option.cs:51-54 | true exactly for Some |
| `Options.Option.Value` | Source/Maybe/Maybe/Option.cs:35-43 | succeeds exactly when the option has a value, with the payload; on None raises invalid-operation "Option object must have a value." |
| `Options.Option.ToString` | Source/Maybe/Maybe/Option.cs:65-69 | Some renders as "Some(" + payload rendering + ")", None as "None" |
| `Options.Option.GetHashCode` | Source/Maybe/Maybe/Option.cs:93-103 | the payload's hash for Some, 0 for None |
| `Options.MZero` | Source/Maybe/Maybe/Option.cs:157-162 | the monad zero has no value and reading its value fails |
| `Options.Equals` | Source/Maybe/Maybe/Option.cs:152-155 | equal iff both None, or both Some with equal payloads |
| `Options.EqualsOperator` | Source/Maybe/Maybe/Option.cs:118-121 | `==` is structural equality of the two options |
| `Options.NotEqualsOperator` | Source/Maybe/Maybe/Option.cs:137-140 | `!=` is the negation of `==` and is structural inequality |
| `Options.MakeSome` | Source/Maybe/Maybe/Option.cs:185-190 | fails with argument-null "value" exactly on null; otherwise a Some whose `Value` is the argument |
| `Options.MakeNone` | Source/Maybe/Maybe/Option.cs:201-204 | `None<T>()` is `MZero` |
| `Options.Bind` | Source/Maybe/Maybe/Option.cs:228-239 | a null function raises argument-null "function" even on None; on None gives None; on Some(v) gives exactly f(v), None included |
| `Options.MPlus` | Source/Maybe/Maybe/Option.cs:258-263 | the first option if it has a value, else the second; has a value iff either does |
| `Options.Select` | Source/Maybe/Maybe/Option.cs:287-291 | equal to `Bind` on every input |
| `Options.SelectMany` | Source/Maybe/Maybe/Option.cs:324-340 | Some(r) iff the source is Some(a), otherSelector(a) is Some(b) and resultSelector(a, b) = r is non-null; a null otherSelector raises argument-null; a null resultSelector raises only when both sides are Some; with a non-null otherSelector no other error arises |
| `Options.Or` | Source/Maybe/Maybe/Option.cs:359-362 | equal to `MPlus` |
| `Options.OrValue` | Source/Maybe/Maybe/Option.cs:381-386 | the payload if Some, else the fallback (possibly null) |
| `OptionLaws.NoneIsMZero` | Source/Maybe/Maybe.Test/Option.cs:12-33 | `None<T>()` is the default/zero value: no value, and `Value` raises invalid-operation |
| `OptionLaws.SomeChecksNull` | Source/Maybe/Maybe.Test/Option.cs:69-93 | `Some(null)` raises argument-null; `Some(x)` has a value and `Value` is x |
| `OptionLaws.BindShortCircuits` | Source/Maybe/Maybe.Test/Option.cs:122-147 | on None, `Bind` gives None whatever the function, so the function is not consulted; a null function still raises |
| `OptionLaws.LeftIdentity` | Source/Maybe/Maybe.Test/Option.cs:250-269 | `Some(x).Bind(f) == f(x)` |
| `OptionLaws.RightIdentity` | Source/Maybe/Maybe.Test/Option.cs:271-279 | `m.Bind(Some) == m` |
| `OptionLaws.Associativity` | Source/Maybe/Maybe.Test/Option.cs:281-312 | `m.Bind(f).Bind(g) == m.Bind(x => f(x).Bind(g))` |
| `OptionLaws.SelectManyIsNestedBind` | Source/Maybe/Maybe.Test/Option.cs:227-248 | `SelectMany(s, os, rs)` equals `s.Bind(a => os(a).Bind(b => HasValue(rs(a, b))))`, the two-variable query |
| `OptionLaws.SelectManyShortCircuits` | Source/Maybe/Maybe/Option.cs:328-339 | if either side is None the result is None whatever the result selector (even null); if the source is None, whatever either selector |
| `OptionLaws.MPlusLaws` | Source/Maybe/Maybe/Option.cs:258-263 | None is a left and right identity, Some absorbs from the left, `MPlus` is associative |
| `OptionLaws.OrValueIsMPlus` | Source/Maybe/Maybe/Option.cs:381-386 | reading `Or(o, x)` back through `HasValue` is `MPlus(o, HasValue(x))` |
| `OptionLaws.HashAgreesWithEquals` | Source/Maybe/Maybe/Option.cs:86-103 | equal options have equal hash codes |
| `OptionLaws.ToStringSeparates` | Source/Maybe/Maybe.Test/Option.cs:35-50 | None never renders like a Some; two Somes render alike only if their payloads render alike |
| `MaybeCore.HasValue` | Source/MaybeFailure/Maybe/Maybe.Core.cs:21-27 | None for null, otherwise Some holding the argument |
| `MaybeCore.HasValueNullable` | Source/MaybeFailure/Maybe/Maybe.Core.cs:42-48 | Some of the underlying value when populated, otherwise None |
| `MaybeCore.ToNullable` | Source/MaybeFailure/Maybe/Maybe.Core.cs:63-69 | populated with the payload for Some, empty for None |
| `MaybeCore.HasValueGuardsSome` | Source/Maybe/Maybe/Maybe/Maybe.core.cs:10-16 | the null test guards `Some`: where `Some` would raise, `HasValue` gives None; elsewhere it gives what `Some` builds |
| `MaybeCore.ReferenceRoundTrip` | Source/Maybe/Maybe/Maybe/Maybe.Core.cs:5-11 | `Or(HasValue(x), null) == x` for every possibly-null x, and `HasValue(Or(o, null)) == o` for every option: the reference overload and the fallback `Or` are inverse conversions |
| `MaybeCore.NullableRoundTrip` | Source/Maybe/Maybe/Maybe/Maybe.Core.cs:13-27 | `ToNullable(HasValue(n)) == n` |
| `MaybeCore.OptionRoundTrip` | Source/MaybeFailure/Maybe/Maybe.Core.cs:42-69 | `HasValue(ToNullable(o)) == o`, for the nullable overload of `HasValue` |
| `EnumerableExtension.FirstIndex` | Source/Maybe/Maybe/Maybe.EnumerableExtension.cs:138-146 | -1 iff nothing matches, otherwise the index of a match with no match before it |
| `EnumerableExtension.LastIndex` | Source/Maybe/Maybe/Maybe.EnumerableExtension.cs:233-242 | -1 iff nothing matches, otherwise the index of a match with no match after it |
| `EnumerableExtension.CountWhere` | Source/Maybe/Maybe/Maybe.EnumerableExtension.cs:351-365 | the number of matches is at most the length, and zero iff nothing matches |
| `EnumerableExtension.ElementAt` | Source/Maybe/Maybe/Maybe.EnumerableExtension.cs:7-26 | Some iff the index is in range and that element is non-null, and then it holds that element |
| `EnumerableExtension.First` | Source/Maybe/Maybe/Maybe.EnumerableExtension.cs:62-77 | Some iff the sequence is non-empty and its first element is non-null, and then it holds that element |
| `EnumerableExtension.Last` | Source/Maybe/Maybe/Maybe.EnumerableExtension.cs:151-166 | Some iff the sequence is non-empty and its last element is non-null, and then it holds that element |
| `EnumerableExtension.FirstWhere` | Source/Maybe/Maybe/Maybe.EnumerableExtension.cs:110-131 | None when nothing matches; otherwise the first match filtered by nullity (a null first match gives None) |
| `EnumerableExtension.LastWhere` | Source/Maybe/Maybe/Maybe.EnumerableExtension.cs:205-226 | None when nothing matches; otherwise the last match filtered by nullity |
| `EnumerableExtension.Single` | Source/Maybe/Maybe/Maybe.EnumerableExtension.cs:254-272 | no element gives None, one gives it filtered by nullity, more than one raises invalid-operation |
| `EnumerableExtension.SingleWhere` | Source/Maybe/Maybe/Maybe.EnumerableExtension.cs:319-344 | raises invalid-operation iff more than one element matches; None when nothing matches |
| `EnumerableExtension.TwoMatchesCount` | Source/Maybe/Maybe/Maybe/Maybe.EnumerableExtension.cs:214-219 | two distinct matches make the match count at least two |
| `EnumerableExtension.OnlyMatchCount` | Source/Maybe/Maybe/Maybe/Maybe.EnumerableExtension.cs:210-233 | a unique match makes the match count exactly one |
| `EnumerableExtension.CountAll` | Source/Maybe/Maybe/Maybe/Maybe.EnumerableExtension.cs:158-202 | when the predicate accepts every element, the count is the length |
| `EnumerableExtension.SingleWhereOnlyMatch` | Source/Maybe/Maybe/Maybe/Maybe.EnumerableExtension.cs:204-234 | exactly one match gives that match filtered by nullity |
| `EnumerableExtension.SingleWhereAmbiguous` | Source/Maybe/Maybe/Maybe/Maybe.EnumerableExtension.cs:214-219 | two matches raise invalid-operation "More than one element satisfies the condition in predicate." |
| `EnumerableExtension.TruePredicateAgrees` | Source/Maybe/Maybe/Maybe/Maybe.EnumerableExtension.cs:42-156 | when the predicate accepts every element, `FirstOrNone`/`LastOrNone` with the predicate agree with the plain forms |
| `EnumerableExtension.TruePredicateSingleAgrees` | Source/Maybe/Maybe/Maybe/Maybe.EnumerableExtension.cs:158-234 | when the predicate accepts every element, `SingleOrNone` with the predicate fails exactly when the plain form fails and otherwise gives the same answer |
| `EnumerableExtension.ElementAtEnds` | Source/Maybe/Maybe/Maybe/Maybe.EnumerableExtension.cs:7-129 | `ElementAtOrNone` at 0 and at the last index agree with `FirstOrNone` and `LastOrNone` |
| `EnumerableExtension.SomeComesFromSource` | Source/Maybe/Maybe/Maybe/Maybe.EnumerableExtension.cs:74-234 | every Some answer of the predicate forms is a non-null element of the sequence that matches |
| `EnumerableExtension.ElementAtOrNone` | Source/Maybe/Maybe/Maybe.EnumerableExtension.cs:27-60 | null source raises argument-null "source"; otherwise, on the list path and the decrementing loop alike, equals `ElementAt` (negative or out-of-range index gives None) |
| `EnumerableExtension.FirstOrNone` | Source/Maybe/Maybe/Maybe.EnumerableExtension.cs:78-108 | null source raises argument-null; otherwise list path and enumerator path both equal `First` |
| `EnumerableExtension.FirstOrNoneWhere` | Source/Maybe/Maybe/Maybe.EnumerableExtension.cs:132-149 | null source, then null predicate, raise argument-null; otherwise the loop that stops at the first match equals `FirstWhere` |
| `EnumerableExtension.LastOrNone` | Source/Maybe/Maybe/Maybe.EnumerableExtension.cs:167-203 | null source raises argument-null; otherwise list path and do/while loop both equal `Last` |
| `EnumerableExtension.LastOrNoneWhere` | Source/Maybe/Maybe/Maybe.EnumerableExtension.cs:227-252 | null source, then null predicate, raise argument-null; otherwise the loop whose flag and result track the last match of the prefix equals `LastWhere` |
| `EnumerableExtension.SingleOrNone` | Source/Maybe/Maybe/Maybe.EnumerableExtension.cs:273-317 | null source raises argument-null; otherwise list path and enumerator path both equal `Single` |
| `EnumerableExtension.SingleOrNoneWhere` | Source/Maybe/Maybe/Maybe.EnumerableExtension.cs:345-375 | null source, then null predicate, raise argument-null; otherwise the loop that raises at the second match equals `SingleWhere` |
| `DictionaryExtension.GetValue` | Source/Maybe/Maybe/Maybe.DictionaryExtension.cs:53-68 | null dictionary raises argument-null; otherwise never fails, and is Some iff the key is present with a non-null value, holding that value |
| `DictionaryExtension.MaybeGetValue` | Source/Maybe/Maybe/Maybe.DictionaryExtension.cs:27-31 | equal to `GetValue` |
| `DictionaryExtension.GetValueCases` | Source/MaybeFailure.Test/Maybe/Maybe.DictionaryExtension.cs:12-71 | present and non-null gives Some, present and null gives None, absent gives None; never the argument-null error of `Some` |
| `DictionaryExtensionSnapshot.GetValue` | Source/Maybe/Maybe/Maybe/Maybe.DictionaryExtension.cs:13-25 | null dictionary raises argument-null; absent key gives None; present key gives Some of its value, or raises argument-null "value" when that value is null |
| `DictionaryExtensionSnapshot.MaybeGetValue` | Source/Maybe/Maybe/Maybe/Maybe.DictionaryExtension.cs:7-11 | delegates to `GetValue` |
| `DictionaryExtensionSnapshot.AgreesWithoutNullValues` | Source/Maybe/Maybe/Maybe/Maybe.DictionaryExtension.cs:16-24 | on dictionaries without null values both versions agree |
| `DictionaryExtensionSnapshot.NullValueRaises` | Source/MaybeFailure.Test/Maybe/Maybe.DictionaryExtension.cs:31-40 | on `{"foo": null}` this version raises where the filtering one gives None |

## Left out

- The parse adapters (`ParseBoolean`, `ParseChar`, the generated numeric `Parse*`, `ParseDateTime*`, `ParseTimeSpan*`) are not modelled. They wrap .NET `TryParse`/`TryParseExact`, whose culture- and style-dependent behaviour is not part of the repository; `ParseSingle`/`ParseDouble` are floating point.
- The code generator (Source/Maybe.Parse.Generate/Program.cs) is file I/O around a template that is not part of this model.
- Disposing the enumerator (`using`) is not modelled. Neither is the `as IList<TSource>` runtime type test: the caller's choice of `ListSource` or `EnumerableSource` stands in for it.
- The payload's `ToString` (through `string.Format`) and `GetHashCode` are parameters, not modelled; hash codes are unbounded integers rather than 32-bit.
- `Equals(object)` on an argument that is not an `Option<T>` (a dynamic type test) is not modelled; on an `Option<T>` it is `Equals`. The reflection-based struct equality that both defer to is modelled as datatype equality.
- `default(Option<T>)` cannot be written generically in Dafny; `MZero` is the None constructor, which is what the struct's default value holds.
- A null key given to `IDictionary.TryGetValue` (which raises in .NET's `Dictionary`) is not modelled; keys are never null here.
- Predicates and selectors are pure functions, so a predicate's side effects, and an exception thrown from one, are not modelled.
- `ElementAtOrNone`'s `int index` is an unbounded integer; the code only decrements it while it is positive, so no 32-bit wrap-around can occur.
- OptionLaws.BindShortCircuits: states that on None the result does not depend on the function, rather than that the function is never invoked, because the model has no side effects to observe.
- OptionLaws.SelectManyShortCircuits: states that the result does not depend on the selectors that are skipped, rather than that they are never invoked, for the same reason.
- Only finite sequences are modelled. On an infinite `IEnumerable`, `ElementAtOrNone`, `FirstOrNone`, `FirstOrNoneWhere` (at a match) and `SingleOrNoneWhere` (at a second match) still return, and `LastOrNone`/`LastOrNoneWhere` never do; the model does not capture either.
- The test projects are not modelled; they serve as evidence for the rows above.

## Findings

| source | as written | input that shows it | evidently intended | confidence | as-written member | corrected member |
|---|---|---|---|---|---|---|
| Source/Maybe/Maybe/Maybe/Maybe.DictionaryExtension.cs:19-21 | a key found with a null value is passed to `Option.Some`, which raises an argument-null error | dictionary `{"foo": null}`, key `"foo"` | None, as the dictionary tests expect (Source/MaybeFailure.Test/Maybe/Maybe.DictionaryExtension.cs:31-40) and as the later version returns | high; not executed | `DictionaryExtensionSnapshot.NullValueRaises` | `DictionaryExtension.GetValue` |
