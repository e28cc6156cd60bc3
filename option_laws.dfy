/** The laws the `Option` combinators obey: the monad laws for `Bind`, the
    short-circuit of `Bind` and `SelectMany`, `SelectMany` as nested binds,
    the alternative laws of `MPlus`, and the agreement of equality with
    rendering and hashing. */
module OptionLaws {
  import opened Host
  import opened Options
  import opened MaybeCore

  /** `None<T>()` is the monad zero: no value, and reading its value raises
      invalid-operation. */
  lemma NoneIsMZero<T>()
    ensures MakeNone<T>() == MZero<T>()
    ensures !MakeNone<T>().HasValue()
    ensures MakeNone<T>().Value() == Err(InvalidOperation(NoValueMessage))
  {
  }

  /** `Some(null)` raises argument-null; `Some(x)` has a value, and it is `x`. */
  lemma SomeChecksNull<T>(x: T)
    ensures MakeSome<T>(Null) == Err(ArgumentNull("value"))
    ensures MakeSome(NonNull(x)).Ok? && MakeSome(NonNull(x)).value.HasValue()
    ensures MakeSome(NonNull(x)).value.Value() == Ok(x)
  {
  }

  /** On None, `Bind` answers None whatever the function is: the function is
      never consulted. A null function is still rejected. */
  lemma BindShortCircuits<T, U>(f: T -> Option<U>, g: T -> Option<U>)
    ensures Bind(None, NonNull(f)) == Bind(None, NonNull(g)) == Ok(None)
    ensures Bind<T, U>(None, Null) == Err(ArgumentNull("function"))
  {
  }

  /** Left identity: `Some(x).Bind(f) == f(x)`. */
  lemma LeftIdentity<T, U>(x: T, f: T -> Option<U>)
    ensures Bind(MakeSome(NonNull(x)).value, NonNull(f)) == Ok(f(x))
  {
  }

  /** Right identity: `m.Bind(Some) == m`. */
  lemma RightIdentity<T>(m: Option<T>)
    ensures Bind(m, NonNull((x: T) => MakeSome(NonNull(x)).value)) == Ok(m)
  {
  }

  /** Associativity: `m.Bind(f).Bind(g) == m.Bind(x => f(x).Bind(g))`. */
  lemma Associativity<T, U, V>(m: Option<T>, f: T -> Option<U>, g: U -> Option<V>)
    ensures Bind(Bind(m, NonNull(f)).value, NonNull(g))
         == Bind(m, NonNull((x: T) => Bind(f(x), NonNull(g)).value))
  {
  }

  /** `SelectMany` is two nested binds whose innermost step drops a null
      combination, as the query `from a in s from b in os(a) select rs(a, b)`. */
  lemma SelectManyIsNestedBind<S, O, R>(source: Option<S>, os: S -> Option<O>, rs: (S, O) -> Ref<R>)
    ensures SelectMany(source, NonNull(os), NonNull(rs))
         == Bind(source, NonNull((a: S) => Bind(os(a), NonNull((b: O) => HasValue(rs(a, b)))).value))
  {
  }

  /** When either side is None the result selector is never consulted (it may
      even be null), and when the source is None neither selector is. */
  lemma SelectManyShortCircuits<S, O, R>(source: Option<S>, os: S -> Option<O>, os': S -> Option<O>,
                                         rs: Ref<(S, O) -> Ref<R>>, rs': Ref<(S, O) -> Ref<R>>)
    ensures !source.HasValue() ==>
              SelectMany(source, NonNull(os), rs) == SelectMany(source, NonNull(os'), rs') == Ok(None)
    ensures source.HasValue() && !os(source.value).HasValue() ==>
              SelectMany(source, NonNull(os), rs) == SelectMany(source, NonNull(os), rs') == Ok(None)
  {
  }

  /** None is a left and a right identity of `MPlus`, a Some on the left
      absorbs the right, and `MPlus` is associative. */
  lemma MPlusLaws<T>(o: Option<T>, o1: Option<T>, o2: Option<T>, o3: Option<T>, x: T)
    ensures MPlus(None, o) == o
    ensures MPlus(o, None) == o
    ensures MPlus(Some(x), o) == Some(x)
    ensures MPlus(MPlus(o1, o2), o3) == MPlus(o1, MPlus(o2, o3))
  {
  }

  /** `Or(option, value)` is `MPlus` seen through null: unwrapping the
      alternative of `option` and the fallback. */
  lemma OrValueIsMPlus<T>(option: Option<T>, fallback: Ref<T>)
    ensures HasValue(OrValue(option, fallback)) == MPlus(option, HasValue(fallback))
    ensures option.HasValue() ==> OrValue(option, fallback) == NonNull(option.Value().value)
  {
  }

  /** Equal options have equal hash codes, whatever the payload's hash is. */
  lemma HashAgreesWithEquals<T>(option1: Option<T>, option2: Option<T>, hash: T -> int)
    ensures Equals(option1, option2) ==> option1.GetHashCode(hash) == option2.GetHashCode(hash)
  {
  }

  /** Rendering keeps None apart from every Some, and two Somes apart whenever
      the payload rendering keeps their payloads apart. */
  lemma ToStringSeparates<T>(option1: Option<T>, option2: Option<T>, render: T -> string)
    requires option1.HasValue() && option2.HasValue() ==>
               (render(option1.value) == render(option2.value) ==> option1.value == option2.value)
    ensures option1.ToString(render) == option2.ToString(render) ==> option1 == option2
  {
    var s1, s2 := option1.ToString(render), option2.ToString(render);
    match (option1, option2)
    case (None, None) =>
    case (Some(a), None) =>
      assert s1[0] != s2[0];
    case (None, Some(b)) =>
      assert s1[0] != s2[0];
    case (Some(a), Some(b)) =>
      assert s1[5..|s1| - 1] == render(a);
      assert s2[5..|s2| - 1] == render(b);
  }
}
