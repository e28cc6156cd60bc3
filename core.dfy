/** `Maybe.HasValue` (for a possibly-null reference and for `System.Nullable<T>`)
    and `Maybe.ToNullable`: total conversions between the host's ways of
    saying "no value" and `Option<T>`. */
module MaybeCore {
  import opened Host
  import opened Options

  /** `System.Nullable<T>` for a value type `T`: empty, or populated with a value. */
  datatype Nullable<T> = Empty | Populated(value: T)

  /** `Maybe.HasValue<T>(T value) where T : class`: None for null, otherwise
      `Option.Some(value)`. The null test guards the call to `Some`, so the
      argument-null error of `Some` is never reached. */
  function HasValue<T>(value: Ref<T>): (r: Option<T>)
    ensures r.HasValue() <==> value.NonNull?
    ensures r.HasValue() ==> value == NonNull(r.value)
  {
    if value.Null? then MakeNone() else MakeSome(value).value
  }

  /** `Maybe.HasValue<T>(Nullable<T> value) where T : struct`: Some of the
      underlying value when populated, otherwise None. */
  function HasValueNullable<T>(value: Nullable<T>): (r: Option<T>)
    ensures r.HasValue() <==> value.Populated?
    ensures value.Populated? ==> r.Value() == Ok(value.value)
  {
    if value.Populated? then MakeSome(NonNull(value.value)).value else MakeNone()
  }

  /** `Maybe.ToNullable`: a populated nullable for Some, an empty one for None. */
  function ToNullable<T>(option: Option<T>): (r: Nullable<T>)
    ensures r.Populated? <==> option.HasValue()
    ensures r.Populated? ==> option.Value() == Ok(r.value)
  {
    if option.HasValue() then Populated(option.Value().value) else Empty
  }

  /** Where `Option.Some` would reject its argument `HasValue` answers None,
      and everywhere else it answers exactly what `Option.Some` builds. */
  lemma HasValueGuardsSome<T>(value: Ref<T>)
    ensures value.Null? ==> MakeSome(value).Err? && HasValue(value) == MZero()
    ensures value.NonNull? ==> MakeSome(value) == Ok(HasValue(value))
  {
  }

  /** `HasValue` and `Or(option, null)` are inverse conversions between a
      possibly-null reference and an option. */
  lemma ReferenceRoundTrip<T>(value: Ref<T>, option: Option<T>)
    ensures OrValue(HasValue(value), Null) == value
    ensures HasValue(OrValue(option, Null)) == option
  {
  }

  /** `ToNullable` undoes `HasValue` on nullables. */
  lemma NullableRoundTrip<T>(value: Nullable<T>)
    ensures ToNullable(HasValueNullable(value)) == value
  {
  }

  /** `HasValue` undoes `ToNullable` on options. */
  lemma OptionRoundTrip<T>(option: Option<T>)
    ensures HasValueNullable(ToNullable(option)) == option
  {
  }
}
