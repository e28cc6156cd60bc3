/** The `Option<T>` value type and the static `Option` class: construction,
    the checked accessor, bind and its query-syntax aliases, the alternative
    operators, equality, rendering and hashing. */
module Options {
  import opened Host

  /** Message of the exception raised by reading `Value` of a None. */
  const NoValueMessage := "Option object must have a value."

  /** `System.Option<T>`. None is the struct's default value (the monad zero);
      a Some payload is never null, because the only public way to build a Some
      is `MakeSome`, which rejects null. The payload `value` is the private
      field; callers go through the checked accessor `Value`. */
  datatype Option<T> = None | Some(value: T) {

    /** The `HasValue` property: true exactly for a Some. */
    predicate HasValue(): (b: bool)
      ensures b <==> this != None
    {
      Some?
    }

    /** The `Value` property: the payload, or an invalid-operation error on None. */
    function Value(): (r: Result<T>)
      ensures r.Ok? <==> HasValue()
      ensures HasValue() ==> r == Ok(value)
      ensures !HasValue() ==> r == Err(InvalidOperation(NoValueMessage))
    {
      if !HasValue() then Err(InvalidOperation(NoValueMessage)) else Ok(value)
    }

    /** `ToString`; `render` stands for the payload's own `ToString`, which
        `string.Format` calls. */
    function ToString(render: T -> string): (s: string)
      ensures HasValue() ==> s == "Some(" + render(value) + ")"
      ensures !HasValue() ==> s == "None"
    {
      if HasValue() then "Some(" + render(Value().value) + ")" else "None"
    }

    /** `GetHashCode`; `hash` stands for the payload's own `GetHashCode`. */
    function GetHashCode(hash: T -> int): (h: int)
      ensures HasValue() ==> h == hash(value)
      ensures !HasValue() ==> h == 0
    {
      if HasValue() then hash(Value().value) else 0
    }
  }

  /** `Option<T>.MZero`, the default value of the struct. */
  function MZero<T>(): (r: Option<T>)
    ensures !r.HasValue()
    ensures r.Value().Err?
  {
    None
  }

  /** `Equals(Option<T>)`. The source defers to the runtime's field-by-field
      struct equality; since a None always holds the default payload, that is
      equality of the two states and, for two Somes, of the payloads. */
  function Equals<T(==)>(option1: Option<T>, option2: Option<T>): (r: bool)
    ensures r <==> ((!option1.HasValue() && !option2.HasValue())
                    || (option1.HasValue() && option2.HasValue() && option1.value == option2.value))
  {
    option1 == option2
  }

  /** `operator ==`, defined as `Equals`. */
  function EqualsOperator<T(==)>(option1: Option<T>, option2: Option<T>): (r: bool)
    ensures r <==> option1 == option2
  {
    Equals(option1, option2)
  }

  /** `operator !=`, defined as the negation of `==`. */
  function NotEqualsOperator<T(==)>(option1: Option<T>, option2: Option<T>): (r: bool)
    ensures r <==> !EqualsOperator(option1, option2)
    ensures r <==> option1 != option2
  {
    !EqualsOperator(option1, option2)
  }

  /** `Option.Some(value)`: rejects null with an argument-null error. */
  function MakeSome<T>(value: Ref<T>): (r: Result<Option<T>>)
    ensures r.Err? <==> value.Null?
    ensures r.Err? ==> r.error == ArgumentNull("value")
    ensures r.Ok? ==> r.value.HasValue() && r.value.Value() == Ok(value.value)
  {
    if value.Null? then Err(ArgumentNull("value")) else Ok(Some(value.value))
  }

  /** `Option.None<T>()`: the monad zero. */
  function MakeNone<T>(): (r: Option<T>)
    ensures r == MZero<T>()
  {
    MZero()
  }

  /** `Option.Bind`. A null function is rejected before the source is looked
      at; on None the function is not applied. */
  function Bind<T, U>(source: Option<T>, f: Ref<T -> Option<U>>): (r: Result<Option<U>>)
    ensures f.Null? ==> r == Err(ArgumentNull("function"))
    ensures f.NonNull? && !source.HasValue() ==> r == Ok(MZero())
    ensures f.NonNull? && source.HasValue() ==> r == Ok(f.value(source.value))
  {
    if f.Null? then Err(ArgumentNull("function"))
    else if source.HasValue() then Ok(f.value(source.Value().value))
    else Ok(MakeNone())
  }

  /** `Option.MPlus`: the first option if it is Some, else the second. */
  function MPlus<T>(option1: Option<T>, option2: Option<T>): (r: Option<T>)
    ensures r.HasValue() <==> option1.HasValue() || option2.HasValue()
    ensures option1.HasValue() ==> r == option1
    ensures !option1.HasValue() ==> r == option2
  {
    if option1.HasValue() then option1 else option2
  }

  /** `Option.Select`: the query-syntax name of `Bind`. */
  function Select<T, U>(source: Option<T>, f: Ref<T -> Option<U>>): (r: Result<Option<U>>)
    ensures r == Bind(source, f)
  {
    Bind(source, f)
  }

  /** `Option.SelectMany`: binds `otherSelector`, then combines both payloads
      with `resultSelector` and drops a null combination. The result selector
      is invoked only when both sides are Some; a null one is then invoked as a
      delegate, which raises a null-reference error. */
  function SelectMany<S, O, R>(source: Option<S>, otherSelector: Ref<S -> Option<O>>,
                               resultSelector: Ref<(S, O) -> Ref<R>>): (r: Result<Option<R>>)
    ensures otherSelector.Null? ==> r == Err(ArgumentNull("function"))
    ensures (r.Ok? && r.value.HasValue()) <==>
              otherSelector.NonNull? && source.HasValue()
              && otherSelector.value(source.value).HasValue()
              && resultSelector.NonNull?
              && resultSelector.value(source.value, otherSelector.value(source.value).value).NonNull?
    ensures r.Ok? && r.value.HasValue() ==>
              NonNull(r.value.value)
              == resultSelector.value(source.value, otherSelector.value(source.value).value)
    ensures r == Err(NullReference) <==>
              otherSelector.NonNull? && source.HasValue()
              && otherSelector.value(source.value).HasValue() && resultSelector.Null?
    ensures otherSelector.NonNull? && r != Err(NullReference) ==> r.Ok?
  {
    var other :- Bind(source, otherSelector);
    if source.HasValue() && other.HasValue() then
      if resultSelector.Null? then Err(NullReference)
      else
        var result := resultSelector.value(source.Value().value, other.Value().value);
        if result.NonNull? then MakeSome(result) else Ok(MakeNone())
    else Ok(MakeNone())
  }

  /** `Option.Or(option1, option2)`: defined as `MPlus`. */
  function Or<T>(option1: Option<T>, option2: Option<T>): (r: Option<T>)
    ensures r == MPlus(option1, option2)
  {
    MPlus(option1, option2)
  }

  /** `Option.Or(option, value)`: the payload if Some, else the fallback,
      which may itself be null. */
  function OrValue<T>(option: Option<T>, fallback: Ref<T>): (r: Ref<T>)
    ensures option.HasValue() ==> r == NonNull(option.value)
    ensures !option.HasValue() ==> r == fallback
  {
    if option.HasValue() then NonNull(option.Value().value) else fallback
  }
}
