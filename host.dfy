/** The parts of the .NET host that the Option type and its adapters talk about:
    a value that may be null, and the exceptions the library throws. */
module Host {

  /** A value of a type that admits null: a reference, a boxed value, or a
      generic `TSource` whose `!= null` test the library performs. */
  datatype Ref<T> = Null | NonNull(value: T)

  /** The exceptions the library raises. `ArgumentNull` carries the parameter
      name given to `ArgumentNullException`, `InvalidOperation` the message
      given to `InvalidOperationException`; `NullReference` is what the runtime
      raises when a null delegate is invoked. */
  datatype Error =
    | ArgumentNull(paramName: string)
    | InvalidOperation(message: string)
    | NullReference

  /** The outcome of a call: a returned value, or a thrown exception. */
  datatype Result<T> = Ok(value: T) | Err(error: Error) {
    predicate IsFailure() {
      Err?
    }

    function PropagateFailure<U>(): Result<U>
      requires Err?
    {
      Err(error)
    }

    function Extract(): T
      requires Ok?
    {
      value
    }
  }

  /** `IDictionary.TryGetValue`: whether the key is present, and its value
      (null when absent, standing for `default(TValue)`). */
  function TryGetValue<K, V>(dictionary: map<K, Ref<V>>, key: K): (r: (bool, Ref<V>))
    ensures r.0 <==> key in dictionary
    ensures r.0 ==> r.1 == dictionary[key]
    ensures !r.0 ==> r.1 == Null
  {
    if key in dictionary then (true, dictionary[key]) else (false, Null)
  }
}
