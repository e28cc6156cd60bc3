/** `Maybe.GetValue` and `Maybe.MaybeGetValue` in the version that drops null
    values: a key found with a null value answers None, like a missing key. */
module DictionaryExtension {
  import opened Host
  import opened Options

  /** `Maybe.GetValue(dictionary, key)`. */
  function GetValue<K, V>(dictionary: Ref<map<K, Ref<V>>>, key: K): (r: Result<Option<V>>)
    ensures dictionary.Null? ==> r == Err(ArgumentNull("dictionary"))
    ensures dictionary.NonNull? ==> r.Ok?
    ensures (r.Ok? && r.value.HasValue()) <==>
              dictionary.NonNull? && key in dictionary.value && dictionary.value[key].NonNull?
    ensures r.Ok? && r.value.HasValue() ==> dictionary.value[key] == NonNull(r.value.value)
  {
    if dictionary.Null? then Err(ArgumentNull("dictionary"))
    else
      var (found, value) := TryGetValue(dictionary.value, key);
      if found && value.NonNull? then MakeSome(value) else Ok(MakeNone())
  }

  /** `Maybe.MaybeGetValue(dictionary, key)`: the extension-method form. */
  function MaybeGetValue<K, V>(dictionary: Ref<map<K, Ref<V>>>, key: K): (r: Result<Option<V>>)
    ensures r == GetValue(dictionary, key)
  {
    GetValue(dictionary, key)
  }

  /** The three outcomes on a dictionary: present and non-null gives Some,
      present and null gives None, absent gives None; the argument-null error
      of `Option.Some` is never raised. */
  lemma GetValueCases<K, V>(dictionary: map<K, Ref<V>>, key: K)
    ensures key in dictionary && dictionary[key].NonNull? ==>
              GetValue(NonNull(dictionary), key) == Ok(Some(dictionary[key].value))
    ensures key in dictionary && dictionary[key].Null? ==> GetValue(NonNull(dictionary), key) == Ok(None)
    ensures key !in dictionary ==> GetValue(NonNull(dictionary), key) == Ok(None)
    ensures GetValue(NonNull(dictionary), key) != Err(ArgumentNull("value"))
  {
  }
}

/** `Maybe.GetValue` and `Maybe.MaybeGetValue` in the older version that wraps
    whatever value it finds: a key found with a null value reaches
    `Option.Some(null)`, which raises an argument-null error. */
module DictionaryExtensionSnapshot {
  import opened Host
  import opened Options
  import Filtering = DictionaryExtension

  /** `Maybe.GetValue(dictionary, key)`, as written in this version. */
  function GetValue<K, V>(dictionary: Ref<map<K, Ref<V>>>, key: K): (r: Result<Option<V>>)
    ensures dictionary.Null? ==> r == Err(ArgumentNull("dictionary"))
    ensures dictionary.NonNull? && key !in dictionary.value ==> r == Ok(None)
    ensures dictionary.NonNull? && key in dictionary.value ==>
              (r.Ok? <==> dictionary.value[key].NonNull?)
    ensures dictionary.NonNull? && key in dictionary.value && r.Ok? ==>
              r.value.HasValue() && dictionary.value[key] == NonNull(r.value.value)
    ensures r.Err? && dictionary.NonNull? ==> r.error == ArgumentNull("value")
  {
    if dictionary.Null? then Err(ArgumentNull("dictionary"))
    else
      var (found, value) := TryGetValue(dictionary.value, key);
      if found then MakeSome(value) else Ok(MakeNone())
  }

  /** `Maybe.MaybeGetValue(dictionary, key)`: delegates to `GetValue`. */
  function MaybeGetValue<K, V>(dictionary: Ref<map<K, Ref<V>>>, key: K): (r: Result<Option<V>>)
    ensures r == GetValue(dictionary, key)
  {
    GetValue(dictionary, key)
  }

  /** The two versions agree on every dictionary without null values. */
  lemma AgreesWithoutNullValues<K, V>(dictionary: Ref<map<K, Ref<V>>>, key: K)
    requires dictionary.NonNull? ==> forall k :: k in dictionary.value ==> dictionary.value[k].NonNull?
    ensures GetValue(dictionary, key) == Filtering.GetValue(dictionary, key)
  {
  }

  /** The dictionary `{"foo": null}` separates the versions: this one raises
      an argument-null error where the filtering one answers None. */
  lemma NullValueRaises()
    ensures GetValue<string, string>(NonNull(map["foo" := Null]), "foo") == Err(ArgumentNull("value"))
    ensures MaybeGetValue<string, string>(NonNull(map["foo" := Null]), "foo") == Err(ArgumentNull("value"))
    ensures Filtering.MaybeGetValue<string, string>(NonNull(map["foo" := Null]), "foo") == Ok(None)
  {
  }
}
