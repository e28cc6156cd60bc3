/** The sequence adapters of `Maybe`: `ElementAtOrNone`, `FirstOrNone`,
    `LastOrNone` and `SingleOrNone`, the last three with and without a
    predicate. Each is specified by a function over the sequence's contents
    and implemented as in the source: a direct index read when the source is
    an `IList`, a single forward pass otherwise. */
module EnumerableExtension {
  import opened Host
  import opened Options
  import opened MaybeCore

  const MoreThanOneElement := "The input sequence contains more than one element."
  const MoreThanOneMatch := "More than one element satisfies the condition in predicate."

  /** The `IEnumerable<TSource>` argument: null, a source that is also an
      `IList<TSource>` (read by index and count), or any other sequence
      (read by one enumeration). Its elements may be null. */
  datatype Source<T> =
    | NullSource
    | ListSource(items: seq<Ref<T>>)
    | EnumerableSource(items: seq<Ref<T>>)

  // ---------------------------------------------------------------------
  // Where a predicate matches

  ghost predicate NoMatch<T>(items: seq<Ref<T>>, p: Ref<T> -> bool) {
    forall j :: 0 <= j < |items| ==> !p(items[j])
  }

  ghost predicate IsFirstMatch<T>(items: seq<Ref<T>>, p: Ref<T> -> bool, k: int) {
    0 <= k < |items| && p(items[k]) && forall j :: 0 <= j < k ==> !p(items[j])
  }

  ghost predicate IsLastMatch<T>(items: seq<Ref<T>>, p: Ref<T> -> bool, k: int) {
    0 <= k < |items| && p(items[k]) && forall j :: k < j < |items| ==> !p(items[j])
  }

  ghost predicate IsOnlyMatch<T>(items: seq<Ref<T>>, p: Ref<T> -> bool, k: int) {
    0 <= k < |items| && p(items[k]) && forall j :: 0 <= j < |items| && j != k ==> !p(items[j])
  }

  /** Index of the first element that satisfies `p`, or -1. */
  function FirstIndex<T>(items: seq<Ref<T>>, p: Ref<T> -> bool): (k: int)
    ensures -1 <= k < |items|
    ensures k == -1 <==> NoMatch(items, p)
    ensures k != -1 ==> IsFirstMatch(items, p, k)
    decreases |items|
  {
    if |items| == 0 then -1
    else if p(items[0]) then 0
    else
      var k := FirstIndex(items[1..], p);
      if k == -1 then -1 else k + 1
  }

  /** Index of the last element that satisfies `p`, or -1. */
  function LastIndex<T>(items: seq<Ref<T>>, p: Ref<T> -> bool): (k: int)
    ensures -1 <= k < |items|
    ensures k == -1 <==> NoMatch(items, p)
    ensures k != -1 ==> IsLastMatch(items, p, k)
    decreases |items|
  {
    if |items| == 0 then -1
    else if p(items[|items| - 1]) then |items| - 1
    else LastIndex(items[..|items| - 1], p)
  }

  /** Number of elements that satisfy `p`. */
  function CountWhere<T>(items: seq<Ref<T>>, p: Ref<T> -> bool): (n: nat)
    ensures n <= |items|
    ensures n == 0 <==> NoMatch(items, p)
    decreases |items|
  {
    if |items| == 0 then 0
    else CountWhere(items[..|items| - 1], p) + (if p(items[|items| - 1]) then 1 else 0)
  }

  // ---------------------------------------------------------------------
  // What each adapter answers, as functions of the sequence's contents

  /** `ElementAtOrNone`: the element at `index`, if in range and not null. */
  function ElementAt<T>(items: seq<Ref<T>>, index: int): (r: Option<T>)
    ensures r.HasValue() <==> 0 <= index < |items| && items[index].NonNull?
    ensures r.HasValue() ==> items[index] == NonNull(r.value)
  {
    if 0 <= index < |items| then HasValue(items[index]) else None
  }

  /** `FirstOrNone()`: the first element, if any and not null. */
  function First<T>(items: seq<Ref<T>>): (r: Option<T>)
    ensures r.HasValue() <==> |items| > 0 && items[0].NonNull?
    ensures r.HasValue() ==> items[0] == NonNull(r.value)
  {
    if |items| > 0 then HasValue(items[0]) else None
  }

  /** `LastOrNone()`: the last element, if any and not null. */
  function Last<T>(items: seq<Ref<T>>): (r: Option<T>)
    ensures r.HasValue() <==> |items| > 0 && items[|items| - 1].NonNull?
    ensures r.HasValue() ==> items[|items| - 1] == NonNull(r.value)
  {
    if |items| > 0 then HasValue(items[|items| - 1]) else None
  }

  /** `FirstOrNone(predicate)`: the first match, filtered by nullity; a null
      first match gives None even when later matches are not null. */
  function FirstWhere<T>(items: seq<Ref<T>>, p: Ref<T> -> bool): (r: Option<T>)
    ensures NoMatch(items, p) ==> !r.HasValue()
    ensures forall k :: IsFirstMatch(items, p, k) ==> r == HasValue(items[k])
  {
    var k := FirstIndex(items, p);
    if k == -1 then None else HasValue(items[k])
  }

  /** `LastOrNone(predicate)`: the last match, filtered by nullity. */
  function LastWhere<T>(items: seq<Ref<T>>, p: Ref<T> -> bool): (r: Option<T>)
    ensures NoMatch(items, p) ==> !r.HasValue()
    ensures forall k :: IsLastMatch(items, p, k) ==> r == HasValue(items[k])
  {
    var k := LastIndex(items, p);
    if k == -1 then None else HasValue(items[k])
  }

  /** `SingleOrNone()`: None for no element, the element filtered by nullity
      for exactly one, an invalid-operation error for more. */
  function Single<T>(items: seq<Ref<T>>): (r: Result<Option<T>>)
    ensures r.Err? <==> |items| > 1
    ensures r.Err? ==> r.error == InvalidOperation(MoreThanOneElement)
    ensures |items| == 0 ==> r == Ok(None)
    ensures |items| == 1 ==> r == Ok(HasValue(items[0]))
  {
    if |items| == 0 then Ok(None)
    else if |items| == 1 then Ok(HasValue(items[0]))
    else Err(InvalidOperation(MoreThanOneElement))
  }

  /** `SingleOrNone(predicate)`: None for no match, the match filtered by
      nullity for exactly one, an invalid-operation error for two or more. */
  function SingleWhere<T>(items: seq<Ref<T>>, p: Ref<T> -> bool): (r: Result<Option<T>>)
    ensures r.Err? <==> CountWhere(items, p) > 1
    ensures r.Err? ==> r.error == InvalidOperation(MoreThanOneMatch)
    ensures NoMatch(items, p) ==> r == Ok(None)
  {
    var n := CountWhere(items, p);
    if n == 0 then Ok(None)
    else if n == 1 then Ok(HasValue(items[FirstIndex(items, p)]))
    else Err(InvalidOperation(MoreThanOneMatch))
  }

  // ---------------------------------------------------------------------
  // Counting lemmas

  /** Two distinct matches make the count at least two. */
  lemma {:induction false} TwoMatchesCount<T>(items: seq<Ref<T>>, p: Ref<T> -> bool, a: int, b: int)
    requires 0 <= a < b < |items| && p(items[a]) && p(items[b])
    ensures CountWhere(items, p) >= 2
    decreases |items|
  {
    var init := items[..|items| - 1];
    if b == |items| - 1 {
      assert init[a] == items[a];
      assert !NoMatch(init, p);
    } else {
      assert init[a] == items[a] && init[b] == items[b];
      TwoMatchesCount(init, p, a, b);
    }
  }

  /** A single match makes the count exactly one. */
  lemma {:induction false} OnlyMatchCount<T>(items: seq<Ref<T>>, p: Ref<T> -> bool, k: int)
    requires IsOnlyMatch(items, p, k)
    ensures CountWhere(items, p) == 1
    decreases |items|
  {
    var init := items[..|items| - 1];
    if k == |items| - 1 {
      assert NoMatch(init, p) by {
        forall j | 0 <= j < |init| ensures !p(init[j]) {
          assert init[j] == items[j];
        }
      }
    } else {
      assert IsOnlyMatch(init, p, k) by {
        forall j | 0 <= j < |init| && j != k ensures !p(init[j]) {
          assert init[j] == items[j];
        }
      }
      OnlyMatchCount(init, p, k);
    }
  }

  /** When every element satisfies `p`, every element is counted. */
  lemma {:induction false} CountAll<T>(items: seq<Ref<T>>, p: Ref<T> -> bool)
    requires forall i :: 0 <= i < |items| ==> p(items[i])
    ensures CountWhere(items, p) == |items|
    decreases |items|
  {
    if |items| > 0 {
      CountAll(items[..|items| - 1], p);
    }
  }

  // ---------------------------------------------------------------------
  // Properties of the specifications

  /** `SingleOrNone(predicate)` with exactly one match gives that match,
      filtered by nullity. */
  lemma SingleWhereOnlyMatch<T>(items: seq<Ref<T>>, p: Ref<T> -> bool, k: int)
    requires IsOnlyMatch(items, p, k)
    ensures SingleWhere(items, p) == Ok(HasValue(items[k]))
  {
    OnlyMatchCount(items, p, k);
  }

  /** `SingleOrNone(predicate)` with two matches raises invalid-operation. */
  lemma SingleWhereAmbiguous<T>(items: seq<Ref<T>>, p: Ref<T> -> bool, a: int, b: int)
    requires 0 <= a < b < |items| && p(items[a]) && p(items[b])
    ensures SingleWhere(items, p) == Err(InvalidOperation(MoreThanOneMatch))
  {
    TwoMatchesCount(items, p, a, b);
  }

  /** With a predicate that accepts everything, the predicate forms of
      `FirstOrNone` and `LastOrNone` agree with the plain ones. */
  lemma TruePredicateAgrees<T>(items: seq<Ref<T>>, p: Ref<T> -> bool)
    requires forall i :: 0 <= i < |items| ==> p(items[i])
    ensures FirstWhere(items, p) == First(items)
    ensures LastWhere(items, p) == Last(items)
  {
    if |items| > 0 {
      assert IsFirstMatch(items, p, 0);
      assert IsLastMatch(items, p, |items| - 1);
    }
  }

  /** With a predicate that accepts everything, `SingleOrNone` with and
      without the predicate agree, up to the exception's message. */
  lemma TruePredicateSingleAgrees<T>(items: seq<Ref<T>>, p: Ref<T> -> bool)
    requires forall i :: 0 <= i < |items| ==> p(items[i])
    ensures Single(items).Ok? <==> SingleWhere(items, p).Ok?
    ensures Single(items).Ok? ==> Single(items) == SingleWhere(items, p)
  {
    CountAll(items, p);
  }

  /** `ElementAtOrNone` at the ends agrees with `FirstOrNone` and `LastOrNone`. */
  lemma ElementAtEnds<T>(items: seq<Ref<T>>)
    ensures ElementAt(items, 0) == First(items)
    ensures ElementAt(items, |items| - 1) == Last(items)
  {
  }

  /** Every Some answer is a non-null element of the sequence (that matches,
      where there is a predicate). */
  lemma SomeComesFromSource<T>(items: seq<Ref<T>>, p: Ref<T> -> bool)
    ensures FirstWhere(items, p).HasValue() ==>
              NonNull(FirstWhere(items, p).value) in items && p(NonNull(FirstWhere(items, p).value))
    ensures LastWhere(items, p).HasValue() ==>
              NonNull(LastWhere(items, p).value) in items && p(NonNull(LastWhere(items, p).value))
    ensures SingleWhere(items, p).Ok? && SingleWhere(items, p).value.HasValue() ==>
              NonNull(SingleWhere(items, p).value.value) in items
              && p(NonNull(SingleWhere(items, p).value.value))
  {
  }

  // ---------------------------------------------------------------------
  // The adapters

  /** `ElementAtOrNone(source, index)`. */
  method ElementAtOrNone<T>(source: Source<T>, index: int) returns (r: Result<Option<T>>)
    ensures source.NullSource? ==> r == Err(ArgumentNull("source"))
    ensures !source.NullSource? ==> r == Ok(ElementAt(source.items, index))
  {
    if source.NullSource? {
      return Err(ArgumentNull("source"));
    }
    if index < 0 {
      return Ok(MakeNone());
    }
    if source.ListSource? {
      var list := source.items;
      if index < |list| {
        var value := list[index];
        return if value.NonNull? then MakeSome(value) else Ok(MakeNone());
      }
      return Ok(MakeNone());
    }
    var items := source.items;
    var remaining := index;
    var i := 0;
    while i < |items|
      invariant 0 <= i <= |items|
      invariant remaining == index - i && remaining >= 0
    {
      var element := items[i];
      if remaining == 0 {
        return if element.NonNull? then MakeSome(element) else Ok(MakeNone());
      }
      remaining := remaining - 1;
      i := i + 1;
    }
    return Ok(MakeNone());
  }

  /** `FirstOrNone(source)`. */
  method FirstOrNone<T>(source: Source<T>) returns (r: Result<Option<T>>)
    ensures source.NullSource? ==> r == Err(ArgumentNull("source"))
    ensures !source.NullSource? ==> r == Ok(First(source.items))
  {
    if source.NullSource? {
      return Err(ArgumentNull("source"));
    }
    var items := source.items;
    if source.ListSource? {
      if 0 < |items| {
        var value := items[0];
        return if value.NonNull? then MakeSome(value) else Ok(MakeNone());
      }
      return Ok(MakeNone());
    }
    // the enumerator: one MoveNext, then Current
    if 0 < |items| {
      var value := items[0];
      return if value.NonNull? then MakeSome(value) else Ok(MakeNone());
    }
    return Ok(MakeNone());
  }

  /** `FirstOrNone(source, predicate)`: stops at the first match. */
  method FirstOrNoneWhere<T>(source: Source<T>, pred: Ref<Ref<T> -> bool>)
    returns (r: Result<Option<T>>)
    ensures source.NullSource? ==> r == Err(ArgumentNull("source"))
    ensures !source.NullSource? && pred.Null? ==> r == Err(ArgumentNull("predicate"))
    ensures !source.NullSource? && pred.NonNull? ==>
              r == Ok(FirstWhere(source.items, pred.value))
  {
    if source.NullSource? {
      return Err(ArgumentNull("source"));
    }
    if pred.Null? {
      return Err(ArgumentNull("predicate"));
    }
    var items, p := source.items, pred.value;
    var i := 0;
    while i < |items|
      invariant 0 <= i <= |items|
      invariant forall j :: 0 <= j < i ==> !p(items[j])
    {
      var element := items[i];
      if p(element) {
        assert IsFirstMatch(items, p, i);
        return if element.NonNull? then MakeSome(element) else Ok(MakeNone());
      }
      i := i + 1;
    }
    return Ok(MakeNone());
  }

  /** `LastOrNone(source)`. */
  method LastOrNone<T>(source: Source<T>) returns (r: Result<Option<T>>)
    ensures source.NullSource? ==> r == Err(ArgumentNull("source"))
    ensures !source.NullSource? ==> r == Ok(Last(source.items))
  {
    if source.NullSource? {
      return Err(ArgumentNull("source"));
    }
    var items := source.items;
    if source.ListSource? {
      if 0 < |items| {
        var value := items[|items| - 1];
        return if value.NonNull? then MakeSome(value) else Ok(MakeNone());
      }
      return Ok(MakeNone());
    }
    // the enumerator: a first MoveNext, then do { Current } while (MoveNext())
    if 0 < |items| {
      var result := items[0];
      var moved := 1;
      while moved < |items|
        invariant 1 <= moved <= |items|
        invariant result == items[moved - 1]
      {
        result := items[moved];
        moved := moved + 1;
      }
      return if result.NonNull? then MakeSome(result) else Ok(MakeNone());
    }
    return Ok(MakeNone());
  }

  /** `LastOrNone(source, predicate)`: one pass that remembers the latest match. */
  method LastOrNoneWhere<T>(source: Source<T>, pred: Ref<Ref<T> -> bool>)
    returns (r: Result<Option<T>>)
    ensures source.NullSource? ==> r == Err(ArgumentNull("source"))
    ensures !source.NullSource? && pred.Null? ==> r == Err(ArgumentNull("predicate"))
    ensures !source.NullSource? && pred.NonNull? ==>
              r == Ok(LastWhere(source.items, pred.value))
  {
    if source.NullSource? {
      return Err(ArgumentNull("source"));
    }
    if pred.Null? {
      return Err(ArgumentNull("predicate"));
    }
    var items, p := source.items, pred.value;
    var some := false;
    var result: Ref<T> := Null;  // default(TSource), read only once some is set
    var i := 0;
    while i < |items|
      invariant 0 <= i <= |items|
      invariant some <==> LastIndex(items[..i], p) != -1
      invariant some ==> result == items[LastIndex(items[..i], p)]
    {
      var element := items[i];
      assert items[..i + 1][..i] == items[..i];
      if p(element) {
        some := true;
        result := element;
      }
      i := i + 1;
    }
    assert items[..i] == items;
    if some {
      return if result.NonNull? then MakeSome(result) else Ok(MakeNone());
    }
    return Ok(MakeNone());
  }

  /** `SingleOrNone(source)`. */
  method SingleOrNone<T>(source: Source<T>) returns (r: Result<Option<T>>)
    ensures source.NullSource? ==> r == Err(ArgumentNull("source"))
    ensures !source.NullSource? ==> r == Single(source.items)
  {
    if source.NullSource? {
      return Err(ArgumentNull("source"));
    }
    var items := source.items;
    if source.ListSource? {
      if |items| == 0 {
        return Ok(MakeNone());
      } else if |items| == 1 {
        return if items[0].NonNull? then MakeSome(items[0]) else Ok(MakeNone());
      } else {
        return Err(InvalidOperation(MoreThanOneElement));
      }
    }
    // the enumerator: MoveNext, Current, MoveNext
    if !(0 < |items|) {
      return Ok(MakeNone());
    }
    var result := items[0];
    if !(1 < |items|) {
      return if result.NonNull? then MakeSome(result) else Ok(MakeNone());
    } else {
      return Err(InvalidOperation(MoreThanOneElement));
    }
  }

  /** `SingleOrNone(source, predicate)`: one pass that raises at the second match. */
  method SingleOrNoneWhere<T>(source: Source<T>, pred: Ref<Ref<T> -> bool>)
    returns (r: Result<Option<T>>)
    ensures source.NullSource? ==> r == Err(ArgumentNull("source"))
    ensures !source.NullSource? && pred.Null? ==> r == Err(ArgumentNull("predicate"))
    ensures !source.NullSource? && pred.NonNull? ==>
              r == SingleWhere(source.items, pred.value)
  {
    if source.NullSource? {
      return Err(ArgumentNull("source"));
    }
    if pred.Null? {
      return Err(ArgumentNull("predicate"));
    }
    var items, p := source.items, pred.value;
    var found := false;
    var result: Ref<T> := Null;  // default(TSource), read only once found is set
    ghost var at := -1;
    var i := 0;
    while i < |items|
      invariant 0 <= i <= |items|
      invariant !found ==> forall j :: 0 <= j < i ==> !p(items[j])
      invariant found ==> 0 <= at < i && p(items[at]) && result == items[at]
      invariant found ==> forall j :: 0 <= j < i && j != at ==> !p(items[j])
    {
      var element := items[i];
      if p(element) {
        if found {
          SingleWhereAmbiguous(items, p, at, i);
          return Err(InvalidOperation(MoreThanOneMatch));
        }
        found := true;
        at := i;
        result := element;
      }
      i := i + 1;
    }
    if found {
      SingleWhereOnlyMatch(items, p, at);
      return if result.NonNull? then MakeSome(result) else Ok(MakeNone());
    }
    return Ok(MakeNone());
  }
}
