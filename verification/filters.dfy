/** The `filter` query: keep the nodes of a set that a matcher accepts. */
module Filters {
  import opened Wrappers
  import opened Reflection
  import opened Matchers

  /** A filter holds its matcher in a final field; nothing reassigns it. */
  datatype Filter<!V> = Filter(matcher: Matcher<V>)

  /** The message the constructor's null check throws with. */
  const NullMatcherMessage: string := "Cannot filter using a null matcher"

  /** The constructor: a null matcher (`None`) is refused with a null pointer
      exception; any other matcher is stored as given. */
  function NewFilter<V>(matcher: Option<Matcher<V>>): (r: Result<Filter<V>>)
    ensures r.Failure? <==> matcher.None?
    ensures r.Failure? ==> r.error == NullPointerException(NullMatcherMessage)
    ensures r.Success? ==> r.value.matcher == matcher.value
  {
    match matcher
    case None => Failure(NullPointerException(NullMatcherMessage))
    case Some(m) => Success(Filter(m))
  }

  /** `output` is what filtering `input` with `m` must give: exactly the input
      nodes that `m` matches. */
  ghost predicate FilteredBy<V(!new)>(m: Matcher<V>, types: Subtyping, input: set<Obj<V>>, output: set<Obj<V>>)
  {
    && output <= input
    && (forall x :: x in output ==> Matches(m, types, x))
    && (forall x :: x in input && Matches(m, types, x) ==> x in output)
  }

  /** `execute`: copy the input, then remove from the copy every node the
      matcher rejects. The caller's set is a value and stays as it was. */
  method Execute<V(==,!new)>(f: Filter<V>, types: Subtyping, input: set<Obj<V>>) returns (output: set<Obj<V>>)
    ensures FilteredBy(f.matcher, types, input, output)
  {
    output := input;
    var pending := input;
    while pending != {}
      invariant pending <= input
      invariant forall x :: x in output <==> x in input && (x in pending || Matches(f.matcher, types, x))
      decreases pending
    {
      var x :| x in pending;
      if !Matches(f.matcher, types, x) {
        output := output - {x};
      }
      pending := pending - {x};
    }
  }

  /** The filter's result is determined by its input: two results agree. */
  lemma FilteredByUnique<V(!new)>(m: Matcher<V>, types: Subtyping, input: set<Obj<V>>, a: set<Obj<V>>, b: set<Obj<V>>)
    requires FilteredBy(m, types, input, a) && FilteredBy(m, types, input, b)
    ensures a == b
  {
  }

  /** Filtering a filter's result again with the same matcher changes nothing. */
  lemma FilterIdempotent<V(!new)>(m: Matcher<V>, types: Subtyping, input: set<Obj<V>>, once: set<Obj<V>>, twice: set<Obj<V>>)
    requires FilteredBy(m, types, input, once)
    requires FilteredBy(m, types, once, twice)
    ensures twice == once
  {
  }

  /** Every node a filter keeps has a runtime class assignable to the matcher's
      bound type. */
  lemma FilterKeepsBoundType<V(!new)>(m: Matcher<V>, types: Subtyping, input: set<Obj<V>>, output: set<Obj<V>>, x: Obj<V>)
    requires FilteredBy(m, types, input, output) && x in output
    ensures IsAssignableFrom(types, m.boundType, x.runtimeClass)
  {
  }
}
