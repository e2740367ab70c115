/** A matcher: a predicate on nodes guarded by a runtime type check. The bound
    type is the parameter type of the matcher class's own `matchesSafely`,
    found by searching the class and its superclasses. */
module Matchers {
  import opened Wrappers
  import opened Reflection

  /** The name of the typed predicate every concrete matcher declares. */
  const MatchesSafelyName: string := "matchesSafely"

  /** A declared method that `getSafeType` accepts: the right name, exactly one
      parameter, and not a compiler-generated bridge. */
  predicate Qualifies(m: MethodDecl)
  {
    m.name == MatchesSafelyName && |m.parameterTypes| == 1 && !m.synthetic
  }

  /** None of the methods qualifies. */
  predicate NoneQualify(methods: seq<MethodDecl>)
  {
    forall j :: 0 <= j < |methods| ==> !Qualifies(methods[j])
  }

  /** The parameter type of the first qualifying method of one class. */
  function FirstQualifying(methods: seq<MethodDecl>): (r: Option<ClassName>)
    ensures r.None? <==> NoneQualify(methods)
  {
    if |methods| == 0 then None
    else if Qualifies(methods[0]) then Some(methods[0].parameterTypes[0])
    else FirstQualifying(methods[1..])
  }

  /** What `getSafeType` yields for a superclass chain: the first qualifying
      method of the first class that has one, stopping at `java.lang.Object`. */
  function SafeType(chain: seq<ClassDecl>): (r: Result<ClassName>)
    ensures r.Failure? ==> r.error == AssertionError
  {
    if |chain| == 0 || chain[0].name == ObjectClass then Failure(AssertionError)
    else match FirstQualifying(chain[0].declaredMethods)
      case Some(t) => Success(t)
      case None => SafeType(chain[1..])
  }

  /** `getSafeType`: walk up from the concrete class, scanning each class's
      declared methods; fail with an assertion error on reaching `Object`. */
  method GetSafeType(chain: seq<ClassDecl>) returns (r: Result<ClassName>)
    requires IsSuperclassChain(chain)
    ensures r == SafeType(chain)
  {
    var i := 0;
    while chain[i].name != ObjectClass
      invariant 0 <= i < |chain|
      invariant SafeType(chain[i..]) == SafeType(chain)
      decreases |chain| - i
    {
      var methods := chain[i].declaredMethods;
      var j := 0;
      while j < |methods|
        invariant 0 <= j <= |methods|
        invariant FirstQualifying(methods[j..]) == FirstQualifying(methods)
      {
        if Qualifies(methods[j]) {
          return Success(methods[j].parameterTypes[0]);
        }
        assert methods[j..][1..] == methods[j + 1..];
        j := j + 1;
      }
      assert chain[i..][1..] == chain[i + 1..];
      i := i + 1;
    }
    return Failure(AssertionError);
  }

  /** The search fails exactly when no class below `Object` declares a
      qualifying method. */
  lemma {:induction false} SafeTypeFailsIffNoneQualify(chain: seq<ClassDecl>)
    requires IsSuperclassChain(chain)
    ensures SafeType(chain).Failure? <==>
      forall i :: 0 <= i < |chain| - 1 ==> NoneQualify(chain[i].declaredMethods)
  {
    if chain[0].name != ObjectClass {
      SafeTypeFailsIffNoneQualify(chain[1..]);
      assert forall i :: 1 <= i < |chain| - 1 ==> chain[1..][i - 1] == chain[i];
    }
  }

  /** The first qualifying declaration wins: a method declared in class i is
      chosen when no class below it and no earlier method of class i qualifies,
      so a subclass's declaration shadows every superclass's, and synthetic
      bridges are passed over. */
  lemma {:induction false} SafeTypeIsFirstQualifying(chain: seq<ClassDecl>, i: nat, j: nat)
    requires IsSuperclassChain(chain)
    requires i < |chain| - 1 && j < |chain[i].declaredMethods|
    requires Qualifies(chain[i].declaredMethods[j])
    requires forall k :: 0 <= k < i ==> NoneQualify(chain[k].declaredMethods)
    requires NoneQualify(chain[i].declaredMethods[..j])
    ensures SafeType(chain) == Success(chain[i].declaredMethods[j].parameterTypes[0])
  {
    if i == 0 {
      FirstQualifyingAt(chain[0].declaredMethods, j);
    } else {
      assert NoneQualify(chain[0].declaredMethods);
      assert chain[1..][i - 1] == chain[i];
      SafeTypeIsFirstQualifying(chain[1..], i - 1, j);
    }
  }

  /** Within one class, the first qualifying method in declaration order is the one found. */
  lemma {:induction false} FirstQualifyingAt(methods: seq<MethodDecl>, j: nat)
    requires j < |methods| && Qualifies(methods[j])
    requires NoneQualify(methods[..j])
    ensures FirstQualifying(methods) == Some(methods[j].parameterTypes[0])
  {
    if j > 0 {
      assert methods[..j][0] == methods[0];
      assert methods[1..][..j - 1] == methods[..j][1..];
      FirstQualifyingAt(methods[1..], j - 1);
    }
  }

  /** `java.lang.Object` itself is never inspected: whatever it declares, the
      result is the same. */
  lemma {:induction false} ObjectNeverInspected(chain: seq<ClassDecl>, root: ClassDecl)
    requires IsSuperclassChain(chain) && root.name == ObjectClass
    ensures SafeType(chain[..|chain| - 1] + [root]) == SafeType(chain)
  {
    if chain[0].name != ObjectClass {
      assert (chain[..|chain| - 1] + [root])[1..] == chain[1..][..|chain| - 2] + [root];
      ObjectNeverInspected(chain[1..], root);
    }
  }

  /** Every matcher class lies below the abstract class `Matcher`, which declares
      `matchesSafely` with one parameter erased to `Object` and no synthetic flag.
      So for any chain that contains such a declaration below `Object`, the
      search succeeds: the assertion error is unreachable for real matchers, and
      the worst case is a bound type of `Object`. */
  lemma {:induction false} DeclaredMatchesSafelyIsFound(chain: seq<ClassDecl>, i: nat, j: nat)
    requires IsSuperclassChain(chain)
    requires i < |chain| - 1 && j < |chain[i].declaredMethods|
    requires chain[i].declaredMethods[j] == MethodDecl(MatchesSafelyName, [ObjectClass], false)
    ensures SafeType(chain).Success?
  {
    SafeTypeFailsIffNoneQualify(chain);
    assert !NoneQualify(chain[i].declaredMethods);
  }

  /** A matcher after construction: its bound type and its typed predicate. The
      bound type is fixed when the matcher is built and never changes. */
  datatype Matcher<!V> = Matcher(boundType: ClassName, matchesSafely: Obj<V> -> bool)

  /** Building a matcher: the field initialiser runs `getSafeType` on the
      matcher's own class; its assertion error aborts construction. */
  method NewMatcher<V>(chain: seq<ClassDecl>, matchesSafely: Obj<V> -> bool) returns (r: Result<Matcher<V>>)
    requires IsSuperclassChain(chain)
    ensures r.Success? <==> SafeType(chain).Success?
    ensures r.Failure? ==> r.error == AssertionError
    ensures r.Success? ==> r.value.boundType == SafeType(chain).value
    ensures r.Success? ==> r.value.matchesSafely == matchesSafely
  {
    var boundType := GetSafeType(chain);
    match boundType
    case Success(t) =>
      r := Success(Matcher(t, matchesSafely));
    case Failure(e) =>
      r := Failure(e);
  }

  /** `matches`: an object whose runtime class is not assignable to the bound
      type never matches, whatever the typed predicate says; otherwise the
      typed predicate decides. */
  function Matches<V>(m: Matcher<V>, types: Subtyping, x: Obj<V>): (r: bool)
    ensures !IsAssignableFrom(types, m.boundType, x.runtimeClass) ==> !r
    ensures IsAssignableFrom(types, m.boundType, x.runtimeClass) ==> (r <==> m.matchesSafely(x))
  {
    if IsAssignableFrom(types, m.boundType, x.runtimeClass) then m.matchesSafely(x) else false
  }
}
