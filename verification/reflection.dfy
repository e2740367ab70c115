/** The parts of Java reflection the query engine relies on, as plain data:
    class names, an abstract subtype relation, the declared methods of a class,
    and objects tagged with their runtime class. */
module Reflection {

  type ClassName = string

  /** The root of every superclass chain. */
  const ObjectClass: ClassName := "java.lang.Object"

  /** An abstract subtype relation: `(sub, super)` pairs. */
  datatype Subtyping = Subtyping(pairs: set<(ClassName, ClassName)>)

  /** `target.isAssignableFrom(from)`: every class is assignable to itself;
      otherwise the relation decides. */
  predicate IsAssignableFrom(types: Subtyping, target: ClassName, from: ClassName)
  {
    from == target || (from, target) in types.pairs
  }

  /** What `getDeclaredMethods` reports of one method. */
  datatype MethodDecl = MethodDecl(name: string, parameterTypes: seq<ClassName>, synthetic: bool)

  /** A class with its declared methods, in the order reflection lists them. */
  datatype ClassDecl = ClassDecl(name: ClassName, declaredMethods: seq<MethodDecl>)

  /** A class followed by its superclasses, ending with `java.lang.Object`,
      as `getSuperclass` walks them. */
  predicate IsSuperclassChain(chain: seq<ClassDecl>)
  {
    && |chain| >= 1
    && chain[|chain| - 1].name == ObjectClass
    && forall i :: 0 <= i < |chain| - 1 ==> chain[i].name != ObjectClass
  }

  /** An object together with its runtime class (`getClass()`). */
  datatype Obj<V> = Obj(runtimeClass: ClassName, state: V)
}
