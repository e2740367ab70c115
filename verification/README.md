# Context query engine — a Dafny model

This project models the context query engine of the Terracotta statistics
library: the small, sequential operations that locate nodes in the tree of
instrumented objects and expose their attributes.

- **Descendants** (`Descendants.Execute`): the `descendants` query. It computes the
  transitive child-of closure of a node set. It expands a frontier one child step
  at a time and accumulates it into a result set. It stops when the frontier is
  empty or when `addAll` reports that nothing was added. The model proves that
  the result is exactly the set of nodes reachable from the input by one or more
  child steps. The early stop is complete: once a frontier adds nothing, no later
  frontier can. The loop terminates on any finite relation, cyclic ones included,
  because every iteration that continues strictly shrinks
  `Targets(g) - descendants`.
- **Filter** (`Filters`): the constructor refuses a null matcher with a
  `NullPointerException`. `Execute` copies the input and removes every node the
  matcher rejects. The result is exactly the matching input nodes, and filtering
  twice is the same as filtering once.
- **Matcher** (`Matchers`): `matches` gates a typed predicate behind a runtime type
  check. The bound type is found by `getSafeType`, which walks up the superclass
  chain. It takes the parameter type of the first declared `matchesSafely` that
  has one parameter and is not synthetic. It fails with an `AssertionError` on
  reaching `java.lang.Object`. `GetSafeType` keeps both nested loops and is proved
  equal to the recursive specification `SafeType`. The lemmas about `SafeType`
  state the search order, the failure condition, and that `Object` is never
  inspected.
- **LazyContextElement** (`LazyContext`): an identifier plus a map from attribute
  names to getters. `Attributes(env)` builds a map with the same keys, holding
  each getter's value in the state `env` given to that call.

Supporting modules: `Wrappers` holds `Option`, `Result` and the thrown
exceptions. `Reflection` holds class names, the abstract subtype relation,
method and class records, and objects tagged with their runtime class.
`TreeNodes` holds the child relation and the `Children` query.

Modelling choices:

- Sets and maps are Dafny values. So "the input set is not modified", "the result
  is a freshly allocated set", "the constructor copies the caller's map" and "the
  returned map is unmodifiable" all hold by construction. No caller can observe
  an alias.
- Node identity is value equality. The `HashSet` hashing of `TreeNode` is not
  modelled.
- The unseen `Children` query and `TreeNode.getChildren()` become a finite set of
  `(parent, child)` pairs, which may contain cycles.
- `Class.isAssignableFrom` becomes `IsAssignableFrom`: reflexive, otherwise
  decided by an abstract set of `(sub, super)` pairs. `getDeclaredMethods` becomes
  a sequence of method records. Reflection does not fix their order, so the model
  takes the sequence's order as the declaration order the search sees.
  `getSuperclass` becomes a sequence of classes that ends with `java.lang.Object`.
  `IsSuperclassChain` is the JVM's guarantee about that sequence and is
  `GetSafeType`'s only precondition.
- `AttributeGetter.get()` becomes a function of an abstract environment `E`. So
  "nothing is cached" shows in the model as: every call to `Attributes` reads the
  environment it is given.
- The filter's matcher is a `final` field (Filter.java:26). `boundType` is not
  declared `final`, but it is private and only its initialiser assigns it, so it
  is effectively final. Both become fields of the immutable datatypes `Matcher`
  and `Filter`. The element's identifier and getter
  map are `const` fields of the class `LazyContextElement`.

## Model

| member | source | states |
|---|---|---|
| `Descendants.Execute` | src/main/java/org/terracotta/context/query/Descendants.java:29-36 | The result holds exactly the nodes reachable from some input node by one or more child steps, whether the loop ends on an empty frontier or on an `addAll` that added nothing. It lies within the finite set of child nodes. The loop terminates on cyclic relations too: each iteration that does not break enlarges the accumulator. |
| `Descendants.StallIsComplete` | src/main/java/org/terracotta/context/query/Descendants.java:31-35 | When frontier k adds nothing to frontiers 1..k-1 (in particular when it is empty), frontiers 1..k-1 are exactly the descendants. This makes the early stop complete. |
| `Descendants.StallCoversLater` | src/main/java/org/terracotta/context/query/Descendants.java:31-34 | Once a frontier is already accumulated, every later frontier is too. |
| `Descendants.ChildrenOfCovered` | src/main/java/org/terracotta/context/query/Descendants.java:31 | One child step from frontiers 1..k lands in frontiers 1..k+1. |
| `Descendants.FrontierHasChain` | src/main/java/org/terracotta/context/query/Descendants.java:31 | Every node of the k-th frontier ends a chain of k child steps that starts in the input. |
| `Descendants.ChainInFrontier` | src/main/java/org/terracotta/context/query/Descendants.java:31 | The end of a chain of n child steps from the input lies in the n-th frontier. |
| `Descendants.FrontierInCovered` | src/main/java/org/terracotta/context/query/Descendants.java:32 | The accumulator after k additions contains each of the first k frontiers. |
| `Descendants.CoveredAreDescendants` | src/main/java/org/terracotta/context/query/Descendants.java:31-32 | Every accumulated node is reachable from the input by one or more child steps. |
| `Descendants.DescendantsClosed` | src/main/java/org/terracotta/context/query/Descendants.java:31 | A child of a descendant is a descendant. |
| `Descendants.DescendantsLeast` | src/main/java/org/terracotta/context/query/Descendants.java:31-35 | The descendants lie in every set that contains the input's children and is closed under the child step. So the result is the least such fixed point. |
| `Descendants.DescendantNeedsChild` | src/main/java/org/terracotta/context/query/Descendants.java:31 | If the input has no children (an empty input, or leaves only), nothing is a descendant, so the result is empty. |
| `Descendants.DescendantHasParent` | src/main/java/org/terracotta/context/query/Descendants.java:30 | The accumulator starts empty, so a node is in the result only when some child step leads to it. This holds for input nodes too. |
| `Descendants.CycleMakesInputDescendant` | src/main/java/org/terracotta/context/query/Descendants.java:30-32 | An input node on a cycle of any length (a self-loop included) is its own descendant. |
| `Filters.NewFilter` | src/main/java/org/terracotta/context/query/Filter.java:28-34 | A null matcher fails with `NullPointerException("Cannot filter using a null matcher")`. Any other matcher is stored as given and never reassigned. |
| `Filters.Execute` | src/main/java/org/terracotta/context/query/Filter.java:37-41 | The output is a subset of the input, every output node matches, and every matching input node is kept. The input is untouched. |
| `Filters.FilteredByUnique` | src/main/java/org/terracotta/context/query/Filter.java:38-40 | The input and the matcher determine the filter's output. |
| `Filters.FilterIdempotent` | src/main/java/org/terracotta/context/query/Filter.java:38-40 | Filtering the output again with the same matcher returns the same set. |
| `Filters.FilterKeepsBoundType` | src/main/java/org/terracotta/context/query/Filter.java:39 | Every kept node's runtime class is assignable to the matcher's bound type. |
| `Matchers.Matches` | src/main/java/org/terracotta/context/query/Matcher.java:41-47 | An object whose runtime class is not assignable to the bound type never matches, whatever `matchesSafely` would say. Otherwise the result is exactly `matchesSafely(object)`. |
| `Matchers.NewMatcher` | src/main/java/org/terracotta/context/query/Matcher.java:16 | Construction succeeds exactly when `getSafeType` finds a type, and that type becomes the fixed bound type. Otherwise it fails with `AssertionError`; that branch is unreachable for subclasses of `Matcher` (see `Matchers.DeclaredMatchesSafelyIsFound`). |
| `Matchers.GetSafeType` | src/main/java/org/terracotta/context/query/Matcher.java:18-29 | The two nested loops (over superclasses, then over declared methods) return exactly `SafeType(chain)`. |
| `Matchers.SafeType` | src/main/java/org/terracotta/context/query/Matcher.java:28 | The only failure of the search is `AssertionError`. |
| `Matchers.FirstQualifying` | src/main/java/org/terracotta/context/query/Matcher.java:20-26 | A class yields no type exactly when none of its declared methods is a non-synthetic one-parameter `matchesSafely`. |
| `Matchers.SafeTypeFailsIffNoneQualify` | src/main/java/org/terracotta/context/query/Matcher.java:19-28 | The search fails exactly when no class below `Object` declares a qualifying method. |
| `Matchers.SafeTypeIsFirstQualifying` | src/main/java/org/terracotta/context/query/Matcher.java:19-25 | The found type is the parameter type of the first qualifying declaration. Classes are searched subclass first, methods in declaration order, and synthetic bridges are skipped. |
| `Matchers.FirstQualifyingAt` | src/main/java/org/terracotta/context/query/Matcher.java:20-24 | Within one class, the first qualifying method in declaration order supplies the type. |
| `Matchers.DeclaredMatchesSafelyIsFound` | src/main/java/org/terracotta/context/query/Matcher.java:19-28 | If a class below `Object` declares a non-synthetic `matchesSafely(Object)`, the search succeeds. The abstract class `Matcher` declares exactly that (Matcher.java:55), so for every real matcher the assertion error is unreachable and the worst case is a bound type of `Object`. |
| `Matchers.ObjectNeverInspected` | src/main/java/org/terracotta/context/query/Matcher.java:19 | Whatever `java.lang.Object` declares, the result is the same. |
| `LazyContext.LazyContextElement.constructor` | src/main/java/org/terracotta/context/extractor/LazyContextElement.java:31-34 | The element keeps the given identifier and its own copy of the getter map. |
| `LazyContext.LazyContextElement.Identifier` | src/main/java/org/terracotta/context/extractor/LazyContextElement.java:37-39 | `identifier()` returns exactly the identifier passed to the constructor. |
| `LazyContext.LazyContextElement.Attributes` | src/main/java/org/terracotta/context/extractor/LazyContextElement.java:42-48 | The realised map has exactly the getter map's keys. Each value is that key's getter evaluated in the state given to this call, so nothing is cached. The getter map is not changed. |

## Left out

- `toString` of `Descendants`, `Filter` and `LazyContextElement`: they depend on the string forms of `Matcher`, `Class` and `HashMap`. Those forms are not part of this model.
- The `Children` query and `TreeNode` are not part of this model. They are abstracted as a finite child relation, with node identity as value equality.
- Java reflection (`isAssignableFrom`, `cast`, `getDeclaredMethods`, `getSuperclass`) is abstracted as described above. The unchecked cast to `boundType` in `matches` has no counterpart, because objects are not typed in the model.
- `matches` on a null object (a `NullPointerException` from `getClass()`) is not modelled. The model assumes that query node sets hold no nulls; the code that builds them (`TreeNode`, `Children`) is not part of this model.
- The typed predicate `matchesSafely` is modelled as a pure, total function of the node. An exception thrown by `matchesSafely` (it would escape `removeIf` in `Filter.execute`) and a stateful matcher that answers differently on a second pass are not modelled; `Filters.FilterIdempotent` holds only under this purity.
- `LazyContext.LazyContextElement.constructor`: a null attribute map (a `NullPointerException` from `new HashMap<>(attributes)`) and a null getter (a `NullPointerException` from `get()` inside `attributes()`) are not modelled, because Dafny's `map` and function types have no null.
- `AttributeGetter.get()` is a foreign call. It is modelled as a pure function of the environment, so a getter that throws or has side effects is not modelled.
- The windowed counting sketch (`ExponentialHistogram`), the latency sampler and the annotation-driven wiring: their implementations are not part of this model.
