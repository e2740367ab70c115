/** A context element whose attributes are computed on demand: it stores one
    getter per attribute name and evaluates every getter on each request. */
module LazyContext {
  import opened Reflection

  /** An attribute getter: reads the live state `E` it is attached to. */
  type Getter<!E, V> = E -> V

  class LazyContextElement<!E, V> {
    /** The element's type identifier. */
    const identifier: ClassName
    /** The element's own copy of the getter map. */
    const getters: map<string, Getter<E, V>>

    /** The constructor keeps the identifier and a copy of the caller's map:
        map values cannot be changed afterwards by the caller. */
    constructor (identifier: ClassName, attributes: map<string, Getter<E, V>>)
      ensures this.identifier == identifier
      ensures getters == attributes
    {
      this.identifier := identifier;
      this.getters := attributes;
    }

    /** `identifier()` returns what the constructor was given. */
    function Identifier(): (r: ClassName)
      ensures r == identifier
    {
      identifier
    }

    /** `attributes()`: a fresh map from every attribute name to its getter's
        value in the current state `env`. Nothing is cached: each call reads
        `env` afresh, and the getter map is left as it was. */
    method Attributes(env: E) returns (realized: map<string, V>)
      ensures realized.Keys == getters.Keys
      ensures forall name :: name in realized ==> realized[name] == getters[name](env)
    {
      realized := map[];
      var pending := getters.Keys;
      while pending != {}
        invariant pending <= getters.Keys
        invariant realized.Keys == getters.Keys - pending
        invariant forall name :: name in realized ==> realized[name] == getters[name](env)
        decreases pending
      {
        var name :| name in pending;
        realized := realized[name := getters[name](env)];
        pending := pending - {name};
      }
    }
  }
}
