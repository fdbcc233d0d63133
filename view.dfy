/** A read-only view over a syntax registry: queries read the live backing
    registry, while registration and unregistration are always refused. */
module Views {
  import opened Keys
  import opened Buckets
  import opened Registries

  /** Why a mutation was refused. */
  datatype Refusal = UnsupportedOperation

  /** The outcome of a mutation request. */
  datatype Outcome = Pass | Fail(error: Refusal)

  class UnmodifiableView<I(==)> {
    /** The registry read through; the view holds no copy of its own. */
    const backing: SyntaxRegistry<I>

    /** `unmodifiableView(registry)`. */
    constructor Of(registry: SyntaxRegistry<I>)
      ensures backing == registry
    {
      backing := registry;
    }

    /** The backing registry's bucket of `key` as it is now. */
    method Syntaxes(key: Key) returns (r: seq<I>)
      ensures r == Bucket(backing.buckets, key)
    {
      r := backing.Syntaxes(key);
    }

    /** The backing registry's elements as they are now. */
    method Elements() returns (r: multiset<I>)
      ensures r == ElementsOf(backing.buckets)
    {
      r := backing.Elements();
    }

    /** Refused, whatever the state; nothing is modified. */
    method Register(key: Key, info: I) returns (outcome: Outcome)
      ensures outcome == Fail(UnsupportedOperation)
    {
      outcome := Fail(UnsupportedOperation);
    }

    /** Refused, whatever the state; nothing is modified. */
    method Unregister(key: Key, info: I) returns (outcome: Outcome)
      ensures outcome == Fail(UnsupportedOperation)
    {
      outcome := Fail(UnsupportedOperation);
    }
  }
}
