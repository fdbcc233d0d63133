/** A child registry: queries read its own storage, and every registration
    and unregistration is applied to its own storage and then mirrored into a
    designated parent registry. */
module ChildRegistries {
  import opened Keys
  import opened Buckets
  import opened Registries
  import opened Histories

  class ChildSyntaxRegistry<I(==)> {
    /** `parent()`: the registry mutations are mirrored into. */
    const parent: SyntaxRegistry<I>
    /** The registry that backs this one. */
    const child: SyntaxRegistry<I>

    /** `ChildSyntaxRegistry.of(parent, child)`. */
    constructor Of(parent: SyntaxRegistry<I>, child: SyntaxRegistry<I>)
      ensures this.parent == parent && this.child == child
    {
      this.parent := parent;
      this.child := child;
    }

    /** The child's own bucket of `key`. */
    method Syntaxes(key: Key) returns (r: seq<I>)
      ensures r == Bucket(child.buckets, key)
    {
      r := child.Syntaxes(key);
    }

    /** The child's own elements. */
    method Elements() returns (r: multiset<I>)
      ensures r == ElementsOf(child.buckets)
    {
      r := child.Elements();
    }

    /** Registers in the child, then in the parent. Containment of the child
        in the parent is kept, bucket by bucket, and equal stores stay equal;
        for stores explained by registration logs `childLog` and `parentLog`
        (ghost: they exist only in the proof), the registration is logged in
        both. */
    method Register(key: Key, info: I, ghost childLog: seq<Entry<I>>, ghost parentLog: seq<Entry<I>>)
      requires key.Valid()
      modifies child, parent
      ensures parent != child ==>
                && child.buckets == Registered(old(child.buckets), key, info)
                && parent.buckets == Registered(old(parent.buckets), key, info)
      ensures parent == child ==>
                child.buckets == Registered(Registered(old(child.buckets), key, info), key, info)
      ensures info in Bucket(child.buckets, key) && info in Bucket(parent.buckets, key)
      ensures Within(old(child.buckets), old(parent.buckets)) ==> Within(child.buckets, parent.buckets)
      ensures parent != child && old(child.buckets) == old(parent.buckets) ==>
                child.buckets == parent.buckets && Within(child.buckets, parent.buckets)
      ensures parent != child && Nested(old(child.buckets), old(parent.buckets), childLog, parentLog) ==>
                Nested(child.buckets, parent.buckets,
                       childLog + [Entry(key, info)], parentLog + [Entry(key, info)])
    {
      ghost var c0, p0 := child.buckets, parent.buckets;
      child.Register(key, info);
      parent.Register(key, info);
      if parent != child {
        if Within(c0, p0) {
          WithinRegistered(c0, p0, key, info);
        }
        if Nested(c0, p0, childLog, parentLog) {
          NestedRegistered(c0, p0, childLog, parentLog, key, info);
        }
      }
    }

    /** Unregisters in the child, then in the parent. Two stores that start
        equal stay equal, so a child and a parent that both start empty and
        see every call through the child keep the child within the parent.
        For stores explained by registration logs, an unregistration that is
        allowed in both (it withdraws a live registration made under `key`,
        or is defensive) withdraws it from both logs and keeps the child
        within the parent. */
    method Unregister(key: Key, info: I, ghost childLog: seq<Entry<I>>, ghost parentLog: seq<Entry<I>>)
      requires key.Valid()
      modifies child, parent
      ensures parent != child ==>
                && child.buckets == Unregistered(old(child.buckets), key, info)
                && parent.buckets == Unregistered(old(parent.buckets), key, info)
      ensures parent == child ==>
                child.buckets == Unregistered(Unregistered(old(child.buckets), key, info), key, info)
      ensures && parent != child
              && Nested(old(child.buckets), old(parent.buckets), childLog, parentLog)
              && Allowed(childLog, key, info) && Allowed(parentLog, key, info)
              ==> && Nested(child.buckets, parent.buckets,
                            RemoveLast(childLog, Entry(key, info)), RemoveLast(parentLog, Entry(key, info)))
                  && Within(child.buckets, parent.buckets)
      ensures parent != child && old(child.buckets) == old(parent.buckets) ==>
                child.buckets == parent.buckets && Within(child.buckets, parent.buckets)
    {
      ghost var c0, p0 := child.buckets, parent.buckets;
      child.Unregister(key, info);
      parent.Unregister(key, info);
      if && parent != child && Nested(c0, p0, childLog, parentLog)
         && Allowed(childLog, key, info) && Allowed(parentLog, key, info) {
        NestedUnregistered(c0, p0, childLog, parentLog, key, info);
        NestedWithin(child.buckets, parent.buckets,
                     RemoveLast(childLog, Entry(key, info)), RemoveLast(parentLog, Entry(key, info)));
      }
    }
  }
}
