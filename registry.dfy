/** The default, mutable syntax registry: a map from each key to the ordered
    bucket of descriptors registered under it. Registering under a child key
    also appends to the bucket of every ancestor key. */
module Registries {
  import opened Keys
  import opened Buckets

  class SyntaxRegistry<I(==)> {
    var buckets: Store<I>

    /** `empty()`: a fresh registry in which every key has an empty bucket. */
    constructor Empty()
      ensures buckets == map[]
      ensures forall k: Key :: Bucket(buckets, k) == []
      ensures ElementsOf(buckets) == multiset{}
    {
      buckets := map[];
      new;
      assert RootsIn(buckets) == {};
    }

    /** `syntaxes(key)`: the bucket of `key`, in registration order. It is a
        value, so later (un)registrations never change what was returned. */
    method Syntaxes(key: Key) returns (r: seq<I>)
      ensures r == Bucket(buckets, key)
      ensures key.Valid() && Propagated(buckets) ==> forall y :: y in r ==> y in ElementsOf(buckets)
    {
      if key in buckets {
        r := buckets[key];
      } else {
        r := [];
      }
      if key.Valid() && Propagated(buckets) {
        forall y | y in r
          ensures y in ElementsOf(buckets)
        {
          ElementsHoldEveryBucket(buckets, key, y);
        }
      }
    }

    /** `elements()`: every registration once, whichever keys it was
        propagated to. The buckets of the root keys are added up. */
    method Elements() returns (r: multiset<I>)
      ensures r == ElementsOf(buckets)
      ensures Propagated(buckets) ==>
                forall k: Key, y :: k.Valid() && y in Bucket(buckets, k) ==> y in r
    {
      r := multiset{};
      var todo := RootsIn(buckets);
      while todo != {}
        invariant todo <= RootsIn(buckets)
        invariant r + SumOver(buckets, todo) == ElementsOf(buckets)
        decreases todo
      {
        var k :| k in todo;
        SumOverRemove(buckets, todo, k);
        r := r + multiset(buckets[k]);
        todo := todo - {k};
      }
      if Propagated(buckets) {
        forall k: Key, y | k.Valid() && y in Bucket(buckets, k)
          ensures y in r
        {
          ElementsHoldEveryBucket(buckets, k, y);
        }
      }
    }

    /** `register(key, info)`: walks from `key` up its parent links, nearest
        first, appending `info` to each bucket on the way. Duplicates are
        kept: registering twice leaves two entries. */
    method Register(key: Key, info: I)
      requires key.Valid()
      modifies this
      ensures buckets == Registered(old(buckets), key, info)
      ensures Bucket(buckets, key) == old(Bucket(buckets, key)) + [info]
    {
      ghost var start := buckets;
      ghost var chain := key.Chain();
      ChainFollowsParents(key);
      var cur: Key? := key;
      ghost var i := 0;
      while cur != null
        invariant 0 <= i <= |chain|
        invariant cur == if i < |chain| then chain[i] else null
        invariant RegisteredAlong(buckets, chain[i..], info) == Registered(start, key, info)
        decreases |chain| - i
      {
        assert chain[i..][1..] == chain[i + 1..];
        buckets := buckets[cur := Bucket(buckets, cur) + [info]];
        cur := cur.parent;
        i := i + 1;
      }
      RegisteredBuckets(start, key, info, key);
    }

    /** `unregister(key, info)`: when the bucket of `key` holds `info`,
        walks from `key` up its parent links, withdrawing the most recent
        `info` from each bucket that holds one. Otherwise nothing changes, so
        a defensive call never touches what is registered under ancestors. */
    method Unregister(key: Key, info: I)
      requires key.Valid()
      modifies this
      ensures buckets == Unregistered(old(buckets), key, info)
      ensures Bucket(buckets, key) == RemoveLast(old(Bucket(buckets, key)), info)
    {
      ghost var start := buckets;
      UnregisteredBuckets(start, key, info, key);
      RemoveLastCount(Bucket(start, key), info);
      if key !in buckets || info !in buckets[key] {
        return;
      }
      ghost var chain := key.Chain();
      ChainFollowsParents(key);
      var cur: Key? := key;
      ghost var i := 0;
      while cur != null
        invariant 0 <= i <= |chain|
        invariant cur == if i < |chain| then chain[i] else null
        invariant UnregisteredAlong(buckets, chain[i..], info) == Unregistered(start, key, info)
        decreases |chain| - i
      {
        assert chain[i..][1..] == chain[i + 1..];
        if cur in buckets {
          buckets := buckets[cur := RemoveLast(buckets[cur], info)];
        }
        cur := cur.parent;
        i := i + 1;
      }
    }
  }
}
