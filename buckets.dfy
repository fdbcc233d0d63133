/** The abstract state of a syntax registry: a map from keys to the ordered
    bucket of descriptors registered under each, and the effect of
    registering and unregistering on it. The registry classes are proved
    against these functions. */
module Buckets {
  import opened Keys

  /** Key identity to bucket. A key that is absent has the empty bucket. */
  type Store<I> = map<Key, seq<I>>

  /** What `syntaxes(k)` returns: the bucket of `k`, empty when nothing was
      ever registered under it. */
  function Bucket<I>(b: Store<I>, k: Key): seq<I>
  {
    if k in b then b[k] else []
  }

  /** Two stores that no query can tell apart (the map may hold empty
      buckets for keys the other one lacks). */
  ghost predicate Same<I>(b1: Store<I>, b2: Store<I>)
  {
    && (forall k :: k in b1 ==> Bucket(b1, k) == Bucket(b2, k))
    && (forall k :: k in b2 ==> Bucket(b1, k) == Bucket(b2, k))
  }

  // ---------------------------------------------------------------------
  // Removing one registration from a bucket

  /** The bucket without its most recent entry equal to `x`; unchanged when
      there is none. */
  function RemoveLast<I(==)>(s: seq<I>, x: I): seq<I>
    decreases |s|
  {
    if s == [] then []
    else if s[|s| - 1] == x then s[..|s| - 1]
    else RemoveLast(s[..|s| - 1], x) + [s[|s| - 1]]
  }

  /** Removing withdraws exactly one `x` when the bucket holds one, and
      leaves the bucket as it was otherwise. */
  lemma {:induction false} RemoveLastCount<I>(s: seq<I>, x: I)
    ensures x !in s ==> RemoveLast(s, x) == s
    ensures x in s ==> |RemoveLast(s, x)| == |s| - 1
    ensures multiset(RemoveLast(s, x)) == multiset(s) - multiset{x}
    decreases |s|
  {
    if s != [] {
      var n := |s| - 1;
      var t := s[..n];
      assert s == t + [s[n]];
      assert multiset(s) == multiset(t) + multiset{s[n]};
      if s[n] == x {
        assert RemoveLast(s, x) == t;
      } else {
        RemoveLastCount(t, x);
        assert RemoveLast(s, x) == RemoveLast(t, x) + [s[n]];
        assert x in s <==> x in t;
      }
    }
  }

  /** The entry removed is exactly the last occurrence of `x`: everything
      before and after it keeps its place. */
  lemma {:induction false} RemoveLastAt<I>(s: seq<I>, x: I, i: nat)
    requires i < |s| && s[i] == x && x !in s[i + 1..]
    ensures RemoveLast(s, x) == s[..i] + s[i + 1..]
    decreases |s|
  {
    var n := |s| - 1;
    if i < n {
      assert s[n] in s[i + 1..];
      assert s[n] != x;
      var t := s[..n];
      assert t[i] == x;
      assert t[i + 1..] == s[i + 1..n];
      assert x !in t[i + 1..];
      RemoveLastAt(t, x, i);
      assert RemoveLast(s, x) == RemoveLast(t, x) + [s[n]];
      assert t[..i] == s[..i];
      assert s[i + 1..] == s[i + 1..n] + [s[n]];
    } else {
      assert s[i + 1..] == [];
    }
  }

  /** Undoing the newest registration restores the bucket. */
  lemma RemoveLastAppended<I>(s: seq<I>, x: I)
    ensures RemoveLast(s + [x], x) == s
  {
    assert (s + [x])[..|s|] == s;
  }

  // ---------------------------------------------------------------------
  // Register and unregister

  /** `x` appended to the bucket of every key in `keys`, one key after the
      other. */
  function RegisteredAlong<I>(b: Store<I>, keys: seq<Key>, x: I): Store<I>
    decreases |keys|
  {
    if keys == [] then b
    else RegisteredAlong(b[keys[0] := Bucket(b, keys[0]) + [x]], keys[1..], x)
  }

  /** Walking distinct keys appends `x` to the bucket of each of them and
      leaves every other bucket alone. */
  lemma {:induction false} RegisteredAlongAt<I>(b: Store<I>, keys: seq<Key>, x: I, j: Key)
    requires NoRepeats(keys)
    ensures j in RegisteredAlong(b, keys, x) <==> j in b || j in keys
    ensures Bucket(RegisteredAlong(b, keys, x), j)
            == if j in keys then Bucket(b, j) + [x] else Bucket(b, j)
    decreases |keys|
  {
    if keys != [] {
      var b' := b[keys[0] := Bucket(b, keys[0]) + [x]];
      assert NoRepeats(keys[1..]);
      RegisteredAlongAt(b', keys[1..], x, j);
      assert keys == [keys[0]] + keys[1..];
      if j == keys[0] {
        assert j !in keys[1..];
      }
    }
  }

  /** The state after `register(k, x)`: `x` appended to the bucket of `k`
      and of each of its ancestors. */
  function Registered<I>(b: Store<I>, k: Key, x: I): Store<I>
    requires k.Valid()
  {
    RegisteredAlong(b, k.Chain(), x)
  }

  /** The last occurrence of `x` dropped from the bucket of every key in
      `keys`, one key after the other. */
  function UnregisteredAlong<I(==)>(b: Store<I>, keys: seq<Key>, x: I): Store<I>
    decreases |keys|
  {
    if keys == [] then b
    else
      var k := keys[0];
      UnregisteredAlong(if k in b then b[k := RemoveLast(b[k], x)] else b, keys[1..], x)
  }

  /** Walking distinct keys withdraws one `x` from the bucket of each of
      them and leaves every other bucket alone. */
  lemma {:induction false} UnregisteredAlongAt<I>(b: Store<I>, keys: seq<Key>, x: I, j: Key)
    requires NoRepeats(keys)
    ensures j in UnregisteredAlong(b, keys, x) <==> j in b
    ensures Bucket(UnregisteredAlong(b, keys, x), j)
            == if j in keys then RemoveLast(Bucket(b, j), x) else Bucket(b, j)
    decreases |keys|
  {
    if keys != [] {
      var k := keys[0];
      var b' := if k in b then b[k := RemoveLast(b[k], x)] else b;
      assert NoRepeats(keys[1..]);
      UnregisteredAlongAt(b', keys[1..], x, j);
      assert keys == [k] + keys[1..];
      if j == k {
        assert j !in keys[1..];
      }
    }
  }

  /** The state after `unregister(k, x)`. When the bucket of `k` holds no
      `x` the call changes nothing, so it is safe to make defensively.
      Otherwise the most recent `x` is withdrawn from the bucket of `k` and
      of each of its ancestors that holds one. */
  function Unregistered<I(==)>(b: Store<I>, k: Key, x: I): Store<I>
    requires k.Valid()
  {
    if x in Bucket(b, k) then UnregisteredAlong(b, k.Chain(), x) else b
  }

  /** Registering appends `x` once at the end of the bucket of `k` and of
      every ancestor, and leaves every other bucket alone. */
  lemma RegisteredBuckets<I>(b: Store<I>, k: Key, x: I, j: Key)
    requires k.Valid()
    ensures Bucket(Registered(b, k, x), k) == Bucket(b, k) + [x]
    ensures j in k.Chain() ==> Bucket(Registered(b, k, x), j) == Bucket(b, j) + [x]
    ensures j !in k.Chain() ==> Bucket(Registered(b, k, x), j) == Bucket(b, j)
    ensures j in Registered(b, k, x) <==> j in b || j in k.Chain()
  {
    ChainHasNoRepeats(k);
    RegisteredAlongAt(b, k.Chain(), x, j);
    RegisteredAlongAt(b, k.Chain(), x, k);
  }

  /** Unregistering withdraws one `x` from the bucket of `k` and of every
      ancestor that holds one, provided the bucket of `k` holds one, and
      leaves every other bucket alone. It never adds or drops a key. */
  lemma UnregisteredBuckets<I>(b: Store<I>, k: Key, x: I, j: Key)
    requires k.Valid()
    ensures Bucket(Unregistered(b, k, x), j)
            == if x in Bucket(b, k) && j in k.Chain() then RemoveLast(Bucket(b, j), x) else Bucket(b, j)
    ensures multiset(Bucket(Unregistered(b, k, x), j))
            == if x in Bucket(b, k) && j in k.Chain() then multiset(Bucket(b, j)) - multiset{x}
               else multiset(Bucket(b, j))
    ensures j in Unregistered(b, k, x) <==> j in b
  {
    ChainHasNoRepeats(k);
    UnregisteredAlongAt(b, k.Chain(), x, j);
    RemoveLastCount(Bucket(b, j), x);
  }

  /** The round trip, one bucket at a time. */
  lemma RegisterThenUnregisterAt<I>(b: Store<I>, k: Key, x: I, j: Key)
    requires k.Valid()
    ensures Bucket(Unregistered(Registered(b, k, x), k, x), j) == Bucket(b, j)
    ensures j in Unregistered(Registered(b, k, x), k, x) <==> j in b || j in k.Chain()
  {
    var r := Registered(b, k, x);
    RegisteredBuckets(b, k, x, j);
    assert x in Bucket(r, k);
    UnregisteredBuckets(r, k, x, j);
    if j in k.Chain() {
      RemoveLastAppended(Bucket(b, j), x);
    }
  }

  /** Round trip: `unregister(k, x)` right after `register(k, x)` restores
      every bucket, the ancestors' included, whatever the state before. */
  lemma RegisterThenUnregister<I>(b: Store<I>, k: Key, x: I)
    requires k.Valid()
    ensures Same(Unregistered(Registered(b, k, x), k, x), b)
  {
    var u := Unregistered(Registered(b, k, x), k, x);
    forall j | j in u
      ensures Bucket(u, j) == Bucket(b, j)
    {
      RegisterThenUnregisterAt(b, k, x, j);
    }
    forall j | j in b
      ensures Bucket(u, j) == Bucket(b, j)
    {
      RegisterThenUnregisterAt(b, k, x, j);
    }
  }

  /** Unregistering changes nothing exactly when the bucket of the key holds
      no copy of the descriptor; in particular a descriptor registered only
      under an ancestor is left there. */
  lemma UnregisterNoOp<I>(b: Store<I>, k: Key, x: I)
    requires k.Valid()
    ensures Same(Unregistered(b, k, x), b) <==> x !in Bucket(b, k)
  {
    var u := Unregistered(b, k, x);
    if x in Bucket(b, k) {
      assert k == k.Chain()[0];
      UnregisteredBuckets(b, k, x, k);
      RemoveLastCount(Bucket(b, k), x);
      assert |Bucket(u, k)| == |Bucket(b, k)| - 1;
      assert k in b;
    }
  }

  // ---------------------------------------------------------------------
  // elements()

  /** The root keys that have a bucket. Every registration reaches exactly
      one root key: the end of its key's chain. */
  function RootsIn<I>(b: Store<I>): set<Key>
  {
    set k | k in b && k.parent == null
  }

  /** The buckets of `keys` put together, with multiplicity. */
  ghost function SumOver<I>(b: Store<I>, keys: set<Key>): multiset<I>
    decreases keys
  {
    if keys == {} then multiset{}
    else
      var k :| k in keys;
      multiset(Bucket(b, k)) + SumOver(b, keys - {k})
  }

  /** What `elements()` returns: the buckets of the root keys put together.
      Each registration is counted once, however many ancestor buckets it
      was propagated into; registering a descriptor twice counts twice. */
  ghost function ElementsOf<I>(b: Store<I>): multiset<I>
  {
    SumOver(b, RootsIn(b))
  }

  /** The sum does not depend on the order in which keys are taken. */
  lemma {:induction false} SumOverRemove<I>(b: Store<I>, keys: set<Key>, k: Key)
    requires k in keys
    ensures SumOver(b, keys) == multiset(Bucket(b, k)) + SumOver(b, keys - {k})
    decreases keys
  {
    var k' :| k' in keys && SumOver(b, keys) == multiset(Bucket(b, k')) + SumOver(b, keys - {k'});
    if k' != k {
      SumOverRemove(b, keys - {k'}, k);
      SumOverRemove(b, keys - {k}, k');
      assert keys - {k'} - {k} == keys - {k} - {k'};
    }
  }

  /** Stores that agree on the buckets of `keys` have the same sum over them. */
  lemma {:induction false} SumOverSame<I>(b: Store<I>, b': Store<I>, keys: set<Key>)
    requires forall j :: j in keys ==> Bucket(b, j) == Bucket(b', j)
    ensures SumOver(b, keys) == SumOver(b', keys)
    decreases keys
  {
    if keys != {} {
      var k :| k in keys;
      SumOverRemove(b, keys, k);
      SumOverRemove(b', keys, k);
      SumOverSame(b, b', keys - {k});
    }
  }

  /** Two stores that differ at most in the bucket of the root key `r`
      differ in their elements by that bucket only. */
  lemma ElementsChangeAtRoot<I>(b: Store<I>, b': Store<I>, r: Key)
    requires r.parent == null
    requires forall j: Key :: j != r && j.parent == null ==>
               (j in b' <==> j in b) && Bucket(b', j) == Bucket(b, j)
    ensures ElementsOf(b') + multiset(Bucket(b, r)) == ElementsOf(b) + multiset(Bucket(b', r))
  {
    var t := RootsIn(b) - {r};
    assert RootsIn(b') - {r} == t;
    SumOverSame(b, b', t);
    RootSplit(b, r);
    RootSplit(b', r);
  }

  /** The elements are the bucket of the root key `r` and the buckets of the
      other root keys. */
  lemma RootSplit<I>(b: Store<I>, r: Key)
    requires r.parent == null
    ensures ElementsOf(b) == multiset(Bucket(b, r)) + SumOver(b, RootsIn(b) - {r})
  {
    if r in RootsIn(b) {
      SumOverRemove(b, RootsIn(b), r);
    } else {
      assert RootsIn(b) - {r} == RootsIn(b);
    }
  }

  /** A registration adds exactly one copy of its descriptor to the elements. */
  lemma ElementsAfterRegister<I>(b: Store<I>, k: Key, x: I)
    requires k.Valid()
    ensures ElementsOf(Registered(b, k, x)) == ElementsOf(b) + multiset{x}
  {
    var r := Registered(b, k, x);
    var root := k.Root();
    RootEndsChain(k);
    forall j: Key | j != root && j.parent == null
      ensures (j in r <==> j in b) && Bucket(r, j) == Bucket(b, j)
    {
      RegisteredBuckets(b, k, x, j);
    }
    assert root in k.Chain();
    RegisteredBuckets(b, k, x, root);
    assert multiset(Bucket(r, root)) == multiset(Bucket(b, root)) + multiset{x};
    ElementsChangeAtRoot(b, r, root);
    Cancel(ElementsOf(r), ElementsOf(b) + multiset{x}, multiset(Bucket(b, root)));
  }

  /** An unregistration removes one copy of its descriptor from the elements
      when it withdraws it from the root bucket, and changes nothing
      otherwise: every other descriptor keeps its count. */
  lemma ElementsAfterUnregister<I>(b: Store<I>, k: Key, x: I)
    requires k.Valid()
    ensures ElementsOf(Unregistered(b, k, x))
            == if x in Bucket(b, k) && x in Bucket(b, k.Root()) then ElementsOf(b) - multiset{x}
               else ElementsOf(b)
  {
    var u := Unregistered(b, k, x);
    var r := multiset(Bucket(b, k.Root()));
    UnregisteredAtRoot(b, k, x);
    if x in Bucket(b, k) && x in r {
      CancelOne(ElementsOf(u), ElementsOf(b), r, x);
    } else {
      assert r - multiset{x} == r || x !in Bucket(b, k);
      Cancel(ElementsOf(u), ElementsOf(b), r);
    }
  }

  /** An unregistration changes the elements through the root bucket only. */
  lemma UnregisteredAtRoot<I>(b: Store<I>, k: Key, x: I)
    requires k.Valid()
    ensures ElementsOf(Unregistered(b, k, x)) + multiset(Bucket(b, k.Root()))
            == ElementsOf(b) + multiset(Bucket(Unregistered(b, k, x), k.Root()))
    ensures multiset(Bucket(Unregistered(b, k, x), k.Root()))
            == if x in Bucket(b, k) then multiset(Bucket(b, k.Root())) - multiset{x}
               else multiset(Bucket(b, k.Root()))
  {
    var u := Unregistered(b, k, x);
    var root := k.Root();
    RootEndsChain(k);
    forall j: Key | j != root && j.parent == null
      ensures (j in u <==> j in b) && Bucket(u, j) == Bucket(b, j)
    {
      UnregisteredBuckets(b, k, x, j);
    }
    assert root in k.Chain();
    UnregisteredBuckets(b, k, x, root);
    ElementsChangeAtRoot(b, u, root);
  }

  /** Cancelling a common part of two multiset sums, one of which lacks a
      copy of `x`. */
  lemma CancelOne<I>(a: multiset<I>, d: multiset<I>, m: multiset<I>, x: I)
    requires x in m && a + m == d + (m - multiset{x})
    ensures a == d - multiset{x}
  {
    forall y
      ensures a[y] == (d - multiset{x})[y]
    {
      assert (a + m)[y] == (d + (m - multiset{x}))[y];
    }
  }

  /** Cancelling a common part of two multiset sums. */
  lemma Cancel<I>(a: multiset<I>, d: multiset<I>, m: multiset<I>)
    requires a + m == d + m
    ensures a == d
  {
    forall y
      ensures a[y] == d[y]
    {
      assert (a + m)[y] == (d + m)[y];
    }
  }

  /** Under the propagation invariant below, every entry of every bucket is
      among the elements. */
  lemma {:induction false} InRootBucket<I>(b: Store<I>, k: Key, y: I)
    requires k.Valid() && Propagated(b) && y in Bucket(b, k)
    ensures y in Bucket(b, k.Root())
    decreases k.depth
  {
    if k.parent != null {
      assert multiset(b[k]) <= multiset(Bucket(b, k.parent));
      assert y in multiset(Bucket(b, k.parent));
      InRootBucket(b, k.parent, y);
    }
  }

  lemma ElementsHoldEveryBucket<I>(b: Store<I>, k: Key, y: I)
    requires k.Valid() && Propagated(b) && y in Bucket(b, k)
    ensures y in ElementsOf(b)
  {
    InRootBucket(b, k, y);
    var root := k.Root();
    assert root in RootsIn(b);
    SumOverRemove(b, RootsIn(b), root);
  }

  // ---------------------------------------------------------------------
  // Propagation to ancestor keys

  /** Every child key's bucket is contained, with multiplicity, in its parent
      key's bucket. */
  ghost predicate Propagated<I>(b: Store<I>)
  {
    forall k :: k in b && k.parent != null ==> multiset(b[k]) <= multiset(Bucket(b, k.parent))
  }

  /** Registration keeps the propagation invariant. */
  lemma RegisterKeepsPropagated<I>(b: Store<I>, k: Key, x: I)
    requires k.Valid() && Propagated(b)
    ensures Propagated(Registered(b, k, x))
  {
    var r := Registered(b, k, x);
    forall j | j in r && j.parent != null
      ensures multiset(r[j]) <= multiset(Bucket(r, j.parent))
    {
      RegisteredBuckets(b, k, x, j);
      RegisteredBuckets(b, k, x, j.parent);
      if j in k.Chain() {
        ChainClosedUnderParent(k, j);
        assert multiset(Bucket(b, j)) <= multiset(Bucket(b, j.parent));
      } else {
        assert multiset(b[j]) <= multiset(Bucket(b, j.parent));
      }
    }
  }

  /** Unregistering under an ancestor key does not reach the descendants:
      an entry registered under a child key stays visible there after it is
      withdrawn from the parent key, and the invariant is lost. */
  lemma UnregisterAtParentLeavesChild<I>(child: Key, x: I)
    requires child.Valid() && child.parent != null && child.parent.parent == null
    ensures Propagated(Registered(map[], child, x))
    ensures x in Bucket(Unregistered(Registered(map[], child, x), child.parent, x), child)
    ensures !Propagated(Unregistered(Registered(map[], child, x), child.parent, x))
  {
    var p := child.parent;
    assert p.Chain() == [p];
    assert child.Chain() == [child, p];
    RegisterKeepsPropagated(map[], child, x);
    var r := Registered(map[], child, x);
    RegisteredBuckets(map[], child, x, p);
    assert Bucket(r, child) == [x] && Bucket(r, p) == [x];
    var u := Unregistered(r, p, x);
    UnregisteredBuckets(r, p, x, child);
    UnregisteredBuckets(r, p, x, p);
    assert Bucket(u, child) == [x];
    assert Bucket(u, p) == RemoveLast([x], x) == [];
    assert child in u && multiset(u[child])[x] == 1;
  }

  /** The same sequence hides the entry from `elements()`: it is still
      listed under the child key, but the root bucket that `elements()` adds
      up no longer holds it. */
  lemma UnregisterAtParentHidesElement<I>(child: Key, x: I)
    requires child.Valid() && child.parent != null && child.parent.parent == null
    ensures x in Bucket(Unregistered(Registered(map[], child, x), child.parent, x), child)
    ensures x !in ElementsOf(Unregistered(Registered(map[], child, x), child.parent, x))
  {
    var p := child.parent;
    UnregisterAtParentLeavesChild(child, x);
    assert RootsIn<I>(map[]) == {};
    ElementsAfterRegister(map[], child, x);
    var r := Registered(map[], child, x);
    assert p.Chain() == [p];
    assert child.Chain() == [child, p];
    RegisteredBuckets(map[], child, x, p);
    assert x in Bucket(r, p);
    ElementsAfterUnregister(r, p, x);
  }

  /** After that sequence, unregistering under the child key applies, since
      the child's bucket still holds the entry, and empties that bucket; but
      the root bucket holds no copy, so `elements()` does not change. */
  lemma UnregisterAppliesRootKeeps<I>(child: Key, x: I)
    requires child.Valid() && child.parent != null && child.parent.parent == null
    ensures var u := Unregistered(Registered(map[], child, x), child.parent, x);
            && x in Bucket(u, child) && x !in Bucket(u, child.parent)
            && Bucket(Unregistered(u, child, x), child) == []
            && ElementsOf(Unregistered(u, child, x)) == ElementsOf(u)
  {
    var p := child.parent;
    UnregisterAtParentLeavesChild(child, x);
    var r := Registered(map[], child, x);
    assert p.Chain() == [p];
    assert child.Chain() == [child, p];
    RegisteredBuckets(map[], child, x, p);
    RegisteredBuckets(map[], child, x, child);
    var u := Unregistered(r, p, x);
    UnregisteredBuckets(r, p, x, p);
    UnregisteredBuckets(r, p, x, child);
    assert Bucket(u, child) == [x] && Bucket(u, p) == [];
    UnregisteredBuckets(u, child, x, child);
    assert child.Root() == p;
    ElementsAfterUnregister(u, child, x);
  }

  // ---------------------------------------------------------------------
  // Child registries: containment in the parent

  /** Every bucket of `c` is contained, with multiplicity, in the same
      key's bucket of `p`. */
  ghost predicate Within<I>(c: Store<I>, p: Store<I>)
  {
    forall k :: k in c ==> multiset(c[k]) <= multiset(Bucket(p, k))
  }

  lemma WithinRegistered<I>(c: Store<I>, p: Store<I>, k: Key, x: I)
    requires k.Valid() && Within(c, p)
    ensures Within(Registered(c, k, x), Registered(p, k, x))
  {
    var c', p' := Registered(c, k, x), Registered(p, k, x);
    forall j | j in c'
      ensures multiset(c'[j]) <= multiset(Bucket(p', j))
    {
      assert multiset(Bucket(c, j)) <= multiset(Bucket(p, j));
      RegisteredBuckets(c, k, x, j);
      RegisteredBuckets(p, k, x, j);
    }
  }
}
