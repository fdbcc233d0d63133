/** The live registrations behind a registry's state. A store is explained
    by a log of `register(key, info)` calls not yet withdrawn when every
    bucket holds exactly the descriptors of the logged registrations that
    reach its key. This is the invariant module loading and unloading keep:
    no removal is ever partial, a parent bucket holds its child keys'
    entries summed up, and `elements()` counts every live registration once. */
module Histories {
  import opened Keys
  import opened Buckets

  /** One registration not yet withdrawn. */
  datatype Entry<I> = Entry(key: Key, info: I)

  /** Whether a registration under `e.key` propagates into the bucket of `j`. */
  predicate Reaches<I>(e: Entry<I>, j: Key)
  {
    e.key.Valid() && j in e.key.Chain()
  }

  /** What one registration puts into the bucket of `j`. */
  function Contribution<I>(e: Entry<I>, j: Key): multiset<I>
  {
    if Reaches(e, j) then multiset{e.info} else multiset{}
  }

  /** The descriptors of the logged registrations that reach `j`. */
  function Reaching<I>(log: seq<Entry<I>>, j: Key): multiset<I>
    decreases |log|
  {
    if log == [] then multiset{}
    else Reaching(log[..|log| - 1], j) + Contribution(log[|log| - 1], j)
  }

  /** The descriptors of all logged registrations. */
  function Infos<I>(log: seq<Entry<I>>): multiset<I>
    decreases |log|
  {
    if log == [] then multiset{} else Infos(log[..|log| - 1]) + multiset{log[|log| - 1].info}
  }

  /** Every bucket holds exactly the logged registrations reaching its key,
      up to order, and the elements are exactly the logged descriptors. */
  ghost predicate Tracks<I>(b: Store<I>, log: seq<Entry<I>>)
  {
    && (forall j :: j in b ==> multiset(b[j]) == Reaching(log, j))
    && (forall e, j :: e in log && e.key.Valid() && j in e.key.Chain() ==> j in b)
    && ElementsOf(b) == Infos(log)
  }

  /** Every bucket, present or not, holds what reaches its key. */
  lemma TracksAt<I>(b: Store<I>, log: seq<Entry<I>>, j: Key)
    requires Tracks(b, log)
    ensures multiset(Bucket(b, j)) == Reaching(log, j)
  {
    if j !in b {
      ReachingNone(log, j);
    }
  }

  /** The invariant from its bucket-by-bucket form. */
  lemma TracksIntro<I>(b: Store<I>, log: seq<Entry<I>>)
    requires forall j: Key :: multiset(Bucket(b, j)) == Reaching(log, j)
    requires ElementsOf(b) == Infos(log)
    ensures Tracks(b, log)
  {
    forall e, j | e in log && e.key.Valid() && j in e.key.Chain()
      ensures j in b
    {
      var i :| 0 <= i < |log| && log[i] == e;
      ReachingHas(log, i, j);
      assert e.info in multiset(Bucket(b, j));
    }
  }

  /** An unregistration a loader may issue: it withdraws a live
      registration made under that very key, or it is defensive and no
      live registration reaches the key with that descriptor. */
  predicate Allowed<I(==)>(log: seq<Entry<I>>, k: Key, x: I)
  {
    Entry(k, x) in log || x !in Reaching(log, k)
  }

  // ---------------------------------------------------------------------
  // The log functions

  /** A logged registration is counted in every bucket it reaches and among
      the descriptors. */
  lemma {:induction false} ReachingHas<I>(log: seq<Entry<I>>, i: nat, j: Key)
    requires i < |log|
    ensures Reaches(log[i], j) ==> log[i].info in Reaching(log, j)
    ensures log[i].info in Infos(log)
    decreases |log|
  {
    if i < |log| - 1 {
      ReachingHas(log[..|log| - 1], i, j);
    }
  }

  /** A key that no logged registration reaches receives nothing. */
  lemma {:induction false} ReachingNone<I>(log: seq<Entry<I>>, j: Key)
    requires forall e :: e in log ==> !Reaches(e, j)
    ensures Reaching(log, j) == multiset{}
    decreases |log|
  {
    if log != [] {
      assert log[|log| - 1] in log;
      ReachingNone(log[..|log| - 1], j);
    }
  }

  /** Withdrawing the most recent copy of `e` from the log withdraws its
      descriptor once from every bucket it reaches. */
  lemma {:induction false} ReachingRemoveLast<I>(log: seq<Entry<I>>, e: Entry<I>, j: Key)
    requires e in log
    ensures Contribution(e, j) <= Reaching(log, j)
    ensures Reaching(RemoveLast(log, e), j) == Reaching(log, j) - Contribution(e, j)
    decreases |log|
  {
    var t, l := LogSplit(log, e);
    ReachingAppend(t, l, j);
    if l == e {
      AddSub(Reaching(t, j), Contribution(e, j));
    } else {
      ReachingRemoveLast(t, e, j);
      ReachingAppend(RemoveLast(t, e), l, j);
      SubAdd(Reaching(t, j), Contribution(e, j), Contribution(l, j));
    }
  }

  /** The same withdrawal takes its descriptor once out of the descriptors. */
  lemma {:induction false} InfosRemoveLast<I>(log: seq<Entry<I>>, e: Entry<I>)
    requires e in log
    ensures multiset{e.info} <= Infos(log)
    ensures Infos(RemoveLast(log, e)) == Infos(log) - multiset{e.info}
    decreases |log|
  {
    var t, l := LogSplit(log, e);
    InfosAppend(t, l);
    if l == e {
      AddSub(Infos(t), multiset{e.info});
    } else {
      InfosRemoveLast(t, e);
      InfosAppend(RemoveLast(t, e), l);
      SubAdd(Infos(t), multiset{e.info}, multiset{l.info});
    }
  }

  /** A log holding `e`, as its older part and its newest registration. */
  lemma LogSplit<I>(log: seq<Entry<I>>, e: Entry<I>) returns (t: seq<Entry<I>>, l: Entry<I>)
    requires e in log
    ensures log == t + [l] && |t| < |log|
    ensures l == e ==> RemoveLast(log, e) == t
    ensures l != e ==> e in t && RemoveLast(log, e) == RemoveLast(t, e) + [l]
  {
    t, l := log[..|log| - 1], log[|log| - 1];
    assert log == t + [l];
  }

  lemma ReachingAppend<I>(t: seq<Entry<I>>, l: Entry<I>, j: Key)
    ensures Reaching(t + [l], j) == Reaching(t, j) + Contribution(l, j)
  {
    assert (t + [l])[..|t|] == t;
  }

  lemma InfosAppend<I>(t: seq<Entry<I>>, l: Entry<I>)
    ensures Infos(t + [l]) == Infos(t) + multiset{l.info}
  {
    assert (t + [l])[..|t|] == t;
  }

  /** Adding and then taking away the same part. */
  lemma AddSub<I>(a: multiset<I>, c: multiset<I>)
    ensures (a + c) - c == a
  {
    forall y
      ensures ((a + c) - c)[y] == a[y]
    {
    }
  }

  /** Taking away a contained part commutes with adding another. */
  lemma SubAdd<I>(a: multiset<I>, c: multiset<I>, d: multiset<I>)
    requires c <= a
    ensures (a - c) + d == (a + d) - c
  {
    forall y
      ensures ((a - c) + d)[y] == ((a + d) - c)[y]
    {
      assert c[y] <= a[y];
    }
  }

  /** Taking away a contained part and adding it back. */
  lemma SubAddBack<I>(a: multiset<I>, c: multiset<I>)
    requires c <= a
    ensures (a - c) + c == a
  {
    forall y
      ensures ((a - c) + c)[y] == a[y]
    {
      assert c[y] <= a[y];
    }
  }

  /** Counting over a log only grows when the log grows as a multiset. */
  lemma {:induction false} ReachingMono<I>(small: seq<Entry<I>>, large: seq<Entry<I>>, j: Key)
    requires multiset(small) <= multiset(large)
    ensures Reaching(small, j) <= Reaching(large, j)
    decreases |small|
  {
    if small != [] {
      var n := |small| - 1;
      var e, t := small[n], small[..n];
      assert small == t + [e];
      assert e in multiset(large);
      var rest := RemoveLast(large, e);
      RemoveLastCount(large, e);
      assert multiset(t) <= multiset(rest);
      ReachingMono(t, rest, j);
      ReachingRemoveLast(large, e, j);
      SubAddBack(Reaching(large, j), Contribution(e, j));
    }
  }

  /** The same for the descriptors of the whole log. */
  lemma {:induction false} InfosMono<I>(small: seq<Entry<I>>, large: seq<Entry<I>>)
    requires multiset(small) <= multiset(large)
    ensures Infos(small) <= Infos(large)
    decreases |small|
  {
    if small != [] {
      var n := |small| - 1;
      var e, t := small[n], small[..n];
      assert small == t + [e];
      assert e in multiset(large);
      var rest := RemoveLast(large, e);
      RemoveLastCount(large, e);
      assert multiset(t) <= multiset(rest);
      InfosMono(t, rest);
      InfosRemoveLast(large, e);
      SubAddBack(Infos(large), multiset{e.info});
    }
  }

  /** Whatever reaches a child key reaches its parent. */
  lemma {:induction false} ReachingGrowsUp<I>(log: seq<Entry<I>>, k: Key)
    requires k.parent != null
    ensures Reaching(log, k) <= Reaching(log, k.parent)
    decreases |log|
  {
    if log != [] {
      var e := log[|log| - 1];
      ReachingGrowsUp(log[..|log| - 1], k);
      if Reaches(e, k) {
        ChainClosedUnderParent(e.key, k);
      }
    }
  }

  /** Two sibling keys together receive no more than their parent. */
  lemma {:induction false} ReachingSiblings<I>(log: seq<Entry<I>>, a: Key, b: Key)
    requires a != b && a.parent != null && a.parent == b.parent
    ensures Reaching(log, a) + Reaching(log, b) <= Reaching(log, a.parent)
    decreases |log|
  {
    if log != [] {
      var e := log[|log| - 1];
      ReachingSiblings(log[..|log| - 1], a, b);
      if Reaches(e, a) {
        ChainClosedUnderParent(e.key, a);
        if Reaches(e, b) {
          ChainHasNoSiblings(e.key, a, b);
        }
      } else if Reaches(e, b) {
        ChainClosedUnderParent(e.key, b);
      }
    }
  }

  // ---------------------------------------------------------------------
  // The invariant

  /** A new registry is explained by the empty log. */
  lemma TracksEmpty<I>()
    ensures Tracks<I>(map[], [])
  {
    assert RootsIn<I>(map[]) == {};
  }

  /** `register(k, x)` logs the registration. */
  lemma TracksRegistered<I>(b: Store<I>, log: seq<Entry<I>>, k: Key, x: I)
    requires k.Valid() && Tracks(b, log)
    ensures Tracks(Registered(b, k, x), log + [Entry(k, x)])
  {
    var r, log' := Registered(b, k, x), log + [Entry(k, x)];
    assert log'[..|log|] == log;
    forall j: Key
      ensures multiset(Bucket(r, j)) == Reaching(log', j)
    {
      TracksAt(b, log, j);
      RegisteredBuckets(b, k, x, j);
      assert Reaching(log', j) == Reaching(log, j) + Contribution(Entry(k, x), j);
    }
    ElementsAfterRegister(b, k, x);
    TracksIntro(r, log');
  }

  /** Withdrawing a live registration, one bucket at a time. */
  lemma WithdrawnAt<I>(b: Store<I>, log: seq<Entry<I>>, k: Key, x: I, j: Key)
    requires k.Valid() && Tracks(b, log) && Entry(k, x) in log
    ensures x in Bucket(b, k)
    ensures multiset(Bucket(Unregistered(b, k, x), j)) == Reaching(RemoveLast(log, Entry(k, x)), j)
  {
    var e := Entry(k, x);
    assert k.Chain()[0] == k;
    TracksAt(b, log, k);
    ReachingRemoveLast(log, e, k);
    TracksAt(b, log, j);
    UnregisteredBuckets(b, k, x, j);
    ReachingRemoveLast(log, e, j);
  }

  /** Withdrawing a live registration takes one copy out of the elements. */
  lemma WithdrawnElements<I>(b: Store<I>, log: seq<Entry<I>>, k: Key, x: I)
    requires k.Valid() && Tracks(b, log) && Entry(k, x) in log
    ensures ElementsOf(Unregistered(b, k, x)) == Infos(RemoveLast(log, Entry(k, x)))
  {
    var e := Entry(k, x);
    var root := k.Root();
    RootEndsChain(k);
    WithdrawnAt(b, log, k, x, root);
    ReachingRemoveLast(log, e, root);
    InfosRemoveLast(log, e);
    TracksAt(b, log, root);
    assert x in Bucket(b, root);
    ElementsAfterUnregister(b, k, x);
  }

  /** An allowed `unregister(k, x)` withdraws the most recent matching
      registration from the log, or changes nothing when there is none. */
  lemma TracksUnregistered<I>(b: Store<I>, log: seq<Entry<I>>, k: Key, x: I)
    requires k.Valid() && Tracks(b, log) && Allowed(log, k, x)
    ensures Tracks(Unregistered(b, k, x), RemoveLast(log, Entry(k, x)))
  {
    var e := Entry(k, x);
    if e in log {
      var u, log' := Unregistered(b, k, x), RemoveLast(log, e);
      forall j: Key
        ensures multiset(Bucket(u, j)) == Reaching(log', j)
      {
        WithdrawnAt(b, log, k, x, j);
      }
      WithdrawnElements(b, log, k, x);
      TracksIntro(u, log');
    } else {
      TracksAt(b, log, k);
      assert x !in Bucket(b, k);
      RemoveLastCount(log, e);
    }
  }

  /** Explained states keep every child key's bucket inside its parent's. */
  lemma TracksPropagated<I>(b: Store<I>, log: seq<Entry<I>>)
    requires Tracks(b, log)
    ensures Propagated(b)
  {
    forall k | k in b && k.parent != null
      ensures multiset(b[k]) <= multiset(Bucket(b, k.parent))
    {
      TracksAt(b, log, k);
      TracksAt(b, log, k.parent);
      ReachingGrowsUp(log, k);
    }
  }

  /** In an explained state two sibling keys' buckets, summed, are contained
      in their parent's bucket: withdrawing from one child cannot leave the
      parent short of the other child's entries. */
  lemma SiblingsWithinParent<I>(b: Store<I>, log: seq<Entry<I>>, c1: Key, c2: Key)
    requires Tracks(b, log)
    requires c1 != c2 && c1.parent != null && c1.parent == c2.parent
    ensures multiset(Bucket(b, c1)) + multiset(Bucket(b, c2)) <= multiset(Bucket(b, c1.parent))
  {
    TracksAt(b, log, c1);
    TracksAt(b, log, c2);
    TracksAt(b, log, c1.parent);
    ReachingSiblings(log, c1, c2);
  }

  // ---------------------------------------------------------------------
  // Sequences of calls

  /** A mutation as a caller issues it. */
  datatype Op<I> = Register(key: Key, info: I) | Unregister(key: Key, info: I)

  predicate ValidOps<I>(ops: seq<Op<I>>)
  {
    forall i :: 0 <= i < |ops| ==> ops[i].key.Valid()
  }

  /** The state after performing `ops` in order. */
  function Replay<I(==)>(b: Store<I>, ops: seq<Op<I>>): Store<I>
    requires ValidOps(ops)
    decreases |ops|
  {
    if ops == [] then b
    else
      var b' := match ops[0]
        case Register(k, x) => Registered(b, k, x)
        case Unregister(k, x) => Unregistered(b, k, x);
      Replay(b', ops[1..])
  }

  /** The live registrations after performing `ops` in order. */
  function LogAfter<I(==)>(log: seq<Entry<I>>, ops: seq<Op<I>>): seq<Entry<I>>
    decreases |ops|
  {
    if ops == [] then log
    else
      var log' := match ops[0]
        case Register(k, x) => log + [Entry(k, x)]
        case Unregister(k, x) => RemoveLast(log, Entry(k, x));
      LogAfter(log', ops[1..])
  }

  /** Every unregistration in `ops` is allowed when it is issued. */
  predicate AllowedOps<I(==)>(log: seq<Entry<I>>, ops: seq<Op<I>>)
    decreases |ops|
  {
    ops == [] ||
    match ops[0]
      case Register(k, x) => AllowedOps(log + [Entry(k, x)], ops[1..])
      case Unregister(k, x) => Allowed(log, k, x) && AllowedOps(RemoveLast(log, Entry(k, x)), ops[1..])
  }

  /** A registry that loaders register into, and unregister from only what
      they registered (or defensively), stays explained by its live
      registrations: buckets are propagated, and `elements()` counts each
      live registration once. */
  lemma {:induction false} TracksReplay<I>(b: Store<I>, log: seq<Entry<I>>, ops: seq<Op<I>>)
    requires ValidOps(ops) && Tracks(b, log) && AllowedOps(log, ops)
    ensures Tracks(Replay(b, ops), LogAfter(log, ops))
    ensures Propagated(Replay(b, ops))
    ensures ElementsOf(Replay(b, ops)) == Infos(LogAfter(log, ops))
    decreases |ops|
  {
    if ops == [] {
      TracksPropagated(b, log);
    } else {
      assert ValidOps(ops[1..]);
      match ops[0]
      case Register(k, x) =>
        TracksRegistered(b, log, k, x);
        TracksReplay(Registered(b, k, x), log + [Entry(k, x)], ops[1..]);
      case Unregister(k, x) =>
        TracksUnregistered(b, log, k, x);
        TracksReplay(Unregistered(b, k, x), RemoveLast(log, Entry(k, x)), ops[1..]);
    }
  }

  // ---------------------------------------------------------------------
  // Child registries

  /** A child registry's storage and its parent's, each explained by its own
      log, with every registration in the child's log also in the parent's. */
  ghost predicate Nested<I>(c: Store<I>, p: Store<I>, lc: seq<Entry<I>>, lp: seq<Entry<I>>)
  {
    Tracks(c, lc) && Tracks(p, lp) && multiset(lc) <= multiset(lp)
  }

  /** Nesting gives containment of every bucket and of the elements. */
  lemma NestedWithin<I>(c: Store<I>, p: Store<I>, lc: seq<Entry<I>>, lp: seq<Entry<I>>)
    requires Nested(c, p, lc, lp)
    ensures Within(c, p)
    ensures ElementsOf(c) <= ElementsOf(p)
  {
    forall k | k in c
      ensures multiset(c[k]) <= multiset(Bucket(p, k))
    {
      TracksAt(c, lc, k);
      TracksAt(p, lp, k);
      ReachingMono(lc, lp, k);
    }
    InfosMono(lc, lp);
  }

  lemma NestedRegistered<I>(c: Store<I>, p: Store<I>, lc: seq<Entry<I>>, lp: seq<Entry<I>>, k: Key, x: I)
    requires k.Valid() && Nested(c, p, lc, lp)
    ensures Nested(Registered(c, k, x), Registered(p, k, x), lc + [Entry(k, x)], lp + [Entry(k, x)])
  {
    TracksRegistered(c, lc, k, x);
    TracksRegistered(p, lp, k, x);
  }

  /** An unregistration allowed in both logs keeps the nesting. */
  lemma NestedUnregistered<I>(c: Store<I>, p: Store<I>, lc: seq<Entry<I>>, lp: seq<Entry<I>>, k: Key, x: I)
    requires k.Valid() && Nested(c, p, lc, lp) && Allowed(lc, k, x) && Allowed(lp, k, x)
    ensures Nested(Unregistered(c, k, x), Unregistered(p, k, x),
                   RemoveLast(lc, Entry(k, x)), RemoveLast(lp, Entry(k, x)))
  {
    TracksUnregistered(c, lc, k, x);
    TracksUnregistered(p, lp, k, x);
    RemoveLastCount(lc, Entry(k, x));
    RemoveLastCount(lp, Entry(k, x));
  }

  /** Every sequence of mutations made through the child, each allowed in
      both registries, keeps the child's buckets and elements within the
      parent's. */
  lemma {:induction false} NestedReplay<I>(c: Store<I>, p: Store<I>, lc: seq<Entry<I>>, lp: seq<Entry<I>>, ops: seq<Op<I>>)
    requires ValidOps(ops) && Nested(c, p, lc, lp) && AllowedOps(lc, ops) && AllowedOps(lp, ops)
    ensures Nested(Replay(c, ops), Replay(p, ops), LogAfter(lc, ops), LogAfter(lp, ops))
    ensures Within(Replay(c, ops), Replay(p, ops))
    ensures ElementsOf(Replay(c, ops)) <= ElementsOf(Replay(p, ops))
    decreases |ops|
  {
    if ops == [] {
      NestedWithin(c, p, lc, lp);
    } else {
      assert ValidOps(ops[1..]);
      match ops[0]
      case Register(k, x) =>
        NestedRegistered(c, p, lc, lp, k, x);
        NestedReplay(Registered(c, k, x), Registered(p, k, x), lc + [Entry(k, x)], lp + [Entry(k, x)], ops[1..]);
      case Unregister(k, x) =>
        NestedUnregistered(c, p, lc, lp, k, x);
        NestedReplay(Unregistered(c, k, x), Unregistered(p, k, x),
                     RemoveLast(lc, Entry(k, x)), RemoveLast(lp, Entry(k, x)), ops[1..]);
    }
  }
}
