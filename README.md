# Syntax registry model

A Dafny model of Skript's syntax registry contract
(`org.skriptlang.skript.registration.SyntaxRegistry`): the catalog in which
modules register syntax descriptors (`SyntaxInfo`) under keys naming grammar
categories, and from which the parser reads them back.

- **Keys** (`keys.dfy`, module `Keys`). A `Key` is an immutable object with a
  name and an optional parent; `Key.Of` makes a root key and `Key.ChildOf` a
  child key (Java's `Key.of` and `ChildKey.of`). Keys are compared by object
  identity, so two keys with the same name are different buckets. A const
  `depth` (the number of parent links above the key) makes the parent
  relation well-founded; `Chain()` lists a key and its ancestors, nearest
  first, and is proved to list exactly the keys reached by following parent
  links, without repeats; `Root()` is the root key at its end.
- **Built-in keys** (`root_keys.dfy`, module `RootKeys`). STRUCTURE, SECTION,
  STATEMENT and EXPRESSION are roots; EFFECT and CONDITION are children of
  STATEMENT. Dafny has no object constants at module level, so `Create`
  returns the six keys together; each call makes six new keys, so the
  registries and their clients must all share one `Roots` value, as the Java
  constants are shared.
- **Abstract state** (`buckets.dfy`, module `Buckets`). A registry's state is
  a map from key to the ordered bucket (`seq`) of descriptors registered under
  it. `Registered` and `Unregistered` give the state after a registration or
  an unregistration, and `ElementsOf` the registry's elements; the lemmas
  state what the mutations do to every bucket and to the elements, the round
  trip and the no-op case.
- **Live registrations** (`history.dfy`, module `Histories`). A log of the
  registrations not yet withdrawn explains a state when every bucket holds
  exactly the logged descriptors whose key reaches it (`Tracks`). Registering,
  and unregistering what was registered under that key or what is not there
  at all, keep a state explained; an explained state has every child key's
  bucket inside its parent's and siblings' buckets summed inside their
  parent's, and its elements are the logged descriptors. The same invariant
  for a child registry and its parent (`Nested`) gives containment of the
  child in the parent.
- **The default registry** (`registry.dfy`, class
  `Registries.SyntaxRegistry`). Holds the map in a field; `Register` and
  `Unregister` walk from the key up its parent links and update one bucket at
  a time, and are proved to produce `Registered` and `Unregistered`;
  `Elements` adds up the root keys' buckets in a loop. `Syntaxes` and
  `Elements` return values, so they are snapshots.
- **The unmodifiable view** (`view.dfy`, class `Views.UnmodifiableView`). Reads
  go to the live backing registry; `Register` and `Unregister` modify nothing
  and always return `Fail(UnsupportedOperation)`: the interface says only that
  the view does not allow (un)registrations.
- **The child registry** (`child_registry.dfy`, class
  `ChildRegistries.ChildSyntaxRegistry`). Reads its own backing registry; each
  mutation is applied to that registry and then to the parent.
- **Client scenarios** (`scenarios.dfy`, module `Scenarios`): concrete uses of
  the contracts above.

The implementation class behind the interface (`SyntaxRegistryImpl`) is not
part of this model. Where the interface's doc-comments are silent, the model
makes these choices:

- Registration is not idempotent: registering a descriptor twice under a key
  leaves two entries, in registration order.
- A registration under a child key is appended to the key's bucket and then to
  each ancestor's bucket, nearest ancestor first.
- Unregistering applies only when the key's own bucket holds the descriptor:
  it then withdraws the most recent matching entry from the key's bucket and
  from each ancestor's bucket that holds one. When the key's bucket does not
  hold it, nothing changes, even if an ancestor's bucket does
  (`Buckets.UnregisterNoOp`). Unregistering right after registering restores
  every bucket whatever the earlier state.
- `elements()` is the multiset sum of the root keys' buckets. In every state
  reached by registrations and by the unregistrations a loader issues
  (withdrawing what it registered under that key, or a call for something
  absent), this counts every live registration once, whichever keys it was
  propagated to: two registrations of one descriptor give two elements, and a
  registration under EFFECT, which also lands under STATEMENT, gives one
  (`Histories.TracksReplay`). After an unregistration under an ancestor key
  of something registered under a child key, the entry stays listed under the
  child key but is no longer among the elements
  (`Buckets.UnregisterAtParentHidesElement`).
- Unregistering under an ancestor key does not reach descendant keys, so an
  entry registered under EFFECT and then unregistered under STATEMENT stays
  visible under EFFECT (`Buckets.UnregisterAtParentLeavesChild`). Containment
  of child-key buckets in parent-key buckets is therefore kept for the
  unregistrations a loader issues (withdrawing what it registered under that
  key, or a defensive call for something absent), not for every one.

## Model

| member | source | states |
|---|---|---|
| `Keys.Key.Of` | src/main/java/org/skriptlang/skript/registration/SyntaxRegistry.java:158-171 | A new root key whose `name()` is the given name and which has no parent. |
| `Keys.Key.ChildOf` | src/main/java/org/skriptlang/skript/registration/SyntaxRegistry.java:182-197 | A new child key whose `name()` is the given name and whose `parent()` is the given key, fixed for good. |
| `Keys.Key.Chain` | src/main/java/org/skriptlang/skript/registration/SyntaxRegistry.java:175-180 | The key followed by its ancestors: starts at the key, ends at a root, every entry valid, depths strictly decreasing. |
| `Keys.Key.Root` | src/main/java/org/skriptlang/skript/registration/SyntaxRegistry.java:175-197 | Following `parent()` from any key ends at a valid key with no parent. |
| `Keys.ChainIsAncestry` | src/main/java/org/skriptlang/skript/registration/SyntaxRegistry.java:175-180 | The n-th chain entry is the key reached by n parent links, and one more link leaves the tree: the chain is exactly the ancestor set. |
| `Keys.ChainFollowsParents` | src/main/java/org/skriptlang/skript/registration/SyntaxRegistry.java:194-197 | Each chain entry after the first is the `parent()` of the entry before it. |
| `Keys.ChainHasNoRepeats` | src/main/java/org/skriptlang/skript/registration/SyntaxRegistry.java:189-197 | No key appears twice among its own ancestors: since parents are bound at construction, the key graph is acyclic. |
| `Keys.ChainClosedUnderParent` | src/main/java/org/skriptlang/skript/registration/SyntaxRegistry.java:175-180 | The parent of any key on a chain is on that chain too. |
| `Keys.RootEndsChain` | src/main/java/org/skriptlang/skript/registration/SyntaxRegistry.java:175-197 | The root is the last entry of the chain and the only parentless key on it. |
| `Keys.ChainHasNoSiblings` | src/main/java/org/skriptlang/skript/registration/SyntaxRegistry.java:175-197 | Two keys with the same parent are never both ancestors of one key: a registration propagates through one child of a key at most. |
| `RootKeys.Create` | src/main/java/org/skriptlang/skript/registration/SyntaxRegistry.java:41-70 | Six distinct valid keys with their names; STATEMENT is the parent of EFFECT and CONDITION; STRUCTURE, SECTION, STATEMENT and EXPRESSION are roots. |
| `RootKeys.RegisteredUnderChildOfRoot` | src/main/java/org/skriptlang/skript/registration/SyntaxRegistry.java:175-180 | Registering under a child of a root key appends to exactly the key's bucket and its parent's bucket. |
| `RootKeys.StatementGathersEffectsAndConditions` | src/main/java/org/skriptlang/skript/registration/SyntaxRegistry.java:51-65 | Anything registered under EFFECT or CONDITION is appended to the STATEMENT bucket too, and to no other built-in key's bucket. |
| `RootKeys.StatementHoldsEffectsAndConditions` | src/main/java/org/skriptlang/skript/registration/SyntaxRegistry.java:51-65 | In any state explained by live registrations, the EFFECT and CONDITION buckets summed are contained in the STATEMENT bucket. |
| `RootKeys.PropagatedIsNotEnough` | src/main/java/org/skriptlang/skript/registration/SyntaxRegistry.java:119-125 | A state with `x` once under EFFECT, CONDITION and STATEMENT has each child bucket inside its parent's, loses that after unregistering `x` under EFFECT, and is explained by no log. |
| `RootKeys.ChildWithinNeedsLogs` | src/main/java/org/skriptlang/skript/registration/SyntaxRegistry.java:132-143 | A child store contained in its parent's stops being contained after the same unregistration under EFFECT, when the child has `x` only under STATEMENT and the parent has it under EFFECT. |
| `RootKeys.ChildLeavesParentStartedAhead` | src/main/java/org/skriptlang/skript/registration/SyntaxRegistry.java:132-143 | With only the parent holding entries at the start, three calls made through the child leave the child with an entry under STATEMENT that the parent lacks. |
| `Buckets.RemoveLastCount` | src/main/java/org/skriptlang/skript/registration/SyntaxRegistry.java:119-125 | Unregistering from a bucket drops exactly one copy of the descriptor when there is one, and changes nothing otherwise. |
| `Buckets.RemoveLastAt` | src/main/java/org/skriptlang/skript/registration/SyntaxRegistry.java:119-125 | The copy dropped is the last one; every other entry keeps its order. |
| `Buckets.RemoveLastAppended` | src/main/java/org/skriptlang/skript/registration/SyntaxRegistry.java:111-125 | Unregistering the entry just appended restores the bucket. |
| `Buckets.RegisteredAlongAt` | src/main/java/org/skriptlang/skript/registration/SyntaxRegistry.java:111-117 | Appending `x` along a list of distinct keys appends it once to each of their buckets and to no other. |
| `Buckets.UnregisteredAlongAt` | src/main/java/org/skriptlang/skript/registration/SyntaxRegistry.java:119-125 | Withdrawing `x` along a list of distinct keys withdraws its last copy from each of their buckets, touches no other, and adds no key. |
| `Buckets.RegisteredBuckets` | src/main/java/org/skriptlang/skript/registration/SyntaxRegistry.java:111-117 | After `register(k, x)`, `x` is appended once to the bucket of `k` and of each ancestor, and every other bucket is unchanged. |
| `Buckets.UnregisteredBuckets` | src/main/java/org/skriptlang/skript/registration/SyntaxRegistry.java:119-125 | After `unregister(k, x)`, when `k`'s bucket holds `x`, one copy is withdrawn from the bucket of `k` and of each ancestor holding one; otherwise, and for every other key, the bucket is unchanged. |
| `Buckets.RegisterThenUnregisterAt` | src/main/java/org/skriptlang/skript/registration/SyntaxRegistry.java:111-125 | Register followed by the matching unregister restores any one key's bucket. |
| `Buckets.RegisterThenUnregister` | src/main/java/org/skriptlang/skript/registration/SyntaxRegistry.java:111-125 | Register followed by the matching unregister leaves every bucket as it was, ancestors included. |
| `Buckets.UnregisterNoOp` | src/main/java/org/skriptlang/skript/registration/SyntaxRegistry.java:119-125 | Unregistering changes no bucket if and only if the key's own bucket does not hold the descriptor. |
| `Buckets.SumOverRemove` | src/main/java/org/skriptlang/skript/registration/SyntaxRegistry.java:94-100 | Adding up buckets over a set of keys does not depend on the order the keys are taken in. |
| `Buckets.ElementsChangeAtRoot` | src/main/java/org/skriptlang/skript/registration/SyntaxRegistry.java:94-100 | Two states that agree on every root key but one differ in their elements by that root key's bucket only. |
| `Buckets.ElementsAfterRegister` | src/main/java/org/skriptlang/skript/registration/SyntaxRegistry.java:94-117 | A registration adds exactly one copy of its descriptor to `elements()`, whatever key it was made under. |
| `Buckets.ElementsAfterUnregister` | src/main/java/org/skriptlang/skript/registration/SyntaxRegistry.java:94-125 | An unregistration that applies and reaches a root bucket holding the descriptor removes exactly one copy from `elements()`; otherwise `elements()` is unchanged. |
| `Buckets.UnregisteredAtRoot` | src/main/java/org/skriptlang/skript/registration/SyntaxRegistry.java:94-125 | An unregistration changes `elements()` only through the bucket of the key's root, which loses one copy of the descriptor when the unregistration applies and the root bucket holds one, and is unchanged otherwise. |
| `Buckets.InRootBucket` | src/main/java/org/skriptlang/skript/registration/SyntaxRegistry.java:175-180 | When every child key's bucket is inside its parent's, every entry under a key is also under its root key. |
| `Buckets.ElementsHoldEveryBucket` | src/main/java/org/skriptlang/skript/registration/SyntaxRegistry.java:94-109 | When every child key's bucket is inside its parent's, every entry of every bucket is among `elements()`. |
| `Buckets.RegisterKeepsPropagated` | src/main/java/org/skriptlang/skript/registration/SyntaxRegistry.java:175-180 | If every child key's bucket is contained in its parent's, it still is after any registration. |
| `Buckets.UnregisterAtParentLeavesChild` | src/main/java/org/skriptlang/skript/registration/SyntaxRegistry.java:119-125 | Unregistering under the parent key leaves an entry registered under the child key visible there, breaking that containment. |
| `Buckets.UnregisterAtParentHidesElement` | src/main/java/org/skriptlang/skript/registration/SyntaxRegistry.java:94-125 | After registering under a child key and unregistering under its parent, the entry is still listed under the child key but missing from `elements()`. |
| `Buckets.UnregisterAppliesRootKeeps` | src/main/java/org/skriptlang/skript/registration/SyntaxRegistry.java:94-125 | After registering under a child key and unregistering under its parent, unregistering under the child key applies and empties its bucket, yet leaves `elements()` unchanged. |
| `Buckets.WithinRegistered` | src/main/java/org/skriptlang/skript/registration/SyntaxRegistry.java:127-143 | Applying the same registration to a child store contained in a parent store keeps it contained. |
| `Histories.TracksAt` | src/main/java/org/skriptlang/skript/registration/SyntaxRegistry.java:111-125 | In an explained state, every key's bucket holds exactly the logged descriptors whose key reaches it, up to order. |
| `Histories.TracksIntro` | src/main/java/org/skriptlang/skript/registration/SyntaxRegistry.java:111-125 | Buckets matching the log key by key, and elements matching the logged descriptors, make the state explained. |
| `Histories.ReachingHas` | src/main/java/org/skriptlang/skript/registration/SyntaxRegistry.java:111-117 | Each logged registration is counted in every bucket its key reaches and among the descriptors. |
| `Histories.ReachingNone` | src/main/java/org/skriptlang/skript/registration/SyntaxRegistry.java:111-117 | A key no logged registration reaches receives nothing. |
| `Histories.ReachingRemoveLast` | src/main/java/org/skriptlang/skript/registration/SyntaxRegistry.java:119-125 | Withdrawing the newest copy of a registration from the log withdraws its descriptor once from every bucket it reaches. |
| `Histories.InfosRemoveLast` | src/main/java/org/skriptlang/skript/registration/SyntaxRegistry.java:94-125 | Withdrawing the newest copy of a registration from the log withdraws its descriptor once from the logged descriptors. |
| `Histories.ReachingMono` | src/main/java/org/skriptlang/skript/registration/SyntaxRegistry.java:127-143 | A log contained in another gives every key no more than the larger log does. |
| `Histories.InfosMono` | src/main/java/org/skriptlang/skript/registration/SyntaxRegistry.java:127-143 | A log contained in another logs no more descriptors than the larger log. |
| `Histories.ReachingGrowsUp` | src/main/java/org/skriptlang/skript/registration/SyntaxRegistry.java:175-180 | Whatever the log brings to a child key it brings to the parent key too. |
| `Histories.ReachingSiblings` | src/main/java/org/skriptlang/skript/registration/SyntaxRegistry.java:175-180 | What the log brings to two sibling keys, summed, is no more than what it brings to their parent. |
| `Histories.TracksEmpty` | src/main/java/org/skriptlang/skript/registration/SyntaxRegistry.java:72-80 | A new registry is explained by the empty log. |
| `Histories.TracksRegistered` | src/main/java/org/skriptlang/skript/registration/SyntaxRegistry.java:111-117 | `register(k, x)` keeps the state explained, with `(k, x)` appended to the log. |
| `Histories.WithdrawnAt` | src/main/java/org/skriptlang/skript/registration/SyntaxRegistry.java:119-125 | Unregistering a live registration `(k, x)` withdraws from each bucket exactly what that registration brought to it. |
| `Histories.WithdrawnElements` | src/main/java/org/skriptlang/skript/registration/SyntaxRegistry.java:94-125 | Unregistering a live registration takes one copy of its descriptor out of `elements()`, matching the log. |
| `Histories.TracksUnregistered` | src/main/java/org/skriptlang/skript/registration/SyntaxRegistry.java:119-125 | An unregistration of a live registration under that key, or of a descriptor absent from the key's bucket, keeps the state explained, with that registration withdrawn from the log. |
| `Histories.TracksPropagated` | src/main/java/org/skriptlang/skript/registration/SyntaxRegistry.java:175-180 | In an explained state every child key's bucket is contained in its parent's. |
| `Histories.SiblingsWithinParent` | src/main/java/org/skriptlang/skript/registration/SyntaxRegistry.java:51-65 | In an explained state two sibling keys' buckets, summed, are contained in their parent's bucket. |
| `Histories.TracksReplay` | src/main/java/org/skriptlang/skript/registration/SyntaxRegistry.java:94-125 | Any sequence of registrations and allowed unregistrations keeps the state explained and propagated, with `elements()` equal to the live registrations' descriptors. |
| `Histories.NestedWithin` | src/main/java/org/skriptlang/skript/registration/SyntaxRegistry.java:127-143 | A child store and parent store explained by logs, the child's inside the parent's, have every child bucket and the child's elements inside the parent's. |
| `Histories.NestedRegistered` | src/main/java/org/skriptlang/skript/registration/SyntaxRegistry.java:127-143 | The same registration made in child and parent keeps them nested. |
| `Histories.NestedUnregistered` | src/main/java/org/skriptlang/skript/registration/SyntaxRegistry.java:127-143 | The same unregistration, allowed in both logs, keeps child and parent nested. |
| `Histories.NestedReplay` | src/main/java/org/skriptlang/skript/registration/SyntaxRegistry.java:127-143 | Any sequence of mutations made through the child, each allowed in both, keeps every child bucket and the child's elements within the parent's. |
| `Registries.SyntaxRegistry.Empty` | src/main/java/org/skriptlang/skript/registration/SyntaxRegistry.java:72-80 | A new registry in which every key's bucket is empty and there are no elements. |
| `Registries.SyntaxRegistry.Syntaxes` | src/main/java/org/skriptlang/skript/registration/SyntaxRegistry.java:102-109 | Returns the key's bucket (empty if nothing was registered); when buckets are propagated, each entry is among the elements. |
| `Registries.SyntaxRegistry.Elements` | src/main/java/org/skriptlang/skript/registration/SyntaxRegistry.java:94-100 | Returns the root keys' buckets added up; when every child key's bucket is inside its parent's, every entry of every bucket is in it. |
| `Registries.SyntaxRegistry.Register` | src/main/java/org/skriptlang/skript/registration/SyntaxRegistry.java:111-117 | The new state is `Registered(old state, key, info)`; the key's bucket gains `info` at its end. |
| `Registries.SyntaxRegistry.Unregister` | src/main/java/org/skriptlang/skript/registration/SyntaxRegistry.java:119-125 | The new state is `Unregistered(old state, key, info)`; the key's bucket loses its last `info`, if any. |
| `Views.UnmodifiableView.Of` | src/main/java/org/skriptlang/skript/registration/SyntaxRegistry.java:82-92 | The view is backed by the given registry. |
| `Views.UnmodifiableView.Syntaxes` | src/main/java/org/skriptlang/skript/registration/SyntaxRegistry.java:82-92 | Returns the backing registry's current bucket for the key. |
| `Views.UnmodifiableView.Elements` | src/main/java/org/skriptlang/skript/registration/SyntaxRegistry.java:82-92 | Returns the backing registry's current elements. |
| `Views.UnmodifiableView.Register` | src/main/java/org/skriptlang/skript/registration/SyntaxRegistry.java:82-92 | Always refuses with an unsupported-operation failure and modifies nothing. |
| `Views.UnmodifiableView.Unregister` | src/main/java/org/skriptlang/skript/registration/SyntaxRegistry.java:82-92 | Always refuses with an unsupported-operation failure and modifies nothing. |
| `ChildRegistries.ChildSyntaxRegistry.Of` | src/main/java/org/skriptlang/skript/registration/SyntaxRegistry.java:132-148 | The child registry is backed by `child`, and `parent()` is the given parent. |
| `ChildRegistries.ChildSyntaxRegistry.Syntaxes` | src/main/java/org/skriptlang/skript/registration/SyntaxRegistry.java:127-143 | Returns the backing child's bucket for the key. |
| `ChildRegistries.ChildSyntaxRegistry.Elements` | src/main/java/org/skriptlang/skript/registration/SyntaxRegistry.java:127-143 | Returns the backing child's elements. |
| `ChildRegistries.ChildSyntaxRegistry.Register` | src/main/java/org/skriptlang/skript/registration/SyntaxRegistry.java:127-143 | Registers in the child and in the parent (twice in one store when they are the same registry); the descriptor is then in both buckets; containment of child in parent is kept, equal stores stay equal, and nesting of their logs is kept. |
| `ChildRegistries.ChildSyntaxRegistry.Unregister` | src/main/java/org/skriptlang/skript/registration/SyntaxRegistry.java:127-143 | Unregisters from the child and from the parent; equal stores stay equal, so child and parent that start empty keep the child within the parent under every sequence of calls through the child; for nested logs and an unregistration allowed in both, nesting and containment are kept. |
| `Scenarios.RegisterUnderEffect` | src/main/java/org/skriptlang/skript/registration/SyntaxRegistry.java:51-65 | "drop item" registered under EFFECT is listed under EFFECT and STATEMENT, and once among the elements. |
| `Scenarios.RegisterTwice` | src/main/java/org/skriptlang/skript/registration/SyntaxRegistry.java:111-117 | Two registrations give two entries under EFFECT and two among the elements. |
| `Scenarios.ViewRefusesRegistration` | src/main/java/org/skriptlang/skript/registration/SyntaxRegistry.java:82-92 | A view refuses registration and the backing registry's bucket is unchanged. |
| `Scenarios.ViewReadsThrough` | src/main/java/org/skriptlang/skript/registration/SyntaxRegistry.java:82-92 | A registration made on the backing registry after wrapping is visible through the view. |
| `Scenarios.SnapshotIsStable` | src/main/java/org/skriptlang/skript/registration/SyntaxRegistry.java:102-109 | A collection returned by `syntaxes` is not changed by a later registration. |
| `Scenarios.RegisterThroughChild` | src/main/java/org/skriptlang/skript/registration/SyntaxRegistry.java:127-143 | "teleport" registered through a child registry is listed by both the child and the parent. |
| `Scenarios.SameNameDifferentKeys` | src/main/java/org/skriptlang/skript/registration/SyntaxRegistry.java:163-171 | Two keys made from the same name are separate buckets. |
| `Scenarios.DefensiveUnregister` | src/main/java/org/skriptlang/skript/registration/SyntaxRegistry.java:119-125 | Unregistering under EFFECT a descriptor registered only under STATEMENT leaves STATEMENT and the elements unchanged. |
| `Scenarios.LoadThenUnload` | src/main/java/org/skriptlang/skript/registration/SyntaxRegistry.java:111-125 | Registering under EFFECT and then unregistering under EFFECT leaves EFFECT, STATEMENT and the elements empty. |

## Left out

- Concurrency: thread safety and atomicity of registry mutation are not modelled; every operation is one sequential step.
- Java's generic bounds (`I extends SyntaxInfo<?>`, `I extends P` on child keys) are compile-time checks; descriptors are a single opaque type parameter `I`, compared with its own equality; the interface does not say how descriptors are compared, and `==` on `I` is reference equality when `I` is a class type.
- `SyntaxInfo` internals and the `Registry<T>` super-interface are not part of this model beyond `elements()`.
- `SyntaxRegistryImpl` is not part of this model: the bucket order, the guard on unregistration and the counting of `elements()` above are choices within what the interface states.
- Views and child registries wrap only the default registry: the model has no interface type, so a view of a view, or a child registry whose parent or backing store is itself a view or a child registry, is not modelled.
- Views.UnmodifiableView.Register: the interface says only that the view does not allow registrations; the refusal is modelled as a returned `Fail(UnsupportedOperation)` rather than an exception, and so is that of `Views.UnmodifiableView.Unregister`.
- Keys.Key.ChildOf: requires the parent to be `Valid()`; every key the two constructors build is, so no Java key is excluded.
- Registries.SyntaxRegistry.Register: the containment of child-key buckets in parent-key buckets is stated as the separate lemmas `Buckets.RegisterKeepsPropagated` and `Histories.TracksRegistered`, not in the method's postcondition.
- Registries.SyntaxRegistry.Unregister: containment of child-key buckets in parent-key buckets is promised only for states explained by live registrations and unregistrations they allow (`Histories.TracksUnregistered`); an unregistration under a parent key of something registered under a child key breaks it (`Buckets.UnregisterAtParentLeavesChild`), and so can one from a state contained but not explained (`RootKeys.PropagatedIsNotEnough`).
- Registries.SyntaxRegistry.Elements: an entry is promised to be among the elements only while every child key's bucket is inside its parent's, which holds in every state reached by registrations and loader-issued unregistrations (`Histories.TracksReplay`); after `register(EFFECT, x)` and then `unregister(STATEMENT, x)`, `x` is still listed under EFFECT but is missing from `elements()` (`Buckets.UnregisterAtParentHidesElement`), against "all syntaxes registered".
- ChildRegistries.ChildSyntaxRegistry.Unregister: containment of the child in the parent is promised when both start equal (both empty, say) and every call goes through the child, or when both are explained by logs, the child's inside the parent's, and the unregistration is allowed in both. Otherwise it is not kept, even when only the parent started with entries, although the interface withholds the guarantee only when both registries already had elements: an unregistration that does nothing in the child, because the child's bucket for that key lacks the descriptor, can still apply in the parent (`RootKeys.ChildLeavesParentStartedAhead`, `RootKeys.ChildWithinNeedsLogs`).
- ChildRegistries.ChildSyntaxRegistry.Register and ChildRegistries.ChildSyntaxRegistry.Unregister: the logs are ghost parameters, present only in the proof; callers of the Java methods pass nothing.
- The other files of the repository (entity passengers, health conversions, input keys, validity checks, configuration nodes) are game-API glue and are not part of this model.
