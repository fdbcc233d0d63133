/** Client scenarios: what a module loader or the parser can conclude from
    the contracts of the registries alone. */
module Scenarios {
  import opened Keys
  import opened Buckets
  import opened Registries
  import opened Views
  import opened ChildRegistries
  import RootKeys

  /** A descriptor registered under EFFECT is listed under EFFECT and under
      STATEMENT, and once among the elements. */
  method RegisterUnderEffect() returns (effects: seq<string>, statements: seq<string>, all: multiset<string>)
    ensures effects == ["drop item"] && statements == ["drop item"]
    ensures all == multiset{"drop item"}
  {
    var roots := RootKeys.Create();
    var registry := new SyntaxRegistry<string>.Empty();
    RootKeys.StatementGathersEffectsAndConditions(roots, registry.buckets, "drop item");
    ElementsAfterRegister(registry.buckets, roots.effect, "drop item");
    registry.Register(roots.effect, "drop item");
    effects := registry.Syntaxes(roots.effect);
    statements := registry.Syntaxes(roots.statement);
    all := registry.Elements();
  }

  /** Registration is not idempotent: two registrations give two entries,
      under EFFECT and among the elements. */
  method RegisterTwice() returns (effects: seq<string>, all: multiset<string>)
    ensures effects == ["drop item", "drop item"]
    ensures all == multiset{"drop item", "drop item"}
  {
    var roots := RootKeys.Create();
    var registry := new SyntaxRegistry<string>.Empty();
    ElementsAfterRegister(registry.buckets, roots.effect, "drop item");
    registry.Register(roots.effect, "drop item");
    ElementsAfterRegister(registry.buckets, roots.effect, "drop item");
    registry.Register(roots.effect, "drop item");
    effects := registry.Syntaxes(roots.effect);
    all := registry.Elements();
  }

  /** A read-only view refuses registration and the backing registry is left
      as it was. */
  method ViewRefusesRegistration() returns (outcome: Outcome, before: seq<string>, after: seq<string>)
    ensures outcome == Fail(UnsupportedOperation)
    ensures before == ["drop item"] && after == before
  {
    var roots := RootKeys.Create();
    var registry := new SyntaxRegistry<string>.Empty();
    registry.Register(roots.effect, "drop item");
    var view := new UnmodifiableView.Of(registry);
    before := registry.Syntaxes(roots.effect);
    outcome := view.Register(roots.effect, "x");
    after := registry.Syntaxes(roots.effect);
  }

  /** A view reads the live registry: what is registered after the view was
      made is visible through it. */
  method ViewReadsThrough() returns (atWrap: seq<string>, later: seq<string>)
    ensures atWrap == [] && later == ["x"]
  {
    var roots := RootKeys.Create();
    var registry := new SyntaxRegistry<string>.Empty();
    var view := new UnmodifiableView.Of(registry);
    atWrap := view.Syntaxes(roots.effect);
    registry.Register(roots.effect, "x");
    later := view.Syntaxes(roots.effect);
  }

  /** A collection returned by `syntaxes` is a snapshot: a later
      registration does not change it. */
  method SnapshotIsStable() returns (snapshot: seq<string>, current: seq<string>)
    ensures snapshot == [] && current == ["x"]
  {
    var roots := RootKeys.Create();
    var registry := new SyntaxRegistry<string>.Empty();
    snapshot := registry.Syntaxes(roots.condition);
    registry.Register(roots.condition, "x");
    current := registry.Syntaxes(roots.condition);
  }

  /** A registration through a child registry reaches both the child and the
      parent. */
  method RegisterThroughChild() returns (inChild: seq<string>, inParent: seq<string>)
    ensures inChild == ["teleport"] && inParent == ["teleport"]
  {
    var roots := RootKeys.Create();
    var parent := new SyntaxRegistry<string>.Empty();
    var own := new SyntaxRegistry<string>.Empty();
    var child := new ChildSyntaxRegistry.Of(parent, own);
    child.Register(roots.effect, "teleport", [], []);
    RegisteredBuckets(map[], roots.effect, "teleport", roots.effect);
    inChild := child.Syntaxes(roots.effect);
    inParent := parent.Syntaxes(roots.effect);
  }

  /** Two keys with the same name are different buckets. */
  method SameNameDifferentKeys() returns (first: seq<string>, second: seq<string>)
    ensures first == ["x"] && second == []
  {
    var a := new Key.Of("custom");
    var b := new Key.Of("custom");
    var registry := new SyntaxRegistry<string>.Empty();
    registry.Register(a, "x");
    RegisteredBuckets(map[], a, "x", b);
    first := registry.Syntaxes(a);
    second := registry.Syntaxes(b);
  }

  /** A defensive unregistration under EFFECT of a descriptor registered
      only under STATEMENT changes nothing. */
  method DefensiveUnregister() returns (statements: seq<string>, all: multiset<string>)
    ensures statements == ["x"] && all == multiset{"x"}
  {
    var roots := RootKeys.Create();
    var registry := new SyntaxRegistry<string>.Empty();
    ElementsAfterRegister(registry.buckets, roots.statement, "x");
    registry.Register(roots.statement, "x");
    assert roots.statement.Chain() == [roots.statement];
    RegisteredBuckets(map[], roots.statement, "x", roots.effect);
    registry.Unregister(roots.effect, "x");
    statements := registry.Syntaxes(roots.statement);
    all := registry.Elements();
  }

  /** A module unloading what it loaded leaves no trace under EFFECT,
      STATEMENT or among the elements. */
  method LoadThenUnload() returns (effects: seq<string>, statements: seq<string>, all: multiset<string>)
    ensures effects == [] && statements == [] && all == multiset{}
  {
    var roots := RootKeys.Create();
    var registry := new SyntaxRegistry<string>.Empty();
    RootKeys.StatementGathersEffectsAndConditions(roots, registry.buckets, "drop item");
    ElementsAfterRegister(registry.buckets, roots.effect, "drop item");
    registry.Register(roots.effect, "drop item");
    ghost var loaded := registry.buckets;
    RegisterThenUnregisterAt(map[], roots.effect, "drop item", roots.effect);
    RegisterThenUnregisterAt(map[], roots.effect, "drop item", roots.statement);
    ElementsAfterUnregister(loaded, roots.effect, "drop item");
    RootEndsChain(roots.effect);
    registry.Unregister(roots.effect, "drop item");
    effects := registry.Syntaxes(roots.effect);
    statements := registry.Syntaxes(roots.statement);
    all := registry.Elements();
  }
}
