/** The built-in grammar categories every module registers against:
    STRUCTURE, SECTION, STATEMENT and EXPRESSION are root keys, and EFFECT and
    CONDITION are child keys of STATEMENT. */
module RootKeys {
  import opened Keys
  import opened Buckets
  import opened Histories

  datatype Roots = Roots(
    structure: Key,
    section: Key,
    statement: Key,
    effect: Key,
    condition: Key,
    expression: Key)

  /** The shape of the built-in key tree. */
  predicate Tree(r: Roots)
  {
    && r.structure.name == "structure" && r.structure.parent == null
    && r.section.name == "section" && r.section.parent == null
    && r.statement.name == "statement" && r.statement.parent == null
    && r.effect.name == "effect" && r.effect.parent == r.statement
    && r.condition.name == "condition" && r.condition.parent == r.statement
    && r.expression.name == "expression" && r.expression.parent == null
    && r.structure.Valid() && r.section.Valid() && r.statement.Valid()
    && r.effect.Valid() && r.condition.Valid() && r.expression.Valid()
    && r.structure != r.section && r.structure != r.statement && r.structure != r.effect
    && r.structure != r.condition && r.structure != r.expression
    && r.section != r.statement && r.section != r.effect && r.section != r.condition
    && r.section != r.expression
    && r.statement != r.effect && r.statement != r.condition && r.statement != r.expression
    && r.effect != r.condition && r.effect != r.expression
    && r.condition != r.expression
  }

  /** Builds the six built-in keys. Each call makes six new keys, so the
      registries and their clients must all share the one `Roots` value,
      as the Java constants are shared. */
  method Create() returns (r: Roots)
    ensures Tree(r)
  {
    var structure := new Key.Of("structure");
    var section := new Key.Of("section");
    var statement := new Key.Of("statement");
    var effect := new Key.ChildOf(statement, "effect");
    var condition := new Key.ChildOf(statement, "condition");
    var expression := new Key.Of("expression");
    r := Roots(structure, section, statement, effect, condition, expression);
  }

  /** For a child of a root key, registration touches exactly the key and
      its parent. */
  lemma RegisteredUnderChildOfRoot<I>(c: Key, b: Store<I>, x: I, j: Key)
    requires c.Valid() && c.parent != null && c.parent.parent == null
    ensures Bucket(Registered(b, c, x), j)
            == if j == c || j == c.parent then Bucket(b, j) + [x] else Bucket(b, j)
  {
    assert c.parent.Chain() == [c.parent];
    assert c.Chain() == [c, c.parent];
    RegisteredBuckets(b, c, x, j);
  }

  /** Anything registered under EFFECT or CONDITION lands in the STATEMENT
      bucket too, and in no bucket of the other built-in keys. */
  lemma StatementGathersEffectsAndConditions<I>(r: Roots, b: Store<I>, x: I)
    requires Tree(r)
    ensures Bucket(Registered(b, r.effect, x), r.effect) == Bucket(b, r.effect) + [x]
    ensures Bucket(Registered(b, r.effect, x), r.statement) == Bucket(b, r.statement) + [x]
    ensures Bucket(Registered(b, r.condition, x), r.condition) == Bucket(b, r.condition) + [x]
    ensures Bucket(Registered(b, r.condition, x), r.statement) == Bucket(b, r.statement) + [x]
    ensures forall k :: k in {r.structure, r.section, r.expression} ==>
              && Bucket(Registered(b, r.effect, x), k) == Bucket(b, k)
              && Bucket(Registered(b, r.condition, x), k) == Bucket(b, k)
    ensures Bucket(Registered(b, r.effect, x), r.condition) == Bucket(b, r.condition)
    ensures Bucket(Registered(b, r.condition, x), r.effect) == Bucket(b, r.effect)
  {
    forall k | k in {r.structure, r.section, r.expression, r.statement, r.effect, r.condition}
      ensures Bucket(Registered(b, r.effect, x), k)
              == if k == r.effect || k == r.statement then Bucket(b, k) + [x] else Bucket(b, k)
      ensures Bucket(Registered(b, r.condition, x), k)
              == if k == r.condition || k == r.statement then Bucket(b, k) + [x] else Bucket(b, k)
    {
      RegisteredUnderChildOfRoot(r.effect, b, x, k);
      RegisteredUnderChildOfRoot(r.condition, b, x, k);
    }
  }

  /** In any state explained by live registrations, the STATEMENT bucket
      holds the EFFECT and the CONDITION buckets summed up. */
  lemma StatementHoldsEffectsAndConditions<I>(r: Roots, b: Store<I>, log: seq<Entry<I>>)
    requires Tree(r) && Tracks(b, log)
    ensures multiset(Bucket(b, r.effect)) + multiset(Bucket(b, r.condition))
            <= multiset(Bucket(b, r.statement))
  {
    SiblingsWithinParent(b, log, r.effect, r.condition);
  }

  /** Containment of each child bucket in its parent's alone does not make
      unregistration safe: with `x` once under EFFECT, under CONDITION and
      under STATEMENT, withdrawing it under EFFECT leaves CONDITION holding
      an `x` that STATEMENT no longer has. No log of registrations produces
      that state, since STATEMENT would hold two copies. */
  lemma PropagatedIsNotEnough<I>(r: Roots, x: I)
    requires Tree(r)
    ensures Propagated(map[r.effect := [x], r.condition := [x], r.statement := [x]])
    ensures !Propagated(Unregistered(map[r.effect := [x], r.condition := [x], r.statement := [x]], r.effect, x))
    ensures forall log :: !Tracks(map[r.effect := [x], r.condition := [x], r.statement := [x]], log)
  {
    var b := map[r.effect := [x], r.condition := [x], r.statement := [x]];
    assert r.statement.Chain() == [r.statement];
    assert r.effect.Chain() == [r.effect, r.statement];
    var u := Unregistered(b, r.effect, x);
    UnregisteredBuckets(b, r.effect, x, r.statement);
    UnregisteredBuckets(b, r.effect, x, r.condition);
    assert Bucket(u, r.statement) == [];
    assert r.condition in u && u[r.condition] == [x];
    assert multiset(u[r.condition])[x] == 1;
    assert (multiset(Bucket(b, r.effect)) + multiset(Bucket(b, r.condition)))[x] == 2;
    assert multiset(Bucket(b, r.statement))[x] == 1;
    forall log
      ensures !Tracks(b, log)
    {
      if Tracks(b, log) {
        StatementHoldsEffectsAndConditions(r, b, log);
      }
    }
  }

  /** Containment of a child registry in its parent alone is not kept by
      unregistration through the child: with `x` under STATEMENT only in the
      child, and under EFFECT in the parent, unregistering `x` under EFFECT
      leaves the child alone and empties the parent's STATEMENT bucket. The
      child's state has no log contained in a log of the parent. */
  lemma ChildWithinNeedsLogs<I>(r: Roots, x: I)
    requires Tree(r)
    ensures Within(map[r.statement := [x]], map[r.effect := [x], r.statement := [x]])
    ensures !Within(Unregistered(map[r.statement := [x]], r.effect, x),
                    Unregistered(map[r.effect := [x], r.statement := [x]], r.effect, x))
  {
    var c, p := map[r.statement := [x]], map[r.effect := [x], r.statement := [x]];
    assert r.statement.Chain() == [r.statement];
    assert r.effect.Chain() == [r.effect, r.statement];
    UnregisteredBuckets(p, r.effect, x, r.statement);
    var c', p' := Unregistered(c, r.effect, x), Unregistered(p, r.effect, x);
    assert c' == c;
    assert Bucket(p', r.statement) == [];
    assert multiset(c'[r.statement])[x] == 1;
  }

  /** Containment can be lost even when only the parent started with
      entries. The parent holds `x` under EFFECT and the child is empty; the
      calls `unregister(STATEMENT, x)`, `register(STATEMENT, x)` and
      `unregister(EFFECT, x)`, made through the child, leave `x` under
      STATEMENT in the child and nowhere in the parent. The first and the
      last call do nothing in the child but apply in the parent. */
  lemma ChildLeavesParentStartedAhead<I>(r: Roots, x: I)
    requires Tree(r)
    ensures Within(map[], Registered(map[], r.effect, x))
    ensures var c := Unregistered(Registered(Unregistered(map[], r.statement, x), r.statement, x), r.effect, x);
            var p := Unregistered(Registered(Unregistered(Registered(map[], r.effect, x), r.statement, x),
                                             r.statement, x), r.effect, x);
            Bucket(c, r.statement) == [x] && Bucket(p, r.statement) == [] && !Within(c, p)
  {
    assert r.statement.Chain() == [r.statement];
    assert r.effect.Chain() == [r.effect, r.statement];
    var e: Store<I> := map[];
    // The child.
    var c1 := Unregistered(e, r.statement, x);
    assert c1 == e;
    var c2 := Registered(c1, r.statement, x);
    RegisteredBuckets(c1, r.statement, x, r.statement);
    RegisteredBuckets(c1, r.statement, x, r.effect);
    assert Bucket(c2, r.effect) == [];
    var c := Unregistered(c2, r.effect, x);
    assert c == c2;
    // The parent.
    var p0 := Registered(e, r.effect, x);
    RegisteredBuckets(e, r.effect, x, r.effect);
    RegisteredBuckets(e, r.effect, x, r.statement);
    var p1 := Unregistered(p0, r.statement, x);
    UnregisteredBuckets(p0, r.statement, x, r.statement);
    UnregisteredBuckets(p0, r.statement, x, r.effect);
    assert Bucket(p1, r.statement) == [] && Bucket(p1, r.effect) == [x];
    var p2 := Registered(p1, r.statement, x);
    RegisteredBuckets(p1, r.statement, x, r.statement);
    RegisteredBuckets(p1, r.statement, x, r.effect);
    var p := Unregistered(p2, r.effect, x);
    UnregisteredBuckets(p2, r.effect, x, r.statement);
    assert Bucket(p, r.statement) == [];
    assert r.statement in c && multiset(c[r.statement])[x] == 1;
  }
}
