/** Keys name the grammar categories of the syntax registry.
    A key is compared by identity (two keys built from the same name are
    different buckets). A child key is bound, once and for all, to one parent
    key; registrations under it propagate to that parent and so on up to a
    root key. */
module Keys {

  class Key {
    /** The advisory name, for diagnostics only; never used to compare keys. */
    const name: string
    /** The parent of a child key; null for a root key. */
    const parent: Key?
    /** Number of parent links above this key. Fixed at construction; it is
        what makes the parent relation well-founded. */
    const depth: nat

    /** A parent chain whose depths strictly decrease; every key the two
        constructors build satisfies it, and it never changes afterwards. */
    predicate Valid()
      decreases depth
    {
      parent == null || (parent.depth < depth && parent.Valid())
    }

    /** A new root key. */
    constructor Of(name: string)
      ensures this.name == name && parent == null
      ensures Valid()
    {
      this.name := name;
      this.parent := null;
      this.depth := 0;
    }

    /** A new child key permanently bound to `parent`. */
    constructor ChildOf(parent: Key, name: string)
      requires parent.Valid()
      ensures this.name == name && this.parent == parent
      ensures Valid()
    {
      this.name := name;
      this.parent := parent;
      this.depth := parent.depth + 1;
    }

    /** The key followed by its ancestors, nearest first, ending at a root. */
    function Chain(): (c: seq<Key>)
      requires Valid()
      decreases depth
      ensures c != [] && c[0] == this
      ensures c[|c| - 1].parent == null
      ensures forall i :: 0 <= i < |c| ==> c[i].Valid()
      ensures forall i, j :: 0 <= i < j < |c| ==> c[j].depth < c[i].depth
    {
      if parent == null then [this] else [this] + parent.Chain()
    }

    /** The root key reached by following parent links to the end. */
    function Root(): (r: Key)
      requires Valid()
      decreases depth
      ensures r.parent == null && r.Valid()
    {
      if parent == null then this else parent.Root()
    }
  }

  /** The key reached from `k` by following `n` parent links (null once the
      root has been passed). An independent description of the ancestors. */
  function Up(k: Key?, n: nat): Key?
    decreases n
  {
    if n == 0 || k == null then k else Up(k.parent, n - 1)
  }

  /** The chain lists exactly the keys reached by 0, 1, 2, ... parent links,
      and one more link leaves the tree. */
  lemma {:induction false} ChainIsAncestry(k: Key)
    requires k.Valid()
    ensures forall n: nat :: n < |k.Chain()| ==> Up(k, n) == k.Chain()[n]
    ensures Up(k, |k.Chain()|) == null
    decreases k.depth
  {
    if k.parent != null {
      ChainIsAncestry(k.parent);
      var c := k.Chain();
      assert c == [k] + k.parent.Chain();
      forall n: nat | n < |c|
        ensures Up(k, n) == c[n]
      {
        if n > 0 {
          assert Up(k, n) == Up(k.parent, n - 1);
        }
      }
      assert Up(k, |c|) == Up(k.parent, |c| - 1);
    }
  }

  /** Each entry of the chain after the first is the parent of the entry
      before it. */
  lemma {:induction false} ChainFollowsParents(k: Key)
    requires k.Valid()
    ensures forall i :: 0 <= i < |k.Chain()| - 1 ==> k.Chain()[i + 1] == k.Chain()[i].parent
    decreases k.depth
  {
    if k.parent != null {
      ChainFollowsParents(k.parent);
      var c := k.Chain();
      assert c == [k] + k.parent.Chain();
      forall i | 0 <= i < |c| - 1
        ensures c[i + 1] == c[i].parent
      {
        if i > 0 {
          assert c[i] == k.parent.Chain()[i - 1];
        }
      }
    }
  }

  /** No key occurs twice in `keys`. */
  predicate NoRepeats(keys: seq<Key>)
  {
    forall i, j :: 0 <= i < j < |keys| ==> keys[i] != keys[j]
  }

  /** No key occurs twice on a chain: the key graph is acyclic. */
  lemma ChainHasNoRepeats(k: Key)
    requires k.Valid()
    ensures NoRepeats(k.Chain())
  {
  }

  /** The chain is closed under taking parents: the parent of any key on it
      is on it too. */
  lemma ChainClosedUnderParent(k: Key, a: Key)
    requires k.Valid() && a in k.Chain() && a.parent != null
    ensures a.parent in k.Chain()
  {
    ChainFollowsParents(k);
    var c := k.Chain();
    var i :| 0 <= i < |c| && c[i] == a;
    assert i < |c| - 1;
    assert c[i + 1] == a.parent;
  }

  /** The root ends the chain, and it is the only root key on it. */
  lemma {:induction false} RootEndsChain(k: Key)
    requires k.Valid()
    ensures k.Chain()[|k.Chain()| - 1] == k.Root()
    ensures forall j :: j in k.Chain() && j.parent == null ==> j == k.Root()
    decreases k.depth
  {
    if k.parent != null {
      RootEndsChain(k.parent);
      assert k.Chain() == [k] + k.parent.Chain();
    }
  }

  /** Two distinct keys of one chain never share a parent: a chain passes
      through at most one child of any key. */
  lemma ChainHasNoSiblings(k: Key, a: Key, b: Key)
    requires k.Valid() && a in k.Chain() && b in k.Chain()
    requires a.parent != null && a.parent == b.parent
    ensures a == b
  {
    ChainFollowsParents(k);
    ChainHasNoRepeats(k);
    var c := k.Chain();
    var i :| 0 <= i < |c| && c[i] == a;
    var j :| 0 <= j < |c| && c[j] == b;
    assert i < |c| - 1 && j < |c| - 1;
    assert c[i + 1] == c[j + 1];
  }
}
