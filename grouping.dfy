/**
 * Identity grouping in `GenerateContainerAssembly`: roots and dependency
 * occurrences are grouped by (service type, service key) with LINQ's
 * `GroupBy`, and the "simple factories" are the root groups whose identity
 * has no dependency group.
 */
module Grouping {
  import opened Services

  /** One `IGrouping<K, T>`: a key and the elements that have it, in input order. */
  datatype Grouping<K, T> = Grouping(key: K, elements: seq<T>)

  /** Adds `x`, whose key is `k`, to the group with that key, or opens a new group at the end. */
  function AddToGroups<K(==), T>(gs: seq<Grouping<K, T>>, k: K, x: T): seq<Grouping<K, T>> {
    if gs == [] then [Grouping(k, [x])]
    else if gs[0].key == k then [gs[0].(elements := gs[0].elements + [x])] + gs[1..]
    else [gs[0]] + AddToGroups(gs[1..], k, x)
  }

  /** LINQ `GroupBy`: groups in order of each key's first appearance, elements in input order. */
  function GroupBy<K(==), T>(xs: seq<T>, key: T -> K): seq<Grouping<K, T>> {
    if xs == [] then []
    else AddToGroups(GroupBy(xs[..|xs| - 1], key), key(xs[|xs| - 1]), xs[|xs| - 1])
  }

  /** `SelectMany(g => g)`: all elements of all groups, group after group. */
  function Flatten<K, T>(gs: seq<Grouping<K, T>>): seq<T> {
    if gs == [] then [] else gs[0].elements + Flatten(gs[1..])
  }

  /** No two groups share a key. */
  predicate DistinctKeys<K(==), T>(gs: seq<Grouping<K, T>>) {
    forall a, b :: 0 <= a < b < |gs| ==> gs[a].key != gs[b].key
  }

  /** The keys of the groups. */
  function Keys<K, T>(gs: seq<Grouping<K, T>>): set<K> {
    if gs == [] then {} else {gs[0].key} + Keys(gs[1..])
  }

  /** `lookup.Contains(k)`: some group has key `k`. */
  predicate ContainsKey<K(==), T>(gs: seq<Grouping<K, T>>, k: K) {
    k in Keys(gs)
  }

  /** `Where(g => !other.Contains(g.Key))`: the groups whose key has no group in `other`. */
  function WhereKeyNotIn<K(==), T, U>(gs: seq<Grouping<K, T>>, other: seq<Grouping<K, U>>): seq<Grouping<K, T>> {
    if gs == [] then []
    else (if ContainsKey(other, gs[0].key) then [] else [gs[0]]) + WhereKeyNotIn(gs[1..], other)
  }

  /** The elements of a group with key `k`, or none when there is no such group. */
  function Lookup<K(==), T>(gs: seq<Grouping<K, T>>, k: K): seq<T> {
    if gs == [] then [] else if gs[0].key == k then gs[0].elements else Lookup(gs[1..], k)
  }

  /** Reference definition: the elements whose key is `k`, in input order. */
  function WithKey<K(==), T>(xs: seq<T>, key: T -> K, k: K): seq<T> {
    if xs == [] then []
    else WithKey(xs[..|xs| - 1], key, k) + (if key(xs[|xs| - 1]) == k then [xs[|xs| - 1]] else [])
  }

  /** Reference definition: the elements whose key has no group in `other`, in input order. */
  function WithKeyNotIn<K(==), T, U>(xs: seq<T>, key: T -> K, other: seq<Grouping<K, U>>): seq<T> {
    if xs == [] then []
    else WithKeyNotIn(xs[..|xs| - 1], key, other)
         + (if ContainsKey(other, key(xs[|xs| - 1])) then [] else [xs[|xs| - 1]])
  }

  /** Reference definition: the index of the first element whose key is `k`, or `|xs|` when there is none. */
  function FirstIndex<K(==), T>(xs: seq<T>, key: T -> K, k: K): (r: nat)
    ensures r <= |xs|
    ensures r < |xs| ==> key(xs[r]) == k
    ensures forall j :: 0 <= j < r ==> key(xs[j]) != k
  {
    if xs == [] then 0
    else
      var f := FirstIndex(xs[..|xs| - 1], key, k);
      if f < |xs| - 1 then f
      else if key(xs[|xs| - 1]) == k then |xs| - 1
      else |xs|
  }

  // --------------------------------------------------------- GroupBy lemmas

  lemma {:induction false} AddToGroupsKeys<K, T>(gs: seq<Grouping<K, T>>, k: K, x: T)
    ensures Keys(AddToGroups(gs, k, x)) == Keys(gs) + {k}
  {
    var r := AddToGroups(gs, k, x);
    if gs == [] {
      assert r[1..] == [];
    } else if gs[0].key == k {
      assert r[1..] == gs[1..];
    } else {
      assert r[1..] == AddToGroups(gs[1..], k, x);
      AddToGroupsKeys(gs[1..], k, x);
    }
  }

  /** An identity has a group exactly when some element carries it. */
  lemma {:induction false} GroupByContains<K, T>(xs: seq<T>, key: T -> K, k: K)
    ensures ContainsKey(GroupBy(xs, key), k) <==> exists i :: 0 <= i < |xs| && key(xs[i]) == k
  {
    if xs != [] {
      var init := xs[..|xs| - 1];
      GroupByContains(init, key, k);
      AddToGroupsKeys(GroupBy(init, key), key(xs[|xs| - 1]), xs[|xs| - 1]);
      if exists i :: 0 <= i < |xs| && key(xs[i]) == k {
        var i :| 0 <= i < |xs| && key(xs[i]) == k;
        if i < |xs| - 1 {
          assert init[i] == xs[i];
        }
      }
      if exists i :: 0 <= i < |init| && key(init[i]) == k {
        var i :| 0 <= i < |init| && key(init[i]) == k;
        assert xs[i] == init[i];
      }
    }
  }

  lemma {:induction false} AddToGroupsDistinct<K, T>(gs: seq<Grouping<K, T>>, k: K, x: T)
    requires DistinctKeys(gs)
    ensures DistinctKeys(AddToGroups(gs, k, x))
  {
    var r := AddToGroups(gs, k, x);
    if gs == [] {
    } else if gs[0].key == k {
      assert r[1..] == gs[1..];
      assert forall a :: 0 <= a < |r| ==> r[a].key == gs[a].key;
    } else {
      var rest := AddToGroups(gs[1..], k, x);
      assert r[1..] == rest;
      AddToGroupsDistinct(gs[1..], k, x);
      AddToGroupsKeys(gs[1..], k, x);
      forall b | 1 <= b < |r| ensures r[0].key != r[b].key {
        assert r[b] == rest[b - 1];
        KeysMembership(gs[1..], r[b].key);
        KeysMembership(rest, r[b].key);
        assert r[b].key in Keys(rest);
        if r[b].key in Keys(gs[1..]) {
          var j :| 0 <= j < |gs[1..]| && gs[1..][j].key == r[b].key;
          assert gs[j + 1].key == r[b].key;
        }
      }
    }
  }

  lemma {:induction false} KeysMembership<K, T>(gs: seq<Grouping<K, T>>, k: K)
    ensures k in Keys(gs) <==> exists i :: 0 <= i < |gs| && gs[i].key == k
  {
    if gs != [] {
      KeysMembership(gs[1..], k);
      if k in Keys(gs) && k != gs[0].key {
        var j :| 0 <= j < |gs[1..]| && gs[1..][j].key == k;
        assert gs[j + 1].key == k;
      }
      if exists i :: 0 <= i < |gs| && gs[i].key == k {
        var i :| 0 <= i < |gs| && gs[i].key == k;
        if i > 0 {
          assert gs[1..][i - 1] == gs[i];
        }
      }
    }
  }

  /** An existing key keeps every group's key in place; a new key opens a group at the end. */
  lemma {:induction false} AddToGroupsShape<K, T>(gs: seq<Grouping<K, T>>, k: K, x: T)
    ensures k in Keys(gs) ==> (|AddToGroups(gs, k, x)| == |gs|
      && forall a :: 0 <= a < |gs| ==> AddToGroups(gs, k, x)[a].key == gs[a].key)
    ensures k !in Keys(gs) ==> AddToGroups(gs, k, x) == gs + [Grouping(k, [x])]
  {
    if gs != [] {
      var r := AddToGroups(gs, k, x);
      if gs[0].key == k {
        assert r[1..] == gs[1..];
        assert forall a :: 1 <= a < |gs| ==> r[a] == gs[1..][a - 1];
      } else {
        var rest := AddToGroups(gs[1..], k, x);
        AddToGroupsShape(gs[1..], k, x);
        assert r == [gs[0]] + rest;
        if k in Keys(gs) {
          assert forall a :: 1 <= a < |gs| ==> r[a] == rest[a - 1] && gs[a] == gs[1..][a - 1];
        } else {
          assert [gs[0]] + gs[1..] == gs;
        }
      }
    }
  }

  /** A key has a group exactly when it has a first occurrence in the input. */
  lemma FirstIndexPresent<K, T>(xs: seq<T>, key: T -> K, k: K)
    ensures ContainsKey(GroupBy(xs, key), k) <==> FirstIndex(xs, key, k) < |xs|
  {
    GroupByContains(xs, key, k);
  }

  /** LINQ's order: the groups come in the order of their keys' first appearance in the input. */
  lemma {:induction false} GroupByOrder<K, T>(xs: seq<T>, key: T -> K, a: nat, b: nat)
    requires a < b < |GroupBy(xs, key)|
    ensures FirstIndex(xs, key, GroupBy(xs, key)[a].key) < FirstIndex(xs, key, GroupBy(xs, key)[b].key)
  {
    var init, last := xs[..|xs| - 1], xs[|xs| - 1];
    var gi := GroupBy(init, key);
    var g := GroupBy(xs, key);
    AddToGroupsShape(gi, key(last), last);
    var ka, kb := g[a].key, g[b].key;
    assert ka == gi[a].key;
    KeysMembership(gi, ka);
    FirstIndexPresent(init, key, ka);
    if b < |gi| {
      assert kb == gi[b].key;
      GroupByOrder(init, key, a, b);
      KeysMembership(gi, kb);
      FirstIndexPresent(init, key, kb);
    } else {
      assert kb == key(last) && key(last) !in Keys(gi);
      FirstIndexPresent(init, key, kb);
    }
  }

  /** No two groups share a key. */
  lemma {:induction false} GroupByDistinct<K, T>(xs: seq<T>, key: T -> K)
    ensures DistinctKeys(GroupBy(xs, key))
  {
    if xs != [] {
      GroupByDistinct(xs[..|xs| - 1], key);
      AddToGroupsDistinct(GroupBy(xs[..|xs| - 1], key), key(xs[|xs| - 1]), xs[|xs| - 1]);
    }
  }

  lemma {:induction false} AddToGroupsLookup<K, T>(gs: seq<Grouping<K, T>>, k: K, x: T, k': K)
    ensures Lookup(AddToGroups(gs, k, x), k') == Lookup(gs, k') + (if k' == k then [x] else [])
  {
    var r := AddToGroups(gs, k, x);
    if gs == [] {
      assert r[1..] == [];
    } else if gs[0].key != k {
      AddToGroupsLookup(gs[1..], k, x, k');
      assert r[1..] == AddToGroups(gs[1..], k, x);
    } else {
      assert r[1..] == gs[1..];
    }
  }

  /** Each group holds exactly the elements with its key, in input order. */
  lemma {:induction false} GroupByLookup<K, T>(xs: seq<T>, key: T -> K, k: K)
    ensures Lookup(GroupBy(xs, key), k) == WithKey(xs, key, k)
  {
    if xs != [] {
      GroupByLookup(xs[..|xs| - 1], key, k);
      AddToGroupsLookup(GroupBy(xs[..|xs| - 1], key), key(xs[|xs| - 1]), xs[|xs| - 1], k);
    }
  }

  lemma {:induction false} AddToGroupsFlatten<K, T>(gs: seq<Grouping<K, T>>, k: K, x: T)
    ensures multiset(Flatten(AddToGroups(gs, k, x))) == multiset(Flatten(gs)) + multiset{x}
  {
    var r := AddToGroups(gs, k, x);
    if gs == [] {
      assert r[1..] == [];
      assert Flatten(r) == [x];
    } else if gs[0].key == k {
      assert r[1..] == gs[1..];
      assert Flatten(r) == (gs[0].elements + [x]) + Flatten(gs[1..]);
    } else {
      assert r[1..] == AddToGroups(gs[1..], k, x);
      AddToGroupsFlatten(gs[1..], k, x);
    }
  }

  /** Grouping loses and duplicates nothing: the groups hold exactly the input elements. */
  lemma {:induction false} GroupByFlatten<K, T>(xs: seq<T>, key: T -> K)
    ensures multiset(Flatten(GroupBy(xs, key))) == multiset(xs)
  {
    if xs != [] {
      var init := xs[..|xs| - 1];
      GroupByFlatten(init, key);
      AddToGroupsFlatten(GroupBy(init, key), key(xs[|xs| - 1]), xs[|xs| - 1]);
      assert xs == init + [xs[|xs| - 1]];
    }
  }

  lemma {:induction false} WhereAddToGroups<K, T, U>(gs: seq<Grouping<K, T>>, k: K, x: T, other: seq<Grouping<K, U>>)
    ensures WhereKeyNotIn(AddToGroups(gs, k, x), other) ==
      if ContainsKey(other, k) then WhereKeyNotIn(gs, other) else AddToGroups(WhereKeyNotIn(gs, other), k, x)
  {
    var r := AddToGroups(gs, k, x);
    if gs == [] {
      assert r[1..] == [];
    } else if gs[0].key == k {
      assert r[1..] == gs[1..];
    } else {
      var g0 := gs[0];
      assert r[0] == g0 && r[1..] == AddToGroups(gs[1..], k, x);
      WhereAddToGroups(gs[1..], k, x, other);
      var w := WhereKeyNotIn(gs[1..], other);
      if !ContainsKey(other, g0.key) {
        assert WhereKeyNotIn(gs, other) == [g0] + w;
        assert WhereKeyNotIn(r, other) == [g0] + WhereKeyNotIn(r[1..], other);
        if !ContainsKey(other, k) {
          var a := AddToGroups([g0] + w, k, x);
          assert ([g0] + w)[0] == g0 && ([g0] + w)[1..] == w;
          assert a == [g0] + AddToGroups(w, k, x);
        }
      } else {
        assert WhereKeyNotIn(gs, other) == w;
        assert WhereKeyNotIn(r, other) == WhereKeyNotIn(r[1..], other);
      }
    }
  }

  /** Dropping groups by key is the same as grouping the input without those keys. */
  lemma {:induction false} WhereGroupBy<K, T, U>(xs: seq<T>, key: T -> K, other: seq<Grouping<K, U>>)
    ensures WhereKeyNotIn(GroupBy(xs, key), other) == GroupBy(WithKeyNotIn(xs, key, other), key)
  {
    if xs != [] {
      var init, last := xs[..|xs| - 1], xs[|xs| - 1];
      WhereGroupBy(init, key, other);
      WhereAddToGroups(GroupBy(init, key), key(last), last, other);
      var f, f0 := WithKeyNotIn(xs, key, other), WithKeyNotIn(init, key, other);
      if !ContainsKey(other, key(last)) {
        assert f == f0 + [last];
        assert f[..|f| - 1] == f0 && f[|f| - 1] == last;
        assert GroupBy(f, key) == AddToGroups(GroupBy(f0, key), key(last), last);
      } else {
        assert f == f0;
      }
    }
  }

  lemma {:induction false} WithKeyNotInMultiset<K, T, U>(xs: seq<T>, key: T -> K, other: seq<Grouping<K, U>>, x: T)
    ensures multiset(WithKeyNotIn(xs, key, other))[x] ==
      if ContainsKey(other, key(x)) then 0 else multiset(xs)[x]
  {
    if xs != [] {
      WithKeyNotInMultiset(xs[..|xs| - 1], key, other, x);
      assert xs == xs[..|xs| - 1] + [xs[|xs| - 1]];
    }
  }

  // ------------------------------------------------------- simple factories

  function RootIdentity<E>(root: RootEntry<E>): Identity {
    InfoIdentity(root.info)
  }

  function DependencyIdentity<E>(dependency: DependencyEntry<E>): Identity {
    RequestIdentity(dependency.request)
  }

  /** Some dependency occurrence has identity `id`. */
  predicate IsDependency<E>(dependencies: seq<DependencyEntry<E>>, id: Identity) {
    exists i :: 0 <= i < |dependencies| && DependencyIdentity(dependencies[i]) == id
  }

  /**
   * `rootsByType.Where(g => !dependenciesByType.Contains(g.Key))`, flattened
   * (`SelectMany(l => l).SelectMany(g => g)`). `ToLookup(g => g.Key)` over
   * groups that already have distinct keys puts one group under each key, so
   * flattening the lookup and then the groups gives the groups' elements.
   */
  function SimpleFactories<E>(generated: GeneratedExpressions<E>): seq<RootEntry<E>> {
    var rootsByType := GroupBy(generated.roots, RootIdentity);
    var dependenciesByType := GroupBy(generated.resolveDependencies, DependencyIdentity);
    Flatten(WhereKeyNotIn(rootsByType, dependenciesByType))
  }

  /**
   * The simple factories are exactly the root entries whose identity no
   * dependency occurrence has, each as often as it is a root: one factory
   * per root entry, not one per identity.
   */
  lemma SimpleFactoriesExact<E>(generated: GeneratedExpressions<E>, entry: RootEntry<E>)
    ensures multiset(SimpleFactories(generated))[entry] ==
      if IsDependency(generated.resolveDependencies, RootIdentity(entry)) then 0
      else multiset(generated.roots)[entry]
  {
    var deps := generated.resolveDependencies;
    var dependenciesByType := GroupBy(deps, DependencyIdentity);
    WhereGroupBy(generated.roots, RootIdentity, dependenciesByType);
    var kept := WithKeyNotIn(generated.roots, RootIdentity, dependenciesByType);
    GroupByFlatten(kept, RootIdentity);
    WithKeyNotInMultiset(generated.roots, RootIdentity, dependenciesByType, entry);
    GroupByContains(deps, DependencyIdentity, RootIdentity(entry));
  }

  /** A root entry is a simple factory exactly when it is a root and its identity is no dependency's. */
  lemma SimpleFactoriesMembership<E>(generated: GeneratedExpressions<E>, entry: RootEntry<E>)
    ensures entry in SimpleFactories(generated) <==>
      entry in generated.roots && !IsDependency(generated.resolveDependencies, RootIdentity(entry))
  {
    SimpleFactoriesExact(generated, entry);
  }
}
