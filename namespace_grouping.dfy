/**
 * Grouping an assembly's type definitions by namespace, as `GroupBy(ctd => ctd.Namespace)`
 * does in the assembly node's constructor: one group per distinct key, groups in the order
 * in which their key first occurs, and each group's members in their original order.
 */
module NamespaceGrouping {
  import opened Wrappers
  import opened CilMetadata

  /** One group: a namespace key (possibly null) and its type definitions. */
  datatype Grouping = Grouping(key: Option<string>, types: seq<TypeDefinition>)

  predicate Distinct<T(==)>(s: seq<T>)
  {
    forall i, j :: 0 <= i < j < |s| ==> s[i] != s[j]
  }

  /** The distinct namespace keys of `ts`, in order of first occurrence. */
  function NamespaceKeys(ts: seq<TypeDefinition>): seq<Option<string>>
  {
    if ts == [] then []
    else
      var keys := NamespaceKeys(ts[..|ts| - 1]);
      var k := ts[|ts| - 1].namespaceName;
      if k in keys then keys else keys + [k]
  }

  /** The type definitions of `ts` whose namespace is `key`, in their original order. */
  function TypesIn(ts: seq<TypeDefinition>, key: Option<string>): seq<TypeDefinition>
  {
    if ts == [] then []
    else
      TypesIn(ts[..|ts| - 1], key)
      + (if ts[|ts| - 1].namespaceName == key then [ts[|ts| - 1]] else [])
  }

  function GroupsFor(keys: seq<Option<string>>, ts: seq<TypeDefinition>): seq<Grouping>
  {
    if keys == [] then []
    else [Grouping(keys[0], TypesIn(ts, keys[0]))] + GroupsFor(keys[1..], ts)
  }

  /** The groupings the assembly node's constructor iterates over. */
  function GroupByNamespace(ts: seq<TypeDefinition>): seq<Grouping>
  {
    GroupsFor(NamespaceKeys(ts), ts)
  }

  /** All members of all groups, group after group. */
  function Flatten(gs: seq<Grouping>): seq<TypeDefinition>
  {
    if gs == [] then [] else gs[0].types + Flatten(gs[1..])
  }

  lemma {:induction false} NamespaceKeysDistinct(ts: seq<TypeDefinition>)
    ensures Distinct(NamespaceKeys(ts))
  {
    if ts != [] {
      NamespaceKeysDistinct(ts[..|ts| - 1]);
    }
  }

  /** A key is produced exactly when some type definition carries it. */
  lemma {:induction false} NamespaceKeysComplete(ts: seq<TypeDefinition>, k: Option<string>)
    ensures k in NamespaceKeys(ts) <==> exists i :: 0 <= i < |ts| && ts[i].namespaceName == k
  {
    if ts != [] {
      var init := ts[..|ts| - 1];
      NamespaceKeysComplete(init, k);
      assert forall i :: 0 <= i < |init| ==> init[i] == ts[i];
    }
  }

  /**
   * Keys come in order of first occurrence: whenever a definition carries a later key,
   * some definition before it carries each earlier key.
   */
  lemma {:induction false} KeysFirstOccurrence(ts: seq<TypeDefinition>, j: nat, l: nat, q: nat)
    requires j < l < |NamespaceKeys(ts)| && q < |ts|
    requires ts[q].namespaceName == NamespaceKeys(ts)[l]
    ensures exists p :: 0 <= p < q && ts[p].namespaceName == NamespaceKeys(ts)[j]
  {
    var init := ts[..|ts| - 1];
    var keys, initKeys := NamespaceKeys(ts), NamespaceKeys(init);
    assert forall i :: 0 <= i < |init| ==> init[i] == ts[i];
    assert j < |initKeys| && keys[j] == initKeys[j];
    if q < |init| {
      NamespaceKeysComplete(init, ts[q].namespaceName);
      assert l < |initKeys| && keys[l] == initKeys[l];
      KeysFirstOccurrence(init, j, l, q);
      var p :| 0 <= p < q && init[p].namespaceName == initKeys[j];
      assert ts[p] == init[p];
    } else {
      NamespaceKeysComplete(init, initKeys[j]);
      var p :| 0 <= p < |init| && init[p].namespaceName == initKeys[j];
      assert ts[p] == init[p];
    }
  }

  /** `TypesIn` keeps exactly the definitions of the given namespace. */
  lemma {:induction false} TypesInMembers(ts: seq<TypeDefinition>, key: Option<string>, t: TypeDefinition)
    ensures t in TypesIn(ts, key) <==> t in ts && t.namespaceName == key
  {
    if ts != [] {
      var init := ts[..|ts| - 1];
      TypesInMembers(init, key, t);
      assert ts == init + [ts[|ts| - 1]];
    }
  }

  /** `TypesIn` keeps the original order: it distributes over concatenation. */
  lemma {:induction false} TypesInAppend(a: seq<TypeDefinition>, b: seq<TypeDefinition>, key: Option<string>)
    ensures TypesIn(a + b, key) == TypesIn(a, key) + TypesIn(b, key)
    decreases |b|
  {
    if b == [] {
      assert a + b == a;
    } else {
      var initB := b[..|b| - 1];
      assert (a + b)[..|a + b| - 1] == a + initB;
      TypesInAppend(a, initB, key);
    }
  }

  lemma {:induction false} GroupsForAt(keys: seq<Option<string>>, ts: seq<TypeDefinition>)
    ensures |GroupsFor(keys, ts)| == |keys|
    ensures forall j :: 0 <= j < |keys| ==> GroupsFor(keys, ts)[j] == Grouping(keys[j], TypesIn(ts, keys[j]))
  {
    if keys != [] {
      GroupsForAt(keys[1..], ts);
    }
  }

  lemma {:induction false} FlattenOfNoTypes(keys: seq<Option<string>>)
    ensures Flatten(GroupsFor(keys, [])) == []
  {
    if keys != [] {
      FlattenOfNoTypes(keys[1..]);
    }
  }

  lemma DistinctTail<T>(s: seq<T>)
    requires s != [] && Distinct(s)
    ensures Distinct(s[1..]) && s[0] !in s[1..]
  {
    assert forall i :: 0 <= i < |s| - 1 ==> s[1..][i] == s[i + 1];
  }

  /** Appending one definition extends its namespace's group by it. */
  lemma TypesInSnoc(ts: seq<TypeDefinition>, t: TypeDefinition, key: Option<string>)
    ensures TypesIn(ts + [t], key) == TypesIn(ts, key) + (if t.namespaceName == key then [t] else [])
  {
    assert (ts + [t])[..|ts + [t]| - 1] == ts;
  }

  /** Appending one definition adds it to the flattened groups once if its key is listed. */
  lemma {:induction false} FlattenSnoc(keys: seq<Option<string>>, ts: seq<TypeDefinition>, t: TypeDefinition)
    requires Distinct(keys)
    ensures multiset(Flatten(GroupsFor(keys, ts + [t])))
         == multiset(Flatten(GroupsFor(keys, ts)))
            + (if t.namespaceName in keys then multiset{t} else multiset{})
  {
    if keys != [] {
      var k, rest := keys[0], keys[1..];
      DistinctTail(keys);
      FlattenSnoc(rest, ts, t);
      TypesInSnoc(ts, t, k);
      assert keys == [k] + rest;
    }
  }

  /** Grouping under distinct keys that cover every definition loses and duplicates nothing. */
  lemma {:induction false} GroupsForPermutation(keys: seq<Option<string>>, ts: seq<TypeDefinition>)
    requires Distinct(keys)
    requires forall i :: 0 <= i < |ts| ==> ts[i].namespaceName in keys
    ensures multiset(Flatten(GroupsFor(keys, ts))) == multiset(ts)
    decreases |ts|
  {
    if ts == [] {
      FlattenOfNoTypes(keys);
    } else {
      var init := ts[..|ts| - 1];
      var t := ts[|ts| - 1];
      assert ts == init + [t];
      GroupsForPermutation(keys, init);
      FlattenSnoc(keys, init, t);
    }
  }

  /**
   * The groups GroupBy yields: one per distinct key, none empty, and every member of a
   * group is a definition of `ts` that carries the group's key.
   */
  lemma GroupByNamespaceGroups(ts: seq<TypeDefinition>)
    ensures var gs := GroupByNamespace(ts);
      && (forall j, l :: 0 <= j < l < |gs| ==> gs[j].key != gs[l].key)
      && (forall j :: 0 <= j < |gs| ==> gs[j].types != [])
      && (forall j, t :: 0 <= j < |gs| && t in gs[j].types ==> t in ts && t.namespaceName == gs[j].key)
  {
    var keys := NamespaceKeys(ts);
    var gs := GroupByNamespace(ts);
    NamespaceKeysDistinct(ts);
    GroupsForAt(keys, ts);
    forall j, t | 0 <= j < |gs| && t in gs[j].types
      ensures t in ts && t.namespaceName == gs[j].key
    {
      TypesInMembers(ts, keys[j], t);
    }
    forall j | 0 <= j < |gs| ensures gs[j].types != [] {
      NamespaceKeysComplete(ts, keys[j]);
      var i :| 0 <= i < |ts| && ts[i].namespaceName == keys[j];
      TypesInMembers(ts, keys[j], ts[i]);
    }
  }

  /** Every type definition lands in exactly one group. */
  lemma GroupByNamespaceCovers(ts: seq<TypeDefinition>, i: nat)
    requires i < |ts|
    ensures var gs := GroupByNamespace(ts);
      && (exists j :: 0 <= j < |gs| && ts[i] in gs[j].types)
      && (forall j, l :: 0 <= j < |gs| && 0 <= l < |gs| && ts[i] in gs[j].types && ts[i] in gs[l].types
            ==> j == l)
  {
    var keys := NamespaceKeys(ts);
    var gs := GroupByNamespace(ts);
    NamespaceKeysDistinct(ts);
    GroupsForAt(keys, ts);
    NamespaceKeysComplete(ts, ts[i].namespaceName);
    var j :| 0 <= j < |keys| && keys[j] == ts[i].namespaceName;
    TypesInMembers(ts, keys[j], ts[i]);
    forall j, l | 0 <= j < |gs| && 0 <= l < |gs| && ts[i] in gs[j].types && ts[i] in gs[l].types
      ensures j == l
    {
      TypesInMembers(ts, keys[j], ts[i]);
      TypesInMembers(ts, keys[l], ts[i]);
    }
  }

  /** Together the groups hold every definition exactly as often as `ts` does. */
  lemma GroupByNamespacePermutation(ts: seq<TypeDefinition>)
    ensures multiset(Flatten(GroupByNamespace(ts))) == multiset(ts)
  {
    var keys := NamespaceKeys(ts);
    NamespaceKeysDistinct(ts);
    forall i | 0 <= i < |ts| ensures ts[i].namespaceName in keys {
      NamespaceKeysComplete(ts, ts[i].namespaceName);
    }
    GroupsForPermutation(keys, ts);
  }
}
