/** The loops of common/configtx/configmap.go: recurseConfig filling a shared map, recurseConfigMap
    filling and patching a group. Go walks its maps in an arbitrary order, and so do these loops. */
module ConfigMapLoops {
  import opened Basics
  import opened Strings
  import opened ConfigTree
  import opened ConfigMap

  // ----- adding one child to a flattened group -----

  /** An element of a subgroup, seen from the group above. */
  lemma ElementBelow(base: seq<string>, g: ConfigGroup, a: Address)
    requires base != [] && a.keys != [] && (a.kind.KGroup? || |a.keys| > 1)
    ensures ElementAt(base, g, a) ==
            (if a.keys[0] in g.groups
             then ElementAt(base + [a.keys[0]], g.groups[a.keys[0]], Address(a.kind, a.keys[1..]))
             else None)
  {
    assert base + a.keys == base + [a.keys[0]] + a.keys[1..];
    if |a.keys| > 1 {
      assert Parent(a.keys)[1..] == Parent(a.keys[1..]);
    }
  }

  ghost function Below(base: seq<string>, g: ConfigGroup): map<string, Element>
    requires base != [] && LegalPath(base) && LegalKeys(g)
  {
    Flatten(base, g) - {FqPath(KGroup, base)}
  }

  lemma BelowHas(base: seq<string>, g: ConfigGroup, a: Address)
    requires base != [] && LegalPath(base) && LegalKeys(g) && Has(g, a) && a.keys != []
    ensures ElementAt(base, g, a).Some?
    ensures KeyOf(base, a) in Below(base, g) && Below(base, g)[KeyOf(base, a)] == ElementAt(base, g, a).value
  {
    hide LegalKeys, LegalID, FqPath, Flatten;
    FlattenHas(base, g, a);
    LegalAddress(g, a);
    if KeyOf(base, a) == FqPath(KGroup, base) {
      FqPathInjective(a.kind, base + a.keys, KGroup, base);
    }
  }

  lemma BelowOnly(base: seq<string>, g: ConfigGroup, s: string) returns (a: Address)
    requires base != [] && LegalPath(base) && LegalKeys(g) && s in Below(base, g)
    ensures Has(g, a) && a.keys != [] && s == KeyOf(base, a)
  {
    hide LegalKeys, LegalID, FqPath, Flatten;
    a := FlattenOnly(base, g, s);
    assert base + [] == base;
  }

  lemma FlattenFromBelow(base: seq<string>, g: ConfigGroup)
    requires base != [] && LegalPath(base) && LegalKeys(g)
    ensures FqPath(KGroup, base) !in Below(base, g)
    ensures Flatten(base, g) ==
            Below(base, g)[FqPath(KGroup, base) := GroupElement(g, Last(base), Parent(base))]
  {
    hide LegalKeys, LegalID, FqPath, Flatten;
    FlattenHas(base, g, Address(KGroup, []));
    assert base + [] == base;
  }

  lemma BelowEmpty(base: seq<string>, g: ConfigGroup)
    requires base != [] && LegalPath(base) && LegalKeys(g)
    requires g.groups == map[] && g.values == map[] && g.policies == map[]
    ensures Below(base, g) == map[]
  {
    hide LegalKeys, LegalID, FqPath, Flatten;
    forall s | s in Below(base, g)
      ensures false
    {
      var a := BelowOnly(base, g, s);
      if a.kind.KGroup? || |a.keys| > 1 {
        ElementBelow([""], g, a);
      }
    }
  }

  lemma LegalAddGroup(g: ConfigGroup, k: string, sub: ConfigGroup)
    requires LegalKeys(g) && LegalID(k) && LegalKeys(sub)
    ensures LegalKeys(g.(groups := g.groups[k := sub]))
  {
    hide LegalID;
  }

  lemma LegalAddLeaf(g: ConfigGroup, g': ConfigGroup, kind: Kind, k: string)
    requires LegalKeys(g) && LegalID(k) && LeafAdded(g, g', kind, k)
    ensures LegalKeys(g') && Has(g', Address(kind, [k]))
  {
    hide LegalID;
  }

  /** Filing one more subgroup. */
  lemma BelowAddGroup(base: seq<string>, g: ConfigGroup, k: string, sub: ConfigGroup)
    requires base != [] && LegalPath(base) && LegalKeys(g) && k !in g.groups
    requires LegalID(k) && LegalKeys(sub)
    ensures LegalKeys(g.(groups := g.groups[k := sub]))
    ensures Below(base, g.(groups := g.groups[k := sub])) == Below(base, g) + Flatten(base + [k], sub)
  {
    hide LegalKeys, LegalID, FqPath, Flatten, Below;
    LegalAddGroup(g, k, sub);
    var g' := g.(groups := g.groups[k := sub]);
    forall s
      ensures s in Below(base, g') ==> s in Below(base, g) + Flatten(base + [k], sub)
                                       && Below(base, g')[s] == (Below(base, g) + Flatten(base + [k], sub))[s]
    {
      if s in Below(base, g') {
        var a := BelowOnly(base, g', s);
        BelowHas(base, g', a);
        SplitAddress(base, g, k, sub, a);
      }
    }
    forall s
      ensures s in Below(base, g) + Flatten(base + [k], sub) ==> s in Below(base, g')
    {
      if s in Flatten(base + [k], sub) {
        var b := FlattenOnly(base + [k], sub, s);
        var a := Address(b.kind, [k] + b.keys);
        assert a.keys[1..] == b.keys;
        assert base + [k] + b.keys == base + a.keys;
        HasBelow(g', a);
        BelowHas(base, g', a);
      } else if s in Below(base, g) {
        var a := BelowOnly(base, g, s);
        HasKept(g, k, sub, a);
        BelowHas(base, g', a);
      }
    }
  }

  lemma HasBelow(g: ConfigGroup, a: Address)
    requires a.keys != [] && a.keys[0] in g.groups && Has(g.groups[a.keys[0]], Address(a.kind, a.keys[1..]))
    ensures Has(g, a)
  {
    ElementBelow([""], g, a);
    HasAnywhere([""] + [a.keys[0]], g.groups[a.keys[0]], Address(a.kind, a.keys[1..]));
  }

  lemma HasAnywhere(base: seq<string>, g: ConfigGroup, a: Address)
    requires base != []
    ensures ElementAt(base, g, a).Some? <==> Has(g, a)
  {
  }

  lemma HasKept(g: ConfigGroup, k: string, sub: ConfigGroup, a: Address)
    requires Has(g, a) && k !in g.groups
    ensures Has(g.(groups := g.groups[k := sub]), a)
  {
    var g' := g.(groups := g.groups[k := sub]);
    if a.keys != [] && (a.kind.KGroup? || |a.keys| > 1) {
      ElementBelow([""], g, a);
      ElementBelow([""], g', a);
    }
  }

  lemma SplitAddress(base: seq<string>, g: ConfigGroup, k: string, sub: ConfigGroup, a: Address)
    requires base != [] && LegalPath(base) && LegalKeys(g) && k !in g.groups && LegalID(k) && LegalKeys(sub)
    requires var g' := g.(groups := g.groups[k := sub]); Has(g', a) && a.keys != []
    ensures var g' := g.(groups := g.groups[k := sub]);
            var m := Below(base, g) + Flatten(base + [k], sub);
            ElementAt(base, g', a).Some? && KeyOf(base, a) in m && m[KeyOf(base, a)] == ElementAt(base, g', a).value
  {
    hide LegalKeys, LegalID, FqPath, Flatten, Below, ElementAt;
    if (a.kind.KGroup? || |a.keys| > 1) && a.keys[0] == k {
      AddressInside(base, g, k, sub, a);
    } else {
      AddressOutside(base, g, k, sub, a);
    }
  }

  lemma AddressInside(base: seq<string>, g: ConfigGroup, k: string, sub: ConfigGroup, a: Address)
    requires base != [] && LegalPath(base) && LegalID(k) && LegalKeys(sub)
    requires var g' := g.(groups := g.groups[k := sub]); Has(g', a) && a.keys != []
    requires (a.kind.KGroup? || |a.keys| > 1) && a.keys[0] == k
    ensures var g' := g.(groups := g.groups[k := sub]);
            var m := Flatten(base + [k], sub);
            ElementAt(base, g', a).Some? && KeyOf(base, a) in m && m[KeyOf(base, a)] == ElementAt(base, g', a).value
  {
    hide LegalKeys, LegalID, FqPath, Flatten, ElementAt, Has;
    var g' := g.(groups := g.groups[k := sub]);
    var b := Address(a.kind, a.keys[1..]);
    HasAnywhere(base, g', a);
    ElementBelow(base, g', a);
    HasAnywhere(base + [k], sub, b);
    FlattenHas(base + [k], sub, b);
    assert base + a.keys == base + [k] + b.keys;
  }

  lemma AddressOutside(base: seq<string>, g: ConfigGroup, k: string, sub: ConfigGroup, a: Address)
    requires base != [] && LegalPath(base) && LegalKeys(g) && k !in g.groups && LegalPath(base + [k]) && LegalKeys(sub)
    requires var g' := g.(groups := g.groups[k := sub]); Has(g', a) && a.keys != []
    requires !((a.kind.KGroup? || |a.keys| > 1) && a.keys[0] == k)
    ensures var g' := g.(groups := g.groups[k := sub]);
            && ElementAt(base, g', a).Some?
            && KeyOf(base, a) in Below(base, g) && Below(base, g)[KeyOf(base, a)] == ElementAt(base, g', a).value
            && KeyOf(base, a) !in Flatten(base + [k], sub)
  {
    hide LegalKeys, LegalID, FqPath, Flatten, Below, Has;
    var g' := g.(groups := g.groups[k := sub]);
    HasAnywhere(base, g', a);
    SameElsewhere(base, g, k, sub, a);
    HasAnywhere(base, g, a);
    hide ElementAt;
    BelowHas(base, g, a);
    if KeyOf(base, a) in Flatten(base + [k], sub) {
      var c := FlattenOnly(base + [k], sub, KeyOf(base, a));
      LegalAddress(g, a);
      FqPathInjective(a.kind, base + a.keys, c.kind, base + [k] + c.keys);
      NotBelow(base, k, a, c, sub);
    }
  }

  lemma SameElsewhere(base: seq<string>, g: ConfigGroup, k: string, sub: ConfigGroup, a: Address)
    requires base != [] && a.keys != [] && !((a.kind.KGroup? || |a.keys| > 1) && a.keys[0] == k)
    ensures ElementAt(base, g.(groups := g.groups[k := sub]), a) == ElementAt(base, g, a)
  {
    if a.kind.KGroup? || |a.keys| > 1 {
      ElementBelow(base, g, a);
      ElementBelow(base, g.(groups := g.groups[k := sub]), a);
    }
  }

  lemma NotBelow(base: seq<string>, k: string, a: Address, c: Address, sub: ConfigGroup)
    requires a.keys != [] && !((a.kind.KGroup? || |a.keys| > 1) && a.keys[0] == k)
    requires Has(sub, c)
    ensures !(a.kind == c.kind && base + a.keys == base + [k] + c.keys)
  {
    if base + a.keys == base + [k] + c.keys {
      assert a.keys[0] == (base + a.keys)[|base|] == k;
      assert |a.keys| == 1 + |c.keys|;
    }
  }

  /** g' is g with one leaf of the given kind added under k. */
  ghost predicate LeafAdded(g: ConfigGroup, g': ConfigGroup, kind: Kind, k: string)
  {
    || (kind.KValue? && k !in g.values && k in g'.values && g' == g.(values := g.values[k := g'.values[k]]))
    || (kind.KPolicy? && k !in g.policies && k in g'.policies && g' == g.(policies := g.policies[k := g'.policies[k]]))
  }

  lemma LeafElsewhere(base: seq<string>, g: ConfigGroup, g': ConfigGroup, kind: Kind, k: string, a: Address)
    requires base != [] && LeafAdded(g, g', kind, k) && a.keys != [] && a != Address(kind, [k])
    ensures ElementAt(base, g, a) == ElementAt(base, g', a)
    ensures Has(g, a) <==> Has(g', a)
  {
    if a.kind.KGroup? || |a.keys| > 1 {
      ElementBelow(base, g, a);
      ElementBelow(base, g', a);
    } else {
      assert a.keys == [a.keys[0]];
    }
    HasAnywhere(base, g, a);
    HasAnywhere(base, g', a);
  }

  /** Filing one more value or policy. */
  lemma BelowAddLeaf(base: seq<string>, g: ConfigGroup, g': ConfigGroup, kind: Kind, k: string)
    requires base != [] && LegalPath(base) && LegalKeys(g) && LeafAdded(g, g', kind, k) && LegalID(k)
    ensures LegalKeys(g') && ElementAt(base, g', Address(kind, [k])).Some?
    ensures Below(base, g') ==
            Below(base, g)[FqPath(kind, base + [k]) := ElementAt(base, g', Address(kind, [k])).value]
  {
    hide LegalKeys, LegalID, FqPath, Flatten, Below, LeafAdded;
    var e := Address(kind, [k]);
    LegalAddLeaf(g, g', kind, k);
    HasAnywhere(base, g', e);
    BelowHas(base, g', e);
    forall s
      ensures s in Below(base, g') ==> s == KeyOf(base, e) || (s in Below(base, g) && Below(base, g)[s] == Below(base, g')[s])
      ensures s in Below(base, g) && s != KeyOf(base, e) ==> s in Below(base, g')
    {
      if s in Below(base, g') {
        var a := BelowOnly(base, g', s);
        if a != e {
          LeafElsewhere(base, g, g', kind, k, a);
          BelowHas(base, g', a);
          BelowHas(base, g, a);
        }
      }
      if s in Below(base, g) && s != KeyOf(base, e) {
        var a := BelowOnly(base, g, s);
        LeafElsewhere(base, g, g', kind, k, a);
        BelowHas(base, g', a);
      }
    }
  }

  lemma BelowAddValue(base: seq<string>, g: ConfigGroup, k: string, v: ConfigValue)
    requires base != [] && LegalPath(base) && LegalKeys(g) && k !in g.values && LegalID(k)
    ensures LegalKeys(g.(values := g.values[k := v]))
    ensures Below(base, g.(values := g.values[k := v])) ==
            Below(base, g)[FqPath(KValue, base + [k]) := ValueElement(v, k, base)]
  {
    hide LegalKeys, LegalID, FqPath, Flatten, Below;
    BelowAddLeaf(base, g, g.(values := g.values[k := v]), KValue, k);
  }

  lemma BelowAddPolicy(base: seq<string>, g: ConfigGroup, k: string, p: ConfigPolicy)
    requires base != [] && LegalPath(base) && LegalKeys(g) && k !in g.policies && LegalID(k)
    ensures LegalKeys(g.(policies := g.policies[k := p]))
    ensures Below(base, g.(policies := g.policies[k := p])) ==
            Below(base, g)[FqPath(KPolicy, base + [k]) := PolicyElement(p, k, base)]
  {
    hide LegalKeys, LegalID, FqPath, Flatten, Below;
    BelowAddLeaf(base, g, g.(policies := g.policies[k := p]), KPolicy, k);
  }

  /** What makes a group illegal. */
  lemma IllegalChild(g: ConfigGroup, k: string)
    requires (k in g.groups && !(LegalID(k) && LegalKeys(g.groups[k]))) || ((k in g.values || k in g.policies) && !LegalID(k))
    ensures !LegalKeys(g)
  {
    hide LegalID;
  }

  lemma LegalWhenEmpty(g: ConfigGroup)
    requires g.groups == map[] && g.values == map[] && g.policies == map[]
    ensures LegalKeys(g)
  {
  }

  function OnlyGroups(g: ConfigGroup): ConfigGroup
  {
    g.(values := map[], policies := map[])
  }

  function NoPolicies(g: ConfigGroup): ConfigGroup
  {
    g.(policies := map[])
  }

  lemma LegalParts(g: ConfigGroup)
    ensures LegalKeys(g) ==> LegalKeys(NoPolicies(g))
    ensures LegalKeys(NoPolicies(g)) ==> LegalKeys(OnlyGroups(g))
  {
    hide LegalID;
  }

  lemma PutBack<V>(m: map<string, V>, todo: set<string>, key: string)
    requires key in m && key in todo
    ensures (m - todo)[key := m[key]] == m - (todo - {key})
  {
  }

  lemma UnionAssociates(a: map<string, Element>, b: map<string, Element>, c: map<string, Element>)
    ensures (a + b) + c == a + (b + c)
  {
  }

  lemma FirstThenRest(m: map<string, Element>, rest: map<string, Element>, key: string, e: Element)
    requires key !in rest
    ensures m[key := e] + rest == m + rest[key := e]
  {
  }

  lemma UpdateUnion(m: map<string, Element>, n: map<string, Element>, key: string, e: Element)
    ensures (m + n)[key := e] == m + n[key := e]
  {
  }

  // ----- recurseConfig -----

  /** The two ways addToMap puts a path together give the same. */
  lemma JoinedPath(kind: Kind, path: seq<string>, key: string)
    ensures FqPath(kind, path + [key]) ==
            if |path| == 0 then Prefix(kind) + [SEPARATOR] + key
            else Prefix(kind) + [SEPARATOR] + Join(path, SEPARATOR) + [SEPARATOR] + key
  {
    hide Join, Prefix;
    assert (path + [key])[..|path|] == path;
    assert Rooted(path + [key], SEPARATOR) == Rooted(path, SEPARATOR) + [SEPARATOR] + key;
    if |path| > 0 {
      RootedIsJoin(path, SEPARATOR);
    }
    hide Rooted;
    Regroup(Prefix(kind), Join(path, SEPARATOR), key);
  }

  lemma Regroup(prefix: string, path: string, key: string)
    ensures prefix + ([SEPARATOR] + path + [SEPARATOR] + key) == prefix + [SEPARATOR] + path + [SEPARATOR] + key
    ensures prefix + ([] + [SEPARATOR] + key) == prefix + [SEPARATOR] + key
  {
  }

  /** The map that mapConfig fills. */
  class Accumulator {
    var entries: map<string, Element>

    constructor ()
      ensures entries == map[]
    {
      entries := map[];
    }

    method AddToMap(cg: Element) returns (ok: bool)
      modifies this
      ensures ok <==> LegalID(cg.key)
      ensures entries == if ok then old(entries)[FqPath(cg.Kind(), cg.path + [cg.key]) := cg] else old(entries)
    {
      hide LegalID, FqPath, Prefix, Join;
      var fqPath := Prefix(cg.Kind());
      if !LegalID(cg.key) {
        return false;
      }
      if |cg.path| == 0 {
        fqPath := fqPath + [SEPARATOR] + cg.key;
      } else {
        fqPath := fqPath + [SEPARATOR] + Join(cg.path, SEPARATOR) + [SEPARATOR] + cg.key;
      }
      JoinedPath(cg.Kind(), cg.path, cg.key);
      entries := entries[fqPath := cg];
      ok := true;
    }

    method AddGroups(path: seq<string>, group: ConfigGroup) returns (ok: bool)
      requires path != [] && LegalPath(path)
      modifies this
      ensures ok <==> LegalKeys(OnlyGroups(group))
      ensures ok ==> entries == old(entries) + Below(path, OnlyGroups(group))
      decreases group, 0
    {
      hide LegalKeys, LegalID, FqPath, Flatten, Below;
      ghost var seen := group.(groups := map[], values := map[], policies := map[]);
      LegalWhenEmpty(seen);
      BelowEmpty(path, seen);
      var todo := group.groups.Keys;
      while todo != {}
        invariant todo <= group.groups.Keys
        invariant seen.groups == group.groups - todo && seen == OnlyGroups(group).(groups := seen.groups)
        invariant LegalKeys(seen) && entries == old(entries) + Below(path, seen)
        decreases todo
      {
        var key :| key in todo;
        assert Parent(path + [key]) == path && Last(path + [key]) == key;
        ok := RecurseConfig(path + [key], group.groups[key]);
        if !ok {
          IllegalChild(OnlyGroups(group), key);
          return;
        }
        BelowAddGroup(path, seen, key, group.groups[key]);
        UnionAssociates(old(entries), Below(path, seen), Flatten(path + [key], group.groups[key]));
        PutBack(group.groups, todo, key);
        seen := seen.(groups := seen.groups[key := group.groups[key]]);
        todo := todo - {key};
      }
      assert seen.groups == group.groups;
      ok := true;
    }

    method AddValues(path: seq<string>, group: ConfigGroup, ghost start: map<string, Element>) returns (ok: bool)
      requires path != [] && LegalPath(path) && LegalKeys(OnlyGroups(group))
      requires entries == start + Below(path, OnlyGroups(group))
      modifies this
      ensures ok <==> LegalKeys(NoPolicies(group))
      ensures ok ==> entries == start + Below(path, NoPolicies(group))
    {
      hide LegalKeys, LegalID, FqPath, Flatten, Below;
      ghost var seen := OnlyGroups(group);
      var todo := group.values.Keys;
      while todo != {}
        invariant todo <= group.values.Keys
        invariant seen.values == group.values - todo && seen == NoPolicies(group).(values := seen.values)
        invariant LegalKeys(seen) && entries == start + Below(path, seen)
        decreases todo
      {
        var key :| key in todo;
        ok := AddToMap(ValueElement(group.values[key], key, path));
        if !ok {
          IllegalChild(NoPolicies(group), key);
          return;
        }
        BelowAddValue(path, seen, key, group.values[key]);
        UpdateUnion(start, Below(path, seen), FqPath(KValue, path + [key]), ValueElement(group.values[key], key, path));
        PutBack(group.values, todo, key);
        seen := seen.(values := seen.values[key := group.values[key]]);
        todo := todo - {key};
      }
      assert seen.values == group.values;
      ok := true;
    }

    method AddPolicies(path: seq<string>, group: ConfigGroup, ghost start: map<string, Element>) returns (ok: bool)
      requires path != [] && LegalPath(path) && LegalKeys(NoPolicies(group))
      requires entries == start + Below(path, NoPolicies(group))
      modifies this
      ensures ok <==> LegalKeys(group)
      ensures ok ==> entries == start + Below(path, group)
    {
      hide LegalKeys, LegalID, FqPath, Flatten, Below;
      ghost var seen := NoPolicies(group);
      var todo := group.policies.Keys;
      while todo != {}
        invariant todo <= group.policies.Keys
        invariant seen.policies == group.policies - todo && seen == group.(policies := seen.policies)
        invariant LegalKeys(seen) && entries == start + Below(path, seen)
        decreases todo
      {
        var key :| key in todo;
        ok := AddToMap(PolicyElement(group.policies[key], key, path));
        if !ok {
          IllegalChild(group, key);
          return;
        }
        BelowAddPolicy(path, seen, key, group.policies[key]);
        UpdateUnion(start, Below(path, seen), FqPath(KPolicy, path + [key]), PolicyElement(group.policies[key], key, path));
        PutBack(group.policies, todo, key);
        seen := seen.(policies := seen.policies[key := group.policies[key]]);
        todo := todo - {key};
      }
      assert seen.policies == group.policies;
      ok := true;
    }

    /** Whatever the order of the walk, a legal group adds exactly its flattened form; the walk
        fails exactly when a key is illegal. */
    method RecurseConfig(path: seq<string>, group: ConfigGroup) returns (ok: bool)
      requires path != [] && LegalPath(Parent(path))
      modifies this
      ensures ok <==> LegalID(Last(path)) && LegalKeys(group)
      ensures ok ==> LegalPath(path) && entries == old(entries) + Flatten(path, group)
      decreases group, 1
    {
      hide LegalKeys, LegalID, FqPath, Flatten, Below;
      assert path == Parent(path) + [Last(path)];
      ok := AddToMap(GroupElement(group, Last(path), Parent(path)));
      if !ok {
        return;
      }
      ghost var start := entries;
      LegalParts(group);
      ok := AddGroups(path, group);
      if !ok {
        return;
      }
      ok := AddValues(path, group, start);
      if !ok {
        return;
      }
      ok := AddPolicies(path, group, start);
      if ok {
        FlattenFromBelow(path, group);
        FirstThenRest(old(entries), Below(path, group), FqPath(KGroup, path), GroupElement(group, Last(path), Parent(path)));
      }
    }
  }

  /** mapConfig, whatever the order of the walk. */
  method MapConfigInOrder(root: Option<ConfigGroup>, rootKey: string) returns (r: Result<map<string, Element>>)
    ensures r == MapConfig(root, rootKey)
  {
    hide LegalKeys, LegalID, FqPath, Flatten;
    var result := new Accumulator();
    if root.Some? {
      assert Parent([rootKey]) == [] && Last([rootKey]) == rootKey;
      var ok := result.RecurseConfig([rootKey], root.value);
      if !ok {
        return Err;
      }
      assert map[] + Flatten([rootKey], root.value) == Flatten([rootKey], root.value);
    }
    return Ok(result.entries);
  }

  // ----- recurseConfigMap -----

  lemma PathOfChild(full: seq<string>, k: string)
    ensures Rooted(full + [k], SEPARATOR) == Rooted(full, SEPARATOR) + [SEPARATOR] + k
  {
    assert (full + [k])[..|full|] == full;
  }

  lemma PathOfLeaf(kind: Kind, full: seq<string>, k: string)
    ensures Prefix(kind) + Rooted(full, SEPARATOR) + [SEPARATOR] + k == FqPath(kind, full + [k])
  {
    PathOfChild(full, k);
    hide Rooted;
    var path := Rooted(full, SEPARATOR);
    assert Prefix(kind) + (path + [SEPARATOR] + k) == Prefix(kind) + path + [SEPARATOR] + k;
  }

  lemma FoldFails(full: seq<string>, m: map<string, Element>, fill: bool, k: string)
    requires FqPath(KGroup, full) in m && m[FqPath(KGroup, full)].GroupElement?
    requires k in m[FqPath(KGroup, full)].group.groups && Fold(full + [k], m, fill).Err?
    ensures Fold(full, m, fill).Err?
  {
    hide FqPath;
    var g := m[FqPath(KGroup, full)].group;
    var subs := map j | j in g.groups :: Fold(full + [j], m, fill);
    assert subs[k].Err?;
  }

  /** Replaces the subgroups of `group` one by one by what the map holds for them. */
  method RebuildGroups(path: string, ghost full: seq<string>, group: ConfigGroup, configMap: map<string, Element>)
    returns (r: Result<map<string, ConfigGroup>>)
    requires path == Rooted(full, SEPARATOR)
    requires FqPath(KGroup, full) in configMap
    ensures var fill := ORDERER_CAPABILITIES in configMap;
            if r.Ok? then
              && r.value.Keys == group.groups.Keys
              && forall k :: k in group.groups ==> Fold(full + [k], configMap, fill) == Ok(r.value[k])
            else exists k :: k in group.groups && Fold(full + [k], configMap, fill).Err?
    decreases LongKeys(configMap, |FqPath(KGroup, full)|), 0
  {
    hide FqPath, Fold;
    ghost var fill := ORDERER_CAPABILITIES in configMap;
    var groups := group.groups;
    var todo := group.groups.Keys;
    while todo != {}
      invariant todo <= group.groups.Keys == groups.Keys
      invariant forall k :: k in group.groups && k !in todo ==> Fold(full + [k], configMap, fill) == Ok(groups[k])
      decreases todo
    {
      var key :| key in todo;
      PathOfChild(full, key);
      ChildIsLonger(full, key, configMap);
      var updated := RecurseConfigMap(path + [SEPARATOR] + key, full + [key], configMap);
      if updated.Err? {
        return Err;
      }
      groups := groups[key := updated.value];
      todo := todo - {key};
    }
    return Ok(groups);
  }

  method RebuildValues(path: string, ghost full: seq<string>, group: ConfigGroup, configMap: map<string, Element>)
    returns (r: Result<map<string, ConfigValue>>)
    requires path == Rooted(full, SEPARATOR)
    ensures r.Ok? <==> ValuesPresent(full, group, configMap)
    ensures r.Ok? ==> r.value == map k | k in group.values :: configMap[FqPath(KValue, full + [k])].value
  {
    hide FqPath, Prefix;
    var values := group.values;
    var todo := group.values.Keys;
    while todo != {}
      invariant todo <= group.values.Keys == values.Keys
      invariant forall k :: k in group.values && k !in todo ==>
                  && FqPath(KValue, full + [k]) in configMap && configMap[FqPath(KValue, full + [k])].ValueElement?
                  && values[k] == configMap[FqPath(KValue, full + [k])].value
      decreases todo
    {
      var key :| key in todo;
      PathOfLeaf(KValue, full, key);
      var valuePath := Prefix(KValue) + path + [SEPARATOR] + key;
      if valuePath !in configMap || !configMap[valuePath].ValueElement? {
        return Err;
      }
      values := values[key := configMap[valuePath].value];
      todo := todo - {key};
    }
    return Ok(values);
  }

  method RebuildPolicies(path: string, ghost full: seq<string>, group: ConfigGroup, configMap: map<string, Element>)
    returns (r: Result<map<string, ConfigPolicy>>)
    requires path == Rooted(full, SEPARATOR)
    ensures r.Ok? <==> PoliciesPresent(full, group, configMap)
    ensures r.Ok? ==> r.value == map k | k in group.policies :: configMap[FqPath(KPolicy, full + [k])].policy
  {
    hide FqPath, Prefix;
    var policies := group.policies;
    var todo := group.policies.Keys;
    while todo != {}
      invariant todo <= group.policies.Keys == policies.Keys
      invariant forall k :: k in group.policies && k !in todo ==>
                  && FqPath(KPolicy, full + [k]) in configMap && configMap[FqPath(KPolicy, full + [k])].PolicyElement?
                  && policies[k] == configMap[FqPath(KPolicy, full + [k])].policy
      decreases todo
    {
      var key :| key in todo;
      PathOfLeaf(KPolicy, full, key);
      var policyPath := Prefix(KPolicy) + path + [SEPARATOR] + key;
      if policyPath !in configMap || !configMap[policyPath].PolicyElement? {
        return Err;
      }
      policies := policies[key := configMap[policyPath].policy];
      todo := todo - {key};
    }
    return Ok(policies);
  }

  function Upgraded(fill: bool, g: ConfigGroup): ConfigGroup
  {
    ConfigGroup(g.version, FillName(fill, g.modPolicy), g.groups,
                map k | k in g.values :: FillValue(fill, g.values[k]),
                map k | k in g.policies :: FillPolicy(fill, g.policies[k]))
  }

  lemma NotUpgraded(g: ConfigGroup)
    ensures Upgraded(false, g) == g
  {
    var r := Upgraded(false, g);
    assert r.values == g.values && r.policies == g.policies;
  }

  /** The upgrade of a rebuilt group: each empty mod_policy of the group and its leaves is set. */
  method UpgradeModPolicies(g: ConfigGroup) returns (r: ConfigGroup)
    ensures r == Upgraded(true, g)
  {
    r := g;
    if r.modPolicy == "" {
      r := r.(modPolicy := NEW_MOD_POLICY);
    }
    var values := UpgradeValues(g.values);
    var policies := UpgradePolicies(g.policies);
    r := r.(values := values, policies := policies);
  }

  method UpgradeValues(values: map<string, ConfigValue>) returns (r: map<string, ConfigValue>)
    ensures r == map k | k in values :: FillValue(true, values[k])
  {
    r := values;
    var todo := values.Keys;
    while todo != {}
      invariant todo <= values.Keys == r.Keys
      invariant forall k :: k in values ==> r[k] == FillValue(k !in todo, values[k])
      decreases todo
    {
      var key :| key in todo;
      if r[key].modPolicy == "" {
        r := r[key := r[key].(modPolicy := NEW_MOD_POLICY)];
      }
      todo := todo - {key};
    }
  }

  method UpgradePolicies(policies: map<string, ConfigPolicy>) returns (r: map<string, ConfigPolicy>)
    ensures r == map k | k in policies :: FillPolicy(true, policies[k])
  {
    r := policies;
    var todo := policies.Keys;
    while todo != {}
      invariant todo <= policies.Keys == r.Keys
      invariant forall k :: k in policies ==> r[k] == FillPolicy(k !in todo, policies[k])
      decreases todo
    {
      var key :| key in todo;
      if r[key].modPolicy == "" {
        r := r[key := r[key].(modPolicy := NEW_MOD_POLICY)];
      }
      todo := todo - {key};
    }
  }

  /** Whatever the order of the walk, the group rebuilt at a path is the folded one. */
  method RecurseConfigMap(path: string, ghost full: seq<string>, configMap: map<string, Element>)
    returns (r: Result<ConfigGroup>)
    requires path == Rooted(full, SEPARATOR)
    ensures r == Fold(full, configMap, ORDERER_CAPABILITIES in configMap)
    decreases LongKeys(configMap, |FqPath(KGroup, full)|), 1
  {
    var groupPath := GROUP_PREFIX + path;
    assert groupPath == FqPath(KGroup, full);
    hide FqPath;
    if groupPath !in configMap || !configMap[groupPath].GroupElement? {
      return Err;
    }
    var group := configMap[groupPath].group;
    var groups := RebuildGroups(path, full, group, configMap);
    if groups.Err? {
      ghost var fill := ORDERER_CAPABILITIES in configMap;
      ghost var k :| k in group.groups && Fold(full + [k], configMap, fill).Err?;
      FoldFails(full, configMap, fill, k);
      return Err;
    }
    var values := RebuildValues(path, full, group, configMap);
    if values.Err? {
      return Err;
    }
    var policies := RebuildPolicies(path, full, group, configMap);
    if policies.Err? {
      return Err;
    }
    var newConfigGroup := group.(groups := groups.value, values := values.value, policies := policies.value);
    if ORDERER_CAPABILITIES in configMap {
      newConfigGroup := UpgradeModPolicies(newConfigGroup);
    } else {
      NotUpgraded(newConfigGroup);
    }
    FoldValue(full, configMap, ORDERER_CAPABILITIES in configMap, group, newConfigGroup, groups.value, values.value, policies.value);
    return Ok(newConfigGroup);
  }

  lemma FoldValue(full: seq<string>, m: map<string, Element>, fill: bool, g: ConfigGroup, r: ConfigGroup,
                  groups: map<string, ConfigGroup>, values: map<string, ConfigValue>, policies: map<string, ConfigPolicy>)
    requires FqPath(KGroup, full) in m && m[FqPath(KGroup, full)].GroupElement? && m[FqPath(KGroup, full)].group == g
    requires groups.Keys == g.groups.Keys && forall k :: k in groups ==> Fold(full + [k], m, fill) == Ok(groups[k])
    requires ValuesPresent(full, g, m) && values == map k | k in g.values :: m[FqPath(KValue, full + [k])].value
    requires PoliciesPresent(full, g, m) && policies == map k | k in g.policies :: m[FqPath(KPolicy, full + [k])].policy
    requires r == Upgraded(fill, g.(groups := groups, values := values, policies := policies))
    ensures Fold(full, m, fill) == Ok(r)
  {
    hide FqPath, Assemble, FillName, FillValue, FillPolicy;
    var subs := map k | k in g.groups :: Fold(full + [k], m, fill);
    assert subs.Keys == g.groups.Keys;
    AssembleValue(full, m, fill, g, r, subs, groups, values, policies);
    assert Fold(full, m, fill) == Assemble(full, m, fill, g, subs);
  }

  lemma AssembleValue(full: seq<string>, m: map<string, Element>, fill: bool, g: ConfigGroup, r: ConfigGroup,
                      subs: map<string, Result<ConfigGroup>>, groups: map<string, ConfigGroup>,
                      values: map<string, ConfigValue>, policies: map<string, ConfigPolicy>)
    requires subs.Keys == groups.Keys && forall k :: k in subs ==> subs[k] == Ok(groups[k])
    requires ValuesPresent(full, g, m) && values == map k | k in g.values :: m[FqPath(KValue, full + [k])].value
    requires PoliciesPresent(full, g, m) && policies == map k | k in g.policies :: m[FqPath(KPolicy, full + [k])].policy
    requires r == Upgraded(fill, g.(groups := groups, values := values, policies := policies))
    ensures Assemble(full, m, fill, g, subs) == Ok(r)
  {
    hide FqPath, FillName, FillValue, FillPolicy;
    FilledValues(full, m, fill, g, values);
    FilledPolicies(full, m, fill, g, policies);
    GroupValues(subs, groups);
  }

  lemma GroupValues(subs: map<string, Result<ConfigGroup>>, groups: map<string, ConfigGroup>)
    requires subs.Keys == groups.Keys && forall k :: k in subs ==> subs[k] == Ok(groups[k])
    ensures (map k | k in subs :: subs[k].value) == groups
  {
  }

  lemma FilledValues(full: seq<string>, m: map<string, Element>, fill: bool, g: ConfigGroup, values: map<string, ConfigValue>)
    requires ValuesPresent(full, g, m) && values == map k | k in g.values :: m[FqPath(KValue, full + [k])].value
    ensures (map k | k in g.values :: FillValue(fill, m[FqPath(KValue, full + [k])].value)) ==
            (map k | k in values :: FillValue(fill, values[k]))
  {
    hide FqPath, FillValue;
  }

  lemma FilledPolicies(full: seq<string>, m: map<string, Element>, fill: bool, g: ConfigGroup, policies: map<string, ConfigPolicy>)
    requires PoliciesPresent(full, g, m) && policies == map k | k in g.policies :: m[FqPath(KPolicy, full + [k])].policy
    ensures (map k | k in g.policies :: FillPolicy(fill, m[FqPath(KPolicy, full + [k])].policy)) ==
            (map k | k in policies :: FillPolicy(fill, policies[k]))
  {
    hide FqPath, FillPolicy;
  }
}
