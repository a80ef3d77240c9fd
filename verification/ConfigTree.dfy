/** The channel configuration tree and its elements (common/configtx/compare.go and the
    protobuf messages ConfigGroup, ConfigValue and ConfigPolicy). */
module ConfigTree {
  import opened Basics

  datatype ConfigValue = ConfigValue(version: nat, modPolicy: string, value: Bytes)

  /** The body of a policy: its type and its opaque encoding. */
  datatype PolicyBody = PolicyBody(kind: int, value: Bytes)

  datatype ConfigPolicy = ConfigPolicy(version: nat, modPolicy: string, policy: Option<PolicyBody>)

  datatype ConfigGroup = ConfigGroup(version: nat, modPolicy: string,
                                     groups: map<string, ConfigGroup>,
                                     values: map<string, ConfigValue>,
                                     policies: map<string, ConfigPolicy>)

  datatype Kind = KGroup | KValue | KPolicy

  /** Go's `comparable`: one element of a tree together with where it sits. A group element
      carries its whole subtree. */
  datatype Element =
    | GroupElement(group: ConfigGroup, key: string, path: seq<string>)
    | ValueElement(value: ConfigValue, key: string, path: seq<string>)
    | PolicyElement(policy: ConfigPolicy, key: string, path: seq<string>)
  {
    function Kind(): Kind
    {
      match this
      case GroupElement(_, _, _) => KGroup
      case ValueElement(_, _, _) => KValue
      case PolicyElement(_, _, _) => KPolicy
    }

    function Version(): nat
    {
      match this
      case GroupElement(g, _, _) => g.version
      case ValueElement(v, _, _) => v.version
      case PolicyElement(p, _, _) => p.version
    }

    function ModPolicy(): string
    {
      match this
      case GroupElement(g, _, _) => g.modPolicy
      case ValueElement(v, _, _) => v.modPolicy
      case PolicyElement(p, _, _) => p.modPolicy
    }

    /** What the element says itself, without the subtree below a group. */
    function Own(): Own
    {
      match this
      case GroupElement(g, _, _) => OwnOfGroup(g)
      case ValueElement(v, _, _) => OwnValue(v)
      case PolicyElement(p, _, _) => OwnPolicy(p)
    }
  }

  datatype Own =
    | OwnGroup(version: nat, modPolicy: string,
               groupKeys: set<string>, valueKeys: set<string>, policyKeys: set<string>)
    | OwnValue(value: ConfigValue)
    | OwnPolicy(policy: ConfigPolicy)

  function OwnOfGroup(g: ConfigGroup): Own
  {
    OwnGroup(g.version, g.modPolicy, g.groups.Keys, g.values.Keys, g.policies.Keys)
  }

  // ----- comparison of elements (compare.go) -----

  predicate SubsetOf<V>(inner: map<string, V>, outer: map<string, V>)
  {
    |inner| == 0 || (|inner| <= |outer| && forall k :: k in inner ==> k in outer)
  }

  predicate EqualConfigGroup(l: ConfigGroup, r: ConfigGroup)
  {
    && l.version == r.version
    && l.modPolicy == r.modPolicy
    && SubsetOf(l.groups, r.groups) && SubsetOf(r.groups, l.groups)
    && SubsetOf(l.policies, r.policies) && SubsetOf(r.policies, l.policies)
    && SubsetOf(l.values, r.values) && SubsetOf(r.values, l.values)
  }

  predicate Equals(a: Element, b: Element)
  {
    match a
    case GroupElement(g, _, _) => b.GroupElement? && EqualConfigGroup(g, b.group)
    case ValueElement(v, _, _) => b.ValueElement? && v == b.value
    case PolicyElement(p, _, _) => b.PolicyElement? && p == b.policy
  }

  lemma SubsetIsKeySubset<V>(inner: map<string, V>, outer: map<string, V>)
    ensures SubsetOf(inner, outer) <==> inner.Keys <= outer.Keys
  {
    if inner.Keys <= outer.Keys {
      assert outer.Keys == inner.Keys + (outer.Keys - inner.Keys);
      assert |outer.Keys| == |inner.Keys| + |outer.Keys - inner.Keys|;
    }
  }

  /** The source's comparison sees exactly the element's own content. */
  lemma EqualsIsOwn(a: Element, b: Element)
    ensures Equals(a, b) <==> a.Own() == b.Own()
  {
    if a.GroupElement? && b.GroupElement? {
      var l, r := a.group, b.group;
      SubsetIsKeySubset(l.groups, r.groups);
      SubsetIsKeySubset(r.groups, l.groups);
      SubsetIsKeySubset(l.values, r.values);
      SubsetIsKeySubset(r.values, l.values);
      SubsetIsKeySubset(l.policies, r.policies);
      SubsetIsKeySubset(r.policies, l.policies);
    }
  }

  // ----- addresses -----

  /** Where an element sits below the root group: its kind and the keys leading to it, its own
      key last. The root group is at (KGroup, []). */
  datatype Address = Address(kind: Kind, keys: seq<string>)

  function GroupAt(g: ConfigGroup, keys: seq<string>): Option<ConfigGroup>
    decreases |keys|
  {
    if keys == [] then Some(g)
    else if keys[0] in g.groups then GroupAt(g.groups[keys[0]], keys[1..])
    else None
  }

  function Parent(keys: seq<string>): seq<string>
    requires keys != []
  {
    keys[..|keys| - 1]
  }

  function Last(keys: seq<string>): string
    requires keys != []
  {
    keys[|keys| - 1]
  }

  /** The element at an address of the tree g, g itself sitting at the absolute path `base`. */
  function ElementAt(base: seq<string>, g: ConfigGroup, a: Address): Option<Element>
    requires base != []
  {
    var full := base + a.keys;
    match a.kind
    case KGroup =>
      var sub := GroupAt(g, a.keys);
      if sub.None? then None else Some(GroupElement(sub.value, Last(full), Parent(full)))
    case KValue =>
      if a.keys == [] then None else
        var parent := GroupAt(g, Parent(a.keys));
        if parent.None? || Last(a.keys) !in parent.value.values then None
        else Some(ValueElement(parent.value.values[Last(a.keys)], Last(full), Parent(full)))
    case KPolicy =>
      if a.keys == [] then None else
        var parent := GroupAt(g, Parent(a.keys));
        if parent.None? || Last(a.keys) !in parent.value.policies then None
        else Some(PolicyElement(parent.value.policies[Last(a.keys)], Last(full), Parent(full)))
  }

  predicate Has(g: ConfigGroup, a: Address)
  {
    ElementAt([""], g, a).Some?
  }

  lemma {:induction false} GroupAtSnoc(g: ConfigGroup, keys: seq<string>, k: string)
    ensures GroupAt(g, keys + [k]) ==
            (match GroupAt(g, keys)
             case None => None
             case Some(p) => if k in p.groups then Some(p.groups[k]) else None)
    decreases |keys|
  {
    if keys == [] {
      assert keys + [k] == [k] && [k][1..] == [];
    } else {
      assert (keys + [k])[1..] == keys[1..] + [k];
      if keys[0] in g.groups {
        GroupAtSnoc(g.groups[keys[0]], keys[1..], k);
      }
    }
  }

  ghost function GroupPaths(g: ConfigGroup): set<seq<string>>
  {
    {[]} + set k, p | k in g.groups && p in GroupPaths(g.groups[k]) :: [k] + p
  }

  lemma {:induction false} GroupPathsExact(g: ConfigGroup, keys: seq<string>)
    ensures keys in GroupPaths(g) <==> GroupAt(g, keys).Some?
    decreases |keys|
  {
    if keys != [] {
      assert keys == [keys[0]] + keys[1..];
      if keys[0] in g.groups {
        GroupPathsExact(g.groups[keys[0]], keys[1..]);
        if keys in GroupPaths(g) {
          var k, p :| k in g.groups && p in GroupPaths(g.groups[k]) && keys == [k] + p;
          assert k == keys[0] && p == keys[1..];
        }
      }
    }
  }

  ghost function Addresses(g: ConfigGroup): set<Address>
  {
    (set p | p in GroupPaths(g) :: Address(KGroup, p))
    + (set p, k | p in GroupPaths(g) && GroupAt(g, p).Some? && k in GroupAt(g, p).value.values
         :: Address(KValue, p + [k]))
    + (set p, k | p in GroupPaths(g) && GroupAt(g, p).Some? && k in GroupAt(g, p).value.policies
         :: Address(KPolicy, p + [k]))
  }

  lemma AddressesExact(g: ConfigGroup, a: Address)
    ensures a in Addresses(g) <==> Has(g, a)
  {
    match a.kind {
      case KGroup =>
        GroupPathsExact(g, a.keys);
      case _ =>
        if a.keys != [] {
          GroupPathsExact(g, Parent(a.keys));
          assert a.keys == Parent(a.keys) + [Last(a.keys)];
        }
        forall p: seq<string>, k | a.keys == p + [k]
          ensures p == Parent(a.keys) && k == Last(a.keys)
        {
        }
    }
  }
}
