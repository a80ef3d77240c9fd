/** Mapping a configuration tree to a flat map keyed by fully qualified path, and back
    (common/configtx/configmap.go, validateConfigID of validator.go). */
module ConfigMap {
  import opened Basics
  import opened Strings
  import opened ConfigTree

  const GROUP_PREFIX := "[Group]  "
  const VALUE_PREFIX := "[Value]  "
  const POLICY_PREFIX := "[Policy] "
  const SEPARATOR := '/'
  const MAX_LENGTH := 249

  /** Set by an orderer that runs with the capabilities framework on. */
  const ORDERER_CAPABILITIES := "[Value]  /Channel/Orderer/Capabilities"
  const NEW_MOD_POLICY := "Admins"

  // ----- keys and paths -----

  predicate AllowedChar(c: char)
  {
    'a' <= c <= 'z' || 'A' <= c <= 'Z' || '0' <= c <= '9' || c == '.' || c == '-'
  }

  /** validateConfigID returns no error. */
  predicate LegalID(id: string)
  {
    && 0 < |id| <= MAX_LENGTH
    && id != "." && id != ".."
    && forall i :: 0 <= i < |id| ==> AllowedChar(id[i])
  }

  predicate LegalPath(path: seq<string>)
  {
    forall i :: 0 <= i < |path| ==> LegalID(path[i])
  }

  /** Every key below the group is legal. */
  predicate LegalKeys(g: ConfigGroup)
  {
    && LegalSet(g.groups.Keys) && LegalSet(g.values.Keys) && LegalSet(g.policies.Keys)
    && forall k :: k in g.groups ==> LegalKeys(g.groups[k])
  }

  predicate LegalSet(keys: set<string>)
  {
    forall k :: k in keys ==> LegalID(k)
  }

  function Prefix(kind: Kind): string
  {
    match kind
    case KGroup => GROUP_PREFIX
    case KValue => VALUE_PREFIX
    case KPolicy => POLICY_PREFIX
  }

  function FqPath(kind: Kind, full: seq<string>): string
  {
    Prefix(kind) + Rooted(full, SEPARATOR)
  }

  /** The key of the map under which the element at address a of a tree at `base` is filed. */
  function KeyOf(base: seq<string>, a: Address): string
  {
    FqPath(a.kind, base + a.keys)
  }

  lemma LegalIsFree(path: seq<string>)
    requires LegalPath(path)
    ensures AllFree(path, SEPARATOR)
  {
  }

  /** Distinct elements never share a fully qualified path. */
  lemma FqPathInjective(k1: Kind, p1: seq<string>, k2: Kind, p2: seq<string>)
    requires LegalPath(p1) && LegalPath(p2)
    requires FqPath(k1, p1) == FqPath(k2, p2)
    ensures k1 == k2 && p1 == p2
  {
    assert FqPath(k1, p1)[1] == Prefix(k1)[1] == Prefix(k2)[1];
    assert |Prefix(k1)| == |Prefix(k2)| == 9;
    assert FqPath(k1, p1)[9..] == Rooted(p1, SEPARATOR);
    assert FqPath(k2, p2)[9..] == Rooted(p2, SEPARATOR);
    LegalIsFree(p1);
    LegalIsFree(p2);
    RootedInjective(p1, p2, SEPARATOR);
  }

  lemma {:induction false} LegalGroupAt(g: ConfigGroup, keys: seq<string>)
    requires LegalKeys(g) && GroupAt(g, keys).Some?
    ensures LegalPath(keys) && LegalKeys(GroupAt(g, keys).value)
    decreases |keys|
  {
    if keys != [] {
      LegalGroupAt(g.groups[keys[0]], keys[1..]);
      assert keys == [keys[0]] + keys[1..];
    }
  }

  lemma LegalAddress(g: ConfigGroup, a: Address)
    requires LegalKeys(g) && Has(g, a)
    ensures LegalPath(a.keys)
  {
    if a.kind.KGroup? {
      LegalGroupAt(g, a.keys);
    } else {
      LegalGroupAt(g, Parent(a.keys));
      assert a.keys == Parent(a.keys) + [Last(a.keys)];
    }
  }

  lemma LegalAddresses(base: seq<string>, g: ConfigGroup)
    requires base != [] && LegalPath(base) && LegalKeys(g)
    ensures forall a :: a in Addresses(g) ==> ElementAt(base, g, a).Some? && LegalPath(base + a.keys)
    ensures forall a, b ::
              (a in Addresses(g) && b in Addresses(g) && KeyOf(base, a) == KeyOf(base, b)) ==> a == b
  {
    forall a | a in Addresses(g)
      ensures ElementAt(base, g, a).Some? && LegalPath(base + a.keys)
    {
      AddressesExact(g, a);
      LegalAddress(g, a);
    }
    forall a, b | a in Addresses(g) && b in Addresses(g) && KeyOf(base, a) == KeyOf(base, b)
      ensures a == b
    {
      FqPathInjective(a.kind, base + a.keys, b.kind, base + b.keys);
      assert a.keys == (base + a.keys)[|base|..];
      assert b.keys == (base + b.keys)[|base|..];
    }
  }

  // ----- tree to map -----

  ghost function Keys(base: seq<string>, g: ConfigGroup): (ks: set<string>)
    ensures forall s :: s in ks ==> exists a :: a in Addresses(g) && KeyOf(base, a) == s
    ensures forall a :: a in Addresses(g) ==> KeyOf(base, a) in ks
  {
    set a | a in Addresses(g) :: KeyOf(base, a)
  }

  ghost function AddressOf(base: seq<string>, g: ConfigGroup, s: string): (a: Address)
    requires s in Keys(base, g)
    ensures a in Addresses(g) && KeyOf(base, a) == s
  {
    var a :| a in Addresses(g) && KeyOf(base, a) == s;
    a
  }

  /** What recurseConfig adds to the map for the group g at the absolute path `base`. */
  ghost function Flatten(base: seq<string>, g: ConfigGroup): map<string, Element>
    requires base != [] && LegalPath(base) && LegalKeys(g)
  {
    LegalAddresses(base, g);
    map s | s in Keys(base, g) :: ElementAt(base, g, AddressOf(base, g, s)).value
  }

  lemma FlattenHas(base: seq<string>, g: ConfigGroup, a: Address)
    requires base != [] && LegalPath(base) && LegalKeys(g) && Has(g, a)
    ensures ElementAt(base, g, a).Some?
    ensures KeyOf(base, a) in Flatten(base, g)
    ensures Flatten(base, g)[KeyOf(base, a)] == ElementAt(base, g, a).value
  {
    LegalAddresses(base, g);
    AddressesExact(g, a);
  }

  lemma FlattenOnly(base: seq<string>, g: ConfigGroup, s: string) returns (a: Address)
    requires base != [] && LegalPath(base) && LegalKeys(g) && s in Flatten(base, g)
    ensures Has(g, a) && s == KeyOf(base, a) && LegalPath(base + a.keys)
  {
    LegalAddresses(base, g);
    a := AddressOf(base, g, s);
    AddressesExact(g, a);
  }

  /** A legal path is a key of the map exactly when the tree has the element. */
  lemma FlattenExact(base: seq<string>, g: ConfigGroup, a: Address)
    requires base != [] && LegalPath(base) && LegalKeys(g) && LegalPath(a.keys)
    ensures KeyOf(base, a) in Flatten(base, g) <==> Has(g, a)
  {
    hide LegalKeys, LegalID, FqPath, Flatten, Has;
    var s := KeyOf(base, a);
    if Has(g, a) {
      FlattenHas(base, g, a);
    }
    if s in Flatten(base, g) {
      var b := FlattenOnly(base, g, s);
      FqPathInjective(a.kind, base + a.keys, b.kind, base + b.keys);
      assert a.keys == (base + a.keys)[|base|..] == b.keys;
    }
  }

  /** mapConfig: an absent tree maps to nothing, an illegal key is an error. */
  ghost function MapConfig(root: Option<ConfigGroup>, rootKey: string): Result<map<string, Element>>
  {
    if root.None? then Ok(map[])
    else if LegalID(rootKey) && LegalKeys(root.value) then Ok(Flatten([rootKey], root.value))
    else Err
  }

  // ----- map to tree -----

  function FillName(fill: bool, modPolicy: string): string
  {
    if fill && modPolicy == "" then NEW_MOD_POLICY else modPolicy
  }

  function FillValue(fill: bool, v: ConfigValue): ConfigValue
  {
    v.(modPolicy := FillName(fill, v.modPolicy))
  }

  function FillPolicy(fill: bool, p: ConfigPolicy): ConfigPolicy
  {
    p.(modPolicy := FillName(fill, p.modPolicy))
  }

  function FillOwn(fill: bool, o: Own): Own
  {
    match o
    case OwnGroup(_, mp, _, _, _) => o.(modPolicy := FillName(fill, mp))
    case OwnValue(v) => OwnValue(FillValue(fill, v))
    case OwnPolicy(p) => OwnPolicy(FillPolicy(fill, p))
  }

  /** The tree with each empty mod_policy set to Admins. */
  function FillTree(fill: bool, g: ConfigGroup): ConfigGroup
  {
    ConfigGroup(g.version, FillName(fill, g.modPolicy),
                map k | k in g.groups :: FillTree(fill, g.groups[k]),
                map k | k in g.values :: FillValue(fill, g.values[k]),
                map k | k in g.policies :: FillPolicy(fill, g.policies[k]))
  }

  function LongKeys(m: map<string, Element>, n: int): set<string>
  {
    set s | s in m && |s| >= n
  }

  predicate ValuesPresent(full: seq<string>, g: ConfigGroup, m: map<string, Element>)
  {
    forall k :: k in g.values ==> FqPath(KValue, full + [k]) in m && m[FqPath(KValue, full + [k])].ValueElement?
  }

  predicate PoliciesPresent(full: seq<string>, g: ConfigGroup, m: map<string, Element>)
  {
    forall k :: k in g.policies ==> FqPath(KPolicy, full + [k]) in m && m[FqPath(KPolicy, full + [k])].PolicyElement?
  }

  lemma ChildIsLonger(full: seq<string>, k: string, m: map<string, Element>)
    requires FqPath(KGroup, full) in m
    ensures LongKeys(m, |FqPath(KGroup, full + [k])|) < LongKeys(m, |FqPath(KGroup, full)|)
  {
    assert (full + [k])[..|full|] == full;
    assert FqPath(KGroup, full) in LongKeys(m, |FqPath(KGroup, full)|);
    assert FqPath(KGroup, full) !in LongKeys(m, |FqPath(KGroup, full + [k])|);
  }

  /** The group at `full` put back together from the rebuilt subgroups and the leaves in m. */
  predicate AllBuilt(subs: map<string, Result<ConfigGroup>>)
  {
    forall k :: k in subs ==> subs[k].Ok?
  }

  function GroupsBuilt(subs: map<string, Result<ConfigGroup>>): map<string, ConfigGroup>
    requires AllBuilt(subs)
  {
    map k | k in subs :: subs[k].value
  }

  function ValuesFiled(full: seq<string>, m: map<string, Element>, fill: bool, g: ConfigGroup): map<string, ConfigValue>
    requires ValuesPresent(full, g, m)
  {
    map k | k in g.values :: FillValue(fill, m[FqPath(KValue, full + [k])].value)
  }

  function PoliciesFiled(full: seq<string>, m: map<string, Element>, fill: bool, g: ConfigGroup): map<string, ConfigPolicy>
    requires PoliciesPresent(full, g, m)
  {
    map k | k in g.policies :: FillPolicy(fill, m[FqPath(KPolicy, full + [k])].policy)
  }

  function Assemble(full: seq<string>, m: map<string, Element>, fill: bool, g: ConfigGroup,
                    subs: map<string, Result<ConfigGroup>>): Result<ConfigGroup>
  {
    if !AllBuilt(subs) || !ValuesPresent(full, g, m) || !PoliciesPresent(full, g, m) then Err
    else
      Ok(ConfigGroup(g.version, FillName(fill, g.modPolicy),
                     GroupsBuilt(subs), ValuesFiled(full, m, fill, g), PoliciesFiled(full, m, fill, g)))
  }

  /** recurseConfigMap at the path `full`; `fill` says that the orderer's capabilities are in m. */
  function Fold(full: seq<string>, m: map<string, Element>, fill: bool): Result<ConfigGroup>
    decreases LongKeys(m, |FqPath(KGroup, full)|)
  {
    var at := FqPath(KGroup, full);
    if at !in m || !m[at].GroupElement? then Err
    else
      var g := m[at].group;
      Assemble(full, m, fill, g, map k | k in g.groups :: (ChildIsLonger(full, k, m); Fold(full + [k], m, fill)))
  }

  /** configMapToConfig. */
  function ConfigMapToConfig(m: map<string, Element>, rootKey: string): Result<ConfigGroup>
  {
    Fold([rootKey], m, ORDERER_CAPABILITIES in m)
  }

  lemma AssembleTree(full: seq<string>, m: map<string, Element>, fill: bool, g: ConfigGroup,
                     subs: map<string, Result<ConfigGroup>>)
    requires subs.Keys == g.groups.Keys
    requires forall k :: k in g.groups ==> subs[k] == Ok(FillTree(fill, g.groups[k]))
    requires forall k :: k in g.values ==> FqPath(KValue, full + [k]) in m && m[FqPath(KValue, full + [k])] == ValueElement(g.values[k], k, full)
    requires forall k :: k in g.policies ==> FqPath(KPolicy, full + [k]) in m && m[FqPath(KPolicy, full + [k])] == PolicyElement(g.policies[k], k, full)
    ensures Assemble(full, m, fill, g, subs) == Ok(FillTree(fill, g))
  {
    hide FqPath, FillName, FillTree, ValuesFiled, PoliciesFiled, GroupsBuilt, AllBuilt, ValuesPresent, PoliciesPresent;
    FillTreeLevel(fill, g);
    GroupsRead(fill, g, subs);
    ValuesRead(full, m, fill, g);
    PoliciesRead(full, m, fill, g);
  }

  lemma GroupsRead(fill: bool, g: ConfigGroup, subs: map<string, Result<ConfigGroup>>)
    requires subs.Keys == g.groups.Keys
    requires forall k :: k in g.groups ==> subs[k] == Ok(FillTree(fill, g.groups[k]))
    ensures AllBuilt(subs) && GroupsBuilt(subs) == FillTree(fill, g).groups
  {
    FillTreeLevel(fill, g);
    hide FillTree;
    SameMap(GroupsBuilt(subs), FillTree(fill, g).groups);
  }

  lemma ValuesRead(full: seq<string>, m: map<string, Element>, fill: bool, g: ConfigGroup)
    requires forall k :: k in g.values ==> FqPath(KValue, full + [k]) in m && m[FqPath(KValue, full + [k])] == ValueElement(g.values[k], k, full)
    ensures ValuesPresent(full, g, m) && ValuesFiled(full, m, fill, g) == FillTree(fill, g).values
  {
    hide FqPath, FillTree, FillValue;
    FillTreeLevel(fill, g);
    SameMap(ValuesFiled(full, m, fill, g), FillTree(fill, g).values);
  }

  lemma PoliciesRead(full: seq<string>, m: map<string, Element>, fill: bool, g: ConfigGroup)
    requires forall k :: k in g.policies ==> FqPath(KPolicy, full + [k]) in m && m[FqPath(KPolicy, full + [k])] == PolicyElement(g.policies[k], k, full)
    ensures PoliciesPresent(full, g, m) && PoliciesFiled(full, m, fill, g) == FillTree(fill, g).policies
  {
    hide FqPath, FillTree, FillPolicy;
    FillTreeLevel(fill, g);
    SameMap(PoliciesFiled(full, m, fill, g), FillTree(fill, g).policies);
  }

  lemma SameMap<T>(a: map<string, T>, b: map<string, T>)
    requires a.Keys == b.Keys && forall k :: k in a ==> a[k] == b[k]
    ensures a == b
  {
  }

  /** The values and policies of a group are filed under the group's path. */
  lemma LeavesAt(base: seq<string>, root: ConfigGroup, keys: seq<string>, k: string)
    requires base != [] && LegalPath(base) && LegalKeys(root) && GroupAt(root, keys).Some?
    ensures var m := Flatten(base, root);
            var g := GroupAt(root, keys).value;
            var full := base + keys + [k];
            && (k in g.values ==>
                  FqPath(KValue, full) in m && m[FqPath(KValue, full)] == ValueElement(g.values[k], k, base + keys))
            && (k in g.policies ==>
                  FqPath(KPolicy, full) in m && m[FqPath(KPolicy, full)] == PolicyElement(g.policies[k], k, base + keys))
  {
    hide FqPath, LegalKeys, Flatten, GroupAt, LegalID;
    var g := GroupAt(root, keys).value;
    assert Parent(keys + [k]) == keys && Last(keys + [k]) == k;
    assert base + (keys + [k]) == base + keys + [k];
    assert Parent(base + keys + [k]) == base + keys;
    if k in g.values {
      FlattenHas(base, root, Address(KValue, keys + [k]));
    }
    if k in g.policies {
      FlattenHas(base, root, Address(KPolicy, keys + [k]));
    }
  }

  /** Each subtree of a legal tree comes back, at its own path, out of the map of the whole tree. */
  lemma {:induction false} RoundTripAt(base: seq<string>, root: ConfigGroup, fill: bool, keys: seq<string>, g: ConfigGroup)
    requires base != [] && LegalPath(base) && LegalKeys(root) && GroupAt(root, keys) == Some(g)
    ensures Fold(base + keys, Flatten(base, root), fill) == Ok(FillTree(fill, g))
    decreases g
  {
    hide FqPath, LegalKeys, Flatten, Assemble, FillTree;
    var m := Flatten(base, root);
    var full := base + keys;
    FlattenHas(base, root, Address(KGroup, keys));
    forall k | k in g.groups
      ensures Fold(full + [k], m, fill) == Ok(FillTree(fill, g.groups[k]))
    {
      GroupAtSnoc(root, keys, k);
      RoundTripAt(base, root, fill, keys + [k], g.groups[k]);
      assert base + (keys + [k]) == full + [k];
    }
    forall k
      ensures k in g.values ==> FqPath(KValue, full + [k]) in m && m[FqPath(KValue, full + [k])] == ValueElement(g.values[k], k, full)
      ensures k in g.policies ==> FqPath(KPolicy, full + [k]) in m && m[FqPath(KPolicy, full + [k])] == PolicyElement(g.policies[k], k, full)
    {
      LeavesAt(base, root, keys, k);
    }
    AssembleTree(full, m, fill, g, map k | k in g.groups :: Fold(full + [k], m, fill));
  }

  lemma FillTreeLevel(fill: bool, g: ConfigGroup)
    ensures var r := FillTree(fill, g);
            && r.groups.Keys == g.groups.Keys && r.values.Keys == g.values.Keys && r.policies.Keys == g.policies.Keys
            && r.version == g.version && r.modPolicy == FillName(fill, g.modPolicy)
            && (forall k :: k in g.groups ==> r.groups[k] == FillTree(fill, g.groups[k]))
            && (forall k :: k in g.values ==> r.values[k] == FillValue(fill, g.values[k]))
            && (forall k :: k in g.policies ==> r.policies[k] == FillPolicy(fill, g.policies[k]))
  {
    hide FillValue, FillPolicy, FillName;
  }

  lemma {:induction false} FillNothing(g: ConfigGroup)
    ensures FillTree(false, g) == g
  {
    forall k | k in g.groups
      ensures FillTree(false, g.groups[k]) == g.groups[k]
    {
      FillNothing(g.groups[k]);
    }
    var r := FillTree(false, g);
    assert r.groups == g.groups && r.values == g.values && r.policies == g.policies;
  }

  lemma {:induction false} FillTwice(fill: bool, g: ConfigGroup)
    ensures FillTree(fill, FillTree(fill, g)) == FillTree(fill, g)
  {
    var r := FillTree(fill, g);
    forall k | k in g.groups
      ensures FillTree(fill, r.groups[k]) == r.groups[k]
    {
      FillTwice(fill, g.groups[k]);
    }
    var rr := FillTree(fill, r);
    assert rr.groups == r.groups && rr.values == r.values && rr.policies == r.policies;
  }

  lemma {:induction false} FillGroupAt(fill: bool, g: ConfigGroup, keys: seq<string>)
    ensures GroupAt(FillTree(fill, g), keys) ==
            (match GroupAt(g, keys) case None => None case Some(s) => Some(FillTree(fill, s)))
    decreases |keys|
  {
    if keys != [] && keys[0] in g.groups {
      FillGroupAt(fill, g.groups[keys[0]], keys[1..]);
    }
  }

  lemma {:induction false} FillLegal(fill: bool, g: ConfigGroup)
    ensures LegalKeys(FillTree(fill, g)) <==> LegalKeys(g)
  {
    var r := FillTree(fill, g);
    FillTreeLevel(fill, g);
    hide FillTree, LegalSet;
    forall k | k in g.groups
      ensures LegalKeys(r.groups[k]) <==> LegalKeys(g.groups[k])
    {
      FillLegal(fill, g.groups[k]);
    }
  }

  /** Filling changes neither which elements the tree has nor, therefore, the keys of its map. */
  lemma FillKeepsKeys(fill: bool, rootKey: string, g: ConfigGroup)
    requires LegalID(rootKey) && LegalKeys(g)
    ensures LegalKeys(FillTree(fill, g))
    ensures Flatten([rootKey], FillTree(fill, g)).Keys == Flatten([rootKey], g).Keys
  {
    hide LegalKeys, Flatten, FqPath, FillTree;
    FillLegal(fill, g);
    forall s
      ensures s in Flatten([rootKey], FillTree(fill, g)) <==> s in Flatten([rootKey], g)
    {
      FillKeepsKey(fill, rootKey, g, s);
    }
  }

  lemma FillKeepsKey(fill: bool, rootKey: string, g: ConfigGroup, s: string)
    requires LegalID(rootKey) && LegalKeys(g) && LegalKeys(FillTree(fill, g))
    ensures s in Flatten([rootKey], FillTree(fill, g)) <==> s in Flatten([rootKey], g)
  {
    hide LegalKeys, Flatten, FqPath, FillTree, Has;
    var r := FillTree(fill, g);
    if s in Flatten([rootKey], r) {
      var a := FlattenOnly([rootKey], r, s);
      FillKeepsHas(fill, g, a);
      FlattenHas([rootKey], g, a);
    }
    if s in Flatten([rootKey], g) {
      var a := FlattenOnly([rootKey], g, s);
      FillKeepsHas(fill, g, a);
      FlattenHas([rootKey], r, a);
    }
  }

  lemma FillKeepsHas(fill: bool, g: ConfigGroup, a: Address)
    ensures Has(FillTree(fill, g), a) <==> Has(g, a)
  {
    hide GroupAt;
    FillGroupAt(fill, g, a.keys);
    if a.keys != [] {
      FillGroupAt(fill, g, Parent(a.keys));
    }
  }

  /** The orderer's capabilities element is in the tree. */
  predicate HasOrdererCapabilities(rootKey: string, g: ConfigGroup)
  {
    rootKey == "Channel" && Has(g, Address(KValue, ["Orderer", "Capabilities"]))
  }

  lemma RootedOfThree(a: string, b: string, c: string)
    ensures Rooted([a, b, c], SEPARATOR) == "/" + a + "/" + b + "/" + c
  {
    assert [a, b, c][..2] == [a, b] && [a, b][..1] == [a] && [a][..0] == [];
    assert Rooted([a], SEPARATOR) == "/" + a;
    assert Rooted([a, b], SEPARATOR) == "/" + a + "/" + b;
  }

  lemma FqPathOfThree(kind: Kind, a: string, b: string, c: string)
    ensures FqPath(kind, [a, b, c]) == Prefix(kind) + ("/" + a + "/" + b + "/" + c)
  {
    hide Prefix, Rooted;
    RootedOfThree(a, b, c);
  }

  lemma CapabilitiesText()
    ensures "[Value]  " + ("/" + "Channel" + "/" + "Orderer" + "/" + "Capabilities")
         == "[Value]  /Channel/Orderer/Capabilities"
  {
  }

  lemma CapabilitiesPath()
    ensures FqPath(KValue, ["Channel", "Orderer", "Capabilities"]) == ORDERER_CAPABILITIES
  {
    hide FqPath;
    FqPathOfThree(KValue, "Channel", "Orderer", "Capabilities");
    CapabilitiesText();
  }

  lemma CapabilitiesLegal()
    ensures LegalID("Channel") && LegalID("Orderer") && LegalID("Capabilities")
  {
  }

  lemma FlattenMember(rootKey: string, g: ConfigGroup, kind: Kind, full: seq<string>)
    requires LegalID(rootKey) && LegalKeys(g) && full != [] && LegalPath(full)
    ensures FqPath(kind, full) in Flatten([rootKey], g) <==> full[0] == rootKey && Has(g, Address(kind, full[1..]))
  {
    hide FqPath, LegalKeys, Flatten, LegalID;
    if full[0] == rootKey {
      assert full == [rootKey] + full[1..];
      FlattenExact([rootKey], g, Address(kind, full[1..]));
    } else if FqPath(kind, full) in Flatten([rootKey], g) {
      var b := FlattenOnly([rootKey], g, FqPath(kind, full));
      FqPathInjective(kind, full, b.kind, [rootKey] + b.keys);
    }
  }

  lemma CapabilitiesKey(rootKey: string, g: ConfigGroup)
    requires LegalID(rootKey) && LegalKeys(g)
    ensures ORDERER_CAPABILITIES in Flatten([rootKey], g) <==> HasOrdererCapabilities(rootKey, g)
  {
    var channel, orderer, capabilities := "Channel", "Orderer", "Capabilities";
    CapabilitiesPath();
    CapabilitiesLegal();
    hide FqPath, LegalKeys, Flatten, LegalID, Has;
    FlattenMember(rootKey, g, KValue, [channel, orderer, capabilities]);
    assert [channel, orderer, capabilities][1..] == [orderer, capabilities];
  }

  /** Mapping a legally keyed tree to paths and back gives the same tree or, with the orderer's
      capabilities in it, the same tree with each empty mod_policy set to Admins; and a second
      pass changes nothing. */
  lemma RoundTrip(rootKey: string, root: ConfigGroup)
    requires LegalID(rootKey) && LegalKeys(root)
    ensures var back := ConfigMapToConfig(MapConfig(Some(root), rootKey).value, rootKey);
            && back == Ok(if HasOrdererCapabilities(rootKey, root) then FillTree(true, root) else root)
            && MapConfig(Some(back.value), rootKey).Ok?
            && ConfigMapToConfig(MapConfig(Some(back.value), rootKey).value, rootKey) == back
  {
    hide LegalKeys, LegalID, FqPath, Flatten, HasOrdererCapabilities, FillTree;
    var m := Flatten([rootKey], root);
    var fill := ORDERER_CAPABILITIES in m;
    assert [rootKey] + [] == [rootKey];
    RoundTripAt([rootKey], root, fill, [], root);
    FillNothing(root);
    CapabilitiesKey(rootKey, root);
    FillKeepsKeys(fill, rootKey, root);
    RoundTripAt([rootKey], FillTree(fill, root), fill, [], FillTree(fill, root));
    FillTwice(fill, root);
  }
}
