/** What updates can do (common/configtx/update.go and validator.go): every permitted change of the
    configuration is accepted, and the proposal is the configuration aimed at. */
module ConfigReach {
  import opened Basics
  import opened ConfigTree
  import opened ConfigMap
  import opened ConfigMapLoops
  import opened ConfigUpdate

  /** The map says, under the paths of the tree's elements, what the elements say themselves. */
  ghost predicate Carries(m: map<string, Element>, base: seq<string>, t: ConfigGroup)
    requires base != []
  {
    forall a :: Has(t, a) ==> CarriesAt(m, base, t, a)
  }

  ghost predicate CarriesAt(m: map<string, Element>, base: seq<string>, t: ConfigGroup, a: Address)
    requires base != [] && Has(t, a)
  {
    ElementAt(base, t, a).Some? && KeyOf(base, a) in m && m[KeyOf(base, a)].Own() == ElementAt(base, t, a).value.Own()
  }

  predicate FiledValue(m: map<string, Element>, s: string, v: ConfigValue)
  {
    s in m && m[s].ValueElement? && m[s].value == v
  }

  predicate FiledPolicy(m: map<string, Element>, s: string, p: ConfigPolicy)
  {
    s in m && m[s].PolicyElement? && m[s].policy == p
  }

  /** Putting a group back together from one that says the same. */
  lemma AssembleLike(full: seq<string>, m: map<string, Element>, fill: bool, h: ConfigGroup, g: ConfigGroup,
                     subs: map<string, Result<ConfigGroup>>)
    requires h.version == g.version && h.modPolicy == g.modPolicy && subs.Keys == g.groups.Keys
    requires h.values.Keys == g.values.Keys && h.policies.Keys == g.policies.Keys
    requires forall k :: k in g.groups ==> subs[k] == Ok(FillTree(fill, g.groups[k]))
    requires forall k :: k in g.values ==> FiledValue(m, FqPath(KValue, full + [k]), g.values[k])
    requires forall k :: k in g.policies ==> FiledPolicy(m, FqPath(KPolicy, full + [k]), g.policies[k])
    ensures Assemble(full, m, fill, h, subs) == Ok(FillTree(fill, g))
  {
    hide FqPath, FillName, FillValue, FillPolicy, Assemble, FillTree;
    AssembleParts(full, m, fill, h, subs);
    FillTreeParts(fill, g);
    var r, t := Assemble(full, m, fill, h, subs).value, FillTree(fill, g);
    SameMaps(r.groups, t.groups);
    SameMaps(r.values, t.values);
    SameMaps(r.policies, t.policies);
  }

  lemma SameMaps<V>(a: map<string, V>, b: map<string, V>)
    requires a.Keys == b.Keys && forall k :: k in a ==> a[k] == b[k]
    ensures a == b
  {
  }

  lemma AssembleParts(full: seq<string>, m: map<string, Element>, fill: bool, h: ConfigGroup,
                      subs: map<string, Result<ConfigGroup>>)
    requires forall k :: k in subs ==> subs[k].Ok?
    requires ValuesPresent(full, h, m) && PoliciesPresent(full, h, m)
    ensures var r := Assemble(full, m, fill, h, subs);
            && r.Ok? && r.value.version == h.version && r.value.modPolicy == FillName(fill, h.modPolicy)
            && r.value.groups.Keys == subs.Keys && (forall k :: k in subs ==> r.value.groups[k] == subs[k].value)
            && r.value.values.Keys == h.values.Keys
            && (forall k :: k in h.values ==> r.value.values[k] == FillValue(fill, m[FqPath(KValue, full + [k])].value))
            && r.value.policies.Keys == h.policies.Keys
            && (forall k :: k in h.policies ==> r.value.policies[k] == FillPolicy(fill, m[FqPath(KPolicy, full + [k])].policy))
  {
    hide FqPath, FillName, FillValue, FillPolicy;
  }

  lemma FillTreeParts(fill: bool, g: ConfigGroup)
    ensures var t := FillTree(fill, g);
            && t.version == g.version && t.modPolicy == FillName(fill, g.modPolicy)
            && t.groups.Keys == g.groups.Keys && (forall k :: k in g.groups ==> t.groups[k] == FillTree(fill, g.groups[k]))
            && t.values.Keys == g.values.Keys && (forall k :: k in g.values ==> t.values[k] == FillValue(fill, g.values[k]))
            && t.policies.Keys == g.policies.Keys
            && (forall k :: k in g.policies ==> t.policies[k] == FillPolicy(fill, g.policies[k]))
  {
    hide FillName, FillValue, FillPolicy;
  }

  lemma CarriedGroup(m: map<string, Element>, base: seq<string>, t: ConfigGroup, keys: seq<string>, g: ConfigGroup)
    requires base != [] && Carries(m, base, t) && GroupAt(t, keys) == Some(g)
    ensures var at := FqPath(KGroup, base + keys);
            at in m && m[at].GroupElement? && OwnOfGroup(m[at].group) == OwnOfGroup(g)
  {
    hide FqPath, GroupAt;
    var a := Address(KGroup, keys);
    assert Has(t, a);
    assert CarriesAt(m, base, t, a);
  }

  lemma CarriedLeaves(m: map<string, Element>, base: seq<string>, t: ConfigGroup, keys: seq<string>, g: ConfigGroup, k: string)
    requires base != [] && Carries(m, base, t) && GroupAt(t, keys) == Some(g)
    ensures k in g.values ==> FiledValue(m, FqPath(KValue, base + keys + [k]), g.values[k])
    ensures k in g.policies ==> FiledPolicy(m, FqPath(KPolicy, base + keys + [k]), g.policies[k])
  {
    hide FqPath, GroupAt;
    assert Parent(keys + [k]) == keys && Last(keys + [k]) == k;
    assert base + (keys + [k]) == base + keys + [k];
    if k in g.values {
      var a := Address(KValue, keys + [k]);
      assert Has(t, a);
      assert CarriesAt(m, base, t, a);
    }
    if k in g.policies {
      var a := Address(KPolicy, keys + [k]);
      assert Has(t, a);
      assert CarriesAt(m, base, t, a);
    }
  }

  /** A map that carries a tree folds to it, whatever else it holds. */
  lemma {:induction false} CarriedFolds(m: map<string, Element>, base: seq<string>, t: ConfigGroup, fill: bool,
                                        keys: seq<string>, g: ConfigGroup)
    requires base != [] && Carries(m, base, t) && GroupAt(t, keys) == Some(g)
    ensures Fold(base + keys, m, fill) == Ok(FillTree(fill, g))
    decreases g
  {
    hide FqPath, Assemble, FillTree, Carries, GroupAt;
    var full := base + keys;
    CarriedGroup(m, base, t, keys, g);
    var h := m[FqPath(KGroup, full)].group;
    forall k | k in g.groups ensures Fold(full + [k], m, fill) == Ok(FillTree(fill, g.groups[k])) {
      GroupAtSnoc(t, keys, k);
      CarriedFolds(m, base, t, fill, keys + [k], g.groups[k]);
      assert base + (keys + [k]) == full + [k];
    }
    forall k
      ensures k in g.values ==> FiledValue(m, FqPath(KValue, full + [k]), g.values[k])
      ensures k in g.policies ==> FiledPolicy(m, FqPath(KPolicy, full + [k]), g.policies[k])
    {
      CarriedLeaves(m, base, t, keys, g, k);
    }
    AssembleLike(full, m, fill, h, g, map k | k in h.groups :: Fold(full + [k], m, fill));
  }

  // ---- permitted changes

  /** The element is as it was, or its version rises by one under a policy that accepts the
      signatures, or it is new at version zero. */
  ghost predicate Permitted(vi: Validator, t: ConfigGroup, signedData: seq<SignedData>, a: Address)
    requires Has(t, a)
  {
    var e' := At(vi.namespace, t, a);
    if Has(vi.root, a) then
      var e := At(vi.namespace, vi.root, a);
      || e'.Own() == e.Own()
      || (e'.Version() == e.Version() + 1 && LegalModPolicy(e'.ModPolicy()) && vi.pm(PolicyForItem(e), signedData))
    else e'.Version() == 0 && LegalModPolicy(e'.ModPolicy())
  }

  /** The element is new or its version has changed. */
  ghost predicate Touched(vi: Validator, t: ConfigGroup, a: Address)
  {
    && Has(t, a)
    && (Has(vi.root, a) ==> At(vi.namespace, t, a).Version() != At(vi.namespace, vi.root, a).Version())
  }

  /** The update that reads the current configuration and writes the one aimed at. */
  function Aim(vi: Validator, t: ConfigGroup, signedData: seq<SignedData>): Envelope
  {
    Envelope(Some(UpdateEnvelope(Some(Update(vi.channelId, Some(vi.root), Some(t))), Some(signedData))))
  }

  lemma SameOwnSameVersion(e: Element, e': Element)
    requires e.Own() == e'.Own()
    ensures e.Version() == e'.Version() && e.ModPolicy() == e'.ModPolicy()
  {
  }

  /** Where an entry of the write set comes from, and whether the current map has it too. */
  lemma WrittenFrom(vi: Validator, t: ConfigGroup, k: string) returns (a: Address)
    requires ValidValidator(vi) && LegalKeys(t) && k in Flatten([vi.namespace], t)
    ensures Has(t, a) && k == KeyOf([vi.namespace], a) && Flatten([vi.namespace], t)[k] == At(vi.namespace, t, a)
    ensures k in vi.configMap <==> Has(vi.root, a)
    ensures Has(vi.root, a) ==> vi.configMap[k] == At(vi.namespace, vi.root, a)
  {
    hide FqPath, LegalKeys, Flatten, LegalID, Has;
    a := FlattenOnly([vi.namespace], t, k);
    FlattenHas([vi.namespace], t, a);
    PathTail(vi.namespace, a.keys);
    FlattenExact([vi.namespace], vi.root, a);
    if Has(vi.root, a) {
      FlattenHas([vi.namespace], vi.root, a);
    }
  }

  lemma PathTail(namespace: string, keys: seq<string>)
    requires LegalPath([namespace] + keys)
    ensures LegalPath(keys)
  {
    hide LegalID;
    assert forall i :: 0 <= i < |keys| ==> keys[i] == ([namespace] + keys)[i + 1];
  }

  lemma EntryPermitted(vi: Validator, t: ConfigGroup, signedData: seq<SignedData>, k: string)
    requires ValidValidator(vi) && LegalKeys(t) && k in DeltaSet(vi.configMap, Flatten([vi.namespace], t))
    requires forall a :: Has(t, a) ==> Permitted(vi, t, signedData, a)
    ensures DeltaEntryOk(vi, k, Flatten([vi.namespace], t)[k], signedData)
  {
    hide FqPath, LegalKeys, Flatten, LegalID, Has, LegalModPolicy, ValidValidator;
    var a := WrittenFrom(vi, t, k);
    assert Permitted(vi, t, signedData, a);
    if Has(vi.root, a) && At(vi.namespace, t, a).Own() == At(vi.namespace, vi.root, a).Own() {
      SameOwnSameVersion(At(vi.namespace, t, a), At(vi.namespace, vi.root, a));
    }
  }

  lemma UpdateCarries(vi: Validator, t: ConfigGroup, signedData: seq<SignedData>, a: Address)
    requires ValidValidator(vi) && LegalKeys(t) && Has(t, a) && Permitted(vi, t, signedData, a)
    ensures CarriesAt(vi.configMap + DeltaSet(vi.configMap, Flatten([vi.namespace], t)), [vi.namespace], t, a)
  {
    hide FqPath, LegalKeys, Flatten, LegalID, LegalModPolicy, ValidValidator;
    var k := KeyOf([vi.namespace], a);
    LegalNamespace(vi);
    FlattenHas([vi.namespace], t, a);
    var b := WrittenFrom(vi, t, k);
    SameAddress(vi, t, a, b);
    if Has(vi.root, a) && At(vi.namespace, t, a).Own() == At(vi.namespace, vi.root, a).Own() {
      SameOwnSameVersion(At(vi.namespace, t, a), At(vi.namespace, vi.root, a));
    }
  }

  lemma LegalNamespace(vi: Validator)
    requires ValidValidator(vi)
    ensures LegalPath([vi.namespace])
  {
    hide LegalID;
  }

  lemma SameAddress(vi: Validator, t: ConfigGroup, a: Address, b: Address)
    requires ValidValidator(vi) && LegalKeys(t) && Has(t, a) && Has(t, b)
    requires KeyOf([vi.namespace], a) == KeyOf([vi.namespace], b)
    ensures a == b
  {
    hide FqPath, LegalKeys, LegalID, Has, Flatten;
    LegalNamespace(vi);
    LegalAddress(t, a);
    LegalAddress(t, b);
    FqPathInjective(a.kind, [vi.namespace] + a.keys, b.kind, [vi.namespace] + b.keys);
    assert a.keys == ([vi.namespace] + a.keys)[1..] == b.keys;
  }

  lemma UpdateAuthorised(vi: Validator, t: ConfigGroup, signedData: seq<SignedData>, touched: Address)
    requires ValidValidator(vi) && LegalKeys(t) && Touched(vi, t, touched)
    requires forall a :: Has(t, a) ==> Permitted(vi, t, signedData, a)
    ensures AuthorizeUpdate(vi, Aim(vi, t, signedData).update.value)
         == Ok(vi.configMap + DeltaSet(vi.configMap, Flatten([vi.namespace], t)))
  {
    hide FqPath, LegalKeys, Flatten, LegalID, Has, Permitted, Touched, DeltaEntryOk;
    LegalNamespace(vi);
    var delta := DeltaSet(vi.configMap, Flatten([vi.namespace], t));
    forall k | k in delta ensures DeltaEntryOk(vi, k, delta[k], signedData) {
      EntryPermitted(vi, t, signedData, k);
    }
    TouchedInDelta(vi, t, touched);
    assert delta.Keys != {};
  }

  lemma UpdateFolds(vi: Validator, t: ConfigGroup, signedData: seq<SignedData>)
    requires ValidValidator(vi) && LegalKeys(t)
    requires forall a :: Has(t, a) ==> Permitted(vi, t, signedData, a)
    ensures var full := vi.configMap + DeltaSet(vi.configMap, Flatten([vi.namespace], t));
            var fill := HasOrdererCapabilities(vi.namespace, vi.root) || HasOrdererCapabilities(vi.namespace, t);
            ConfigMapToConfig(full, vi.namespace) == Ok(FillTree(fill, t))
  {
    hide FqPath, LegalKeys, Flatten, LegalID, Has, Permitted, Fold, FillTree, HasOrdererCapabilities, CarriesAt;
    LegalNamespace(vi);
    var full := vi.configMap + DeltaSet(vi.configMap, Flatten([vi.namespace], t));
    forall a | Has(t, a) ensures CarriesAt(full, [vi.namespace], t, a) {
      UpdateCarries(vi, t, signedData, a);
    }
    RootGroup(t);
    CarriedFolds(full, [vi.namespace], t, ORDERER_CAPABILITIES in full, [], t);
    assert [vi.namespace] + [] == [vi.namespace];
    CapabilitiesKey(vi.namespace, vi.root);
    CapabilitiesKey(vi.namespace, t);
  }

  /** Any legally keyed configuration all of whose elements are permitted, with at least one new or
      raised, is accepted and is what is proposed, but for the empty mod_policy fill-in. */
  lemma UpdateReaches(vi: Validator, t: ConfigGroup, signedData: seq<SignedData>, touched: Address)
    requires ValidValidator(vi) && LegalKeys(t) && Touched(vi, t, touched)
    requires forall a :: Has(t, a) ==> Permitted(vi, t, signedData, a)
    ensures ProposeConfigUpdate(vi, Aim(vi, t, signedData)).Ok?
    ensures Proposed(vi, Aim(vi, t, signedData))
         == FillTree(HasOrdererCapabilities(vi.namespace, vi.root) || HasOrdererCapabilities(vi.namespace, t), t)
  {
    hide AuthorizeUpdate, ConfigMapToConfig, Has, Permitted, Touched, FillTree, HasOrdererCapabilities, ValidValidator, LegalKeys;
    UpdateAuthorised(vi, t, signedData, touched);
    UpdateFolds(vi, t, signedData);
  }

  lemma RootGroup(t: ConfigGroup)
    ensures GroupAt(t, []) == Some(t)
  {
  }

  lemma TouchedInDelta(vi: Validator, t: ConfigGroup, a: Address)
    requires ValidValidator(vi) && LegalKeys(t) && Touched(vi, t, a)
    ensures KeyOf([vi.namespace], a) in DeltaSet(vi.configMap, Flatten([vi.namespace], t))
  {
    hide FqPath, LegalKeys, Flatten, LegalID, ValidValidator;
    LegalNamespace(vi);
    FlattenHas([vi.namespace], t, a);
    var b := WrittenFrom(vi, t, KeyOf([vi.namespace], a));
    SameAddress(vi, t, a, b);
  }

  /** The group one version up, under a mod_policy of its own. */
  function Raised(g: ConfigGroup, modPolicy: string): ConfigGroup
  {
    g.(version := g.version + 1, modPolicy := modPolicy)
  }

  lemma RaisedOnly(base: seq<string>, g: ConfigGroup, modPolicy: string, a: Address)
    requires base != [] && a.keys != []
    ensures ElementAt(base, Raised(g, modPolicy), a) == ElementAt(base, g, a)
  {
    if a.kind.KGroup? || |a.keys| > 1 {
      ElementBelow(base, g, a);
      ElementBelow(base, Raised(g, modPolicy), a);
    }
  }

  lemma RaisedLegal(g: ConfigGroup, modPolicy: string)
    requires LegalKeys(g)
    ensures LegalKeys(Raised(g, modPolicy))
  {
    hide LegalID;
  }

  /** In every valid state there is such a change: whoever the root's policy accepts can raise the
      root's version and give it any legal mod_policy, its own if that is legal, and nothing else. */
  lemma RootCanBeRaised(vi: Validator, signedData: seq<SignedData>, modPolicy: string)
    requires ValidValidator(vi) && LegalModPolicy(modPolicy)
    requires vi.pm(PolicyForItem(GroupElement(vi.root, vi.namespace, [])), signedData)
    ensures var t := Raised(vi.root, modPolicy);
            && ProposeConfigUpdate(vi, Aim(vi, t, signedData)).Ok?
            && Proposed(vi, Aim(vi, t, signedData)) == FillTree(HasOrdererCapabilities(vi.namespace, vi.root), t)
  {
    hide LegalKeys, LegalModPolicy, ProposeConfigUpdate, FillTree, Flatten;
    var t := Raised(vi.root, modPolicy);
    RaisedLegal(vi.root, modPolicy);
    var top := Address(KGroup, []);
    assert Parent([vi.namespace] + []) == [] && Last([vi.namespace] + []) == vi.namespace;
    forall a | Has(t, a) ensures Permitted(vi, t, signedData, a) {
      RaisedPermitted(vi, signedData, modPolicy, a);
    }
    assert Touched(vi, t, top);
    UpdateReaches(vi, t, signedData, top);
    RaisedOnly([""], vi.root, modPolicy, Address(KValue, ["Orderer", "Capabilities"]));
  }

  lemma RaisedPermitted(vi: Validator, signedData: seq<SignedData>, modPolicy: string, a: Address)
    requires LegalModPolicy(modPolicy)
    requires vi.pm(PolicyForItem(GroupElement(vi.root, vi.namespace, [])), signedData)
    requires Has(Raised(vi.root, modPolicy), a)
    ensures Permitted(vi, Raised(vi.root, modPolicy), signedData, a)
  {
    hide LegalModPolicy;
    if a.keys == [] {
      RootOnly(Raised(vi.root, modPolicy), a);
      assert Parent([vi.namespace] + []) == [] && Last([vi.namespace] + []) == vi.namespace;
    } else {
      RaisedOnly([vi.namespace], vi.root, modPolicy, a);
      RaisedOnly([""], vi.root, modPolicy, a);
    }
  }
}
