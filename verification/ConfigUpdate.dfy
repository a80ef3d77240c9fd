/** Configuration updates (common/configtx/update.go and validator.go): an update names what it
    read and what it writes; the difference is checked against the versions and the current
    modification policies and laid over the old configuration. */
module ConfigUpdate {
  import opened Basics
  import opened Strings
  import opened ConfigTree
  import opened ConfigMap

  datatype SignedData = SignedData(data: Bytes, identity: Bytes, signature: Bytes)

  /** A policy name and the path of the policy manager it is looked up in, from the root manager. */
  datatype PolicyRef = PolicyRef(manager: seq<string>, name: string)

  /** Whether the manager and the policy exist and the policy accepts the signatures. */
  type Authority = (PolicyRef, seq<SignedData>) -> bool

  datatype Update = Update(channelId: string, readSet: Option<ConfigGroup>, writeSet: Option<ConfigGroup>)

  /** None stands for bytes that do not unmarshal. */
  datatype UpdateEnvelope = UpdateEnvelope(update: Option<Update>, signedData: Option<seq<SignedData>>)

  datatype Envelope = Envelope(update: Option<UpdateEnvelope>)

  datatype Config = Config(sequence: nat, channelGroup: Option<ConfigGroup>)

  datatype ConfigEnvelope = ConfigEnvelope(config: Option<Config>, lastUpdate: Envelope)

  /** ValidatorImpl; `root` is the channel group of its configProto. */
  datatype Validator = Validator(channelId: string, sequence: nat, configMap: map<string, Element>,
                                 root: ConfigGroup, namespace: string, pm: Authority)

  /** ValidateChannelID returns no error. */
  predicate LegalChannelID(id: string)
  {
    && 0 < |id| <= MAX_LENGTH
    && 'a' <= id[0] <= 'z'
    && forall i :: 0 < i < |id| ==> 'a' <= id[i] <= 'z' || '0' <= id[i] <= '9' || id[i] == '.' || id[i] == '-'
  }

  ghost function NewValidator(channelId: string, config: Option<Config>, namespace: string, pm: Authority): Result<Validator>
  {
    if config.None? || config.value.channelGroup.None? || !LegalChannelID(channelId) then Err
    else
      var m := MapConfig(config.value.channelGroup, namespace);
      if m.Err? then Err
      else Ok(Validator(channelId, config.value.sequence, m.value, config.value.channelGroup.value, namespace, pm))
  }

  predicate VerifyReadSet(vi: Validator, readSet: map<string, Element>)
  {
    forall k :: k in readSet ==> k in vi.configMap && vi.configMap[k].Version() == readSet[k].Version()
  }

  predicate InDelta(readSet: map<string, Element>, writeSet: map<string, Element>, k: string)
  {
    k in writeSet && !(k in readSet && readSet[k].Version() == writeSet[k].Version())
  }

  function DeltaSet(readSet: map<string, Element>, writeSet: map<string, Element>): map<string, Element>
  {
    map k | k in writeSet && InDelta(readSet, writeSet, k) :: writeSet[k]
  }

  /** validateModPolicy returns no error. */
  predicate LegalModPolicy(modPolicy: string)
  {
    && modPolicy != ""
    && LegalPath(Split(if modPolicy[0] == SEPARATOR then modPolicy[1..] else modPolicy, SEPARATOR))
  }

  /** policyForItem: a relative name is looked up in the manager of the item's group. */
  function PolicyForItem(item: Element): PolicyRef
  {
    var name := item.ModPolicy();
    if |name| > 0 && name[0] != SEPARATOR && |item.path| != 0 then
      PolicyRef(item.path[1..] + (if item.GroupElement? then [item.key] else []), name)
    else
      PolicyRef([], name)
  }

  predicate DeltaEntryOk(vi: Validator, k: string, value: Element, signedData: seq<SignedData>)
  {
    && LegalModPolicy(value.ModPolicy())
    && (if k in vi.configMap then
          && value.Version() == vi.configMap[k].Version() + 1
          && vi.pm(PolicyForItem(vi.configMap[k]), signedData)
        else value.Version() == 0)
  }

  predicate VerifyDeltaSet(vi: Validator, delta: map<string, Element>, signedData: seq<SignedData>)
  {
    |delta| != 0 && forall k :: k in delta ==> DeltaEntryOk(vi, k, delta[k], signedData)
  }

  function UpdateResult(vi: Validator, delta: map<string, Element>): map<string, Element>
  {
    vi.configMap + delta
  }

  predicate VerifyFullProposedConfig(writeSet: map<string, Element>, full: map<string, Element>)
  {
    forall k :: k in writeSet ==> k in full
  }

  /** authorizeUpdate. */
  ghost function AuthorizeUpdate(vi: Validator, env: UpdateEnvelope): Result<map<string, Element>>
  {
    if env.update.None? || env.update.value.channelId != vi.channelId then Err
    else
      var readSet := MapConfig(env.update.value.readSet, vi.namespace);
      if readSet.Err? || !VerifyReadSet(vi, readSet.value) then Err
      else
        var writeSet := MapConfig(env.update.value.writeSet, vi.namespace);
        if writeSet.Err? || env.signedData.None? then Err
        else
          var delta := DeltaSet(readSet.value, writeSet.value);
          if !VerifyDeltaSet(vi, delta, env.signedData.value) then Err
          else
            var full := UpdateResult(vi, delta);
            if VerifyFullProposedConfig(writeSet.value, full) then Ok(full) else Err
  }

  ghost function ProposeConfigUpdate(vi: Validator, configtx: Envelope): Result<ConfigEnvelope>
  {
    if configtx.update.None? then Err
    else
      var full := AuthorizeUpdate(vi, configtx.update.value);
      if full.Err? then Err
      else
        var group := ConfigMapToConfig(full.value, vi.namespace);
        if group.Err? then Err
        else Ok(ConfigEnvelope(Some(Config(vi.sequence + 1, Some(group.value))), configtx))
  }

  /** Validate returns no error. */
  ghost predicate Validate(vi: Validator, env: ConfigEnvelope)
  {
    && env.config.Some?
    && env.config.value.sequence == vi.sequence + 1
    && env.lastUpdate.update.Some?
    && var full := AuthorizeUpdate(vi, env.lastUpdate.update.value);
    && full.Ok?
    && var group := ConfigMapToConfig(full.value, vi.namespace);
    && group.Ok?
    && env.config.value.channelGroup == Some(group.value)
  }

  /** Validate accepts what ProposeConfigUpdate returned for an update and no other tree or
      sequence for it; and when nothing can be proposed, nothing validates. */
  lemma ValidateMatchesPropose(vi: Validator, env: ConfigEnvelope)
    ensures Validate(vi, env) <==> ProposeConfigUpdate(vi, env.lastUpdate) == Ok(env)
  {
  }

  // ----- what a step does to each element -----

  /** A validator made by NewValidator. */
  ghost predicate ValidValidator(vi: Validator)
  {
    LegalID(vi.namespace) && LegalKeys(vi.root) && vi.configMap == Flatten([vi.namespace], vi.root)
  }

  function At(namespace: string, root: ConfigGroup, a: Address): Element
    requires Has(root, a)
  {
    ElementAt([namespace], root, a).value
  }

  /** A rebuilt subtree is what the map folds to at the subtree's own path. */
  lemma {:induction false} FoldAt(base: seq<string>, m: map<string, Element>, fill: bool, root: ConfigGroup, keys: seq<string>)
    requires Fold(base, m, fill) == Ok(root) && GroupAt(root, keys).Some?
    ensures Fold(base + keys, m, fill) == Ok(GroupAt(root, keys).value)
    decreases |keys|
  {
    hide Fold, FqPath;
    if keys == [] {
      assert base + keys == base;
    } else {
      var p, k := Parent(keys), Last(keys);
      assert keys == p + [k];
      GroupAtSnoc(root, p, k);
      FoldAt(base, m, fill, root, p);
      assert base + keys == base + p + [k];
      FoldChild(base + p, m, fill, k);
    }
  }

  lemma FoldChild(full: seq<string>, m: map<string, Element>, fill: bool, k: string)
    requires Fold(full, m, fill).Ok? && k in Fold(full, m, fill).value.groups
    ensures Fold(full + [k], m, fill) == Ok(Fold(full, m, fill).value.groups[k])
  {
    hide FqPath, FillName, FillValue, FillPolicy;
  }

  lemma FoldOwn(full: seq<string>, m: map<string, Element>, fill: bool, k: string)
    requires Fold(full, m, fill).Ok?
    ensures var at := FqPath(KGroup, full);
            && at in m && m[at].GroupElement?
            && OwnOfGroup(Fold(full, m, fill).value) == FillOwn(fill, m[at].Own())
    ensures k in Fold(full, m, fill).value.values ==>
              var at := FqPath(KValue, full + [k]);
              at in m && m[at].ValueElement? && Fold(full, m, fill).value.values[k] == FillValue(fill, m[at].value)
    ensures k in Fold(full, m, fill).value.policies ==>
              var at := FqPath(KPolicy, full + [k]);
              at in m && m[at].PolicyElement? && Fold(full, m, fill).value.policies[k] == FillPolicy(fill, m[at].policy)
  {
    hide FqPath, FillName, FillValue, FillPolicy;
  }

  /** Every element of a rebuilt tree says what the map files under its path. */
  lemma FoldElement(namespace: string, m: map<string, Element>, fill: bool, root: ConfigGroup, a: Address)
    requires Fold([namespace], m, fill) == Ok(root) && Has(root, a)
    ensures var at := KeyOf([namespace], a);
            at in m && At(namespace, root, a).Own() == FillOwn(fill, m[at].Own())
  {
    hide FqPath, Fold, FillName, FillValue, FillPolicy;
    if a.kind.KGroup? {
      FoldAt([namespace], m, fill, root, a.keys);
      FoldOwn([namespace] + a.keys, m, fill, "");
    } else {
      var p, k := Parent(a.keys), Last(a.keys);
      FoldAt([namespace], m, fill, root, p);
      FoldOwn([namespace] + p, m, fill, k);
      assert [namespace] + a.keys == [namespace] + p + [k];
    }
  }

  /** Every group filed in the map has legal keys. */
  ghost predicate LegalGroups(m: map<string, Element>)
  {
    forall s :: s in m && m[s].GroupElement? ==> LegalLevel(m[s].group)
  }

  ghost predicate LegalLevel(g: ConfigGroup)
  {
    LegalSet(g.groups.Keys) && LegalSet(g.values.Keys) && LegalSet(g.policies.Keys)
  }

  lemma FlattenLegalGroups(base: seq<string>, g: ConfigGroup)
    requires base != [] && LegalPath(base) && LegalKeys(g)
    ensures LegalGroups(Flatten(base, g))
  {
    hide FqPath, LegalID, Flatten, LegalSet;
    forall s | s in Flatten(base, g) && Flatten(base, g)[s].GroupElement?
      ensures LegalLevel(Flatten(base, g)[s].group)
    {
      var a := FlattenOnly(base, g, s);
      FlattenHas(base, g, a);
      LegalGroupAt(g, a.keys);
    }
  }

  lemma {:induction false} FoldLegal(full: seq<string>, m: map<string, Element>, fill: bool, g: ConfigGroup)
    requires LegalGroups(m) && Fold(full, m, fill) == Ok(g)
    ensures LegalKeys(g)
    decreases g
  {
    hide FqPath, LegalID, Fold, LegalSet;
    FoldOwn(full, m, fill, "");
    forall k | k in g.groups
      ensures LegalKeys(g.groups[k])
    {
      FoldChild(full, m, fill, k);
      FoldLegal(full + [k], m, fill, g.groups[k]);
    }
  }

  /** The difference an accepted update makes. */
  ghost function Delta(vi: Validator, env: UpdateEnvelope): map<string, Element>
    requires AuthorizeUpdate(vi, env).Ok?
  {
    DeltaSet(MapConfig(env.update.value.readSet, vi.namespace).value, MapConfig(env.update.value.writeSet, vi.namespace).value)
  }

  lemma MappedLegalGroups(root: Option<ConfigGroup>, rootKey: string)
    requires MapConfig(root, rootKey).Ok?
    ensures LegalGroups(MapConfig(root, rootKey).value)
  {
    hide FqPath, LegalID, Flatten, LegalKeys, LegalLevel;
    if root.Some? {
      FlattenLegalGroups([rootKey], root.value);
    }
  }

  /** The tree an accepted update leads to. */
  ghost function Proposed(vi: Validator, configtx: Envelope): ConfigGroup
    requires ProposeConfigUpdate(vi, configtx).Ok?
  {
    ProposeConfigUpdate(vi, configtx).value.config.value.channelGroup.value
  }

  lemma AcceptedFacts(vi: Validator, configtx: Envelope, delta: map<string, Element>)
    requires ProposeConfigUpdate(vi, configtx).Ok? && delta == Delta(vi, configtx.update.value)
    ensures configtx.update.value.signedData.Some?
    ensures VerifyDeltaSet(vi, delta, configtx.update.value.signedData.value)
    ensures Fold([vi.namespace], vi.configMap + delta, ORDERER_CAPABILITIES in vi.configMap + delta) == Ok(Proposed(vi, configtx))
  {
    hide FqPath, LegalID, Flatten, LegalKeys, Fold, MapConfig, VerifyReadSet, VerifyDeltaSet, DeltaSet;
  }

  /** A proposed tree is legally keyed again, so the next validator can be built from it. */
  lemma ProposedLegal(vi: Validator, configtx: Envelope)
    requires ValidValidator(vi) && ProposeConfigUpdate(vi, configtx).Ok?
    ensures LegalKeys(Proposed(vi, configtx))
  {
    hide FqPath, LegalID, Flatten, LegalKeys, Fold, MapConfig, LegalLevel, VerifyReadSet, VerifyDeltaSet;
    var env := configtx.update.value;
    var delta := Delta(vi, env);
    var m := vi.configMap + delta;
    AcceptedFacts(vi, configtx, delta);
    FlattenLegalGroups([vi.namespace], vi.root);
    MappedLegalGroups(env.update.value.writeSet, vi.namespace);
    assert LegalGroups(m);
    FoldLegal([vi.namespace], m, ORDERER_CAPABILITIES in m, Proposed(vi, configtx));
  }

  /** Equal, or equal but for the empty mod_policy that was filled in. */
  ghost predicate SameUpToFill(o: Own, o': Own)
  {
    o' == o || o' == FillOwn(true, o)
  }

  /** The current policy of the element accepted the signatures and its version rose by one. */
  ghost predicate Authorised(vi: Validator, root': ConfigGroup, signedData: seq<SignedData>, a: Address)
  {
    && Has(vi.root, a) && Has(root', a)
    && At(vi.namespace, root', a).Version() == At(vi.namespace, vi.root, a).Version() + 1
    && vi.pm(PolicyForItem(At(vi.namespace, vi.root, a)), signedData)
  }

  /** One accepted update, one element of the proposed tree: it is authorised, or new at version
      zero, or as it was. */
  lemma StepElement(vi: Validator, configtx: Envelope, a: Address)
    requires ValidValidator(vi) && ProposeConfigUpdate(vi, configtx).Ok?
    requires Has(Proposed(vi, configtx), a)
    ensures configtx.update.value.signedData.Some?
    ensures var root' := Proposed(vi, configtx);
            if Has(vi.root, a) then
              || Authorised(vi, root', configtx.update.value.signedData.value, a)
              || SameUpToFill(At(vi.namespace, vi.root, a).Own(), At(vi.namespace, root', a).Own())
            else At(vi.namespace, root', a).Version() == 0
  {
    hide FqPath, LegalID, Flatten, LegalKeys, Fold, MapConfig, VerifyReadSet, FillOwn, Has, At;
    var root' := Proposed(vi, configtx);
    var delta := Delta(vi, configtx.update.value);
    var m := vi.configMap + delta;
    var fill := ORDERER_CAPABILITIES in m;
    AcceptedFacts(vi, configtx, delta);
    FoldElement(vi.namespace, m, fill, root', a);
    FillKeepsVersionAt(m[KeyOf([vi.namespace], a)], At(vi.namespace, root', a), fill);
    ProposedLegal(vi, configtx);
    KeyInMap(vi, root', a);
  }

  lemma FillKeepsVersionAt(e: Element, e': Element, fill: bool)
    requires e'.Own() == FillOwn(fill, e.Own())
    ensures e'.Version() == e.Version()
    ensures SameUpToFill(e.Own(), e'.Own())
  {
  }

  /** An element of another legal tree is in the current configuration under the same key. */
  lemma KeyInMap(vi: Validator, root': ConfigGroup, a: Address)
    requires ValidValidator(vi) && LegalKeys(root') && Has(root', a)
    ensures KeyOf([vi.namespace], a) in vi.configMap <==> Has(vi.root, a)
    ensures Has(vi.root, a) ==> vi.configMap[KeyOf([vi.namespace], a)] == At(vi.namespace, vi.root, a)
  {
    hide FqPath, LegalID, Flatten, LegalKeys;
    LegalAddress(root', a);
    FlattenExact([vi.namespace], vi.root, a);
    if Has(vi.root, a) {
      FlattenHas([vi.namespace], vi.root, a);
    }
  }

  // ----- every change is covered by an authorised element -----

  /** The group above the element, n keys down from the root. */
  function Ancestor(a: Address, n: nat): Address
    requires n <= |a.keys|
  {
    Address(KGroup, a.keys[..n])
  }

  ghost predicate InBoth(t: ConfigGroup, t': ConfigGroup, a: Address)
  {
    Has(t, a) && Has(t', a)
  }

  lemma {:induction false} HasAncestor(t: ConfigGroup, a: Address, n: nat)
    requires Has(t, a) && n <= |a.keys| && (a.kind.KGroup? || n < |a.keys|)
    ensures Has(t, Ancestor(a, n))
    decreases |a.keys| - n
  {
    var top := if a.kind.KGroup? then |a.keys| else |a.keys| - 1;
    assert a.keys[..|a.keys|] == a.keys;
    if n < top {
      HasAncestor(t, a, n + 1);
      assert a.keys[..n + 1] == a.keys[..n] + [a.keys[n]];
      GroupAtSnoc(t, a.keys[..n], a.keys[n]);
    }
  }

  /** A group in both trees whose child on the way to `a` is in one of them only has changed. */
  lemma ForkChangesOwn(ns: string, t: ConfigGroup, t': ConfigGroup, a: Address, n: nat)
    requires n < |a.keys| && InBoth(t, t', Ancestor(a, n))
    requires if n + 1 == |a.keys| then Has(t, a) != Has(t', a)
             else Has(t, Ancestor(a, n + 1)) != Has(t', Ancestor(a, n + 1))
    ensures !SameUpToFill(At(ns, t, Ancestor(a, n)).Own(), At(ns, t', Ancestor(a, n)).Own())
    ensures !SameUpToFill(At(ns, t', Ancestor(a, n)).Own(), At(ns, t, Ancestor(a, n)).Own())
  {
    hide GroupAt, SameUpToFill;
    var g, g' := GroupAt(t, a.keys[..n]).value, GroupAt(t', a.keys[..n]).value;
    ForkKeys(t, t', a, n);
    KeysTell(g, g');
    KeysTell(g', g);
  }

  lemma ForkKeys(t: ConfigGroup, t': ConfigGroup, a: Address, n: nat)
    requires n < |a.keys| && InBoth(t, t', Ancestor(a, n))
    requires if n + 1 == |a.keys| then Has(t, a) != Has(t', a)
             else Has(t, Ancestor(a, n + 1)) != Has(t', Ancestor(a, n + 1))
    ensures var g, g' := GroupAt(t, a.keys[..n]).value, GroupAt(t', a.keys[..n]).value;
            g.groups.Keys != g'.groups.Keys || g.values.Keys != g'.values.Keys || g.policies.Keys != g'.policies.Keys
  {
    hide GroupAt;
    assert a.keys[..n + 1] == a.keys[..n] + [a.keys[n]];
    GroupAtSnoc(t, a.keys[..n], a.keys[n]);
    GroupAtSnoc(t', a.keys[..n], a.keys[n]);
    if n + 1 == |a.keys| {
      assert a.keys[..n + 1] == a.keys && Parent(a.keys) == a.keys[..n];
    }
  }

  lemma KeysTell(g: ConfigGroup, g': ConfigGroup)
    requires g.groups.Keys != g'.groups.Keys || g.values.Keys != g'.values.Keys || g.policies.Keys != g'.policies.Keys
    ensures !SameUpToFill(OwnOfGroup(g), OwnOfGroup(g'))
  {
    hide FillName;
  }

  /** The depth of the nearest ancestor group that both trees have. */
  lemma {:induction false} NearestAncestor(t: ConfigGroup, t': ConfigGroup, a: Address, from: nat) returns (n: nat)
    requires from < |a.keys| && InBoth(t, t', Ancestor(a, from))
    ensures from <= n < |a.keys| && InBoth(t, t', Ancestor(a, n))
    ensures n + 1 < |a.keys| ==> !InBoth(t, t', Ancestor(a, n + 1))
    decreases |a.keys| - from
  {
    if from + 1 < |a.keys| && InBoth(t, t', Ancestor(a, from + 1)) {
      n := NearestAncestor(t, t', a, from + 1);
    } else {
      n := from;
    }
  }

  /** Every element that an accepted update changes, adds or removes is covered by an element of
      the current configuration whose current mod_policy accepted the signatures and whose version
      rose by exactly one: the element itself if it was changed, else the nearest group above it
      that both trees have. An added element starts at version zero. The empty mod_policy
      fill-in is the one exception. */
  lemma ChangesAreAuthorised(vi: Validator, configtx: Envelope, a: Address) returns (cover: Address)
    requires ValidValidator(vi) && ProposeConfigUpdate(vi, configtx).Ok?
    requires var root' := Proposed(vi, configtx);
             && (Has(vi.root, a) || Has(root', a))
             && !(InBoth(vi.root, root', a)
                  && SameUpToFill(At(vi.namespace, vi.root, a).Own(), At(vi.namespace, root', a).Own()))
    ensures configtx.update.value.signedData.Some?
    ensures var root' := Proposed(vi, configtx);
            && Authorised(vi, root', configtx.update.value.signedData.value, cover)
            && (if InBoth(vi.root, root', a) then cover == a
                else exists n :: 0 <= n < |a.keys| && cover == Ancestor(a, n)
                                 && (n + 1 < |a.keys| ==> !InBoth(vi.root, root', Ancestor(a, n + 1))))
            && (!Has(vi.root, a) ==> At(vi.namespace, root', a).Version() == 0)
  {
    hide FqPath, LegalKeys, LegalID, ProposeConfigUpdate, AuthorizeUpdate, SameUpToFill, Has, At, Authorised, Proposed;
    var root' := Proposed(vi, configtx);
    if Has(root', a) {
      StepElement(vi, configtx, a);
    }
    if InBoth(vi.root, root', a) {
      cover := a;
    } else {
      RootInBoth(vi.root, root', a);
      var n := NearestAncestor(vi.root, root', a, 0);
      cover := Ancestor(a, n);
      var t := if Has(root', a) then root' else vi.root;
      if n + 1 < |a.keys| {
        HasAncestor(t, a, n + 1);
      }
      ForkChangesOwn(vi.namespace, vi.root, root', a, n);
      StepElement(vi, configtx, cover);
    }
  }

  lemma RootInBoth(t: ConfigGroup, t': ConfigGroup, a: Address)
    ensures Has(t, Address(KGroup, [])) && Has(t', Address(KGroup, []))
    ensures InBoth(t, t', Ancestor(a, 0))
    ensures (Has(t, a) || Has(t', a)) && !InBoth(t, t', a) ==> a.keys != []
  {
  }

  // ----- runs -----

  /** The validators of a run: each made from the configuration the previous one accepted, with
      whatever policies the new configuration brings. */
  ghost predicate Run(vs: seq<Validator>, txs: seq<Envelope>)
  {
    && |vs| == |txs| + 1
    && ValidValidator(vs[0])
    && forall i :: 0 <= i < |txs| ==> Step(vs[i], txs[i], vs[i + 1])
  }

  ghost predicate Step(vi: Validator, configtx: Envelope, vi': Validator)
  {
    && ProposeConfigUpdate(vi, configtx).Ok?
    && NewValidator(vi.channelId, ProposeConfigUpdate(vi, configtx).value.config, vi.namespace, vi'.pm) == Ok(vi')
  }

  lemma StepFacts(vi: Validator, configtx: Envelope, vi': Validator)
    requires ValidValidator(vi) && Step(vi, configtx, vi')
    ensures ValidValidator(vi') && vi'.root == Proposed(vi, configtx) && vi'.namespace == vi.namespace
    ensures vi'.sequence == vi.sequence + 1 && vi'.channelId == vi.channelId
  {
    hide FqPath, LegalKeys, LegalID, AuthorizeUpdate, Flatten, Fold, LegalChannelID;
  }

  /** Only a channel ID that was never legal keeps a proposed configuration from being adopted. */
  lemma StepPossible(vi: Validator, configtx: Envelope, pm: Authority)
    requires ValidValidator(vi) && LegalChannelID(vi.channelId) && ProposeConfigUpdate(vi, configtx).Ok?
    ensures NewValidator(vi.channelId, ProposeConfigUpdate(vi, configtx).value.config, vi.namespace, pm).Ok?
  {
    hide FqPath, LegalKeys, LegalID, AuthorizeUpdate, Flatten, Fold, LegalChannelID;
    ProposedLegal(vi, configtx);
  }

  lemma {:induction false} RunValid(vs: seq<Validator>, txs: seq<Envelope>, i: nat)
    requires Run(vs, txs) && i < |vs|
    ensures ValidValidator(vs[i]) && vs[i].namespace == vs[0].namespace && vs[i].sequence == vs[0].sequence + i
  {
    hide ValidValidator, Step;
    if i > 0 {
      RunValid(vs, txs, i - 1);
      assert Step(vs[i - 1], txs[i - 1], vs[i - 1 + 1]);
      StepFacts(vs[i - 1], txs[i - 1], vs[i]);
    }
  }

  /** The element is in the configuration at every point from i to j. */
  ghost predicate Persists(vs: seq<Validator>, i: nat, j: nat, a: Address)
  {
    i <= j < |vs| && forall m :: i <= m <= j ==> Has(vs[m].root, a)
  }

  /** What the element says at point m. */
  ghost function OwnAt(vs: seq<Validator>, m: nat, a: Address): Own
    requires m < |vs| && Has(vs[m].root, a)
  {
    At(vs[m].namespace, vs[m].root, a).Own()
  }

  ghost function VersionAt(vs: seq<Validator>, m: nat, a: Address): nat
    requires m < |vs| && Has(vs[m].root, a)
  {
    At(vs[m].namespace, vs[m].root, a).Version()
  }

  lemma SameUpToFillTransitive(o: Own, o': Own, o'': Own)
    requires SameUpToFill(o, o') && SameUpToFill(o', o'')
    ensures SameUpToFill(o, o'')
  {
  }

  lemma SameVersion(e: Element, e': Element)
    requires SameUpToFill(e.Own(), e'.Own())
    ensures e.Version() == e'.Version()
  {
  }

  /** While an element stays, its version never falls, and while its version stays it says the same. */
  lemma {:induction false} VersionsTell(vs: seq<Validator>, txs: seq<Envelope>, i: nat, j: nat, a: Address)
    requires Run(vs, txs) && Persists(vs, i, j, a)
    ensures VersionAt(vs, i, a) <= VersionAt(vs, j, a)
    ensures VersionAt(vs, i, a) == VersionAt(vs, j, a) ==> SameUpToFill(OwnAt(vs, i, a), OwnAt(vs, j, a))
    decreases j - i
  {
    hide FqPath, LegalKeys, LegalID, ProposeConfigUpdate, ValidValidator, SameUpToFill, Has, At, Step, Proposed;
    if i < j {
      VersionsTell(vs, txs, i, j - 1, a);
      RunValid(vs, txs, j - 1);
      assert Step(vs[j - 1], txs[j - 1], vs[j - 1 + 1]);
      StepOne(vs[j - 1], txs[j - 1], vs[j], a);
      if VersionAt(vs, i, a) == VersionAt(vs, j, a) {
        SameUpToFillTransitive(OwnAt(vs, i, a), OwnAt(vs, j - 1, a), OwnAt(vs, j, a));
      }
    } else {
      SameRefl(OwnAt(vs, i, a));
    }
  }

  lemma SameRefl(o: Own)
    ensures SameUpToFill(o, o)
  {
  }

  lemma StepOne(vi: Validator, configtx: Envelope, vi': Validator, a: Address)
    requires ValidValidator(vi) && Step(vi, configtx, vi') && Has(vi.root, a) && Has(vi'.root, a)
    ensures var e, e' := At(vi.namespace, vi.root, a), At(vi'.namespace, vi'.root, a);
            || e'.Version() == e.Version() + 1
            || (e'.Version() == e.Version() && SameUpToFill(e.Own(), e'.Own()))
  {
    hide FqPath, LegalKeys, LegalID, ProposeConfigUpdate, ValidValidator, SameUpToFill, Has, At, Proposed, NewValidator;
    StepFacts(vi, configtx, vi');
    StepElement(vi, configtx, a);
    if SameUpToFill(At(vi.namespace, vi.root, a).Own(), At(vi.namespace, vi'.root, a).Own()) {
      SameVersion(At(vi.namespace, vi.root, a), At(vi.namespace, vi'.root, a));
    }
  }

  /** The read set names the element at address a with the version it has at point m. */
  ghost predicate ReadAt(vs: seq<Validator>, m: nat, readSet: ConfigGroup, a: Address)
    requires m < |vs| && Has(readSet, a)
  {
    Has(vs[m].root, a) && VersionAt(vs, m, a) == At(vs[m].namespace, readSet, a).Version()
  }

  lemma VerifiedReadSet(vs: seq<Validator>, txs: seq<Envelope>, m: nat, readSet: ConfigGroup, a: Address)
    requires Run(vs, txs) && m < |vs| && Has(readSet, a)
    requires MapConfig(Some(readSet), vs[m].namespace).Ok?
    requires VerifyReadSet(vs[m], MapConfig(Some(readSet), vs[m].namespace).value)
    ensures ReadAt(vs, m, readSet, a)
  {
    hide FqPath, LegalKeys, LegalID, Flatten, Has, At;
    RunValid(vs, txs, m);
    FlattenHas([vs[m].namespace], readSet, a);
    AtIsElement(vs[m].namespace, readSet, a);
    KeyInMap(vs[m], readSet, a);
  }

  lemma AtIsElement(ns: string, t: ConfigGroup, a: Address)
    requires Has(t, a)
    ensures ElementAt([ns], t, a).Some? && At(ns, t, a) == ElementAt([ns], t, a).value
  {
  }

  /** Between two points at the same version, an element that stayed says the same throughout. */
  lemma Constant(vs: seq<Validator>, txs: seq<Envelope>, i: nat, j: nat, a: Address)
    requires Run(vs, txs) && Persists(vs, i, j, a) && VersionAt(vs, i, a) == VersionAt(vs, j, a)
    ensures forall m :: i <= m <= j ==> SameUpToFill(OwnAt(vs, i, a), OwnAt(vs, m, a))
  {
    hide Run, SameUpToFill, Has, At;
    forall m | i <= m <= j
      ensures SameUpToFill(OwnAt(vs, i, a), OwnAt(vs, m, a))
    {
      VersionsTell(vs, txs, i, m, a);
      VersionsTell(vs, txs, m, j, a);
    }
  }

  /** The read set verifies at both points. */
  ghost predicate VerifiesAtBoth(vs: seq<Validator>, i: nat, j: nat, readSet: ConfigGroup)
    requires i < |vs| && j < |vs|
  {
    && MapConfig(Some(readSet), vs[i].namespace).Ok?
    && VerifyReadSet(vs[i], MapConfig(Some(readSet), vs[i].namespace).value)
    && MapConfig(Some(readSet), vs[j].namespace).Ok?
    && VerifyReadSet(vs[j], MapConfig(Some(readSet), vs[j].namespace).value)
  }

  lemma ReadAtBoth(vs: seq<Validator>, txs: seq<Envelope>, i: nat, j: nat, readSet: ConfigGroup, a: Address)
    requires Run(vs, txs) && i <= j < |vs| && VerifiesAtBoth(vs, i, j, readSet) && Has(readSet, a)
    ensures Has(vs[i].root, a) && Has(vs[j].root, a) && VersionAt(vs, i, a) == VersionAt(vs, j, a)
  {
    hide Has, At, MapConfig, VerifyReadSet;
    VerifiedReadSet(vs, txs, i, readSet, a);
    VerifiedReadSet(vs, txs, j, readSet, a);
    RunValid(vs, txs, i);
    RunValid(vs, txs, j);
  }

  /** The groups on the way to a named element persist, from the root down. */
  lemma {:induction false} AncestorPersists(vs: seq<Validator>, txs: seq<Envelope>, i: nat, j: nat,
                                            readSet: ConfigGroup, a: Address, n: nat)
    requires Run(vs, txs) && i <= j < |vs| && VerifiesAtBoth(vs, i, j, readSet) && Has(readSet, a)
    requires n < |a.keys|
    ensures Persists(vs, i, j, Ancestor(a, n))
    ensures forall m :: i <= m <= j ==> SameUpToFill(OwnAt(vs, i, Ancestor(a, n)), OwnAt(vs, m, Ancestor(a, n)))
    decreases n
  {
    hide Run, Has, At, SameUpToFill, VerifiesAtBoth;
    HasAncestor(readSet, a, n);
    ReadAtBoth(vs, txs, i, j, readSet, Ancestor(a, n));
    if n == 0 {
      forall m | i <= m <= j
        ensures Has(vs[m].root, Ancestor(a, 0))
      {
        RootInBoth(vs[m].root, vs[m].root, a);
      }
    } else {
      AncestorPersists(vs, txs, i, j, readSet, a, n - 1);
      forall m | i <= m <= j
        ensures Has(vs[m].root, Ancestor(a, n))
      {
        RunValid(vs, txs, i);
        RunValid(vs, txs, m);
        assert SameUpToFill(OwnAt(vs, i, Ancestor(a, n - 1)), OwnAt(vs, m, Ancestor(a, n - 1)));
        if !Has(vs[m].root, Ancestor(a, n)) {
          ForkChangesOwn(vs[i].namespace, vs[i].root, vs[m].root, a, n - 1);
        }
      }
    }
    Constant(vs, txs, i, j, Ancestor(a, n));
  }

  /** Optimistic concurrency over a whole run: if a read set verifies at two points of a run, every
      element it names is there and says the same at both points and at every point between them,
      but for the empty mod_policy fill-in. Deleting an element and creating it again at version
      zero does not pass unnoticed, because the read set also names the groups above it. */
  lemma ReadSetStable(vs: seq<Validator>, txs: seq<Envelope>, i: nat, j: nat, m: nat, readSet: ConfigGroup, a: Address)
    requires Run(vs, txs) && i <= m <= j < |vs| && VerifiesAtBoth(vs, i, j, readSet) && Has(readSet, a)
    ensures Has(vs[i].root, a) && Has(vs[m].root, a)
    ensures SameUpToFill(OwnAt(vs, i, a), OwnAt(vs, m, a))
  {
    hide Run, Has, At, SameUpToFill, VerifiesAtBoth;
    ReadAtBoth(vs, txs, i, j, readSet, a);
    if a.keys == [] {
      RootInBoth(readSet, readSet, a);
      RootOnly(readSet, a);
      forall l | i <= l <= j
        ensures Has(vs[l].root, a)
      {
        RootInBoth(vs[l].root, vs[l].root, a);
      }
    } else {
      var n := |a.keys| - 1;
      AncestorPersists(vs, txs, i, j, readSet, a, n);
      forall l | i <= l <= j
        ensures Has(vs[l].root, a)
      {
        RunValid(vs, txs, i);
        RunValid(vs, txs, l);
        assert SameUpToFill(OwnAt(vs, i, Ancestor(a, n)), OwnAt(vs, l, Ancestor(a, n)));
        if !Has(vs[l].root, a) {
          ForkChangesOwn(vs[i].namespace, vs[i].root, vs[l].root, a, n);
        }
      }
    }
    Constant(vs, txs, i, j, a);
  }

  lemma RootOnly(t: ConfigGroup, a: Address)
    requires Has(t, a) && a.keys == []
    ensures a == Address(KGroup, [])
  {
  }

  // ----- configurations whose elements all have a mod_policy -----

  ghost predicate AllPoliciesSet(vi: Validator)
  {
    forall a :: Has(vi.root, a) ==> At(vi.namespace, vi.root, a).ModPolicy() != ""
  }

  lemma FillSet(e: Element, o: Own)
    requires e.ModPolicy() != "" && SameUpToFill(e.Own(), o)
    ensures o == e.Own()
  {
  }

  lemma StepKeepsPoliciesSet(vi: Validator, configtx: Envelope, vi': Validator)
    requires ValidValidator(vi) && Step(vi, configtx, vi') && AllPoliciesSet(vi)
    ensures AllPoliciesSet(vi')
  {
    hide FqPath, LegalKeys, LegalID, Flatten, Fold, Has, At, ValidValidator, SameUpToFill, LegalModPolicy;
    StepFacts(vi, configtx, vi');
    forall a | Has(vi'.root, a)
      ensures At(vi'.namespace, vi'.root, a).ModPolicy() != ""
    {
      PolicySetAfter(vi, configtx, a);
    }
  }

  lemma PolicySetAfter(vi: Validator, configtx: Envelope, a: Address)
    requires ValidValidator(vi) && ProposeConfigUpdate(vi, configtx).Ok? && AllPoliciesSet(vi)
    requires Has(Proposed(vi, configtx), a)
    ensures At(vi.namespace, Proposed(vi, configtx), a).ModPolicy() != ""
  {
    hide FqPath, LegalID, Flatten, LegalKeys, Fold, MapConfig, VerifyReadSet, Has, At, FillOwn;
    var root' := Proposed(vi, configtx);
    var delta := Delta(vi, configtx.update.value);
    var m := vi.configMap + delta;
    var fill := ORDERER_CAPABILITIES in m;
    AcceptedFacts(vi, configtx, delta);
    FoldElement(vi.namespace, m, fill, root', a);
    FillNonempty(m[KeyOf([vi.namespace], a)], At(vi.namespace, root', a), fill);
    ProposedLegal(vi, configtx);
    KeyInMap(vi, root', a);
  }

  lemma FillNonempty(e: Element, e': Element, fill: bool)
    requires e'.Own() == FillOwn(fill, e.Own())
    ensures e.ModPolicy() != "" ==> e'.ModPolicy() != ""
  {
  }

  lemma {:induction false} RunKeepsPoliciesSet(vs: seq<Validator>, txs: seq<Envelope>, i: nat)
    requires Run(vs, txs) && AllPoliciesSet(vs[0]) && i < |vs|
    ensures AllPoliciesSet(vs[i])
  {
    hide ValidValidator, Step, AllPoliciesSet;
    if i > 0 {
      RunKeepsPoliciesSet(vs, txs, i - 1);
      RunValid(vs, txs, i - 1);
      assert Step(vs[i - 1], txs[i - 1], vs[i - 1 + 1]);
      StepKeepsPoliciesSet(vs[i - 1], txs[i - 1], vs[i]);
    }
  }

  /** From a configuration whose elements all have a mod_policy, the elements a twice verified read
      set names are identical, by the source's own comparison, from the first point to the last. */
  lemma ReadSetUnchanged(vs: seq<Validator>, txs: seq<Envelope>, i: nat, j: nat, m: nat, readSet: ConfigGroup, a: Address)
    requires Run(vs, txs) && AllPoliciesSet(vs[0])
    requires i <= m <= j < |vs| && VerifiesAtBoth(vs, i, j, readSet) && Has(readSet, a)
    ensures Has(vs[i].root, a) && Has(vs[m].root, a)
    ensures Equals(At(vs[i].namespace, vs[i].root, a), At(vs[m].namespace, vs[m].root, a))
  {
    hide Run, Has, At, SameUpToFill, VerifiesAtBoth, Equals;
    ReadSetStable(vs, txs, i, j, m, readSet, a);
    RunKeepsPoliciesSet(vs, txs, i);
    FillSet(At(vs[i].namespace, vs[i].root, a), OwnAt(vs, m, a));
    EqualsIsOwn(At(vs[i].namespace, vs[i].root, a), At(vs[m].namespace, vs[m].root, a));
  }

  // ----- the loops of update.go -----

  /** computeDeltaSet, walking the write set in any order. */
  method ComputeDeltaSet(readSet: map<string, Element>, writeSet: map<string, Element>) returns (result: map<string, Element>)
    ensures result == DeltaSet(readSet, writeSet)
  {
    result := map[];
    var todo := writeSet.Keys;
    while todo != {}
      invariant todo <= writeSet.Keys
      invariant forall k :: k in result <==> k !in todo && InDelta(readSet, writeSet, k)
      invariant forall k :: k in result ==> result[k] == writeSet[k]
      decreases todo
    {
      var key :| key in todo;
      todo := todo - {key};
      if key in readSet && readSet[key].Version() == writeSet[key].Version() {
        continue;
      }
      result := result[key := writeSet[key]];
    }
  }

  /** computeUpdateResult: the update laid over the old configuration, in any order. */
  method ComputeUpdateResult(vi: Validator, updated: map<string, Element>) returns (result: map<string, Element>)
    ensures result == UpdateResult(vi, updated)
  {
    result := map[];
    var todo := vi.configMap.Keys;
    while todo != {}
      invariant todo <= vi.configMap.Keys
      invariant result == vi.configMap - todo
      decreases todo
    {
      var key :| key in todo;
      result := result[key := vi.configMap[key]];
      todo := todo - {key};
    }
    todo := updated.Keys;
    while todo != {}
      invariant todo <= updated.Keys
      invariant result == vi.configMap + (updated - todo)
      decreases todo
    {
      var key :| key in todo;
      result := result[key := updated[key]];
      todo := todo - {key};
    }
    assert updated - {} == updated;
  }
}
