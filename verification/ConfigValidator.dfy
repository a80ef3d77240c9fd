/** ProposeConfigUpdate and Validate of common/configtx/validator.go, run with the loops that walk
    Go's maps in an arbitrary order. */
module ConfigValidator {
  import opened Basics
  import opened ConfigTree
  import opened ConfigMap
  import opened ConfigMapLoops
  import opened ConfigUpdate

  method AuthorizeInOrder(vi: Validator, env: UpdateEnvelope) returns (r: Result<map<string, Element>>)
    ensures r == AuthorizeUpdate(vi, env)
  {
    hide MapConfig, VerifyReadSet, VerifyDeltaSet, DeltaSet, UpdateResult, VerifyFullProposedConfig;
    if env.update.None? || env.update.value.channelId != vi.channelId {
      return Err;
    }
    var readSet := MapConfigInOrder(env.update.value.readSet, vi.namespace);
    if readSet.Err? || !VerifyReadSet(vi, readSet.value) {
      return Err;
    }
    var writeSet := MapConfigInOrder(env.update.value.writeSet, vi.namespace);
    if writeSet.Err? || env.signedData.None? {
      return Err;
    }
    var delta := ComputeDeltaSet(readSet.value, writeSet.value);
    if !VerifyDeltaSet(vi, delta, env.signedData.value) {
      return Err;
    }
    var full := ComputeUpdateResult(vi, delta);
    if !VerifyFullProposedConfig(writeSet.value, full) {
      return Err;
    }
    return Ok(full);
  }

  method ToConfigInOrder(m: map<string, Element>, rootKey: string) returns (r: Result<ConfigGroup>)
    ensures r == ConfigMapToConfig(m, rootKey)
  {
    hide FqPath, Fold;
    assert [rootKey][..0] == [];
    r := RecurseConfigMap([SEPARATOR] + rootKey, [rootKey], m);
  }

  /** The proposed envelope does not depend on the order of any walk. */
  method ProposeInOrder(vi: Validator, configtx: Envelope) returns (r: Result<ConfigEnvelope>)
    ensures r == ProposeConfigUpdate(vi, configtx)
  {
    hide AuthorizeUpdate, ConfigMapToConfig;
    if configtx.update.None? {
      return Err;
    }
    var full := AuthorizeInOrder(vi, configtx.update.value);
    if full.Err? {
      return Err;
    }
    var group := ToConfigInOrder(full.value, vi.namespace);
    if group.Err? {
      return Err;
    }
    return Ok(ConfigEnvelope(Some(Config(vi.sequence + 1, Some(group.value))), configtx));
  }

  /** Whatever the order of its own walks, Validate accepts exactly what a proposal for the same
      update gives in the same state. */
  method ValidateInOrder(vi: Validator, env: ConfigEnvelope) returns (ok: bool)
    ensures ok <==> ProposeConfigUpdate(vi, env.lastUpdate) == Ok(env)
  {
    hide AuthorizeUpdate, ConfigMapToConfig;
    ValidateMatchesPropose(vi, env);
    if env.config.None? || env.config.value.sequence != vi.sequence + 1 || env.lastUpdate.update.None? {
      return false;
    }
    var full := AuthorizeInOrder(vi, env.lastUpdate.update.value);
    if full.Err? {
      return false;
    }
    var group := ToConfigInOrder(full.value, vi.namespace);
    if group.Err? {
      return false;
    }
    return env.config.value.channelGroup == Some(group.value);
  }
}
