/** Implicit meta policies: their thresholds and evaluation (common/policies/implicitmeta.go) and
    their conversion to signature policies (common/policies/convert.go). */
module ImplicitMeta {
  import opened SignaturePolicy
  import opened SignatureSet
  import opened PolicyConvert

  /** Reject stands for the dummy policy of a missing name. */
  datatype Policy = Signature(env: Envelope) | Meta(threshold: int, subs: seq<Policy>) | Reject

  datatype MetaRule = Any | All | Majority | Undeclared

  function Threshold(rule: MetaRule, subs: nat): int
  {
    if subs == 0 then 0
    else match rule
      case Any => 1
      case All => subs
      case Majority => subs / 2 + 1
      case Undeclared => 0
  }

  /** Every signature policy in it was accepted by its provider. */
  predicate Built(policy: Policy)
  {
    match policy
    case Signature(env) => Compiles(env.rule, |env.principals|)
    case Meta(_, subs) => forall p :: p in subs ==> Built(p)
    case Reject => true
  }

  /** EvaluateIdentities answers nil. */
  predicate Satisfied(policy: Policy, ids: seq<Identity>, sat: (Identity, Principal) -> bool)
    requires Built(policy)
    decreases policy
  {
    match policy
    case Signature(env) => Accepts(env, ids, sat)
    case Meta(threshold, subs) =>
      var n := CountSatisfied(subs, ids, sat);
      if threshold > 0 then n >= threshold else n == threshold
    case Reject => false
  }

  function CountSatisfied(subs: seq<Policy>, ids: seq<Identity>, sat: (Identity, Principal) -> bool): (n: nat)
    requires forall p :: p in subs ==> Built(p)
    ensures n <= |subs|
    decreases subs
  {
    if subs == [] then 0
    else
      var last := |subs| - 1;
      CountSatisfied(subs[..last], ids, sat) + if Satisfied(subs[last], ids, sat) then 1 else 0
  }

  lemma {:induction false} CountGrows(subs: seq<Policy>, ids: seq<Identity>, sat: (Identity, Principal) -> bool,
                                      i: nat)
    requires (forall p :: p in subs ==> Built(p)) && i <= |subs|
    ensures CountSatisfied(subs[..i], ids, sat) <= CountSatisfied(subs, ids, sat)
    decreases |subs|
  {
    if i < |subs| {
      var last := |subs| - 1;
      CountGrows(subs[..last], ids, sat, i);
      assert subs[..last][..i] == subs[..i];
    } else {
      assert subs[..i] == subs;
    }
  }

  /** The evaluation loop: it counts down from the threshold and stops when it reaches zero. */
  method EvaluateIdentities(policy: Policy, ids: seq<Identity>, sat: (Identity, Principal) -> bool)
    returns (ok: bool)
    requires Built(policy)
    ensures ok == Satisfied(policy, ids, sat)
    decreases policy
  {
    match policy {
      case Reject => return false;
      case Signature(env) =>
        var used := new bool[|ids|](_ => false);
        assert used[..] == Unused(|ids|);
        ok := Evaluate(Setting(env.principals, ids, sat), env.rule, used);
      case Meta(threshold, subs) =>
        var remaining := threshold;
        var i := 0;
        while i < |subs|
          invariant 0 <= i <= |subs|
          invariant remaining == threshold - CountSatisfied(subs[..i], ids, sat)
          invariant threshold > 0 ==> remaining > 0
        {
          var sub := EvaluateIdentities(subs[i], ids, sat);
          assert subs[..i + 1][..i] == subs[..i];
          if sub {
            remaining := remaining - 1;
            if remaining == 0 {
              CountGrows(subs, ids, sat, i + 1);
              return true;
            }
          }
          i := i + 1;
        }
        assert subs[..i] == subs;
        return remaining == 0;
    }
  }

  // ---- Convert

  function Convert(policy: Policy): Conversion
    decreases policy
  {
    match policy
    case Signature(env) => Converted(env)
    case Meta(threshold, subs) => ConvertAll(threshold, subs)
    case Reject => NotConvertible
  }

  function ConvertAll(threshold: int, subs: seq<Policy>): (c: Conversion)
    ensures c.Converted? ==> c.env.rule.NOutOf? && c.env.rule.n == threshold && |c.env.rule.rules| == |subs|
    decreases subs
  {
    if subs == [] then Converted(Envelope([], NOutOf(threshold, [])))
    else
      var last := |subs| - 1;
      var before := ConvertAll(threshold, subs[..last]);
      var sub := Convert(subs[last]);
      if !before.Converted? then before
      else if !sub.Converted? then sub
      else Merged(before.env, sub.env)
  }

  method IndexOf(ids: seq<Principal>) returns (idMap: map<string, int>)
    ensures idMap == IdMap(ids)
  {
    hide IdKey;
    idMap := map[];
    var i := 0;
    while i < |ids|
      invariant 0 <= i <= |ids| && idMap == IdMap(ids[..i])
    {
      idMap := idMap[IdKey(ids[i]) := i];
      assert ids[..i + 1][..i] == ids[..i];
      i := i + 1;
    }
    assert ids[..i] == ids;
  }

  method MergePrincipals(these: seq<Principal>, index: map<string, int>, those: seq<Principal>)
    returns (ids: seq<Principal>, idRemap: map<int, int>)
    requires index == IdMap(these)
    ensures ids == MergeIds(these, those).ids && idRemap == MergeIds(these, those).idRemap
  {
    hide IdKey, IdMap;
    var idMap := index;
    ids, idRemap := these, map[];
    var i := 0;
    while i < |those|
      invariant 0 <= i <= |those|
      invariant Merging(ids, idMap, idRemap) == MergeIds(these, those[..i])
    {
      var p := those[i];
      assert those[..i + 1][..i] == those[..i];
      if IdKey(p) in idMap {
        idRemap := idRemap[i := idMap[IdKey(p)]];
      } else {
        idRemap := idRemap[i := |ids|];
        idMap := idMap[IdKey(p) := |ids|];
        ids := ids + [p];
      }
      i := i + 1;
    }
    assert those[..i] == those;
  }

  /** The envelope under construction. */
  class Draft {
    var identities: seq<Principal>
    const n: int
    var rules: seq<Rule>

    constructor (threshold: int)
      ensures n == threshold && identities == [] && rules == []
    {
      identities, n, rules := [], threshold, [];
    }

    function Value(): Envelope
      reads this
    {
      Envelope(identities, NOutOf(n, rules))
    }

    /** merge: false stands for the panic of remap, which leaves the principals already appended. */
    method Merge(that: Envelope) returns (ok: bool)
      modifies this
      ensures identities == MergeIds(old(identities), that.principals).ids
      ensures if ok then Merged(old(Value()), that) == Converted(Value())
              else Merged(old(Value()), that) == Panics && rules == old(rules)
    {
      hide IdKey, MergeIds, Remap;
      var idMap := IndexOf(identities);
      var ids, idRemap := MergePrincipals(identities, idMap, that.principals);
      identities := ids;
      var entry := Remap(that.rule, idRemap);
      if entry.None? {
        return false;
      }
      rules := rules + [entry.value];
      return true;
    }
  }

  method ConvertPolicy(policy: Policy) returns (c: Conversion)
    ensures c == Convert(policy)
    decreases policy
  {
    hide Merged, MergeIds;
    match policy {
      case Signature(env) => return Converted(env);
      case Reject => return NotConvertible;
      case Meta(threshold, subs) =>
        var draft := new Draft(threshold);
        var i := 0;
        while i < |subs|
          invariant 0 <= i <= |subs| && fresh(draft)
          invariant ConvertAll(threshold, subs[..i]) == Converted(draft.Value())
        {
          var sub := ConvertPolicy(subs[i]);
          assert subs[..i + 1][..i] == subs[..i];
          if !sub.Converted? {
            StopsAt(threshold, subs, i + 1);
            return sub;
          }
          var ok := draft.Merge(sub.env);
          if !ok {
            StopsAt(threshold, subs, i + 1);
            return Panics;
          }
          i := i + 1;
        }
        assert subs[..i] == subs;
        return Converted(draft.Value());
    }
  }

  lemma {:induction false} StopsAt(threshold: int, subs: seq<Policy>, i: nat)
    requires i <= |subs| && !ConvertAll(threshold, subs[..i]).Converted?
    ensures ConvertAll(threshold, subs) == ConvertAll(threshold, subs[..i])
    decreases |subs|
  {
    hide Convert;
    if i < |subs| {
      var last := |subs| - 1;
      assert subs[..last][..i] == subs[..i];
      StopsAt(threshold, subs[..last], i);
    } else {
      assert subs[..i] == subs;
    }
  }

  // ---- what the conversion keeps

  /** Identity k satisfies a principal some rule of the policy refers to. */
  predicate Reaches(policy: Policy, ids: seq<Identity>, sat: (Identity, Principal) -> bool, k: nat)
    requires Built(policy) && k < |ids|
    decreases policy
  {
    match policy
    case Signature(env) => Touches(Setting(env.principals, ids, sat), env.rule, k)
    case Meta(_, subs) => ReachesAny(subs, ids, sat, k)
    case Reject => false
  }

  predicate ReachesAny(subs: seq<Policy>, ids: seq<Identity>, sat: (Identity, Principal) -> bool, k: nat)
    requires (forall p :: p in subs ==> Built(p)) && k < |ids|
    decreases subs
  {
    var last := |subs| - 1;
    subs != [] && (ReachesAny(subs[..last], ids, sat, k) || Reaches(subs[last], ids, sat, k))
  }

  /** At every level whose threshold is two or more, no identity satisfies principals of two
      different sub-policies. */
  ghost predicate Separate(policy: Policy, ids: seq<Identity>, sat: (Identity, Principal) -> bool)
    requires Built(policy)
    decreases policy
  {
    policy.Meta? ==>
      && (policy.threshold >= 2 ==> Apart(policy.subs, ids, sat))
      && forall p :: p in policy.subs ==> Separate(p, ids, sat)
  }

  ghost predicate Apart(subs: seq<Policy>, ids: seq<Identity>, sat: (Identity, Principal) -> bool)
    requires forall p :: p in subs ==> Built(p)
  {
    forall i, j, k: nat :: 0 <= i < j < |subs| && k < |ids| ==>
      !(Reaches(subs[i], ids, sat, k) && Reaches(subs[j], ids, sat, k))
  }

  lemma {:induction false} ReachesAnyOne(subs: seq<Policy>, ids: seq<Identity>,
                                         sat: (Identity, Principal) -> bool, k: nat) returns (i: nat)
    requires (forall p :: p in subs ==> Built(p)) && k < |ids| && ReachesAny(subs, ids, sat, k)
    ensures i < |subs| && Reaches(subs[i], ids, sat, k)
    decreases subs
  {
    i := |subs| - 1;
    if !Reaches(subs[i], ids, sat, k) {
      i := ReachesAnyOne(subs[..i], ids, sat, k);
    }
  }

  /** Every threshold is at least one, or zero over no sub-policies: what ANY, ALL and MAJORITY give. */
  predicate Counting(policy: Policy)
  {
    policy.Meta? ==>
      && (if policy.subs == [] then policy.threshold == 0 else policy.threshold >= 1)
      && forall p :: p in policy.subs ==> Counting(p)
  }

  lemma ThresholdCounts(rule: MetaRule, subs: seq<Policy>)
    requires forall p :: p in subs ==> Counting(p)
    ensures rule != Undeclared ==> Counting(Meta(Threshold(rule, |subs|), subs))
    ensures rule == Undeclared ==> (Counting(Meta(Threshold(rule, |subs|), subs)) <==> subs == [])
  {
  }

  // ---- what a converted envelope means

  /** The policy run on shared marks: signature policies one after the other, each on what the
      accepted ones before it left unused. */
  function Threaded(policy: Policy, ids: seq<Identity>, sat: (Identity, Principal) -> bool, used: seq<bool>): (r: Outcome)
    requires Built(policy) && |used| == |ids|
    ensures |r.used| == |ids|
    decreases policy
  {
    match policy
    case Signature(env) => Eval(Setting(env.principals, ids, sat), env.rule, used)
    case Meta(threshold, subs) =>
      var t := ThreadedAll(subs, ids, sat, used);
      Outcome(t.count >= threshold, t.used)
    case Reject => Outcome(false, used)
  }

  function ThreadedAll(subs: seq<Policy>, ids: seq<Identity>, sat: (Identity, Principal) -> bool, used: seq<bool>): (r: Tally)
    requires (forall p :: p in subs ==> Built(p)) && |used| == |ids|
    ensures |r.used| == |ids|
    decreases subs
  {
    if subs == [] then Tally(0, used)
    else
      var last := |subs| - 1;
      var t := ThreadedAll(subs[..last], ids, sat, used);
      var o := Threaded(subs[last], ids, sat, t.used);
      if o.ok then Tally(t.count + 1, o.used) else t
  }

  lemma GrowAllMeaning(s: Setting, rules: seq<Rule>, principals: seq<Principal>, used: seq<bool>)
    requires (forall r :: r in rules ==> Compiles(r, |s.principals|)) && |used| == |s.ids|
    requires s.principals <= principals
    ensures forall r :: r in rules ==> Compiles(r, |principals|)
    ensures EvalAll(s.(principals := principals), rules, used) == EvalAll(s, rules, used)
    ensures forall k: nat :: k < |s.ids| ==> TouchesAny(s.(principals := principals), rules, k) == TouchesAny(s, rules, k)
  {
    hide EvalAll, TouchesAny;
    var idRemap := SameIndexes(|s.principals|);
    RemapAllSame(rules, idRemap, |s.principals|);
    RemapAllMeaning(s, rules, idRemap, principals, used);
  }

  lemma CountStep(subs: seq<Policy>, policy: Policy, ids: seq<Identity>, sat: (Identity, Principal) -> bool)
    requires (forall p :: p in subs ==> Built(p)) && Built(policy)
    ensures CountSatisfied(subs + [policy], ids, sat)
         == CountSatisfied(subs, ids, sat) + if Satisfied(policy, ids, sat) then 1 else 0
    ensures forall k: nat :: k < |ids| ==>
              ReachesAny(subs + [policy], ids, sat, k) == (ReachesAny(subs, ids, sat, k) || Reaches(policy, ids, sat, k))
  {
    hide Satisfied, Reaches, Built;
    assert (subs + [policy])[..|subs|] == subs;
  }

  /** One more sub-policy merged in. */
  lemma MergeThreads(principals: seq<Principal>, n: int, rules: seq<Rule>, env: Envelope, ids: seq<Identity>,
                     sat: (Identity, Principal) -> bool, used: seq<bool>)
    requires (forall r :: r in rules ==> Compiles(r, |principals|)) && Compiles(env.rule, |env.principals|)
    requires RejectsUnknown(sat) && |used| == |ids|
    ensures var c := Merged(Envelope(principals, NOutOf(n, rules)), env);
            && c.Converted? && c.env.rule.NOutOf?
            && (forall r :: r in c.env.rule.rules ==> Compiles(r, |c.env.principals|))
            && var s, q := Setting(principals, ids, sat), Setting(env.principals, ids, sat);
            var s' := Setting(c.env.principals, ids, sat);
            var t := EvalAll(s, rules, used);
            var o := Eval(q, env.rule, t.used);
            && EvalAll(s', c.env.rule.rules, used) == (if o.ok then Tally(t.count + 1, o.used) else t)
            && forall k: nat :: k < |ids| ==>
                 TouchesAny(s', c.env.rule.rules, k) == (TouchesAny(s, rules, k) || Touches(q, env.rule, k))
  {
    hide Eval, EvalAll, Touches, TouchesAny, MergeIds, RejectsUnknown, Indexes, NewNames, Compiles, Leads, Faithful, Alike,
         Remap, IdKey;
    var m := MergeIds(principals, env.principals);
    var s, s', q := Setting(principals, ids, sat), Setting(m.ids, ids, sat), Setting(env.principals, ids, sat);
    MergeIdsExact(principals, env.principals);
    MergeFaithful(q, principals);
    GrowAllMeaning(s, rules, m.ids, used);
    RemapMeaning(q, env.rule, m.idRemap, m.ids, EvalAll(s, rules, used).used);
    EvalAllStep(s', rules, Remap(env.rule, m.idRemap).value, used);
  }

  /** What Convert returns evaluates, on every list and every used vector, as the policy run on
      shared marks; it touches the identities the policy reaches. */
  lemma {:induction false} ConvertMeaning(policy: Policy, ids: seq<Identity>, sat: (Identity, Principal) -> bool,
                                          used: seq<bool>)
    requires Built(policy) && RejectsUnknown(sat) && Convert(policy).Converted? && |used| == |ids|
    ensures var env := Convert(policy).env;
            && Compiles(env.rule, |env.principals|)
            && Eval(Setting(env.principals, ids, sat), env.rule, used) == Threaded(policy, ids, sat, used)
            && forall k: nat :: k < |ids| ==>
                 Touches(Setting(env.principals, ids, sat), env.rule, k) == Reaches(policy, ids, sat, k)
    decreases policy
  {
    hide RejectsUnknown, EvalAll, ThreadedAll, TouchesAny, ConvertAll, ReachesAny;
    if policy.Meta? {
      ConvertAllMeaning(policy.threshold, policy.subs, ids, sat, used);
    }
  }

  lemma {:induction false} ConvertAllMeaning(threshold: int, subs: seq<Policy>, ids: seq<Identity>,
                                             sat: (Identity, Principal) -> bool, used: seq<bool>)
    requires (forall p :: p in subs ==> Built(p)) && RejectsUnknown(sat) && |used| == |ids|
    requires ConvertAll(threshold, subs).Converted?
    ensures var env := ConvertAll(threshold, subs).env;
            && (forall r :: r in env.rule.rules ==> Compiles(r, |env.principals|))
            && EvalAll(Setting(env.principals, ids, sat), env.rule.rules, used) == ThreadedAll(subs, ids, sat, used)
            && forall k: nat :: k < |ids| ==>
                 TouchesAny(Setting(env.principals, ids, sat), env.rule.rules, k) == ReachesAny(subs, ids, sat, k)
    decreases subs
  {
    hide RejectsUnknown, Eval, EvalAll, Touches, TouchesAny, Merged, Threaded, Reaches, Compiles, Built;
    if subs == [] {
      NoRules(Setting([], ids, sat), used);
    } else {
      var last := |subs| - 1;
      var before, sub := ConvertAll(threshold, subs[..last]).env, Convert(subs[last]).env;
      ConvertAllMeaning(threshold, subs[..last], ids, sat, used);
      ConvertMeaning(subs[last], ids, sat, ThreadedAll(subs[..last], ids, sat, used).used);
      assert before == Envelope(before.principals, NOutOf(threshold, before.rule.rules));
      MergeThreads(before.principals, threshold, before.rule.rules, sub, ids, sat, used);
    }
  }

  // ---- when that is what the policy means

  /** Running a policy marks only identities it reaches. */
  lemma {:induction false} ThreadedMarks(policy: Policy, ids: seq<Identity>, sat: (Identity, Principal) -> bool,
                                         used: seq<bool>, k: nat)
    requires Built(policy) && |used| == |ids| && k < |ids| && !Reaches(policy, ids, sat, k)
    ensures Threaded(policy, ids, sat, used).used[k] == used[k]
    decreases policy
  {
    match policy {
      case Signature(env) => EvalLocal(Setting(env.principals, ids, sat), env.rule, used, used);
      case Meta(_, subs) => ThreadedAllMarks(subs, ids, sat, used, k);
      case Reject =>
    }
  }

  lemma {:induction false} ThreadedAllMarks(subs: seq<Policy>, ids: seq<Identity>, sat: (Identity, Principal) -> bool,
                                            used: seq<bool>, k: nat)
    requires (forall p :: p in subs ==> Built(p)) && |used| == |ids| && k < |ids| && !ReachesAny(subs, ids, sat, k)
    ensures ThreadedAll(subs, ids, sat, used).used[k] == used[k]
    decreases subs
  {
    hide Threaded, Reaches;
    if subs != [] {
      var last := |subs| - 1;
      ThreadedAllMarks(subs[..last], ids, sat, used, k);
      ThreadedMarks(subs[last], ids, sat, ThreadedAll(subs[..last], ids, sat, used).used, k);
    }
  }

  /** No identity the policy reaches is marked. */
  ghost predicate Clear(policy: Policy, ids: seq<Identity>, sat: (Identity, Principal) -> bool, used: seq<bool>)
    requires Built(policy) && |used| == |ids|
  {
    forall k: nat :: k < |ids| && Reaches(policy, ids, sat, k) ==> !used[k]
  }

  ghost predicate ClearAll(subs: seq<Policy>, ids: seq<Identity>, sat: (Identity, Principal) -> bool, used: seq<bool>)
    requires (forall p :: p in subs ==> Built(p)) && |used| == |ids|
  {
    forall k: nat :: k < |ids| && ReachesAny(subs, ids, sat, k) ==> !used[k]
  }

  /** On marks that do not concern it, a separate policy run on shared marks answers as it should. */
  lemma {:induction false} ThreadedKeeps(policy: Policy, ids: seq<Identity>, sat: (Identity, Principal) -> bool,
                                         used: seq<bool>)
    requires Built(policy) && Counting(policy) && Separate(policy, ids, sat) && |used| == |ids|
    requires Clear(policy, ids, sat, used)
    ensures Threaded(policy, ids, sat, used).ok == Satisfied(policy, ids, sat)
    decreases policy
  {
    hide ThreadedAll, CountSatisfied;
    match policy {
      case Signature(env) => EvalLocal(Setting(env.principals, ids, sat), env.rule, used, Unused(|ids|));
      case Meta(threshold, subs) =>
        assert ClearAll(subs, ids, sat, used);
        if threshold >= 2 {
          ApartCounts(subs, ids, sat, used);
        } else {
          AnyCounts(subs, ids, sat, used);
          NoSubs(ids, sat, used);
        }
      case Reject =>
    }
  }

  lemma NoSubs(ids: seq<Identity>, sat: (Identity, Principal) -> bool, used: seq<bool>)
    requires |used| == |ids|
    ensures ThreadedAll([], ids, sat, used).count == 0 && CountSatisfied([], ids, sat) == 0
  {
  }

  lemma ClearStep(subs: seq<Policy>, ids: seq<Identity>, sat: (Identity, Principal) -> bool, used: seq<bool>)
    requires (forall p :: p in subs ==> Built(p)) && |used| == |ids| && subs != [] && ClearAll(subs, ids, sat, used)
    ensures ClearAll(subs[..|subs| - 1], ids, sat, used) && Clear(subs[|subs| - 1], ids, sat, used)
  {
    hide Reaches;
  }

  lemma {:induction false} ApartCounts(subs: seq<Policy>, ids: seq<Identity>, sat: (Identity, Principal) -> bool,
                                       used: seq<bool>)
    requires (forall p :: p in subs ==> Built(p) && Counting(p) && Separate(p, ids, sat)) && |used| == |ids|
    requires Apart(subs, ids, sat) && ClearAll(subs, ids, sat, used)
    ensures ThreadedAll(subs, ids, sat, used).count == CountSatisfied(subs, ids, sat)
    decreases subs
  {
    hide Threaded, Satisfied, Reaches, Counting, Separate, ReachesAny, ClearAll;
    if subs != [] {
      var last := |subs| - 1;
      var t := ThreadedAll(subs[..last], ids, sat, used);
      ClearStep(subs, ids, sat, used);
      ApartCounts(subs[..last], ids, sat, used);
      forall k: nat | k < |ids| && Reaches(subs[last], ids, sat, k) ensures !t.used[k] {
        NotReachedBefore(subs, ids, sat, k);
        ThreadedAllMarks(subs[..last], ids, sat, used, k);
      }
      ThreadedKeeps(subs[last], ids, sat, t.used);
    }
  }

  lemma NotReachedBefore(subs: seq<Policy>, ids: seq<Identity>, sat: (Identity, Principal) -> bool, k: nat)
    requires (forall p :: p in subs ==> Built(p)) && subs != [] && k < |ids|
    requires Apart(subs, ids, sat) && Reaches(subs[|subs| - 1], ids, sat, k)
    ensures !ReachesAny(subs[..|subs| - 1], ids, sat, k)
  {
    hide Reaches, ReachesAny;
    if ReachesAny(subs[..|subs| - 1], ids, sat, k) {
      var i := ReachesAnyOne(subs[..|subs| - 1], ids, sat, k);
    }
  }

  /** Whether any sub-policy is satisfied does not depend on what they share: up to the first that
      is, nothing is marked. */
  lemma {:induction false} AnyCounts(subs: seq<Policy>, ids: seq<Identity>, sat: (Identity, Principal) -> bool,
                                     used: seq<bool>)
    requires (forall p :: p in subs ==> Built(p) && Counting(p) && Separate(p, ids, sat)) && |used| == |ids|
    requires ClearAll(subs, ids, sat, used)
    ensures ThreadedAll(subs, ids, sat, used).count >= 1 <==> CountSatisfied(subs, ids, sat) >= 1
    ensures ThreadedAll(subs, ids, sat, used).count == 0 ==> ThreadedAll(subs, ids, sat, used).used == used
    decreases subs
  {
    hide Threaded, Satisfied, Counting, Separate, ClearAll;
    if subs != [] {
      var last := |subs| - 1;
      ClearStep(subs, ids, sat, used);
      AnyCounts(subs[..last], ids, sat, used);
      if ThreadedAll(subs[..last], ids, sat, used).count == 0 {
        ThreadedKeeps(subs[last], ids, sat, used);
      }
    }
  }

  /** If no identity satisfies principals of two sub-policies, at every level with a threshold of two
      or more, the converted envelope accepts exactly the identity lists the policy does, for the
      thresholds of ANY, ALL and MAJORITY. */
  lemma ConvertKeeps(policy: Policy, ids: seq<Identity>, sat: (Identity, Principal) -> bool)
    requires Built(policy) && Counting(policy) && Separate(policy, ids, sat) && RejectsUnknown(sat)
    requires Convert(policy).Converted?
    ensures var env := Convert(policy).env;
            && Compiles(env.rule, |env.principals|)
            && Accepts(env, ids, sat) == Satisfied(policy, ids, sat)
  {
    hide RejectsUnknown, Convert, Separate, Counting, Satisfied, Threaded, Eval, Compiles;
    ConvertMeaning(policy, ids, sat, Unused(|ids|));
    ThreadedKeeps(policy, ids, sat, Unused(|ids|));
  }

  /** ANY keeps the meaning of what it is over whatever is shared, ALL and MAJORITY if their
      sub-policies share no identity or their threshold is one. */
  lemma RuleKeeps(rule: MetaRule, subs: seq<Policy>, ids: seq<Identity>, sat: (Identity, Principal) -> bool)
    requires rule != Undeclared && RejectsUnknown(sat)
    requires forall p :: p in subs ==> Built(p) && Counting(p) && Separate(p, ids, sat) && !HasReject(p)
    requires rule == Any || |subs| <= 1 || Apart(subs, ids, sat)
    ensures var policy := Meta(Threshold(rule, |subs|), subs);
            && Convert(policy).Converted?
            && var env := Convert(policy).env;
            && Compiles(env.rule, |env.principals|) && Accepts(env, ids, sat) == Satisfied(policy, ids, sat)
  {
    hide RejectsUnknown, Convert, Satisfied, Compiles, Apart;
    var policy := Meta(Threshold(rule, |subs|), subs);
    ThresholdCounts(rule, subs);
    ConvertDefined(policy);
    ConvertKeeps(policy, ids, sat);
  }

  /** Some sub-policy at some level is the dummy policy of a missing name. */
  predicate HasReject(policy: Policy)
  {
    policy.Reject? || (policy.Meta? && exists p :: p in policy.subs && HasReject(p))
  }

  /** Conversion of built policies never stops the process, and fails exactly on missing sub-policies. */
  lemma {:induction false} ConvertDefined(policy: Policy)
    requires Built(policy)
    ensures Convert(policy) == NotConvertible <==> HasReject(policy)
    ensures !HasReject(policy) ==>
              Convert(policy).Converted? && Compiles(Convert(policy).env.rule, |Convert(policy).env.principals|)
    decreases policy
  {
    if policy.Meta? {
      ConvertAllDefined(policy.threshold, policy.subs);
    }
  }

  lemma {:induction false} ConvertAllDefined(threshold: int, subs: seq<Policy>)
    requires forall p :: p in subs ==> Built(p)
    ensures ConvertAll(threshold, subs) == NotConvertible <==> exists p :: p in subs && HasReject(p)
    ensures (forall p :: p in subs ==> !HasReject(p)) ==>
              var c := ConvertAll(threshold, subs);
              c.Converted? && Compiles(c.env.rule, |c.env.principals|)
    decreases subs
  {
    hide Merged, Built;
    if subs != [] {
      var last := |subs| - 1;
      assert subs == subs[..last] + [subs[last]];
      ConvertAllDefined(threshold, subs[..last]);
      ConvertDefined(subs[last]);
      var before, sub := ConvertAll(threshold, subs[..last]), Convert(subs[last]);
      if before.Converted? && sub.Converted? {
        MergeCompiles(before.env, sub.env);
      }
    }
  }

  lemma MergeCompiles(env: Envelope, that: Envelope)
    requires env.rule.NOutOf? && Compiles(env.rule, |env.principals|)
    ensures Compiles(that.rule, |that.principals|) ==>
              var c := Merged(env, that);
              c.Converted? && Compiles(c.env.rule, |c.env.principals|)
    ensures Merged(env, that) != NotConvertible
  {
    MergeMeaning(env, that, [], (id, p) => false, []);
  }

  /** A threshold of zero over sub-policies, which an undeclared rule gives: the envelope accepts
      every identity list, the policy only those that satisfy no sub-policy. */
  lemma ZeroThreshold(subs: seq<Policy>, ids: seq<Identity>, sat: (Identity, Principal) -> bool)
    requires Built(Meta(0, subs)) && Convert(Meta(0, subs)).Converted?
    ensures var env := Convert(Meta(0, subs)).env;
            Compiles(env.rule, |env.principals|) && Accepts(env, ids, sat)
    ensures Satisfied(Meta(0, subs), ids, sat) <==> CountSatisfied(subs, ids, sat) == 0
  {
    hide ConvertAll, EvalAll;
    ConvertDefined(Meta(0, subs));
  }
}
