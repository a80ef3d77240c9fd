/** How far conversion of an implicit meta policy (common/policies/convert.go) keeps its meaning when
    sub-policies share identities: exactly when, for sub-policies of one signature each, and in
    which direction only, for sub-policies without a gate inside a gate. */
module ConvertExact {
  import opened SignaturePolicy
  import opened SignatureSet
  import opened PolicyConvert
  import opened ImplicitMeta

  // ---- sub-policies of one signature

  /** A signature policy that asks for one signature. */
  predicate Leafy(p: Policy)
  {
    p.Signature? && p.env.rule.SignedBy? && 0 <= p.env.rule.index < |p.env.principals|
  }

  predicate AllLeafy(subs: seq<Policy>)
  {
    forall p :: p in subs ==> Built(p) && Leafy(p)
  }

  function PrincipalOf(p: Policy): Principal
    requires Leafy(p)
  {
    p.env.principals[p.env.rule.index]
  }

  ghost predicate Satisfiable(p: Principal, sat: (Identity, Principal) -> bool)
  {
    exists id :: sat(id, p)
  }

  /** How many of the sub-policies anyone can satisfy. */
  ghost function SatisfiableCount(subs: seq<Policy>, sat: (Identity, Principal) -> bool): nat
    requires AllLeafy(subs)
  {
    if subs == [] then 0
    else
      var last := |subs| - 1;
      SatisfiableCount(subs[..last], sat) + if Satisfiable(PrincipalOf(subs[last]), sat) then 1 else 0
  }

  /** The identity satisfies the principals of two different sub-policies. */
  ghost predicate SharedBy(subs: seq<Policy>, sat: (Identity, Principal) -> bool, id: Identity)
    requires AllLeafy(subs)
  {
    exists i, j :: 0 <= i < j < |subs| && sat(id, PrincipalOf(subs[i])) && sat(id, PrincipalOf(subs[j]))
  }

  /** One signature is there exactly if somebody listed satisfies the principal. */
  lemma LeafSatisfied(p: Policy, ids: seq<Identity>, sat: (Identity, Principal) -> bool)
    requires Built(p) && Leafy(p)
    ensures Satisfied(p, ids, sat) <==> exists k :: 0 <= k < |ids| && sat(ids[k], PrincipalOf(p))
  {
    var r := Pick(Setting(p.env.principals, ids, sat), PrincipalOf(p), Unused(|ids|), 0);
  }

  function Marked(used: seq<bool>): nat
  {
    if used == [] then 0 else Marked(used[..|used| - 1]) + if used[|used| - 1] then 1 else 0
  }

  lemma {:induction false} MarkedBound(used: seq<bool>)
    ensures Marked(used) <= |used|
    ensures (forall k :: 0 <= k < |used| ==> !used[k]) ==> Marked(used) == 0
  {
    if used != [] {
      MarkedBound(used[..|used| - 1]);
    }
  }

  lemma {:induction false} MarkedOne(used: seq<bool>, k: nat)
    requires k < |used| && !used[k]
    ensures Marked(used[k := true]) == Marked(used) + 1
  {
    var n := |used| - 1;
    if k < n {
      MarkedOne(used[..n], k);
      assert used[k := true][..n] == used[..n][k := true];
    } else {
      assert used[k := true][..n] == used[..n];
    }
  }

  /** Every signature counted took an identity of its own. */
  lemma {:induction false} CountedAreMarked(subs: seq<Policy>, ids: seq<Identity>, sat: (Identity, Principal) -> bool,
                                            used: seq<bool>)
    requires AllLeafy(subs) && |used| == |ids|
    ensures var t := ThreadedAll(subs, ids, sat, used);
            Marked(t.used) == Marked(used) + t.count && t.count <= SatisfiableCount(subs, sat)
  {
    hide Marked;
    if subs != [] {
      var last := |subs| - 1;
      CountedAreMarked(subs[..last], ids, sat, used);
      var t := ThreadedAll(subs[..last], ids, sat, used);
      var p := subs[last];
      assert Leafy(p);
      var k := Pick(Setting(p.env.principals, ids, sat), PrincipalOf(p), t.used, 0);
      if k < |ids| {
        MarkedOne(t.used, k);
      }
    }
  }

  lemma {:induction false} CountedAreSatisfiable(subs: seq<Policy>, ids: seq<Identity>, sat: (Identity, Principal) -> bool)
    requires AllLeafy(subs)
    ensures CountSatisfied(subs, ids, sat) <= SatisfiableCount(subs, sat)
  {
    hide Satisfied;
    if subs != [] {
      CountedAreSatisfiable(subs[..|subs| - 1], ids, sat);
      LeafSatisfied(subs[|subs| - 1], ids, sat);
    }
  }

  /** If more sub-policies can be satisfied than are, one of the others can. */
  lemma {:induction false} Missing(subs: seq<Policy>, ids: seq<Identity>, sat: (Identity, Principal) -> bool) returns (k: nat)
    requires AllLeafy(subs)
    requires CountSatisfied(subs, ids, sat) < SatisfiableCount(subs, sat)
    ensures k < |subs| && Satisfiable(PrincipalOf(subs[k]), sat) && !Satisfied(subs[k], ids, sat)
  {
    hide Satisfied, Satisfiable;
    k := |subs| - 1;
    if !(Satisfiable(PrincipalOf(subs[k]), sat) && !Satisfied(subs[k], ids, sat)) {
      k := Missing(subs[..k], ids, sat);
    }
  }

  /** One identity more keeps what was satisfied and adds what it satisfies. */
  lemma {:induction false} CountAdd(subs: seq<Policy>, ids: seq<Identity>, sat: (Identity, Principal) -> bool, id: Identity, k: int)
    requires AllLeafy(subs)
    requires k < |subs| && (0 <= k ==> sat(id, PrincipalOf(subs[k])) && !Satisfied(subs[k], ids, sat))
    ensures CountSatisfied(subs, ids + [id], sat) >= CountSatisfied(subs, ids, sat) + if 0 <= k then 1 else 0
    decreases subs
  {
    hide Satisfied;
    if subs != [] {
      var last := |subs| - 1;
      CountAdd(subs[..last], ids, sat, id, if k == last then -1 else k);
      LeafSatisfied(subs[last], ids, sat);
      LeafSatisfied(subs[last], ids + [id], sat);
      assert (ids + [id])[|ids|] == id;
      if m :| 0 <= m < |ids| && sat(ids[m], PrincipalOf(subs[last])) {
        assert (ids + [id])[m] == ids[m];
      }
    }
  }

  lemma {:induction false} TwoSatisfied(subs: seq<Policy>, ids: seq<Identity>, sat: (Identity, Principal) -> bool, i: nat, j: nat)
    requires AllLeafy(subs) && i <= j < |subs|
    requires Satisfied(subs[i], ids, sat) && Satisfied(subs[j], ids, sat)
    ensures CountSatisfied(subs, ids, sat) >= if i < j then 2 else 1
    decreases subs
  {
    hide Satisfied;
    var last := |subs| - 1;
    if j < last {
      TwoSatisfied(subs[..last], ids, sat, i, j);
    } else if i < j {
      TwoSatisfied(subs[..last], ids, sat, i, i);
    }
  }

  /** A list shorter than the threshold that satisfies the threshold, grown from one that satisfies
      more sub-policies than it has members. */
  lemma ShortList(subs: seq<Policy>, sat: (Identity, Principal) -> bool, threshold: int, ids: seq<Identity>)
    returns (r: seq<Identity>)
    requires AllLeafy(subs) && threshold <= SatisfiableCount(subs, sat)
    requires |ids| < threshold && |ids| < CountSatisfied(subs, ids, sat)
    ensures |r| < threshold <= CountSatisfied(subs, r, sat)
    decreases threshold - |ids|
  {
    hide CountSatisfied, SatisfiableCount, Satisfied;
    if threshold <= CountSatisfied(subs, ids, sat) {
      r := ids;
    } else {
      var k := Missing(subs, ids, sat);
      var id :| sat(id, PrincipalOf(subs[k]));
      CountAdd(subs, ids, sat, id, k);
      r := ShortList(subs, sat, threshold, ids + [id]);
    }
  }

  lemma ManyReached(subs: seq<Policy>, ids: seq<Identity>, sat: (Identity, Principal) -> bool)
    requires AllLeafy(subs)
    requires forall id :: !SharedBy(subs, sat, id)
    ensures Apart(subs, ids, sat)
  {
    forall i, j, k: nat | 0 <= i < j < |subs| && k < |ids|
      ensures !(Reaches(subs[i], ids, sat, k) && Reaches(subs[j], ids, sat, k))
    {
      assert Leafy(subs[i]) && Leafy(subs[j]);
      assert !SharedBy(subs, sat, ids[k]);
    }
  }

  /** For sub-policies of one signature each and any threshold of at least one, the envelope and the
      policy accept the same lists if and only if the threshold is one, or out of reach, or no
      identity satisfies the principals of two sub-policies. */
  lemma LeafyExact(threshold: int, subs: seq<Policy>, sat: (Identity, Principal) -> bool)
    requires threshold >= 1 && AllLeafy(subs) && RejectsUnknown(sat)
    ensures Convert(Meta(threshold, subs)).Converted?
    ensures var env := Convert(Meta(threshold, subs)).env; Compiles(env.rule, |env.principals|)
    ensures (forall ids :: Accepts(Convert(Meta(threshold, subs)).env, ids, sat) == Satisfied(Meta(threshold, subs), ids, sat))
       <==> (threshold == 1 || SatisfiableCount(subs, sat) < threshold || forall id :: !SharedBy(subs, sat, id))
  {
    hide Satisfied, Convert, SharedBy, RejectsUnknown, Threaded, SatisfiableCount, Accepts, Compiles;
    LeafyConverts(threshold, subs);
    if threshold == 1 || SatisfiableCount(subs, sat) < threshold || forall id :: !SharedBy(subs, sat, id) {
      forall ids
        ensures Accepts(Convert(Meta(threshold, subs)).env, ids, sat) == Satisfied(Meta(threshold, subs), ids, sat)
      {
        LeafySame(threshold, subs, sat, ids);
      }
    } else {
      var id :| SharedBy(subs, sat, id);
      var ids := LeafyDiffers(threshold, subs, sat, id);
    }
  }

  lemma LeafyConverts(threshold: int, subs: seq<Policy>)
    requires AllLeafy(subs)
    ensures Built(Meta(threshold, subs)) && Convert(Meta(threshold, subs)).Converted?
    ensures var env := Convert(Meta(threshold, subs)).env; Compiles(env.rule, |env.principals|)
  {
    hide Convert, Compiles;
    ConvertDefined(Meta(threshold, subs));
  }

  lemma LeafySame(threshold: int, subs: seq<Policy>, sat: (Identity, Principal) -> bool, ids: seq<Identity>)
    requires threshold >= 1 && AllLeafy(subs) && RejectsUnknown(sat)
    requires threshold == 1 || SatisfiableCount(subs, sat) < threshold || forall id :: !SharedBy(subs, sat, id)
    ensures var c := Convert(Meta(threshold, subs));
            && c.Converted? && Compiles(c.env.rule, |c.env.principals|)
            && Accepts(c.env, ids, sat) == Satisfied(Meta(threshold, subs), ids, sat)
  {
    hide Convert, RejectsUnknown, ThreadedAll, SatisfiableCount, CountSatisfied, SharedBy, Eval, Compiles;
    var policy := Meta(threshold, subs);
    LeafyConverts(threshold, subs);
    if SatisfiableCount(subs, sat) < threshold {
      ConvertMeaning(policy, ids, sat, Unused(|ids|));
      CountedAreMarked(subs, ids, sat, Unused(|ids|));
      CountedAreSatisfiable(subs, ids, sat);
    } else {
      if threshold >= 2 {
        ManyReached(subs, ids, sat);
      }
      NonEmpty(threshold, subs, sat);
      ConvertKeeps(policy, ids, sat);
    }
  }

  lemma NonEmpty(threshold: int, subs: seq<Policy>, sat: (Identity, Principal) -> bool)
    requires threshold >= 1 && AllLeafy(subs) && threshold <= SatisfiableCount(subs, sat)
    ensures subs != []
  {
  }

  /** A list on which the policy accepts and the envelope refuses. */
  lemma LeafyDiffers(threshold: int, subs: seq<Policy>, sat: (Identity, Principal) -> bool, id: Identity)
    returns (ids: seq<Identity>)
    requires threshold >= 2 && AllLeafy(subs) && RejectsUnknown(sat)
    requires SatisfiableCount(subs, sat) >= threshold && SharedBy(subs, sat, id)
    ensures var c := Convert(Meta(threshold, subs));
            && c.Converted? && Compiles(c.env.rule, |c.env.principals|)
            && Satisfied(Meta(threshold, subs), ids, sat) && !Accepts(c.env, ids, sat)
  {
    hide Convert, RejectsUnknown, ThreadedAll, SatisfiableCount, CountSatisfied, Eval, Compiles, Marked;
    LeafyConverts(threshold, subs);
    var i, j :| 0 <= i < j < |subs| && sat(id, PrincipalOf(subs[i])) && sat(id, PrincipalOf(subs[j]));
    assert [id][0] == id;
    LeafSatisfied(subs[i], [id], sat);
    LeafSatisfied(subs[j], [id], sat);
    TwoSatisfied(subs, [id], sat, i, j);
    ids := ShortList(subs, sat, threshold, [id]);
    ConvertMeaning(Meta(threshold, subs), ids, sat, Unused(|ids|));
    CountedAreMarked(subs, ids, sat, Unused(|ids|));
    MarkedBound(Unused(|ids|));
    MarkedBound(ThreadedAll(subs, ids, sat, Unused(|ids|)).used);
  }

  // ---- sub-policies without a gate inside a gate

  /** One signature, or so many out of a list of signatures. */
  predicate Shallow(rule: Rule)
  {
    rule.SignedBy? || (rule.NOutOf? && forall r :: r in rule.rules ==> r.SignedBy?)
  }

  /** Whatever u marks v marks. */
  predicate Fewer(u: seq<bool>, v: seq<bool>)
  {
    |u| == |v| && forall k :: 0 <= k < |u| && u[k] ==> v[k]
  }

  lemma LeafAntitone(s: Setting, rule: Rule, u: seq<bool>, v: seq<bool>)
    requires Compiles(rule, |s.principals|) && rule.SignedBy? && |u| == |s.ids| && Fewer(u, v)
    ensures Eval(s, rule, v).ok ==> Eval(s, rule, u).ok
    ensures Fewer(Eval(s, rule, u).used, Eval(s, rule, v).used)
  {
    var p := s.principals[rule.index];
    var x, y := Pick(s, p, u, 0), Pick(s, p, v, 0);
    assert x < |s.ids| ==> s.sat(s.ids[x], p);
    assert y < |s.ids| ==> s.sat(s.ids[y], p) && !v[y];
  }

  lemma {:induction false} LeavesAntitone(s: Setting, rules: seq<Rule>, u: seq<bool>, v: seq<bool>)
    requires (forall r :: r in rules ==> Compiles(r, |s.principals|) && r.SignedBy?) && |u| == |s.ids| && Fewer(u, v)
    ensures EvalAll(s, rules, v).count <= EvalAll(s, rules, u).count
    ensures Fewer(EvalAll(s, rules, u).used, EvalAll(s, rules, v).used)
    decreases rules
  {
    hide Eval;
    if rules != [] {
      var last := |rules| - 1;
      LeavesAntitone(s, rules[..last], u, v);
      var t, t' := EvalAll(s, rules[..last], u), EvalAll(s, rules[..last], v);
      LeafAntitone(s, rules[last], t.used, t'.used);
      LeafFails(s, rules[last], t.used);
      LeafFails(s, rules[last], t'.used);
    }
  }

  lemma LeafFails(s: Setting, rule: Rule, used: seq<bool>)
    requires Compiles(rule, |s.principals|) && rule.SignedBy? && |used| == |s.ids|
    ensures !Eval(s, rule, used).ok ==> Eval(s, rule, used).used == used
  {
  }

  /** With fewer identities used up, a rule without a gate inside a gate still accepts. */
  lemma ShallowAntitone(s: Setting, rule: Rule, u: seq<bool>, v: seq<bool>)
    requires Compiles(rule, |s.principals|) && Shallow(rule) && |u| == |s.ids| && Fewer(u, v)
    ensures Eval(s, rule, v).ok ==> Eval(s, rule, u).ok
  {
    if rule.SignedBy? {
      LeafAntitone(s, rule, u, v);
    } else {
      LeavesAntitone(s, rule.rules, u, v);
    }
  }

  predicate AllShallow(subs: seq<Policy>)
  {
    forall p :: p in subs ==> Built(p) && p.Signature? && Shallow(p.env.rule)
  }

  lemma {:induction false} ThreadedNeverMore(subs: seq<Policy>, ids: seq<Identity>, sat: (Identity, Principal) -> bool)
    requires AllShallow(subs)
    ensures ThreadedAll(subs, ids, sat, Unused(|ids|)).count <= CountSatisfied(subs, ids, sat)
  {
    hide Eval, Shallow;
    if subs != [] {
      var last := |subs| - 1;
      var p := subs[last];
      assert p.Signature? && Shallow(p.env.rule);
      ThreadedNeverMore(subs[..last], ids, sat);
      ShallowAntitone(Setting(p.env.principals, ids, sat), p.env.rule, Unused(|ids|),
                      ThreadedAll(subs[..last], ids, sat, Unused(|ids|)).used);
    }
  }

  /** If no sub-policy has a gate inside a gate, whatever is shared, the envelope only refuses more. */
  lemma OnlyStricter(threshold: int, subs: seq<Policy>, sat: (Identity, Principal) -> bool, ids: seq<Identity>)
    requires threshold >= 1 && AllShallow(subs) && RejectsUnknown(sat)
    ensures var c := Convert(Meta(threshold, subs));
            && c.Converted? && Compiles(c.env.rule, |c.env.principals|)
            && (Accepts(c.env, ids, sat) ==> Satisfied(Meta(threshold, subs), ids, sat))
  {
    hide Convert, RejectsUnknown, ThreadedAll, CountSatisfied, Eval, Compiles, Shallow;
    ConvertDefined(Meta(threshold, subs));
    ConvertMeaning(Meta(threshold, subs), ids, sat, Unused(|ids|));
    ThreadedNeverMore(subs, ids, sat);
  }
}
