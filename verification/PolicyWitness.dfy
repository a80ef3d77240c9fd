/** Where the greedy evaluator (common/cauthdsl/cauthdsl.go) misses a satisfying subtree, and a policy
    that conversion (common/policies/convert.go) makes laxer. */
module PolicyWitness {
  import opened SignaturePolicy
  import opened SignatureSet
  import opened PolicyConvert
  import opened ImplicitMeta

  // ---- evaluating short lists of rules

  lemma PickIs(s: Setting, p: Principal, used: seq<bool>, r: nat)
    requires r <= |s.ids| == |used|
    requires forall j :: 0 <= j < r ==> used[j] || !s.sat(s.ids[j], p)
    requires r < |s.ids| ==> !used[r] && s.sat(s.ids[r], p)
    ensures Pick(s, p, used, 0) == r
  {
  }

  lemma One(s: Setting, r: Rule, used: seq<bool>)
    requires Compiles(r, |s.principals|) && |used| == |s.ids|
    ensures var o := Eval(s, r, used);
            EvalAll(s, [r], used) == if o.ok then Tally(1, o.used) else Tally(0, used)
  {
    hide Eval, Compiles;
    NoRules(s, used);
    EvalAllStep(s, [], r, used);
    assert [] + [r] == [r];
  }

  lemma Two(s: Setting, r0: Rule, r1: Rule, used: seq<bool>)
    requires Compiles(r0, |s.principals|) && Compiles(r1, |s.principals|) && |used| == |s.ids|
    ensures var t := EvalAll(s, [r0], used);
            var o := Eval(s, r1, t.used);
            EvalAll(s, [r0, r1], used) == if o.ok then Tally(t.count + 1, o.used) else t
  {
    hide Eval, EvalAll, Compiles;
    EvalAllStep(s, [r0], r1, used);
    assert [r0] + [r1] == [r0, r1];
  }

  lemma Three(s: Setting, r0: Rule, r1: Rule, r2: Rule, used: seq<bool>)
    requires Compiles(r0, |s.principals|) && Compiles(r1, |s.principals|) && Compiles(r2, |s.principals|)
    requires |used| == |s.ids|
    ensures var t := EvalAll(s, [r0, r1], used);
            var o := Eval(s, r2, t.used);
            EvalAll(s, [r0, r1, r2], used) == if o.ok then Tally(t.count + 1, o.used) else t
  {
    hide Eval, EvalAll, Compiles;
    EvalAllStep(s, [r0, r1], r2, used);
    assert [r0, r1] + [r2] == [r0, r1, r2];
  }

  lemma TwoLeaves(parts: seq<Part>)
    requires |parts| == 2
    ensures Chosen(parts) == (if parts[0].Counts? then 1 else 0) + (if parts[1].Counts? then 1 else 0)
    ensures AllLeaves(parts) == PartLeaves(parts[0]) + PartLeaves(parts[1])
  {
    assert parts[..1] == [parts[0]] && parts[..1][..0] == [];
    assert Chosen(parts[..1]) == if parts[0].Counts? then 1 else 0;
    assert AllLeaves(parts[..1]) == PartLeaves(parts[0]);
  }

  // ---- the greedy evaluator

  /** There is a satisfying subtree with different signers at its leaves. */
  ghost predicate Provable(s: Setting, rule: Rule)
  {
    exists proof :: Proves(s, rule, proof) && Distinct(Leaves(proof))
  }

  const BOTH_OF := NOutOf(2, [SignedBy(0), SignedBy(1)])

  lemma BothCompiles()
    ensures Compiles(BOTH_OF, 2)
  {
  }

  /** Two signatures, run: the first identity for the first, then the first other one for the second. */
  lemma BothRuns(s: Setting, a: nat)
    requires |s.principals| == 2 && a == Pick(s, s.principals[0], Unused(|s.ids|), 0)
    ensures Compiles(BOTH_OF, 2)
    ensures Eval(s, BOTH_OF, Unused(|s.ids|)).ok <==>
            a < |s.ids| && Pick(s, s.principals[1], Unused(|s.ids|)[a := true], 0) < |s.ids|
  {
    hide EvalAll, Pick;
    BothCompiles();
    One(s, SignedBy(0), Unused(|s.ids|));
    Two(s, SignedBy(0), SignedBy(1), Unused(|s.ids|));
  }

  lemma BothProved(s: Setting, a: nat, b: nat)
    requires |s.principals| == 2 && a < |s.ids| && b < |s.ids| && a != b
    requires s.sat(s.ids[a], s.principals[0]) && s.sat(s.ids[b], s.principals[1])
    ensures Provable(s, BOTH_OF)
  {
    var parts := [Counts(Leaf(a)), Counts(Leaf(b))];
    TwoLeaves(parts);
    var proof := Gate(parts);
    assert Leaves(proof) == [a, b];
    assert Proves(s, BOTH_OF, proof);
  }

  /** The order of the list decides: an identity that could sign for both, listed first, is taken for
      the first principal although the other one could only sign for that. */
  lemma OrderMatters(p: Principal, q: Principal, sat: (Identity, Principal) -> bool, x: Identity, y: Identity)
    requires sat(x, p) && sat(x, q) && sat(y, p) && !sat(y, q)
    ensures Compiles(BOTH_OF, 2)
    ensures Provable(Setting([p, q], [x, y], sat), BOTH_OF) && !Eval(Setting([p, q], [x, y], sat), BOTH_OF, Unused(2)).ok
    ensures Provable(Setting([p, q], [y, x], sat), BOTH_OF) && Eval(Setting([p, q], [y, x], sat), BOTH_OF, Unused(2)).ok
  {
    hide Eval, Provable, Compiles;
    var s, t := Setting([p, q], [x, y], sat), Setting([p, q], [y, x], sat);
    PickIs(s, p, Unused(2), 0);
    PickIs(s, q, Unused(2)[0 := true], 2);
    BothRuns(s, 0);
    BothProved(s, 1, 0);
    PickIs(t, p, Unused(2), 0);
    PickIs(t, q, Unused(2)[0 := true], 1);
    BothRuns(t, 0);
    BothProved(t, 0, 1);
  }

  /** The second way to miss, in any order: a gate goes on taking signers after it has enough. Of two
      that satisfy the principal, a one-out-of-two gate takes both and leaves none for its sibling. */
  lemma GateTakesTooMany(p: Principal, sat: (Identity, Principal) -> bool, x: Identity, y: Identity)
    requires sat(x, p) && sat(y, p)
    ensures var s := Setting([p], [x, y], sat);
            var rule := NOutOf(2, [NOutOf(1, [SignedBy(0), SignedBy(0)]), SignedBy(0)]);
            Compiles(rule, 1) && Provable(s, rule) && !Eval(s, rule, Unused(2)).ok
  {
    var s := Setting([p], [x, y], sat);
    var gate := NOutOf(1, [SignedBy(0), SignedBy(0)]);
    var rule := NOutOf(2, [gate, SignedBy(0)]);
    TakenTwice(s, gate);
    EnoughForBoth(s);
    hide EvalAll, Provable;
    One(s, gate, Unused(2));
    Two(s, gate, SignedBy(0), Unused(2));
    PickIs(s, p, [true, true], 2);
  }

  lemma EnoughForBoth(s: Setting)
    requires |s.principals| == 1 && |s.ids| == 2
    requires s.sat(s.ids[0], s.principals[0]) && s.sat(s.ids[1], s.principals[0])
    ensures Provable(s, NOutOf(2, [NOutOf(1, [SignedBy(0), SignedBy(0)]), SignedBy(0)]))
  {
    hide Chosen, AllLeaves;
    var inner := [Counts(Leaf(0)), Failed];
    var parts := [Counts(Gate(inner)), Counts(Leaf(1))];
    TwoLeaves(inner);
    TwoLeaves(parts);
    assert PartLeaves(inner[0]) == [0] && PartLeaves(inner[1]) == [];
    assert Leaves(Gate(inner)) == [0] && Leaves(Gate(parts)) == [0, 1];
    assert Proves(s, NOutOf(1, [SignedBy(0), SignedBy(0)]), Gate(inner));
    assert Proves(s, NOutOf(2, [NOutOf(1, [SignedBy(0), SignedBy(0)]), SignedBy(0)]), Gate(parts));
  }

  lemma TakenTwice(s: Setting, gate: Rule)
    requires |s.principals| == 1 && |s.ids| == 2 && gate == NOutOf(1, [SignedBy(0), SignedBy(0)])
    requires s.sat(s.ids[0], s.principals[0]) && s.sat(s.ids[1], s.principals[0])
    ensures Compiles(gate, 1) && Eval(s, gate, Unused(2)) == Outcome(true, [true, true])
  {
    hide EvalAll;
    PickIs(s, s.principals[0], Unused(2), 0);
    PickIs(s, s.principals[0], [true, false], 1);
    One(s, SignedBy(0), Unused(2));
    Two(s, SignedBy(0), SignedBy(0), Unused(2));
  }

  // ---- conversion

  const P := Principal(0, "P")
  const Q := Principal(0, "Q")
  const ONLY_P := Identity("Org", "P", [])
  const ALSO_P := Identity("Org", "PP", [])
  const ONLY_Q := Identity("Org", "Q", [])
  const CROWD := [ONLY_P, ALSO_P, ONLY_Q]

  /** Names starting with P satisfy P, names starting with Q satisfy Q. */
  predicate Sat(id: Identity, p: Principal)
  {
    id.id != [] && ((p == P && id.id[0] == 'P') || (p == Q && id.id[0] == 'Q'))
  }

  lemma Who()
    ensures Sat(ONLY_P, P) && !Sat(ONLY_P, Q) && Sat(ALSO_P, P) && !Sat(ALSO_P, Q) && !Sat(ONLY_Q, P) && Sat(ONLY_Q, Q)
    ensures RejectsUnknown(Sat)
  {
  }

  lemma CountTwo(p0: Policy, p1: Policy, ids: seq<Identity>)
    requires Built(p0) && Built(p1)
    ensures CountSatisfied([p0, p1], ids, Sat)
         == (if Satisfied(p0, ids, Sat) then 1 else 0) + (if Satisfied(p1, ids, Sat) then 1 else 0)
  {
    hide Satisfied, Built, Sat;
    CountStep([], p0, ids, Sat);
    CountStep([p0], p1, ids, Sat);
    assert [] + [p0] == [p0] && [p0] + [p1] == [p0, p1];
  }

  lemma ThreadedTwo(p0: Policy, p1: Policy, ids: seq<Identity>, used: seq<bool>)
    requires Built(p0) && Built(p1) && |used| == |ids|
    ensures var o0 := Threaded(p0, ids, Sat, used);
            var o1 := Threaded(p1, ids, Sat, if o0.ok then o0.used else used);
            ThreadedAll([p0, p1], ids, Sat, used).count == (if o0.ok then 1 else 0) + (if o1.ok then 1 else 0)
  {
    hide Threaded, Built, Sat;
    assert [p0, p1][..1] == [p0] && [p0][..0] == [];
    var o0 := Threaded(p0, ids, Sat, used);
    assert ThreadedAll([p0], ids, Sat, used) == if o0.ok then Tally(1, o0.used) else Tally(0, used);
  }

  /** Three signatures, two of them by P, or else two of P. */
  function Greedy(p: int, q: int): Rule
  {
    NOutOf(2, [NOutOf(3, [SignedBy(p), SignedBy(p), SignedBy(q)]), SignedBy(p), SignedBy(p)])
  }

  /** On unused identities the first gate takes all three signers and nothing is left for the others. */
  lemma GreedyRefuses()
    ensures Compiles(Greedy(0, 1), 2)
    ensures !Eval(Setting([P, Q], CROWD, Sat), Greedy(0, 1), Unused(3)).ok
  {
    Who();
    hide Sat, RejectsUnknown, EvalAll;
    var s := Setting([P, Q], CROWD, Sat);
    var gate := NOutOf(3, [SignedBy(0), SignedBy(0), SignedBy(1)]);
    PickIs(s, P, Unused(3), 0);
    PickIs(s, P, [true, false, false], 1);
    PickIs(s, Q, [true, true, false], 2);
    PickIs(s, P, [true, true, true], 3);
    One(s, SignedBy(0), Unused(3));
    Two(s, SignedBy(0), SignedBy(0), Unused(3));
    Three(s, SignedBy(0), SignedBy(0), SignedBy(1), Unused(3));
    assert Eval(s, gate, Unused(3)) == Outcome(true, [true, true, true]);
    One(s, gate, Unused(3));
    Two(s, gate, SignedBy(0), Unused(3));
    Three(s, gate, SignedBy(0), SignedBy(0), Unused(3));
  }

  /** With the third signer used up the first gate fails, gives its signers back, and the others take them. */
  lemma GreedyAccepts()
    ensures Compiles(Greedy(0, 1), 2)
    ensures Eval(Setting([P, Q], CROWD, Sat), Greedy(0, 1), [false, false, true]).ok
  {
    Who();
    hide Sat, RejectsUnknown, EvalAll;
    var s := Setting([P, Q], CROWD, Sat);
    var gate := NOutOf(3, [SignedBy(0), SignedBy(0), SignedBy(1)]);
    var u := [false, false, true];
    PickIs(s, P, u, 0);
    PickIs(s, P, [true, false, true], 1);
    PickIs(s, Q, [true, true, true], 3);
    One(s, SignedBy(0), u);
    Two(s, SignedBy(0), SignedBy(0), u);
    Three(s, SignedBy(0), SignedBy(0), SignedBy(1), u);
    assert !Eval(s, gate, u).ok;
    One(s, gate, u);
    Two(s, gate, SignedBy(0), u);
    Three(s, gate, SignedBy(0), SignedBy(0), u);
  }

  /** The envelope accepts a list the policy refuses: an identity taken by the first sub-policy makes
      a greedy gate of the second fail, which frees the signers its other rules need. */
  lemma ConvertTooLax()
    ensures var policy := Meta(Threshold(All, 2), [Signature(Envelope([Q], SignedBy(0))),
                                                   Signature(Envelope([P, Q], Greedy(0, 1)))]);
            && Built(policy) && Counting(policy) && Convert(policy).Converted?
            && var env := Convert(policy).env;
            && Compiles(env.rule, |env.principals|)
            && !Satisfied(policy, CROWD, Sat) && Accepts(env, CROWD, Sat)
  {
    Who();
    var p0, p1 := Signature(Envelope([Q], SignedBy(0))), Signature(Envelope([P, Q], Greedy(0, 1)));
    LaxSides(p0, p1);
    hide Sat, RejectsUnknown, Convert, CountSatisfied, Greedy, ThreadedAll, Eval, Compiles;
    ConvertDefined(Meta(2, [p0, p1]));
    ConvertMeaning(Meta(2, [p0, p1]), CROWD, Sat, Unused(3));
  }

  lemma {:induction false} LaxSides(p0: Policy, p1: Policy)
    requires p0 == Signature(Envelope([Q], SignedBy(0))) && p1 == Signature(Envelope([P, Q], Greedy(0, 1)))
    ensures Built(p0) && Built(p1)
    ensures CountSatisfied([p0, p1], CROWD, Sat) < 2
    ensures ThreadedAll([p0, p1], CROWD, Sat, Unused(3)).count == 2
  {
    Who();
    GreedyRefuses();
    GreedyAccepts();
    hide Sat, RejectsUnknown, EvalAll, CountSatisfied, Greedy, ThreadedAll;
    PickIs(Setting([Q], CROWD, Sat), Q, Unused(3), 2);
    assert Unused(3)[2 := true] == [false, false, true];
    CountTwo(p0, p1, CROWD);
    ThreadedTwo(p0, p1, CROWD, Unused(3));
  }
}
