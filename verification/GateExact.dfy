/** A gate that asks for all of several signatures (common/cauthdsl/cauthdsl.go) finds them on every list
    on which they are to be found if and only if one of its principals is satisfied by nobody, or of any
    two the earlier one shares no identity with the later one or is the narrower. */
module GateExact {
  import opened SignaturePolicy
  import opened SignatureSet
  import opened PolicyWitness

  /** Every rule asks for one signature. */
  predicate Signatures(rules: seq<Rule>, principals: nat)
  {
    forall r :: r in rules ==> r.SignedBy? && Compiles(r, principals)
  }

  /** All of the signatures. */
  function AllOf(rules: seq<Rule>): Rule
  {
    NOutOf(|rules|, rules)
  }

  /** Whether the identity can sign for the rule. */
  predicate CanSign(a: Joint, x: Identity, c: nat)
    requires Signatures(a.rules, |a.principals|) && c < |a.rules|
  {
    a.sat(x, a.principals[a.rules[c].index])
  }

  datatype Joint = Joint(principals: seq<Principal>, rules: seq<Rule>, sat: (Identity, Principal) -> bool)

  /** Nobody can sign for both, or whoever can sign for the first can sign for the second. */
  ghost predicate Narrower(a: Joint, i: nat, j: nat)
    requires Signatures(a.rules, |a.principals|) && i < |a.rules| && j < |a.rules|
  {
    (forall x :: !(CanSign(a, x, i) && CanSign(a, x, j))) || (forall y :: CanSign(a, y, i) ==> CanSign(a, y, j))
  }

  ghost predicate Ordered(a: Joint)
    requires Signatures(a.rules, |a.principals|)
  {
    forall i: nat, j: nat :: i < j < |a.rules| ==> Narrower(a, i, j)
  }

  ghost predicate Hopeless(a: Joint, c: nat)
    requires Signatures(a.rules, |a.principals|) && c < |a.rules|
  {
    forall x :: !CanSign(a, x, c)
  }

  function On(a: Joint, ids: seq<Identity>): Setting
  {
    Setting(a.principals, ids, a.sat)
  }

  // ---- the condition is enough

  lemma OrderedNarrows(a: Joint, ids: seq<Identity>)
    requires Signatures(a.rules, |a.principals|) && Ordered(a)
    ensures Narrowing(On(a, ids), a.rules)
  {
    hide Compiles;
    var s := On(a, ids);
    forall i, j | 0 <= i < j < |a.rules|
      ensures Unshared(s, a.rules[i], a.rules[j]) || Within(s, a.rules[i], a.rules[j])
    {
      assert Narrower(a, i, j);
      assert forall k: nat :: k < |ids| ==> Touches(s, a.rules[i], k) == CanSign(a, ids[k], i);
      assert forall k: nat :: k < |ids| ==> Touches(s, a.rules[j], k) == CanSign(a, ids[k], j);
    }
  }

  /** Any number of signatures in order: the evaluator accepts exactly when there are signers enough. */
  lemma OrderedFinds(a: Joint, n: int, ids: seq<Identity>)
    requires Signatures(a.rules, |a.principals|) && Ordered(a)
    ensures Compiles(NOutOf(n, a.rules), |a.principals|)
    ensures Eval(On(a, ids), NOutOf(n, a.rules), Unused(|ids|)).ok <==> Provable(On(a, ids), NOutOf(n, a.rules))
  {
    var s, rule := On(a, ids), NOutOf(n, a.rules);
    OrderedNarrows(a, ids);
    assert Lone(s, rule);
    hide Eval, Proves, Leaves, Lone, Compiles, Narrowing;
    AcceptsIffProved(s, rule, Unused(|ids|));
    ProvedInRange(s, rule);
  }

  lemma ProvedInRange(s: Setting, rule: Rule)
    ensures Provable(s, rule) <==>
            exists proof :: Proves(s, rule, proof) && Free(Leaves(proof), Unused(|s.ids|))
  {
    hide Proves, Leaves, Unused;
    if Provable(s, rule) {
      var proof :| Proves(s, rule, proof) && Distinct(Leaves(proof));
      LeavesInRange(s, rule, proof);
      assert Proves(s, rule, proof) && Free(Leaves(proof), Unused(|s.ids|));
    }
    if proof :| Proves(s, rule, proof) && Free(Leaves(proof), Unused(|s.ids|)) {
      assert Proves(s, rule, proof) && Distinct(Leaves(proof));
    }
  }

  lemma {:induction false} LeavesInRange(s: Setting, rule: Rule, proof: Proof)
    requires Proves(s, rule, proof)
    ensures forall l :: l in Leaves(proof) ==> l < |s.ids|
    decreases rule
  {
    if rule.NOutOf? {
      PartsInRange(s, rule.rules, proof.parts);
    }
  }

  lemma {:induction false} PartsInRange(s: Setting, rules: seq<Rule>, parts: seq<Part>)
    requires |parts| == |rules|
    requires forall k :: 0 <= k < |rules| && parts[k].Counts? ==> Proves(s, rules[k], parts[k].proof)
    ensures forall l :: l in AllLeaves(parts) ==> l < |s.ids|
    decreases rules
  {
    hide Proves, Leaves;
    if parts != [] {
      var last := |parts| - 1;
      assert AllLeaves(parts) == AllLeaves(parts[..last]) + PartLeaves(parts[last]);
      PartsInRange(s, rules[..last], parts[..last]);
      if parts[last].Counts? {
        LeavesInRange(s, rules[last], parts[last].proof);
      }
    }
  }

  // ---- and needed

  /** Rules i and j out of order: x can sign for both and y for i only. And for each rule somebody. */
  datatype Clash = Clash(a: Joint, i: nat, j: nat, x: Identity, y: Identity, w: seq<Identity>)

  predicate Clashes(q: Clash)
  {
    && Signatures(q.a.rules, |q.a.principals|)
    && q.i < q.j < |q.a.rules|
    && CanSign(q.a, q.x, q.i) && CanSign(q.a, q.x, q.j)
    && CanSign(q.a, q.y, q.i) && !CanSign(q.a, q.y, q.j)
    && |q.w| == |q.a.rules| && forall c: nat :: c < |q.w| ==> CanSign(q.a, q.w[c], c)
  }

  /** How to satisfy all: 0 has x sign, 1 has y sign, 2 somebody else. */
  function Kind(q: Clash, c: nat): (v: nat)
    requires Clashes(q) && c < |q.a.rules|
    ensures v < 3
  {
    if (c < q.i && CanSign(q.a, q.x, c)) || c == q.j then 0 else if CanSign(q.a, q.y, c) then 1 else 2
  }

  function Value(q: Clash, c: nat): (z: Identity)
    requires Clashes(q) && c < |q.a.rules|
    ensures CanSign(q.a, z, c)
  {
    if Kind(q, c) == 0 then q.x else if Kind(q, c) == 1 then q.y else q.w[c]
  }

  /** The rules before k of a kind. */
  function Of(q: Clash, k: nat, v: nat): (cs: seq<nat>)
    requires Clashes(q) && k <= |q.a.rules|
    ensures forall c :: c in cs ==> c < k && Kind(q, c) == v
  {
    if k == 0 then []
    else if Kind(q, k - 1) == v then Of(q, k - 1, v) + [k - 1]
    else Of(q, k - 1, v)
  }

  lemma {:induction false} KindsAdd(q: Clash, k: nat)
    requires Clashes(q) && k <= |q.a.rules|
    ensures |Of(q, k, 0)| + |Of(q, k, 1)| + |Of(q, k, 2)| == k
  {
    hide Clashes, Kind;
    if k > 0 {
      KindsAdd(q, k - 1);
    }
  }

  lemma {:induction false} OfGrows(q: Clash, k: nat, l: nat, v: nat)
    requires Clashes(q) && k <= l <= |q.a.rules|
    ensures Of(q, k, v) <= Of(q, l, v)
    decreases l
  {
    hide Clashes, Kind;
    if k < l {
      OfGrows(q, k, l - 1, v);
    }
  }

  /** A rule's rank among those of its kind. */
  lemma Rank(q: Clash, c: nat, l: nat)
    requires Clashes(q) && c < l <= |q.a.rules|
    ensures var v := Kind(q, c); |Of(q, c, v)| < |Of(q, l, v)| && Of(q, l, v)[|Of(q, c, v)|] == c
  {
    hide Clashes, Kind;
    OfGrows(q, c + 1, l, Kind(q, c));
  }

  /** Where the identities for a kind start in the list. */
  function Start(q: Clash, v: nat): nat
    requires Clashes(q) && v <= 3
  {
    if v == 0 then 0 else Start(q, v - 1) + |Of(q, |q.a.rules|, v - 1)|
  }

  lemma StartsAre(q: Clash)
    requires Clashes(q)
    ensures var m := |q.a.rules|;
            && Start(q, 0) == 0 && Start(q, 1) == |Of(q, m, 0)| && Start(q, 2) == Start(q, 1) + |Of(q, m, 1)|
            && Start(q, 3) == Start(q, 2) + |Of(q, m, 2)| == m
  {
    hide Clashes, Of;
    KindsAdd(q, |q.a.rules|);
    assert Start(q, 3) == Start(q, 2) + |Of(q, |q.a.rules|, 2)|;
  }

  /** Position p of the list is filled for this rule. */
  function Filled(q: Clash, p: nat): (c: nat)
    requires Clashes(q) && p < Start(q, 3)
    ensures c < |q.a.rules|
    ensures Kind(q, c) == if p < Start(q, 1) then 0 else if p < Start(q, 2) then 1 else 2
  {
    StartsAre(q);
    var m := |q.a.rules|;
    var v := if p < Start(q, 1) then 0 else if p < Start(q, 2) then 1 else 2;
    var cs := Of(q, m, v);
    assert p - Start(q, v) < |cs|;
    assert cs[p - Start(q, v)] in cs;
    cs[p - Start(q, v)]
  }

  /** All copies of x, then all of y, then the others. */
  function List(q: Clash): (ids: seq<Identity>)
    requires Clashes(q)
    ensures |ids| == Start(q, 3) && forall p :: 0 <= p < |ids| ==> ids[p] == Value(q, Filled(q, p))
  {
    seq(Start(q, 3), p requires 0 <= p < Start(q, 3) => Value(q, Filled(q, p)))
  }

  function Place(q: Clash, c: nat): nat
    requires Clashes(q) && c < |q.a.rules|
  {
    Start(q, Kind(q, c)) + |Of(q, c, Kind(q, c))|
  }

  lemma PlaceIs(q: Clash, c: nat)
    requires Clashes(q) && c < |q.a.rules|
    ensures Place(q, c) < Start(q, 3) && Filled(q, Place(q, c)) == c
  {
    hide Clashes, Kind, Of, Start;
    StartsAre(q);
    Rank(q, c, |q.a.rules|);
  }

  /** One signer per rule, all of them different, is a satisfying subtree. */
  lemma {:induction false} LeafParts(f: seq<nat>) returns (parts: seq<Part>)
    ensures |parts| == |f| == Chosen(parts) && AllLeaves(parts) == f
    ensures forall c :: 0 <= c < |f| ==> parts[c] == Counts(Leaf(f[c]))
  {
    if f == [] {
      parts := [];
    } else {
      var last := |f| - 1;
      var before := LeafParts(f[..last]);
      parts := before + [Counts(Leaf(f[last]))];
      assert parts[..last] == before && PartLeaves(parts[last]) == [f[last]];
      assert f == f[..last] + [f[last]];
    }
  }

  lemma PlaceProves(q: Clash, c: nat)
    requires Clashes(q) && c < |q.a.rules|
    ensures Place(q, c) < Start(q, 3) && Filled(q, Place(q, c)) == c
    ensures Proves(On(q.a, List(q)), q.a.rules[c], Leaf(Place(q, c)))
  {
    hide Kind, Of, Start, Place, Filled, Value;
    PlaceIs(q, c);
    assert CanSign(q.a, List(q)[Place(q, c)], c);
  }

  lemma AssignedProvable(s: Setting, rules: seq<Rule>, f: seq<nat>)
    requires |f| == |rules| && Distinct(f) && forall c :: 0 <= c < |f| ==> Proves(s, rules[c], Leaf(f[c]))
    ensures Provable(s, AllOf(rules))
  {
    hide Chosen, AllLeaves;
    var parts := LeafParts(f);
    var proof := Proof.Gate(parts);
    assert Proves(s, AllOf(rules), proof) && Leaves(proof) == f;
  }

  function Places(q: Clash): (f: seq<nat>)
    requires Clashes(q)
    ensures |f| == |q.a.rules| && forall c :: 0 <= c < |f| ==> f[c] == Place(q, c)
  {
    seq(|q.a.rules|, c requires 0 <= c < |q.a.rules| => Place(q, c))
  }

  lemma ClashProvable(q: Clash)
    requires Clashes(q)
    ensures Provable(On(q.a, List(q)), AllOf(q.a.rules))
  {
    hide Clashes, Kind, Of, Start, Place, Places, Filled, Value, List, On, Proves, Provable;
    var s, f := On(q.a, List(q)), Places(q);
    forall c | 0 <= c < |f|
      ensures f[c] < Start(q, 3) && Filled(q, f[c]) == c && Proves(s, q.a.rules[c], Leaf(f[c]))
    {
      PlaceProves(q, c);
    }
    AssignedProvable(s, q.a.rules, f);
  }

  // ---- the greedy run on it

  function Marked(u: seq<bool>, lo: nat, hi: nat): (n: nat)
    requires hi <= |u|
    ensures hi <= lo ==> n == 0
    ensures lo <= hi ==> n <= hi - lo
  {
    if hi <= lo then 0 else Marked(u, lo, hi - 1) + if u[hi - 1] then 1 else 0
  }

  lemma {:induction false} MarkOne(u: seq<bool>, g: nat, lo: nat, hi: nat)
    requires g < |u| && hi <= |u| && !u[g]
    ensures Marked(u[g := true], lo, hi) == Marked(u, lo, hi) + if lo <= g < hi then 1 else 0
  {
    if lo < hi {
      MarkOne(u, g, lo, hi - 1);
    }
  }

  lemma {:induction false} MarkedSplit(u: seq<bool>, lo: nat, mid: nat, hi: nat)
    requires lo <= mid <= hi <= |u|
    ensures Marked(u, lo, hi) == Marked(u, lo, mid) + Marked(u, mid, hi)
  {
    if mid < hi {
      MarkedSplit(u, lo, mid, hi - 1);
    }
  }

  lemma {:induction false} MarkedNone(u: seq<bool>, lo: nat, hi: nat)
    requires hi <= |u| && forall k :: 0 <= k < |u| ==> !u[k]
    ensures Marked(u, lo, hi) == 0
  {
    if lo < hi {
      MarkedNone(u, lo, hi - 1);
    }
  }

  lemma {:induction false} Unmarked(u: seq<bool>, hi: nat) returns (p: nat)
    requires hi <= |u| && Marked(u, 0, hi) < hi
    ensures p < hi && !u[p]
  {
    if u[hi - 1] {
      p := Unmarked(u, hi - 1);
    } else {
      p := hi - 1;
    }
  }

  /** What the marks are after k rules: one for each counted, copies of x for no more than the rules that
      could have them, and a copy of y short once rule i has had one of x. */
  ghost predicate Kept(q: Clash, k: nat, t: Tally)
    requires Clashes(q) && k <= |q.a.rules|
  {
    StartsAre(q);
    var x, y := Start(q, 1), Start(q, 2);
    && |t.used| == Start(q, 3)
    && Marked(t.used, 0, Start(q, 3)) == t.count
    && (k <= q.i ==> Marked(t.used, 0, x) <= |Of(q, k, 0)|)
    && Marked(t.used, x, y) + (if k > q.i then 1 else 0) <= |Of(q, k, 1)|
  }

  /** As long as rule i has not signed there is a copy of x left. */
  lemma CopyLeft(q: Clash, k: nat, t: Tally) returns (p: nat)
    requires Clashes(q) && k <= q.i && Kept(q, k, t)
    ensures p < Start(q, 1) <= |t.used| && !t.used[p]
  {
    StartsAre(q);
    OfGrows(q, k, q.j, 0);
    Rank(q, q.j, |q.a.rules|);
    p := Unmarked(t.used, Start(q, 1));
  }

  /** Rules up to i that x can sign for take a copy of x, and only rules of kind 1 take one of y. */
  lemma Takes(q: Clash, k: nat, t: Tally, g: nat)
    requires Clashes(q) && k < |q.a.rules| && Kept(q, k, t)
    requires g == Pick(On(q.a, List(q)), q.a.principals[q.a.rules[k].index], t.used, 0) < Start(q, 3)
    ensures k <= q.i && g < Start(q, 1) ==> k == q.i || Kind(q, k) == 0
    ensures Start(q, 1) <= g < Start(q, 2) ==> k != q.i && Kind(q, k) == 1
  {
    hide Of, Start, Kept, Pick;
    StartsAre(q);
    assert CanSign(q.a, List(q)[g], k);
    if k <= q.i && CanSign(q.a, q.x, k) {
      var p := CopyLeft(q, k, t);
      assert CanSign(q.a, List(q)[p], k);
    }
  }

  /** Nobody signs for rule k. */
  lemma KeptWithout(q: Clash, k: nat, t: Tally)
    requires Clashes(q) && k < |q.a.rules| && Kept(q, k, t)
    ensures Kept(q, k + 1, t)
  {
    hide Start, Marked, List;
  }

  /** Position g signs for rule k. */
  lemma KeptWith(q: Clash, k: nat, t: Tally, g: nat)
    requires Clashes(q) && k < |q.a.rules| && Kept(q, k, t) && g < |t.used| == Start(q, 3) && !t.used[g]
    requires k <= q.i && g < Start(q, 1) ==> k == q.i || Kind(q, k) == 0
    requires Start(q, 1) <= g < Start(q, 2) ==> k != q.i && Kind(q, k) == 1
    ensures Kept(q, k + 1, Tally(t.count + 1, t.used[g := true]))
  {
    hide Clashes, Kind, Start, Marked;
    StartsAre(q);
    MarkOne(t.used, g, 0, Start(q, 3));
    MarkOne(t.used, g, 0, Start(q, 1));
    MarkOne(t.used, g, Start(q, 1), Start(q, 2));
    KindOfFirst(q);
  }

  lemma KindOfFirst(q: Clash)
    requires Clashes(q)
    ensures Kind(q, q.i) == 1
  {
  }

  lemma StepKeeps(q: Clash, k: nat, t: Tally)
    requires Clashes(q) && k < |q.a.rules| && Kept(q, k, t)
    ensures Compiles(q.a.rules[k], |q.a.principals|) && |t.used| == |List(q)|
    ensures var o := Eval(On(q.a, List(q)), q.a.rules[k], t.used);
            Kept(q, k + 1, if o.ok then Tally(t.count + 1, o.used) else t)
  {
    var s := On(q.a, List(q));
    var g := Pick(s, q.a.principals[q.a.rules[k].index], t.used, 0);
    hide Clashes, Start, List, Marked, Of, Kind;
    if g < |s.ids| {
      Takes(q, k, t, g);
      KeptWith(q, k, t, g);
    } else {
      KeptWithout(q, k, t);
    }
  }

  lemma KeptAtFirst(q: Clash)
    requires Clashes(q)
    ensures Kept(q, 0, Tally(0, Unused(Start(q, 3))))
  {
    hide Clashes, Start, List;
    StartsAre(q);
    var used := Unused(Start(q, 3));
    MarkedNone(used, 0, Start(q, 3));
    MarkedNone(used, 0, Start(q, 1));
    MarkedNone(used, Start(q, 1), Start(q, 2));
  }

  lemma {:induction false} RunKeeps(q: Clash, k: nat)
    requires Clashes(q) && k <= |q.a.rules|
    requires forall r :: r in q.a.rules[..k] ==> Compiles(r, |q.a.principals|)
    ensures Kept(q, k, EvalAll(On(q.a, List(q)), q.a.rules[..k], Unused(Start(q, 3))))
  {
    hide Clashes, Start, List, Kept, Compiles, Eval, EvalAll;
    var s, used := On(q.a, List(q)), Unused(Start(q, 3));
    if k == 0 {
      KeptAtFirst(q);
      NoRules(s, used);
    } else {
      RunKeeps(q, k - 1);
      var r, t := q.a.rules[k - 1], EvalAll(s, q.a.rules[..k - 1], used);
      assert q.a.rules[..k] == q.a.rules[..k - 1] + [r];
      EvalAllStep(s, q.a.rules[..k - 1], r, used);
      StepKeeps(q, k - 1, t);
    }
  }

  /** After all rules a copy of y is left, so that one rule went without. */
  lemma KeptTooFew(q: Clash, t: Tally)
    requires Clashes(q) && Kept(q, |q.a.rules|, t)
    ensures t.count < |q.a.rules|
  {
    hide Start, Of;
    StartsAre(q);
    MarkedSplit(t.used, 0, Start(q, 1), Start(q, 3));
    MarkedSplit(t.used, Start(q, 1), Start(q, 2), Start(q, 3));
  }

  lemma ClashRefused(q: Clash)
    requires Clashes(q)
    ensures Compiles(AllOf(q.a.rules), |q.a.principals|)
    ensures !Eval(On(q.a, List(q)), AllOf(q.a.rules), Unused(|List(q)|)).ok
  {
    hide Start, List, Kept, EvalAll;
    var rules := q.a.rules;
    assert rules[..|rules|] == rules;
    RunKeeps(q, |rules|);
    KeptTooFew(q, EvalAll(On(q.a, List(q)), rules, Unused(Start(q, 3))));
  }

  /** All of the signatures are found on every list, whenever they are to be found, if and only if
      somebody is missing for good or the principals are in order. */
  lemma AllOfExact(a: Joint)
    requires Signatures(a.rules, |a.principals|)
    ensures Compiles(AllOf(a.rules), |a.principals|)
    ensures (forall ids :: Eval(On(a, ids), AllOf(a.rules), Unused(|ids|)).ok <==> Provable(On(a, ids), AllOf(a.rules)))
       <==> (exists c: nat :: c < |a.rules| && Hopeless(a, c)) || Ordered(a)
  {
    hide Eval, Provable, Hopeless, Ordered;
    if c: nat :| c < |a.rules| && Hopeless(a, c) {
      forall ids ensures !Eval(On(a, ids), AllOf(a.rules), Unused(|ids|)).ok && !Provable(On(a, ids), AllOf(a.rules)) {
        HopelessFails(a, c, ids);
      }
    } else if Ordered(a) {
      forall ids ensures Eval(On(a, ids), AllOf(a.rules), Unused(|ids|)).ok <==> Provable(On(a, ids), AllOf(a.rules)) {
        OrderedFinds(a, |a.rules|, ids);
      }
    } else {
      var q := ClashOf(a);
      ClashProvable(q);
      ClashRefused(q);
    }
  }

  /** Nobody for one of the rules is nobody for all. */
  lemma HopelessFails(a: Joint, c: nat, ids: seq<Identity>)
    requires Signatures(a.rules, |a.principals|) && c < |a.rules| && Hopeless(a, c)
    ensures Compiles(AllOf(a.rules), |a.principals|)
    ensures !Provable(On(a, ids), AllOf(a.rules)) && !Eval(On(a, ids), AllOf(a.rules), Unused(|ids|)).ok
  {
    hide Eval, EvalAll, Leaves;
    var s := On(a, ids);
    if Eval(s, AllOf(a.rules), Unused(|ids|)).ok {
      var proof := AcceptedHasProof(s, AllOf(a.rules), Unused(|ids|));
      HopelessUnproved(a, c, ids, proof);
    } else if Provable(s, AllOf(a.rules)) {
      var proof :| Proves(s, AllOf(a.rules), proof) && Distinct(Leaves(proof));
      HopelessUnproved(a, c, ids, proof);
    }
  }

  lemma HopelessUnproved(a: Joint, c: nat, ids: seq<Identity>, proof: Proof)
    requires Signatures(a.rules, |a.principals|) && c < |a.rules| && Hopeless(a, c)
    ensures !Proves(On(a, ids), AllOf(a.rules), proof)
  {
    var s := On(a, ids);
    if Proves(s, AllOf(a.rules), proof) {
      AllChosen(proof.parts, c);
      assert Proves(s, a.rules[c], proof.parts[c].proof);
      assert CanSign(a, ids[proof.parts[c].proof.signer], c);
    }
  }

  lemma {:induction false} AllChosen(parts: seq<Part>, c: nat)
    requires Chosen(parts) >= |parts| && c < |parts|
    ensures parts[c].Counts?
    decreases |parts|
  {
    var last := |parts| - 1;
    ChosenAtMost(parts[..last]);
    if c < last {
      AllChosen(parts[..last], c);
    }
  }

  lemma {:induction false} ChosenAtMost(parts: seq<Part>)
    ensures Chosen(parts) <= |parts|
    decreases |parts|
  {
    if parts != [] {
      ChosenAtMost(parts[..|parts| - 1]);
    }
  }

  lemma ClashOf(a: Joint) returns (q: Clash)
    requires Signatures(a.rules, |a.principals|) && !Ordered(a)
    requires forall c: nat :: c < |a.rules| ==> !Hopeless(a, c)
    ensures Clashes(q) && q.a == a
  {
    var i: nat, j: nat :| i < j < |a.rules| && !Narrower(a, i, j);
    var x :| CanSign(a, x, i) && CanSign(a, x, j);
    var y :| CanSign(a, y, i) && !CanSign(a, y, j);
    var w := Somebody(a, |a.rules|);
    q := Clash(a, i, j, x, y, w);
  }

  lemma {:induction false} Somebody(a: Joint, k: nat) returns (w: seq<Identity>)
    requires Signatures(a.rules, |a.principals|) && k <= |a.rules|
    requires forall c: nat :: c < |a.rules| ==> !Hopeless(a, c)
    ensures |w| == k && forall c: nat :: c < k ==> CanSign(a, w[c], c)
  {
    if k == 0 {
      w := [];
    } else {
      var before := Somebody(a, k - 1);
      assert !Hopeless(a, k - 1);
      var z :| CanSign(a, z, k - 1);
      w := before + [z];
    }
  }
}
