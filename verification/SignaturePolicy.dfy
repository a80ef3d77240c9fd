/** Signature policies: the evaluators compile builds (common/cauthdsl/cauthdsl.go), the check of a
    signature set (common/cauthdsl/policy.go) and the identities it is evaluated on. */
module SignaturePolicy {
  import opened Basics

  /** classification is the protocol buffer enumeration value, content the principal's bytes. */
  datatype Principal = Principal(classification: int, content: string)

  datatype Identity = Identity(mspid: string, id: string, certificate: Bytes)

  /** A nil rule and a rule of an unknown kind are both Other. */
  datatype Rule = SignedBy(index: int) | NOutOf(n: int, rules: seq<Rule>) | Other

  datatype Envelope = Envelope(principals: seq<Principal>, rule: Rule)

  /** What an evaluation looks at: the principals rules point to, the identities offered, and which
      identity satisfies which principal. */
  datatype Setting = Setting(principals: seq<Principal>, ids: seq<Identity>, sat: (Identity, Principal) -> bool)

  datatype Outcome = Outcome(ok: bool, used: seq<bool>)

  datatype Tally = Tally(count: nat, used: seq<bool>)

  /** compile succeeds on the rule for a list of that many principals. */
  predicate Compiles(rule: Rule, principals: nat)
  {
    match rule
    case SignedBy(i) => 0 <= i < principals
    case NOutOf(_, rules) => forall r :: r in rules ==> Compiles(r, principals)
    case Other => false
  }

  /** The first identity from k on that is not used and satisfies the principal. */
  function Pick(s: Setting, p: Principal, used: seq<bool>, k: nat): (r: nat)
    requires k <= |s.ids| == |used|
    ensures k <= r <= |s.ids|
    ensures forall j :: k <= j < r ==> used[j] || !s.sat(s.ids[j], p)
    ensures r < |s.ids| ==> !used[r] && s.sat(s.ids[r], p)
    decreases |s.ids| - k
  {
    if k < |s.ids| && (used[k] || !s.sat(s.ids[k], p)) then Pick(s, p, used, k + 1) else k
  }

  /** What an evaluator answers, and how it leaves the used marks. */
  function Eval(s: Setting, rule: Rule, used: seq<bool>): (r: Outcome)
    requires Compiles(rule, |s.principals|) && |used| == |s.ids|
    ensures |r.used| == |s.ids|
    decreases rule
  {
    match rule
    case SignedBy(i) =>
      var k := Pick(s, s.principals[i], used, 0);
      if k < |s.ids| then Outcome(true, used[k := true]) else Outcome(false, used)
    case NOutOf(n, rules) =>
      var t := EvalAll(s, rules, used);
      Outcome(t.count >= n, t.used)
  }

  /** The gate's loop: rules that fail leave the marks as they were. */
  function EvalAll(s: Setting, rules: seq<Rule>, used: seq<bool>): (r: Tally)
    requires (forall r :: r in rules ==> Compiles(r, |s.principals|)) && |used| == |s.ids|
    ensures |r.used| == |s.ids| && r.count <= |rules|
    decreases rules
  {
    if rules == [] then Tally(0, used)
    else
      var last := |rules| - 1;
      var t := EvalAll(s, rules[..last], used);
      var o := Eval(s, rules[last], t.used);
      if o.ok then Tally(t.count + 1, o.used) else t
  }

  /** The evaluators, as they run on the array of used marks. */
  method Evaluate(s: Setting, rule: Rule, used: array<bool>) returns (ok: bool)
    requires Compiles(rule, |s.principals|) && used.Length == |s.ids|
    modifies used
    ensures Outcome(ok, used[..]) == Eval(s, rule, old(used[..]))
    decreases rule
  {
    match rule {
      case SignedBy(i) =>
        var k := 0;
        while k < |s.ids|
          invariant 0 <= k <= |s.ids| && used[..] == old(used[..])
          invariant Pick(s, s.principals[i], used[..], 0) == Pick(s, s.principals[i], used[..], k)
        {
          if !used[k] && s.sat(s.ids[k], s.principals[i]) {
            used[k] := true;
            return true;
          }
          k := k + 1;
        }
        return false;
      case NOutOf(n, rules) =>
        var verified := 0;
        var mine := new bool[used.Length];
        var i := 0;
        while i < |rules|
          invariant 0 <= i <= |rules| && fresh(mine) && mine.Length == used.Length
          invariant Tally(verified, used[..]) == EvalAll(s, rules[..i], old(used[..]))
        {
          CopyMarks(mine, used);
          var good := Evaluate(s, rules[i], mine);
          assert rules[..i + 1][..i] == rules[..i];
          if good {
            verified := verified + 1;
            CopyMarks(used, mine);
          }
          i := i + 1;
        }
        assert rules[..i] == rules;
        return verified >= n;
    }
  }

  method CopyMarks(to: array<bool>, from: array<bool>)
    requires to.Length == from.Length
    modifies to
    ensures to[..] == old(from[..])
  {
    forall k | 0 <= k < to.Length {
      to[k] := from[k];
    }
  }

  // ---- why an accepted policy is satisfied

  /** A satisfying subtree: for a leaf the signer chosen for it, for a gate the subtrees of the
      sub-rules that count towards it. */
  datatype Proof = Leaf(signer: nat) | Gate(parts: seq<Part>)

  datatype Part = Failed | Counts(proof: Proof)

  predicate Proves(s: Setting, rule: Rule, proof: Proof)
    decreases proof
  {
    match rule
    case SignedBy(i) =>
      && 0 <= i < |s.principals|
      && proof.Leaf?
      && proof.signer < |s.ids|
      && s.sat(s.ids[proof.signer], s.principals[i])
    case NOutOf(n, rules) =>
      && proof.Gate?
      && |proof.parts| == |rules|
      && Chosen(proof.parts) >= n
      && (forall k :: 0 <= k < |rules| && proof.parts[k].Counts? ==> Proves(s, rules[k], proof.parts[k].proof))
    case Other => false
  }

  function Chosen(parts: seq<Part>): nat
  {
    if parts == [] then 0
    else Chosen(parts[..|parts| - 1]) + if parts[|parts| - 1].Counts? then 1 else 0
  }

  /** The signers at the leaves, from left to right. */
  function Leaves(proof: Proof): seq<nat>
    decreases proof
  {
    match proof
    case Leaf(k) => [k]
    case Gate(parts) => AllLeaves(parts)
  }

  function AllLeaves(parts: seq<Part>): seq<nat>
    decreases parts
  {
    if parts == [] then []
    else
      var last := |parts| - 1;
      AllLeaves(parts[..last]) + PartLeaves(parts[last])
  }

  function PartLeaves(part: Part): seq<nat>
    decreases part
  {
    if part.Failed? then [] else Leaves(part.proof)
  }

  predicate Distinct<T(==)>(s: seq<T>)
  {
    forall i, j :: 0 <= i < j < |s| ==> s[i] != s[j]
  }

  /** The leaves are all different, were all free before, and are exactly what the run marked. */
  predicate Marks(leaves: seq<nat>, before: seq<bool>, after: seq<bool>)
  {
    && |before| == |after|
    && Distinct(leaves)
    && (forall l :: l in leaves ==> l < |before| && !before[l])
    && (forall k :: 0 <= k < |before| ==> after[k] == (before[k] || k in leaves))
  }

  lemma MarksJoin(a: seq<nat>, b: seq<nat>, u0: seq<bool>, u1: seq<bool>, u2: seq<bool>)
    requires Marks(a, u0, u1) && Marks(b, u1, u2)
    ensures Marks(a + b, u0, u2)
  {
    forall i, j | 0 <= i < j < |a + b| ensures (a + b)[i] != (a + b)[j] {
      if i < |a| <= j {
        assert a[i] in a && b[j - |a|] in b;
      }
    }
    forall k | 0 <= k < |u0| ensures u2[k] == (u0[k] || k in a + b) {
      assert k in a + b <==> k in a || k in b;
    }
  }

  /** If the evaluator accepts there is a satisfying subtree whose leaves are different, previously
      unused signers, and the marks added are exactly those leaves. */
  lemma {:induction false} AcceptedHasProof(s: Setting, rule: Rule, used: seq<bool>) returns (proof: Proof)
    requires Compiles(rule, |s.principals|) && |used| == |s.ids|
    requires Eval(s, rule, used).ok
    ensures Proves(s, rule, proof)
    ensures Marks(Leaves(proof), used, Eval(s, rule, used).used)
    decreases rule
  {
    match rule {
      case SignedBy(i) =>
        proof := Leaf(Pick(s, s.principals[i], used, 0));
      case NOutOf(n, rules) =>
        var parts := TallyHasProofs(s, rules, used);
        proof := Gate(parts);
    }
  }

  lemma {:induction false} TallyHasProofs(s: Setting, rules: seq<Rule>, used: seq<bool>)
    returns (parts: seq<Part>)
    requires (forall r :: r in rules ==> Compiles(r, |s.principals|)) && |used| == |s.ids|
    ensures |parts| == |rules|
    ensures Chosen(parts) == EvalAll(s, rules, used).count
    ensures forall k :: 0 <= k < |rules| && parts[k].Counts? ==> Proves(s, rules[k], parts[k].proof)
    ensures Marks(AllLeaves(parts), used, EvalAll(s, rules, used).used)
    decreases rules
  {
    hide Marks, Compiles;
    if rules == [] {
      parts := [];
      NothingMarked(used);
    } else {
      var last := |rules| - 1;
      var before := TallyHasProofs(s, rules[..last], used);
      var t := EvalAll(s, rules[..last], used);
      if Eval(s, rules[last], t.used).ok {
        var proof := AcceptedHasProof(s, rules[last], t.used);
        parts := before + [Counts(proof)];
        assert parts[..last] == before;
        MarksJoin(AllLeaves(before), Leaves(proof), used, t.used, Eval(s, rules[last], t.used).used);
      } else {
        parts := before + [Failed];
        assert parts[..last] == before;
        assert AllLeaves(parts) == AllLeaves(before);
      }
    }
  }

  lemma NothingMarked(used: seq<bool>)
    ensures Marks([], used, used)
  {
  }

  // ---- what an evaluation depends on

  /** Identity k satisfies a principal the rule refers to. */
  predicate Touches(s: Setting, rule: Rule, k: nat)
    requires Compiles(rule, |s.principals|) && k < |s.ids|
    decreases rule
  {
    match rule
    case SignedBy(i) => s.sat(s.ids[k], s.principals[i])
    case NOutOf(_, rules) => TouchesAny(s, rules, k)
  }

  predicate TouchesAny(s: Setting, rules: seq<Rule>, k: nat)
    requires (forall r :: r in rules ==> Compiles(r, |s.principals|)) && k < |s.ids|
    decreases rules
  {
    var last := |rules| - 1;
    rules != [] && (TouchesAny(s, rules[..last], k) || Touches(s, rules[last], k))
  }

  lemma EvalAllStep(s: Setting, before: seq<Rule>, rule: Rule, used: seq<bool>)
    requires (forall r :: r in before ==> Compiles(r, |s.principals|)) && Compiles(rule, |s.principals|)
    requires |used| == |s.ids|
    ensures var t := EvalAll(s, before, used);
            var o := Eval(s, rule, t.used);
            EvalAll(s, before + [rule], used) == if o.ok then Tally(t.count + 1, o.used) else t
    ensures forall k: nat :: k < |s.ids| ==>
              TouchesAny(s, before + [rule], k) == (TouchesAny(s, before, k) || Touches(s, rule, k))
  {
    hide Eval, Touches, Compiles;
    assert (before + [rule])[..|before|] == before;
  }

  lemma NoRules(s: Setting, used: seq<bool>)
    requires |used| == |s.ids|
    ensures EvalAll(s, [], used) == Tally(0, used)
    ensures forall k: nat :: k < |s.ids| ==> !TouchesAny(s, [], k)
  {
  }

  /** An evaluation neither changes nor looks at the marks of identities its rule does not touch. */
  lemma {:induction false} EvalLocal(s: Setting, rule: Rule, u: seq<bool>, v: seq<bool>)
    requires Compiles(rule, |s.principals|) && |u| == |v| == |s.ids|
    requires forall k: nat :: k < |s.ids| && Touches(s, rule, k) ==> u[k] == v[k]
    ensures Eval(s, rule, u).ok == Eval(s, rule, v).ok
    ensures forall k: nat :: k < |u| ==>
              || (Eval(s, rule, u).used[k] == u[k] && Eval(s, rule, v).used[k] == v[k])
              || (Eval(s, rule, u).used[k] == Eval(s, rule, v).used[k] && Touches(s, rule, k))
    decreases rule
  {
    match rule {
      case SignedBy(i) =>
        PickLocal(s, s.principals[i], u, v, 0);
      case NOutOf(_, rules) =>
        EvalAllLocal(s, rules, u, v);
    }
  }

  lemma {:induction false} PickLocal(s: Setting, p: Principal, u: seq<bool>, v: seq<bool>, k: nat)
    requires |u| == |v| == |s.ids| && k <= |s.ids|
    requires forall j :: 0 <= j < |s.ids| && s.sat(s.ids[j], p) ==> u[j] == v[j]
    ensures Pick(s, p, u, k) == Pick(s, p, v, k)
    decreases |s.ids| - k
  {
    if k < |s.ids| {
      PickLocal(s, p, u, v, k + 1);
    }
  }

  lemma {:induction false} EvalAllLocal(s: Setting, rules: seq<Rule>, u: seq<bool>, v: seq<bool>)
    requires (forall r :: r in rules ==> Compiles(r, |s.principals|)) && |u| == |v| == |s.ids|
    requires forall k: nat :: k < |s.ids| && TouchesAny(s, rules, k) ==> u[k] == v[k]
    ensures EvalAll(s, rules, u).count == EvalAll(s, rules, v).count
    ensures forall k: nat :: k < |u| ==>
              || (EvalAll(s, rules, u).used[k] == u[k] && EvalAll(s, rules, v).used[k] == v[k])
              || (EvalAll(s, rules, u).used[k] == EvalAll(s, rules, v).used[k] && TouchesAny(s, rules, k))
    decreases rules
  {
    if rules != [] {
      var last := |rules| - 1;
      EvalAllLocal(s, rules[..last], u, v);
      var t, t' := EvalAll(s, rules[..last], u), EvalAll(s, rules[..last], v);
      EvalLocal(s, rules[last], t.used, t'.used);
    }
  }

  // ---- when the greedy evaluator finds every satisfying subtree

  /** No identity touches two different rules. */
  ghost predicate Disjoint(s: Setting, rules: seq<Rule>)
    requires forall r :: r in rules ==> Compiles(r, |s.principals|)
  {
    forall i, j, k: nat :: 0 <= i < j < |rules| && k < |s.ids| ==>
      !(Touches(s, rules[i], k) && Touches(s, rules[j], k))
  }

  /** All rules are signatures, and of any two the earlier shares no identity with the later, or every
      identity that satisfies it satisfies the later one too. */
  ghost predicate Narrowing(s: Setting, rules: seq<Rule>)
    requires forall r :: r in rules ==> Compiles(r, |s.principals|)
  {
    && (forall r :: r in rules ==> r.SignedBy?)
    && (forall i, j :: 0 <= i < j < |rules| ==> Unshared(s, rules[i], rules[j]) || Within(s, rules[i], rules[j]))
  }

  ghost predicate Unshared(s: Setting, a: Rule, b: Rule)
    requires Compiles(a, |s.principals|) && Compiles(b, |s.principals|)
  {
    forall k: nat :: k < |s.ids| ==> !(Touches(s, a, k) && Touches(s, b, k))
  }

  ghost predicate Within(s: Setting, a: Rule, b: Rule)
    requires Compiles(a, |s.principals|) && Compiles(b, |s.principals|)
  {
    forall k: nat :: k < |s.ids| && Touches(s, a, k) ==> Touches(s, b, k)
  }

  /** At every gate that asks for two or more, no identity touches two different sub-rules, or the
      sub-rules are signatures that go from the narrower to the wider. */
  ghost predicate Lone(s: Setting, rule: Rule)
    requires Compiles(rule, |s.principals|)
    decreases rule
  {
    rule.NOutOf? ==>
      && (rule.n >= 2 ==> Disjoint(s, rule.rules) || Narrowing(s, rule.rules))
      && forall r :: r in rule.rules ==> Lone(s, r)
  }

  /** Different signers, none of them used. */
  predicate Free(leaves: seq<nat>, used: seq<bool>)
  {
    Distinct(leaves) && forall l :: l in leaves ==> l < |used| && !used[l]
  }

  lemma {:induction false} TouchesAnyOne(s: Setting, rules: seq<Rule>, k: nat) returns (i: nat)
    requires (forall r :: r in rules ==> Compiles(r, |s.principals|)) && k < |s.ids| && TouchesAny(s, rules, k)
    ensures i < |rules| && Touches(s, rules[i], k)
    decreases rules
  {
    i := |rules| - 1;
    if !Touches(s, rules[i], k) {
      i := TouchesAnyOne(s, rules[..i], k);
    }
  }

  lemma OnlyLast(s: Setting, rules: seq<Rule>, k: nat)
    requires (forall r :: r in rules ==> Compiles(r, |s.principals|)) && k < |s.ids|
    requires rules != [] && Disjoint(s, rules) && Touches(s, rules[|rules| - 1], k)
    ensures !TouchesAny(s, rules[..|rules| - 1], k)
  {
    hide Touches, TouchesAny;
    if TouchesAny(s, rules[..|rules| - 1], k) {
      var i := TouchesAnyOne(s, rules[..|rules| - 1], k);
    }
  }

  /** A rule disjoint from the rules run before it answers as it would have before them. */
  lemma DisjointAnswers(s: Setting, rules: seq<Rule>, used: seq<bool>)
    requires (forall r :: r in rules ==> Compiles(r, |s.principals|)) && |used| == |s.ids|
    requires rules != [] && Disjoint(s, rules)
    ensures var last := |rules| - 1;
            Eval(s, rules[last], EvalAll(s, rules[..last], used).used).ok == Eval(s, rules[last], used).ok
  {
    hide Eval, EvalAll, Touches, TouchesAny;
    var last := |rules| - 1;
    var before := EvalAll(s, rules[..last], used);
    EvalAllLocal(s, rules[..last], used, used);
    forall k: nat | k < |s.ids| && Touches(s, rules[last], k) ensures before.used[k] == used[k] {
      OnlyLast(s, rules, k);
    }
    EvalLocal(s, rules[last], before.used, used);
  }

  /** As long as nothing has been counted nothing has been marked. */
  lemma {:induction false} NothingCounted(s: Setting, rules: seq<Rule>, used: seq<bool>)
    requires (forall r :: r in rules ==> Compiles(r, |s.principals|)) && |used| == |s.ids|
    ensures EvalAll(s, rules, used).count == 0 ==> EvalAll(s, rules, used).used == used
    decreases rules
  {
    hide Eval;
    if rules != [] {
      NothingCounted(s, rules[..|rules| - 1], used);
    }
  }

  lemma FreeParts(a: seq<nat>, b: seq<nat>, used: seq<bool>)
    requires Free(a + b, used)
    ensures Free(a, used) && Free(b, used) && forall l :: l in b ==> l !in a
  {
    assert forall i :: 0 <= i < |a| ==> (a + b)[i] == a[i];
    assert forall i :: 0 <= i < |b| ==> (a + b)[|a| + i] == b[i];
    assert forall l :: l in a || l in b ==> l in a + b;
  }

  lemma LeavesOfPart(parts: seq<Part>, used: seq<bool>)
    requires parts != [] && Free(AllLeaves(parts), used)
    ensures Free(AllLeaves(parts[..|parts| - 1]), used)
    ensures parts[|parts| - 1].Counts? ==> Free(Leaves(parts[|parts| - 1].proof), used)
  {
    var last := |parts| - 1;
    var a, b := AllLeaves(parts[..last]), PartLeaves(parts[last]);
    assert AllLeaves(parts) == a + b;
    FreeParts(a, b, used);
  }

  // ---- a gate of signatures

  /** For each of the rules a free position of the list, or -1 for none. */
  predicate Partial(s: Setting, rules: seq<Rule>, used: seq<bool>, f: seq<int>)
    requires (forall r :: r in rules ==> Compiles(r, |s.principals|)) && |used| == |s.ids|
  {
    && |f| == |rules|
    && (forall c :: 0 <= c < |f| && f[c] != -1 ==> 0 <= f[c] < |s.ids| && !used[f[c]] && Touches(s, rules[c], f[c]))
    && (forall c, d :: 0 <= c < d < |f| && f[c] != -1 ==> f[c] != f[d])
  }

  function Size(f: seq<int>): nat
  {
    if f == [] then 0 else Size(f[1..]) + if f[0] != -1 then 1 else 0
  }

  lemma {:induction false} SizeUpdate(f: seq<int>, j: nat, v: int)
    requires j < |f|
    ensures Size(f[j := v]) == Size(f) + (if v != -1 then 1 else 0) - (if f[j] != -1 then 1 else 0)
  {
    if j == 0 {
      assert f[0 := v][1..] == f[1..];
    } else {
      SizeUpdate(f[1..], j - 1, v);
      assert f[j := v][1..] == f[1..][j - 1 := v];
    }
  }

  lemma {:induction false} SizeLast(f: seq<int>, v: int)
    ensures Size(f + [v]) == Size(f) + if v != -1 then 1 else 0
  {
    if f != [] {
      SizeLast(f[1..], v);
      assert (f + [v])[1..] == f[1..] + [v];
    }
  }

  /** Position g goes to the first rule. If another one had it, that one gets the position the first had,
      which its wider principal allows. */
  lemma Exchange(s: Setting, rules: seq<Rule>, used: seq<bool>, f: seq<int>, g: nat) returns (rest: seq<int>)
    requires (forall r :: r in rules ==> Compiles(r, |s.principals|)) && |used| == |s.ids|
    requires rules != [] && Narrowing(s, rules) && Partial(s, rules, used, f)
    requires g < |s.ids| && !used[g] && Touches(s, rules[0], g)
    ensures Partial(s, rules[1..], used[g := true], rest) && 1 + Size(rest) >= Size(f)
  {
    hide Touches, Compiles;
    rest := f[1..];
    if j :| 0 <= j < |rest| && rest[j] == g {
      assert Touches(s, rules[j + 1], g) && Within(s, rules[0], rules[j + 1]);
      SizeUpdate(rest, j, f[0]);
      rest := rest[j := f[0]];
    }
  }

  /** No assignment of free signers to such rules beats the greedy count. */
  lemma {:induction false} GreedyBest(s: Setting, before: seq<Rule>, rules: seq<Rule>, used: seq<bool>, f: seq<int>)
    requires forall r :: r in before + rules ==> Compiles(r, |s.principals|)
    requires (forall r :: r in before ==> Compiles(r, |s.principals|)) && (forall r :: r in rules ==> Compiles(r, |s.principals|))
    requires |used| == |s.ids| && Narrowing(s, rules) && Partial(s, rules, EvalAll(s, before, used).used, f)
    ensures EvalAll(s, before + rules, used).count >= EvalAll(s, before, used).count + Size(f)
    decreases |rules|
  {
    hide EvalAll, Compiles;
    if rules == [] {
      assert before + rules == before;
    } else {
      var r, t := rules[0], EvalAll(s, before, used);
      EvalAllStep(s, before, r, used);
      var g := Signer(s, r, t.used);
      var rest := f[1..];
      if g < |s.ids| {
        rest := Exchange(s, rules, t.used, f, g);
      }
      assert before + rules == before + [r] + rules[1..];
      GreedyBest(s, before + [r], rules[1..], used, rest);
    }
  }

  /** Who signs for a signature rule, and that nobody does only if nobody could. */
  lemma Signer(s: Setting, r: Rule, used: seq<bool>) returns (g: nat)
    requires Compiles(r, |s.principals|) && r.SignedBy? && |used| == |s.ids|
    ensures Eval(s, r, used) == if g < |s.ids| then Outcome(true, used[g := true]) else Outcome(false, used)
    ensures g < |s.ids| ==> !used[g] && Touches(s, r, g)
    ensures g >= |s.ids| ==> forall k: nat :: k < |s.ids| && Touches(s, r, k) ==> used[k]
  {
    g := Pick(s, s.principals[r.index], used, 0);
  }

  lemma PartialMore(s: Setting, rules: seq<Rule>, used: seq<bool>, before: seq<int>, v: int)
    requires (forall r :: r in rules ==> Compiles(r, |s.principals|)) && |used| == |s.ids| && rules != []
    requires Partial(s, rules[..|rules| - 1], used, before)
    requires v == -1 || (0 <= v < |s.ids| && !used[v] && Touches(s, rules[|rules| - 1], v) && v !in before)
    ensures Partial(s, rules, used, before + [v])
  {
    hide Touches, Compiles;
  }

  /** Who signs in a part that counts. */
  lemma PartSigner(s: Setting, r: Rule, part: Part, used: seq<bool>) returns (v: int)
    requires r.SignedBy? && Compiles(r, |s.principals|) && |used| == |s.ids| && Free(PartLeaves(part), used)
    requires part.Counts? ==> Proves(s, r, part.proof)
    ensures v != -1 <==> part.Counts?
    ensures v == -1 || (0 <= v < |s.ids| && !used[v] && Touches(s, r, v) && v in PartLeaves(part))
  {
    if part.Counts? {
      assert part.proof.signer in PartLeaves(part);
      v := part.proof.signer;
    } else {
      v := -1;
    }
  }

  /** The signers of a satisfying subtree, rule by rule. */
  lemma {:induction false} Assignment(s: Setting, rules: seq<Rule>, parts: seq<Part>, used: seq<bool>) returns (f: seq<int>)
    requires (forall r :: r in rules ==> r.SignedBy? && Compiles(r, |s.principals|)) && |used| == |s.ids|
    requires |parts| == |rules| && Free(AllLeaves(parts), used)
    requires forall k :: 0 <= k < |rules| && parts[k].Counts? ==> Proves(s, rules[k], parts[k].proof)
    ensures Partial(s, rules, used, f) && Size(f) == Chosen(parts)
    ensures forall v :: v in f && v != -1 ==> v >= 0 && v in AllLeaves(parts)
    decreases |rules|
  {
    hide Partial, Compiles, Proves, Touches, Size, PartLeaves, Free;
    if rules == [] {
      f := [];
      NoneAssigned(s, used);
    } else {
      var last := |rules| - 1;
      var a, b := AllLeaves(parts[..last]), PartLeaves(parts[last]);
      assert AllLeaves(parts) == a + b;
      FreeParts(a, b, used);
      var before := Assignment(s, rules[..last], parts[..last], used);
      var v := PartSigner(s, rules[last], parts[last], used);
      PartialMore(s, rules, used, before, v);
      SizeLast(before, v);
      f := before + [v];
    }
  }

  lemma NoneAssigned(s: Setting, used: seq<bool>)
    requires |used| == |s.ids|
    ensures Partial(s, [], used, []) && Size([]) == 0
  {
  }

  /** At such gates every satisfying subtree of unused signers is enough. */
  lemma {:induction false} ProvedIsAccepted(s: Setting, rule: Rule, proof: Proof, used: seq<bool>)
    requires Compiles(rule, |s.principals|) && |used| == |s.ids| && Lone(s, rule)
    requires Proves(s, rule, proof) && Free(Leaves(proof), used)
    ensures Eval(s, rule, used).ok
    decreases rule
  {
    match rule {
      case SignedBy(i) =>
        assert proof.signer in Leaves(proof);
      case NOutOf(n, rules) =>
        if n >= 2 && Narrowing(s, rules) {
          SignaturesCounted(s, rules, proof.parts, used);
        } else if n >= 2 {
          ProvedAreCounted(s, rules, proof.parts, used);
        } else if n == 1 {
          OneIsCounted(s, rules, proof.parts, used);
        }
    }
  }

  lemma SignaturesCounted(s: Setting, rules: seq<Rule>, parts: seq<Part>, used: seq<bool>)
    requires (forall r :: r in rules ==> Compiles(r, |s.principals|)) && |used| == |s.ids|
    requires Narrowing(s, rules) && |parts| == |rules| && Free(AllLeaves(parts), used)
    requires forall k :: 0 <= k < |rules| && parts[k].Counts? ==> Proves(s, rules[k], parts[k].proof)
    ensures Chosen(parts) <= EvalAll(s, rules, used).count
  {
    hide Compiles, Proves, Partial, Size, EvalAll;
    var f := Assignment(s, rules, parts, used);
    NoRules(s, used);
    assert [] + rules == rules;
    GreedyBest(s, [], rules, used, f);
  }

  lemma {:induction false} ProvedAreCounted(s: Setting, rules: seq<Rule>, parts: seq<Part>, used: seq<bool>)
    requires (forall r :: r in rules ==> Compiles(r, |s.principals|) && Lone(s, r)) && |used| == |s.ids|
    requires Disjoint(s, rules) && |parts| == |rules| && Free(AllLeaves(parts), used)
    requires forall k :: 0 <= k < |rules| && parts[k].Counts? ==> Proves(s, rules[k], parts[k].proof)
    ensures Chosen(parts) <= EvalAll(s, rules, used).count
    decreases rules
  {
    hide Eval, Touches, Proves, Lone, Leaves;
    if rules != [] {
      var last := |rules| - 1;
      LeavesOfPart(parts, used);
      ProvedAreCounted(s, rules[..last], parts[..last], used);
      DisjointAnswers(s, rules, used);
      if parts[last].Counts? {
        ProvedIsAccepted(s, rules[last], parts[last].proof, used);
      }
    }
  }

  lemma {:induction false} OneIsCounted(s: Setting, rules: seq<Rule>, parts: seq<Part>, used: seq<bool>)
    requires (forall r :: r in rules ==> Compiles(r, |s.principals|) && Lone(s, r)) && |used| == |s.ids|
    requires |parts| == |rules| && Free(AllLeaves(parts), used) && Chosen(parts) >= 1
    requires forall k :: 0 <= k < |rules| && parts[k].Counts? ==> Proves(s, rules[k], parts[k].proof)
    ensures EvalAll(s, rules, used).count >= 1
    decreases rules
  {
    hide Eval, Touches, Proves, Lone, Leaves;
    var last := |rules| - 1;
    LeavesOfPart(parts, used);
    if Chosen(parts[..last]) >= 1 {
      OneIsCounted(s, rules[..last], parts[..last], used);
    } else {
      NothingCounted(s, rules[..last], used);
      ProvedIsAccepted(s, rules[last], parts[last].proof, used);
    }
  }

  /** The evaluator accepts exactly when there is a satisfying subtree of different unused signers,
      provided that at every gate asking for two or more the sub-rules share no identity, or are
      signatures that go from the narrower to the wider. */
  lemma AcceptsIffProved(s: Setting, rule: Rule, used: seq<bool>)
    requires Compiles(rule, |s.principals|) && |used| == |s.ids| && Lone(s, rule)
    ensures Eval(s, rule, used).ok <==> exists proof :: Proves(s, rule, proof) && Free(Leaves(proof), used)
  {
    hide Eval, Proves, Leaves, Lone;
    if Eval(s, rule, used).ok {
      var proof := AcceptedHasProof(s, rule, used);
      assert Proves(s, rule, proof) && Free(Leaves(proof), used);
    } else if exists proof :: Proves(s, rule, proof) && Free(Leaves(proof), used) {
      var proof :| Proves(s, rule, proof) && Free(Leaves(proof), used);
      ProvedIsAccepted(s, rule, proof, used);
    }
  }
}

/** Which identities a signature set stands for (common/policies/policy.go), and the check of the set. */
module SignatureSet {
  import opened Basics
  import opened SignaturePolicy

  datatype SignedData = SignedData(data: Bytes, identity: Bytes, signature: Bytes)

  datatype Msp = Msp(deserialize: Bytes -> Option<Identity>, verify: (Identity, Bytes, Bytes) -> bool)

  function Key(id: Identity): string
  {
    id.mspid + id.id
  }

  function Keys(ids: seq<Identity>): seq<string>
  {
    seq(|ids|, i requires 0 <= i < |ids| => Key(ids[i]))
  }

  predicate Signs(m: Msp, sd: SignedData, id: Identity)
  {
    m.deserialize(sd.identity) == Some(id) && m.verify(id, sd.data, sd.signature)
  }

  /** The identities kept: those not seen before, with a signature that verifies. */
  function ValidIdentities(m: Msp, sds: seq<SignedData>): seq<Identity>
  {
    if sds == [] then []
    else
      var last := |sds| - 1;
      var before := ValidIdentities(m, sds[..last]);
      match m.deserialize(sds[last].identity)
      case None => before
      case Some(id) =>
        if Key(id) !in Keys(before) && m.verify(id, sds[last].data, sds[last].signature) then before + [id]
        else before
  }

  method SignatureSetToValidIdentities(m: Msp, sds: seq<SignedData>) returns (ids: seq<Identity>)
    ensures ids == ValidIdentities(m, sds)
  {
    var idMap: set<string> := {};
    ids := [];
    var i := 0;
    while i < |sds|
      invariant 0 <= i <= |sds|
      invariant ids == ValidIdentities(m, sds[..i])
      invariant forall k :: k in idMap <==> k in Keys(ids)
    {
      assert sds[..i + 1][..i] == sds[..i];
      var id := m.deserialize(sds[i].identity);
      if id.Some? && Key(id.value) !in idMap && m.verify(id.value, sds[i].data, sds[i].signature) {
        assert Keys(ids + [id.value]) == Keys(ids) + [Key(id.value)];
        idMap := idMap + {Key(id.value)};
        ids := ids + [id.value];
      }
      i := i + 1;
    }
    assert sds[..i] == sds;
  }

  /** The keys of the kept identities are different, and they are exactly the keys with a valid signature. */
  lemma {:induction false} ValidIdentitiesExact(m: Msp, sds: seq<SignedData>)
    ensures Distinct(Keys(ValidIdentities(m, sds)))
    ensures forall id :: id in ValidIdentities(m, sds) ==> exists sd :: sd in sds && Signs(m, sd, id)
    ensures forall sd, id :: sd in sds && Signs(m, sd, id) ==> Key(id) in Keys(ValidIdentities(m, sds))
  {
    if sds != [] {
      var last := |sds| - 1;
      ValidIdentitiesExact(m, sds[..last]);
      var before, after := ValidIdentities(m, sds[..last]), ValidIdentities(m, sds);
      if after != before {
        var id := m.deserialize(sds[last].identity).value;
        assert Keys(after) == Keys(before) + [Key(id)];
        assert Signs(m, sds[last], id);
      }
      forall sd, id | sd in sds && Signs(m, sd, id) ensures Key(id) in Keys(after) {
        if sd in sds[..last] {
          assert Key(id) in Keys(before);
        } else {
          assert sd == sds[last];
        }
      }
    }
  }

  /** The same identifier, which is what a key is put together from. */
  predicate SameSigner(a: Identity, b: Identity)
  {
    a.mspid == b.mspid && a.id == b.id
  }

  lemma KeyTells(a: Identity, b: Identity)
    requires Key(a) == Key(b)
    ensures SameSigner(a, b) <==> |a.id| == |b.id|
  {
    var n := |Key(a)|;
    assert Key(a)[..n - |a.id|] == a.mspid && Key(a)[n - |a.id|..] == a.id;
    assert Key(b)[..n - |b.id|] == b.mspid && Key(b)[n - |b.id|..] == b.id;
  }

  ghost predicate SignerOf(m: Msp, sds: seq<SignedData>, id: Identity)
  {
    exists sd :: sd in sds && Signs(m, sd, id)
  }

  /** Keys are joined without a separator, so different signers can share one. Every signer with a
      valid signature is kept if and only if those with the same key have ids of the same length. */
  lemma SignersKept(m: Msp, sds: seq<SignedData>)
    ensures (forall id :: SignerOf(m, sds, id) ==> exists k :: k in ValidIdentities(m, sds) && SameSigner(k, id))
       <==> (forall a, b :: SignerOf(m, sds, a) && SignerOf(m, sds, b) && Key(a) == Key(b) ==> |a.id| == |b.id|)
  {
    hide ValidIdentities, Key, SameSigner;
    var kept := ValidIdentities(m, sds);
    ValidIdentitiesExact(m, sds);
    if forall id :: SignerOf(m, sds, id) ==> exists k :: k in kept && SameSigner(k, id) {
      forall a, b | SignerOf(m, sds, a) && SignerOf(m, sds, b) && Key(a) == Key(b) ensures |a.id| == |b.id| {
        var k :| k in kept && SameSigner(k, a);
        var l :| l in kept && SameSigner(l, b);
        OneKept(kept, k, l, a, b);
      }
    }
    if forall a, b :: SignerOf(m, sds, a) && SignerOf(m, sds, b) && Key(a) == Key(b) ==> |a.id| == |b.id| {
      forall id | SignerOf(m, sds, id) ensures exists k :: k in kept && SameSigner(k, id) {
        assert Key(id) in Keys(kept);
        var i :| 0 <= i < |kept| && Keys(kept)[i] == Key(id);
        assert kept[i] in kept && SignerOf(m, sds, kept[i]);
        KeyTells(kept[i], id);
      }
    }
  }

  lemma OneKept(kept: seq<Identity>, k: Identity, l: Identity, a: Identity, b: Identity)
    requires Distinct(Keys(kept)) && k in kept && l in kept && SameSigner(k, a) && SameSigner(l, b) && Key(a) == Key(b)
    ensures |a.id| == |b.id|
  {
    var i :| 0 <= i < |kept| && kept[i] == k;
    var j :| 0 <= j < |kept| && kept[j] == l;
    assert Keys(kept)[i] == Key(k) == Key(l) == Keys(kept)[j];
  }

  function Unused(n: nat): (u: seq<bool>)
    ensures |u| == n && forall k :: 0 <= k < n ==> !u[k]
  {
    seq(n, _ => false)
  }

  /** EvaluateIdentities answers nil. */
  predicate Accepts(env: Envelope, ids: seq<Identity>, sat: (Identity, Principal) -> bool)
    requires Compiles(env.rule, |env.principals|)
  {
    Eval(Setting(env.principals, ids, sat), env.rule, Unused(|ids|)).ok
  }

  method EvaluateSignedData(env: Envelope, m: Msp, sat: (Identity, Principal) -> bool, sds: seq<SignedData>)
    returns (ok: bool)
    requires Compiles(env.rule, |env.principals|)
    ensures ok == Accepts(env, ValidIdentities(m, sds), sat)
  {
    var ids := SignatureSetToValidIdentities(m, sds);
    var used := new bool[|ids|](_ => false);
    assert used[..] == Unused(|ids|);
    ok := Evaluate(Setting(env.principals, ids, sat), env.rule, used);
  }

  /** An accepted signature set holds, for the leaves of a satisfying subtree, signatures under
      pairwise different keys, each valid and by an identity that satisfies its leaf's principal. */
  lemma AcceptedHasSigners(env: Envelope, m: Msp, sat: (Identity, Principal) -> bool, sds: seq<SignedData>)
    returns (proof: Proof, ids: seq<Identity>)
    requires Compiles(env.rule, |env.principals|)
    requires Accepts(env, ValidIdentities(m, sds), sat)
    ensures Proves(Setting(env.principals, ids, sat), env.rule, proof)
    ensures forall i :: 0 <= i < |Leaves(proof)| ==> Leaves(proof)[i] < |ids|
    ensures forall i, j :: 0 <= i < j < |Leaves(proof)| ==> Key(ids[Leaves(proof)[i]]) != Key(ids[Leaves(proof)[j]])
    ensures forall id :: id in ids ==> exists sd :: sd in sds && Signs(m, sd, id)
  {
    ids := ValidIdentities(m, sds);
    ValidIdentitiesExact(m, sds);
    proof := AcceptedHasProof(Setting(env.principals, ids, sat), env.rule, Unused(|ids|));
    var leaves := Leaves(proof);
    forall i | 0 <= i < |leaves| ensures leaves[i] < |ids| {
      assert leaves[i] in leaves;
    }
    forall i, j | 0 <= i < j < |leaves| ensures Key(ids[leaves[i]]) != Key(ids[leaves[j]]) {
      assert leaves[i] != leaves[j];
      assert Keys(ids)[leaves[i]] != Keys(ids)[leaves[j]];
    }
  }
}
