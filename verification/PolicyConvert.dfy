/** Principals renumbered and merged when policies become one signature policy
    (common/policies/convert.go). */
module PolicyConvert {
  import opened Basics
  import opened SignaturePolicy

  // ---- the names principals are deduplicated by

  const CLASS_NAMES := ["ROLE", "ORGANIZATION_UNIT", "IDENTITY", "ANONYMITY", "COMBINED"]

  predicate Known(p: Principal)
  {
    0 <= p.classification < 5
  }

  function Digits(n: nat): (r: string)
    ensures r != [] && '0' <= r[0] <= '9'
  {
    var digit := ['0' + (n % 10) as char];
    if n < 10 then digit else Digits(n / 10) + digit
  }

  /** String() of the enumeration: the name of a declared value, the decimal numeral of any other. */
  function ClassName(c: int): string
  {
    if 0 <= c < 5 then CLASS_NAMES[c]
    else if c < 0 then "-" + Digits(-c)
    else Digits(c)
  }

  function IdKey(p: Principal): string
  {
    ClassName(p.classification) + p.content
  }

  lemma ClassNameHead(c: int)
    ensures ClassName(c) != []
    ensures ClassName(c)[0] == if c == 0 then 'R' else if c == 1 then 'O' else if c == 2 then 'I'
                               else if c == 3 then 'A' else if c == 4 then 'C' else ClassName(c)[0]
    ensures !(0 <= c < 5) ==> ClassName(c)[0] == '-' || '0' <= ClassName(c)[0] <= '9'
  {
  }

  /** Equal names mean equal principals, unless neither classification is a declared one. */
  lemma IdKeyTells(p: Principal, q: Principal)
    requires IdKey(p) == IdKey(q)
    ensures p == q || (!Known(p) && !Known(q))
  {
    ClassNameHead(p.classification);
    ClassNameHead(q.classification);
    assert IdKey(p)[0] == ClassName(p.classification)[0];
    assert IdKey(q)[0] == ClassName(q.classification)[0];
    if p.classification == q.classification {
      var n := |ClassName(p.classification)|;
      assert IdKey(p)[n..] == p.content;
      assert IdKey(q)[n..] == q.content;
    }
  }

  /** No identity satisfies a principal of an undeclared classification (the last case of
      SatisfiesPrincipal, msp/mspimpl.go:573). */
  ghost predicate RejectsUnknown(sat: (Identity, Principal) -> bool)
  {
    forall id, p :: !Known(p) ==> !sat(id, p)
  }

  /** The same identities satisfy both principals. */
  ghost predicate Alike(sat: (Identity, Principal) -> bool, p: Principal, q: Principal)
  {
    forall id :: sat(id, p) == sat(id, q)
  }

  lemma SameKeyAlike(sat: (Identity, Principal) -> bool, p: Principal, q: Principal)
    requires RejectsUnknown(sat) && IdKey(p) == IdKey(q)
    ensures Alike(sat, p, q)
  {
    IdKeyTells(p, q);
  }

  // ---- remap

  function Remap(rule: Rule, idRemap: map<int, int>): Option<Rule>
    decreases rule
  {
    match rule
    case NOutOf(n, rules) =>
      var mapped := RemapAll(rules, idRemap);
      if mapped.None? then None else Some(NOutOf(n, mapped.value))
    case SignedBy(i) => if i in idRemap then Some(SignedBy(idRemap[i])) else None
    case Other => None
  }

  function RemapAll(rules: seq<Rule>, idRemap: map<int, int>): (r: Option<seq<Rule>>)
    ensures r.Some? ==> |r.value| == |rules|
    decreases rules
  {
    if rules == [] then Some([])
    else
      var last := |rules| - 1;
      var before := RemapAll(rules[..last], idRemap);
      var mapped := Remap(rules[last], idRemap);
      if before.None? || mapped.None? then None else Some(before.value + [mapped.value])
  }

  /** The map sends every index of a list of that many principals to an index of a list of `size`. */
  ghost predicate Remaps(idRemap: map<int, int>, count: nat, size: nat)
  {
    && (forall i :: i in idRemap <==> 0 <= i < count)
    && (forall i :: i in idRemap ==> 0 <= idRemap[i] < size)
  }

  /** remap hits a panic exactly on the rules compile refuses. */
  lemma {:induction false} RemapTotal(rule: Rule, idRemap: map<int, int>, count: nat, size: nat)
    requires Remaps(idRemap, count, size)
    ensures Remap(rule, idRemap).Some? <==> Compiles(rule, count)
    ensures Remap(rule, idRemap).Some? ==> Compiles(Remap(rule, idRemap).value, size)
    decreases rule
  {
    if rule.NOutOf? {
      RemapAllTotal(rule.rules, idRemap, count, size);
    }
  }

  lemma {:induction false} RemapAllTotal(rules: seq<Rule>, idRemap: map<int, int>, count: nat, size: nat)
    requires Remaps(idRemap, count, size)
    ensures RemapAll(rules, idRemap).Some? <==> forall r :: r in rules ==> Compiles(r, count)
    ensures RemapAll(rules, idRemap).Some? ==>
              forall r :: r in RemapAll(rules, idRemap).value ==> Compiles(r, size)
    decreases rules
  {
    if rules != [] {
      var last := |rules| - 1;
      RemapAllTotal(rules[..last], idRemap, count, size);
      RemapTotal(rules[last], idRemap, count, size);
      assert rules == rules[..last] + [rules[last]];
    }
  }

  /** Every principal the map leaves from is alike to the one it leads to. */
  ghost predicate Faithful(s: Setting, idRemap: map<int, int>, principals: seq<Principal>)
  {
    && Remaps(idRemap, |s.principals|, |principals|)
    && forall i :: 0 <= i < |s.principals| ==> Alike(s.sat, s.principals[i], principals[idRemap[i]])
  }

  lemma PickAlike(s: Setting, p: Principal, q: Principal, used: seq<bool>, k: nat)
    requires Alike(s.sat, p, q) && k <= |s.ids| == |used|
    ensures Pick(s, p, used, k) == Pick(s, q, used, k)
    decreases |s.ids| - k
  {
  }

  lemma PickPrincipals(s: Setting, principals: seq<Principal>, p: Principal, used: seq<bool>, k: nat)
    requires k <= |s.ids| == |used|
    ensures Pick(s, p, used, k) == Pick(s.(principals := principals), p, used, k)
    decreases |s.ids| - k
  {
  }

  /** The remapped rule gives the same answer and marks the same identities, whatever the marks. */
  lemma {:induction false} RemapMeaning(s: Setting, rule: Rule, idRemap: map<int, int>, principals: seq<Principal>,
                                        used: seq<bool>)
    requires Compiles(rule, |s.principals|) && |used| == |s.ids| && Faithful(s, idRemap, principals)
    ensures Remap(rule, idRemap).Some?
    ensures Compiles(Remap(rule, idRemap).value, |principals|)
    ensures Eval(s.(principals := principals), Remap(rule, idRemap).value, used) == Eval(s, rule, used)
    ensures forall k: nat :: k < |s.ids| ==>
              Touches(s.(principals := principals), Remap(rule, idRemap).value, k) == Touches(s, rule, k)
    decreases rule
  {
    RemapTotal(rule, idRemap, |s.principals|, |principals|);
    match rule {
      case SignedBy(i) =>
        PickAlike(s, s.principals[i], principals[idRemap[i]], used, 0);
        PickPrincipals(s, principals, principals[idRemap[i]], used, 0);
      case NOutOf(_, rules) =>
        RemapAllMeaning(s, rules, idRemap, principals, used);
    }
  }

  lemma {:induction false} RemapAllMeaning(s: Setting, rules: seq<Rule>, idRemap: map<int, int>,
                                           principals: seq<Principal>, used: seq<bool>)
    requires (forall r :: r in rules ==> Compiles(r, |s.principals|)) && |used| == |s.ids|
    requires Faithful(s, idRemap, principals)
    ensures RemapAll(rules, idRemap).Some?
    ensures forall r :: r in RemapAll(rules, idRemap).value ==> Compiles(r, |principals|)
    ensures EvalAll(s.(principals := principals), RemapAll(rules, idRemap).value, used) == EvalAll(s, rules, used)
    ensures forall k: nat :: k < |s.ids| ==>
              TouchesAny(s.(principals := principals), RemapAll(rules, idRemap).value, k) == TouchesAny(s, rules, k)
    decreases rules
  {
    hide Eval, EvalAll, Touches, TouchesAny, Compiles, Alike, Faithful;
    if rules == [] {
      NoRules(s, used);
      NoRules(s.(principals := principals), used);
    } else {
      var last := |rules| - 1;
      RemapAllMeaning(s, rules[..last], idRemap, principals, used);
      RemapMeaning(s, rules[last], idRemap, principals, EvalAll(s, rules[..last], used).used);
      var before, mapped := RemapAll(rules[..last], idRemap).value, Remap(rules[last], idRemap).value;
      assert rules == rules[..last] + [rules[last]];
      EvalAllStep(s, rules[..last], rules[last], used);
      EvalAllStep(s.(principals := principals), before, mapped, used);
    }
  }

  function SameIndexes(count: nat): (m: map<int, int>)
    ensures forall i :: i in m <==> 0 <= i < count
    ensures forall i :: i in m ==> m[i] == i
  {
    if count == 0 then map[] else SameIndexes(count - 1)[count - 1 := count - 1]
  }

  /** The identity map changes no rule. */
  lemma {:induction false} RemapSame(rule: Rule, idRemap: map<int, int>, count: nat)
    requires Compiles(rule, count) && (forall i :: 0 <= i < count ==> i in idRemap && idRemap[i] == i)
    ensures Remap(rule, idRemap) == Some(rule)
    decreases rule
  {
    if rule.NOutOf? {
      RemapAllSame(rule.rules, idRemap, count);
    }
  }

  lemma {:induction false} RemapAllSame(rules: seq<Rule>, idRemap: map<int, int>, count: nat)
    requires forall r :: r in rules ==> Compiles(r, count)
    requires forall i :: 0 <= i < count ==> i in idRemap && idRemap[i] == i
    ensures RemapAll(rules, idRemap) == Some(rules)
    decreases rules
  {
    if rules != [] {
      var last := |rules| - 1;
      RemapAllSame(rules[..last], idRemap, count);
      RemapSame(rules[last], idRemap, count);
      assert rules == rules[..last] + [rules[last]];
    }
  }

  /** Principals appended to the list leave the meaning of a rule as it was. */
  lemma GrowMeaning(s: Setting, rule: Rule, principals: seq<Principal>, used: seq<bool>)
    requires Compiles(rule, |s.principals|) && |used| == |s.ids| && s.principals <= principals
    ensures Compiles(rule, |principals|)
    ensures Eval(s.(principals := principals), rule, used) == Eval(s, rule, used)
    ensures forall k: nat :: k < |s.ids| ==> Touches(s.(principals := principals), rule, k) == Touches(s, rule, k)
  {
    hide Eval, Touches;
    var idRemap := SameIndexes(|s.principals|);
    RemapSame(rule, idRemap, |s.principals|);
    RemapMeaning(s, rule, idRemap, principals, used);
  }

  // ---- merge

  datatype Merging = Merging(ids: seq<Principal>, idMap: map<string, int>, idRemap: map<int, int>)

  function IdMap(ids: seq<Principal>): map<string, int>
  {
    if ids == [] then map[]
    else
      var last := |ids| - 1;
      IdMap(ids[..last])[IdKey(ids[last]) := last]
  }

  function MergeIds(ids: seq<Principal>, that: seq<Principal>): Merging
  {
    if that == [] then Merging(ids, IdMap(ids), map[])
    else
      var last := |that| - 1;
      var m := MergeIds(ids, that[..last]);
      var key := IdKey(that[last]);
      if key in m.idMap then m.(idRemap := m.idRemap[last := m.idMap[key]])
      else Merging(m.ids + [that[last]], m.idMap[key := |m.ids|], m.idRemap[last := |m.ids|])
  }

  /** The map names every listed principal, by an index where one of that name stands. */
  ghost predicate Indexes(idMap: map<string, int>, ids: seq<Principal>)
  {
    && (forall key :: key in idMap ==> 0 <= idMap[key] < |ids| && IdKey(ids[idMap[key]]) == key)
    && (forall j :: 0 <= j < |ids| ==> IdKey(ids[j]) in idMap)
  }

  lemma {:induction false} IdMapIndexes(ids: seq<Principal>)
    ensures Indexes(IdMap(ids), ids)
  {
    hide IdKey;
    if ids != [] {
      IdMapIndexes(ids[..|ids| - 1]);
    }
  }

  /** Every principal of the other list is led to one of its own name. */
  ghost predicate Leads(idRemap: map<int, int>, that: seq<Principal>, ids: seq<Principal>)
  {
    && Remaps(idRemap, |that|, |ids|)
    && forall i :: 0 <= i < |that| ==> IdKey(ids[idRemap[i]]) == IdKey(that[i])
  }

  /** From `first` on, no name occurs that occurred before. */
  ghost predicate NewNames(ids: seq<Principal>, first: nat)
  {
    forall i, j :: 0 <= i < j && first <= j < |ids| ==> IdKey(ids[i]) != IdKey(ids[j])
  }

  lemma LeadsStep(idRemap: map<int, int>, that: seq<Principal>, p: Principal, ids: seq<Principal>,
                  ids': seq<Principal>, k: nat)
    requires Leads(idRemap, that, ids) && ids <= ids' && k < |ids'| && IdKey(ids'[k]) == IdKey(p)
    ensures Leads(idRemap[|that| := k], that + [p], ids')
  {
    hide IdKey;
  }

  lemma IndexesStep(idMap: map<string, int>, ids: seq<Principal>, p: Principal)
    requires Indexes(idMap, ids) && IdKey(p) !in idMap
    ensures Indexes(idMap[IdKey(p) := |ids|], ids + [p])
  {
    hide IdKey;
  }

  lemma NewNamesStep(idMap: map<string, int>, ids: seq<Principal>, p: Principal, first: nat)
    requires Indexes(idMap, ids) && IdKey(p) !in idMap && NewNames(ids, first)
    ensures NewNames(ids + [p], first)
  {
    hide IdKey;
  }

  /** The merged list extends the old one by principals of new names only, and every principal of
      the other list is led to one of its own name. */
  lemma {:induction false} MergeIdsExact(ids: seq<Principal>, that: seq<Principal>)
    ensures var m := MergeIds(ids, that);
            && ids <= m.ids
            && Indexes(m.idMap, m.ids)
            && Leads(m.idRemap, that, m.ids)
            && NewNames(m.ids, |ids|)
  {
    hide IdKey, IdMap, Indexes, Leads, NewNames;
    if that == [] {
      IdMapIndexes(ids);
      NothingMerged(ids);
    } else {
      var last := |that| - 1;
      var m, p := MergeIds(ids, that[..last]), that[last];
      assert that == that[..last] + [p];
      MergeIdsExact(ids, that[..last]);
      if IdKey(p) in m.idMap {
        IndexesAt(m.idMap, m.ids, IdKey(p));
        LeadsStep(m.idRemap, that[..last], p, m.ids, m.ids, m.idMap[IdKey(p)]);
      } else {
        LeadsStep(m.idRemap, that[..last], p, m.ids, m.ids + [p], |m.ids|);
        IndexesStep(m.idMap, m.ids, p);
        NewNamesStep(m.idMap, m.ids, p, |ids|);
      }
    }
  }

  lemma NothingMerged(ids: seq<Principal>)
    ensures Leads(map[], [], ids) && NewNames(ids, |ids|)
  {
  }

  lemma IndexesAt(idMap: map<string, int>, ids: seq<Principal>, key: string)
    requires Indexes(idMap, ids) && key in idMap
    ensures 0 <= idMap[key] < |ids| && IdKey(ids[idMap[key]]) == key
  {
  }

  lemma MergeFaithful(s: Setting, ids: seq<Principal>)
    requires RejectsUnknown(s.sat)
    ensures var m := MergeIds(ids, s.principals);
            Faithful(s, m.idRemap, m.ids)
  {
    hide IdKey, RejectsUnknown, Alike, MergeIds, Indexes, NewNames;
    var m := MergeIds(ids, s.principals);
    MergeIdsExact(ids, s.principals);
    forall i | 0 <= i < |s.principals| ensures Alike(s.sat, s.principals[i], m.ids[m.idRemap[i]]) {
      SameKeyAlike(s.sat, s.principals[i], m.ids[m.idRemap[i]]);
    }
  }

  /** A conversion gives an envelope, an error, or stops the process. */
  datatype Conversion = Converted(env: Envelope) | NotConvertible | Panics

  function Merged(env: Envelope, that: Envelope): Conversion
    requires env.rule.NOutOf?
  {
    var m := MergeIds(env.principals, that.principals);
    var entry := Remap(that.rule, m.idRemap);
    if entry.None? then Panics
    else Converted(Envelope(m.ids, NOutOf(env.rule.n, env.rule.rules + [entry.value])))
  }

  /** merge never stops the process on an envelope that compiles. What it appends answers and marks
      as the other envelope's rule did, and the rules already there keep their meaning. */
  lemma MergeMeaning(env: Envelope, that: Envelope, ids: seq<Identity>, sat: (Identity, Principal) -> bool,
                     used: seq<bool>)
    requires env.rule.NOutOf? && Compiles(env.rule, |env.principals|) && RejectsUnknown(sat) && |used| == |ids|
    ensures Merged(env, that).Panics? <==> !Compiles(that.rule, |that.principals|)
    ensures Merged(env, that).Converted? ==>
              var r := Merged(env, that).env;
              var s := Setting(r.principals, ids, sat);
              var n := |env.rule.rules|;
              && r.rule.NOutOf? && |r.rule.rules| == n + 1
              && Compiles(r.rule, |r.principals|)
              && Eval(s, r.rule.rules[n], used) == Eval(Setting(that.principals, ids, sat), that.rule, used)
              && forall i :: 0 <= i < n ==>
                   Eval(s, r.rule.rules[i], used) == Eval(Setting(env.principals, ids, sat), env.rule.rules[i], used)
  {
    hide Eval, MergeIds, IdKey, Touches, RejectsUnknown, Indexes, NewNames;
    var m := MergeIds(env.principals, that.principals);
    var s := Setting(that.principals, ids, sat);
    MergeIdsExact(env.principals, that.principals);
    RemapTotal(that.rule, m.idRemap, |that.principals|, |m.ids|);
    if Merged(env, that).Converted? {
      MergeFaithful(s, env.principals);
      RemapMeaning(s, that.rule, m.idRemap, m.ids, used);
      forall i | 0 <= i < |env.rule.rules|
        ensures Compiles(env.rule.rules[i], |m.ids|)
        ensures Eval(Setting(m.ids, ids, sat), env.rule.rules[i], used)
             == Eval(Setting(env.principals, ids, sat), env.rule.rules[i], used)
      {
        GrowMeaning(Setting(env.principals, ids, sat), env.rule.rules[i], m.ids, used);
      }
    }
  }
}
