/** The tree of policy managers of a channel and policy lookup by path (common/policies/policy.go). */
module PolicyManager {
  import opened Basics
  import opened Strings
  import opened ConfigTree

  datatype Manager<P> = Manager(path: string, policies: map<string, P>, managers: map<string, Manager<P>>)

  /** How a policy body becomes a policy: by a provider, or from the sub-managers, in the order they
      are listed in, for an implicit meta policy. None is any of the errors. */
  type Maker<!P> = (PolicyBody, seq<Manager<P>>) -> Option<P>

  const SLASH := '/'

  // ---- construction

  function Name(gp: (string, string)): string
  {
    gp.0 + [SLASH] + gp.1
  }

  /** The policies below a manager: the sub-manager's name and the name it knows the policy by. */
  ghost function Pairs<P>(managers: map<string, Manager<P>>): set<(string, string)>
  {
    set g, p | g in managers && p in managers[g].policies :: (g, p)
  }

  /** The policy under k is that of a pair so named or, if there is none, the manager's own. */
  ghost predicate Right<P>(policy: P, own: map<string, P>, managers: map<string, Manager<P>>,
                           pairs: set<(string, string)>, k: string)
    requires pairs <= Pairs(managers)
  {
    || (exists gp :: gp in pairs && Name(gp) == k && policy == managers[gp.0].policies[gp.1])
    || ((forall gp :: gp in pairs ==> Name(gp) != k) && k in own && policy == own[k])
  }

  /** The policies are the manager's own, overlaid with those of the pairs under their joined names. */
  ghost predicate Overlaid<P>(policies: map<string, P>, own: map<string, P>, managers: map<string, Manager<P>>,
                              pairs: set<(string, string)>)
    requires pairs <= Pairs(managers)
  {
    && own.Keys <= policies.Keys
    && (forall gp :: gp in pairs ==> Name(gp) in policies)
    && (forall k :: k in policies ==> Right(policies[k], own, managers, pairs, k))
  }

  /** Every name once, in some order. */
  ghost predicate Lists(names: seq<string>, keys: set<string>)
  {
    && (forall n :: n in names <==> n in keys)
    && (forall i, j :: 0 <= i < j < |names| ==> names[i] != names[j])
  }

  function InOrder<P>(managers: map<string, Manager<P>>, names: seq<string>): seq<Manager<P>>
    requires forall n :: n in names ==> n in managers
  {
    seq(|names|, i requires 0 <= i < |names| => managers[names[i]])
  }

  /** What is made of a policy body when the sub-managers are read in some order. */
  ghost predicate Makes<P>(make: Maker<P>, body: PolicyBody, managers: map<string, Manager<P>>, r: Option<P>)
  {
    exists names :: Lists(names, managers.Keys) && make(body, InOrder(managers, names)) == r
  }

  ghost predicate Own<P(!new)>(own: map<string, P>, policies: map<string, ConfigPolicy>,
                               managers: map<string, Manager<P>>, make: Maker<P>, names: set<string>)
  {
    && own.Keys == names <= policies.Keys
    && forall n :: n in names ==> policies[n].policy.Some? && Makes(make, policies[n].policy.value, managers, Some(own[n]))
  }

  /** What NewManagerImpl returns for a configuration group, whatever order it walks the maps in. */
  ghost predicate Made<P(!new)>(m: Manager<P>, path: string, root: ConfigGroup, make: Maker<P>)
    decreases root
  {
    && m.path == path
    && m.managers.Keys == root.groups.Keys
    && (forall g :: g in root.groups ==> Made(m.managers[g], path + [SLASH] + g, root.groups[g], make))
    && exists own :: Own(own, root.policies, m.managers, make, root.policies.Keys)
         && Overlaid(m.policies, own, m.managers, Pairs(m.managers))
  }

  /** Some group of the tree holds a nil policy, or one that cannot be made from its sub-managers. */
  ghost predicate Refused<P(!new)>(path: string, root: ConfigGroup, make: Maker<P>)
    decreases root
  {
    || (exists g :: g in root.groups && Refused(path + [SLASH] + g, root.groups[g], make))
    || (exists managers: map<string, Manager<P>>, n ::
          && managers.Keys == root.groups.Keys
          && (forall g :: g in root.groups ==> Made(managers[g], path + [SLASH] + g, root.groups[g], make))
          && Unmade(root.policies, managers, make, n))
  }

  ghost predicate Unmade<P>(policies: map<string, ConfigPolicy>, managers: map<string, Manager<P>>, make: Maker<P>,
                            n: string)
  {
    n in policies && (policies[n].policy.None? || Makes(make, policies[n].policy.value, managers, None))
  }

  method NewManagerImpl<P(!new)>(path: string, root: ConfigGroup, make: Maker<P>) returns (r: Result<Manager<P>>)
    ensures if r.Ok? then Made(r.value, path, root, make) else Refused(path, root, make)
    decreases root, 1
  {
    var managers := SubManagers(path, root, make);
    if managers.Err? {
      return Err;
    }
    var own := OwnPolicies(root.policies, managers.value, make);
    if own.Err? {
      return Err;
    }
    var policies := Overlay(own.value, managers.value);
    r := Ok(Manager(path, policies, managers.value));
  }

  method SubManagers<P(!new)>(path: string, root: ConfigGroup, make: Maker<P>)
    returns (r: Result<map<string, Manager<P>>>)
    ensures r.Ok? ==> r.value.Keys == root.groups.Keys
    ensures r.Ok? ==> forall g :: g in root.groups ==> Made(r.value[g], path + [SLASH] + g, root.groups[g], make)
    ensures r.Err? ==> exists g :: g in root.groups && Refused(path + [SLASH] + g, root.groups[g], make)
    decreases root, 0
  {
    hide Made, Refused;
    var managers: map<string, Manager<P>> := map[];
    var todo := root.groups.Keys;
    while todo != {}
      invariant todo <= root.groups.Keys && managers.Keys == root.groups.Keys - todo
      invariant forall g :: g in managers ==> Made(managers[g], path + [SLASH] + g, root.groups[g], make)
      decreases todo
    {
      var g :| g in todo;
      var m := NewManagerImpl(path + [SLASH] + g, root.groups[g], make);
      if m.Err? {
        return Err;
      }
      managers := managers[g := m.value];
      todo := todo - {g};
    }
    return Ok(managers);
  }

  method OwnPolicies<P(!new)>(policies: map<string, ConfigPolicy>, managers: map<string, Manager<P>>, make: Maker<P>)
    returns (r: Result<map<string, P>>)
    ensures if r.Ok? then Own(r.value, policies, managers, make, policies.Keys)
            else exists n :: Unmade(policies, managers, make, n)
  {
    var own: map<string, P> := map[];
    var todo := policies.Keys;
    while todo != {}
      invariant todo <= policies.Keys && Own(own, policies, managers, make, policies.Keys - todo)
      decreases todo
    {
      var n :| n in todo;
      if policies[n].policy.None? {
        assert Unmade(policies, managers, make, n);
        return Err;
      }
      var order := AnyOrder(managers.Keys);
      var p := make(policies[n].policy.value, InOrder(managers, order));
      assert Makes(make, policies[n].policy.value, managers, p);
      if p.None? {
        assert Unmade(policies, managers, make, n);
        return Err;
      }
      own := own[n := p.value];
      todo := todo - {n};
    }
    return Ok(own);
  }

  /** The order a range over a map takes its keys in. */
  method AnyOrder(keys: set<string>) returns (names: seq<string>)
    ensures Lists(names, keys)
  {
    names := [];
    var todo := keys;
    while todo != {}
      invariant todo <= keys && Lists(names, keys - todo)
      decreases todo
    {
      var n :| n in todo;
      names := names + [n];
      todo := todo - {n};
    }
  }

  lemma RightStep<P>(policy: P, own: map<string, P>, managers: map<string, Manager<P>>,
                     pairs: set<(string, string)>, gp: (string, string), k: string)
    requires pairs <= Pairs(managers) && gp in Pairs(managers) && Name(gp) != k
    requires Right(policy, own, managers, pairs, k)
    ensures Right(policy, own, managers, pairs + {gp}, k)
  {
    hide Name;
    if other :| other in pairs && Name(other) == k && policy == managers[other.0].policies[other.1] {
      assert other in pairs + {gp};
    }
  }

  lemma OverlayStep<P>(policies: map<string, P>, own: map<string, P>, managers: map<string, Manager<P>>,
                       pairs: set<(string, string)>, g: string, p: string)
    requires pairs <= Pairs(managers) && Overlaid(policies, own, managers, pairs)
    requires g in managers && p in managers[g].policies
    ensures Overlaid(policies[Name((g, p)) := managers[g].policies[p]], own, managers, pairs + {(g, p)})
  {
    hide Right, Name;
    var policies' := policies[Name((g, p)) := managers[g].policies[p]];
    forall k | k in policies' ensures Right(policies'[k], own, managers, pairs + {(g, p)}, k) {
      if k == Name((g, p)) {
        RightHere(own, managers, pairs, g, p);
      } else {
        RightStep(policies[k], own, managers, pairs, (g, p), k);
      }
    }
  }

  lemma RightHere<P>(own: map<string, P>, managers: map<string, Manager<P>>, pairs: set<(string, string)>,
                     g: string, p: string)
    requires pairs <= Pairs(managers) && g in managers && p in managers[g].policies
    ensures Right(managers[g].policies[p], own, managers, pairs + {(g, p)}, Name((g, p)))
  {
    hide Name;
    assert (g, p) in pairs + {(g, p)};
  }

  method Overlay<P(!new)>(own: map<string, P>, managers: map<string, Manager<P>>) returns (policies: map<string, P>)
    ensures Overlaid(policies, own, managers, Pairs(managers))
  {
    hide Overlaid, Name;
    policies := own;
    var groups := managers.Keys;
    ghost var pairs: set<(string, string)> := {};
    NothingOverlaid(own, managers);
    while groups != {}
      invariant groups <= managers.Keys
      invariant pairs == set gp | gp in Pairs(managers) && gp.0 !in groups
      invariant Overlaid(policies, own, managers, pairs)
      decreases groups
    {
      var g :| g in groups;
      var names := managers[g].policies.Keys;
      while names != {}
        invariant names <= managers[g].policies.Keys
        invariant pairs == set gp | gp in Pairs(managers) && (gp.0 !in groups || (gp.0 == g && gp.1 !in names))
        invariant Overlaid(policies, own, managers, pairs)
        decreases names
      {
        var p :| p in names;
        OverlayStep(policies, own, managers, pairs, g, p);
        policies := policies[Name((g, p)) := managers[g].policies[p]];
        pairs := pairs + {(g, p)};
        names := names - {p};
      }
      groups := groups - {g};
    }
    assert pairs == Pairs(managers);
  }

  lemma NothingOverlaid<P>(own: map<string, P>, managers: map<string, Manager<P>>)
    ensures Overlaid(own, own, managers, {})
  {
  }

  // ---- lookup

  function ManagerAt<P>(m: Manager<P>, path: seq<string>): Option<Manager<P>>
    decreases |path|
  {
    if path == [] then Some(m)
    else if path[0] !in m.managers then None
    else ManagerAt(m.managers[path[0]], path[1..])
  }

  datatype Lookup<P> = Found(policy: P, name: string) | Missing | Panics

  function Find<P>(m: Manager<P>, rel: string): Lookup<P>
  {
    if rel in m.policies then Found(m.policies[rel], [SLASH] + m.path + [SLASH] + rel) else Missing
  }

  /** Panics is the slice out of range when nothing follows the manager's own path. */
  function GetPolicy<P>(m: Manager<P>, id: string): Lookup<P>
  {
    if id == "" then Missing
    else if id[0] == SLASH then
      if !([SLASH] + m.path <= id) then Missing
      else if |id| < 1 + |m.path| + 1 then Panics
      else Find(m, id[1 + |m.path| + 1..])
    else Find(m, id)
  }

  /** No name in the tree holds a slash. */
  ghost predicate Slashless(root: ConfigGroup)
  {
    && (forall n :: n in root.policies ==> Free(n, SLASH))
    && (forall g :: g in root.groups ==> Free(g, SLASH) && Slashless(root.groups[g]))
  }

  /** The policy of that name in the manager reached by walking the path. */
  function Walk<P>(m: Manager<P>, path: seq<string>, name: string): Option<P>
  {
    match ManagerAt(m, path)
    case None => None
    case Some(x) => if name in x.policies then Some(x.policies[name]) else None
  }

  /** Everything before the first slash is determined by the whole string. */
  lemma FirstCutUnique(g: string, p: string, h: string, q: string)
    requires Free(g, SLASH) && Free(h, SLASH) && Name((g, p)) == Name((h, q))
    ensures g == h && p == q
  {
    var s := g + [SLASH] + p;
    assert s == h + [SLASH] + q;
    assert s[|g|] == SLASH && s[|h|] == SLASH;
    assert forall i :: 0 <= i < |g| ==> s[i] == g[i];
    assert forall i :: 0 <= i < |h| ==> s[i] == h[i];
    assert |g| == |h|;
    assert g == s[..|g|] == h;
    assert p == s[|g| + 1..] == q;
  }

  /** A joined name is known to a manager exactly if the sub-manager knows its rest. */
  lemma OneLevel<P(!new)>(m: Manager<P>, path: string, root: ConfigGroup, make: Maker<P>, g: string, rest: string)
    requires Made(m, path, root, make) && Slashless(root) && Free(g, SLASH)
    ensures Name((g, rest)) in m.policies <==> g in m.managers && rest in m.managers[g].policies
    ensures Name((g, rest)) in m.policies ==> m.policies[Name((g, rest))] == m.managers[g].policies[rest]
  {
    hide Made;
    var own := OwnOf(m, path, root, make);
    var k := Name((g, rest));
    assert k !in own by { assert k[|g|] == SLASH; }
    if k in m.policies {
      assert Right(m.policies[k], own, m.managers, Pairs(m.managers), k);
      var gp :| gp in Pairs(m.managers) && Name(gp) == k && m.policies[k] == m.managers[gp.0].policies[gp.1];
      FirstCutUnique(gp.0, gp.1, g, rest);
    }
    if g in m.managers && rest in m.managers[g].policies {
      assert (g, rest) in Pairs(m.managers);
    }
  }

  lemma OwnOf<P(!new)>(m: Manager<P>, path: string, root: ConfigGroup, make: Maker<P>) returns (own: map<string, P>)
    requires Made(m, path, root, make)
    ensures m.managers.Keys == root.groups.Keys && own.Keys == root.policies.Keys
    ensures Overlaid(m.policies, own, m.managers, Pairs(m.managers))
  {
    hide Overlaid;
    own :| Own(own, root.policies, m.managers, make, root.policies.Keys)
        && Overlaid(m.policies, own, m.managers, Pairs(m.managers));
  }

  function JoinName(path: seq<string>, name: string): string
    decreases |path|
  {
    if path == [] then name else Name((path[0], JoinName(path[1..], name)))
  }

  /** A joined path, looked up in the flattened map, finds exactly the policy reached by walking. */
  lemma {:induction false} FlatLookup<P(!new)>(m: Manager<P>, path: string, root: ConfigGroup, make: Maker<P>,
                                               names: seq<string>, name: string)
    requires Made(m, path, root, make) && Slashless(root) && AllFree(names, SLASH)
    ensures var k := JoinName(names, name);
            Walk(m, names, name) == if k in m.policies then Some(m.policies[k]) else None
    decreases |names|
  {
    hide Overlaid, Name, Own;
    if names != [] {
      OneLevel(m, path, root, make, names[0], JoinName(names[1..], name));
      if names[0] in m.managers {
        FlatLookup(m.managers[names[0]], path + [SLASH] + names[0], root.groups[names[0]], make, names[1..], name);
      }
    }
  }

  lemma {:induction false} RootedFront(a: string, rest: seq<string>)
    ensures Rooted([a] + rest, SLASH) == [SLASH] + a + Rooted(rest, SLASH)
    decreases |rest|
  {
    if rest == [] {
      assert [a] + rest == [a] && [a][..0] == [];
      assert Rooted([a], SLASH) == Rooted([], SLASH) + [SLASH] + a;
    } else {
      var n := |rest| - 1;
      assert ([a] + rest)[..n + 1] == [a] + rest[..n];
      RootedFront(a, rest[..n]);
    }
  }

  lemma {:induction false} JoinNameRooted(names: seq<string>, name: string)
    ensures [SLASH] + JoinName(names, name) == Rooted(names + [name], SLASH)
    decreases |names|
  {
    if names == [] {
      RootedFront(name, []);
      assert [] + [name] == [name] == [name] + [];
    } else {
      JoinNameRooted(names[1..], name);
      RootedFront(names[0], names[1..] + [name]);
      assert names + [name] == [names[0]] + (names[1..] + [name]);
    }
  }

  lemma {:induction false} RootedConcat(a: seq<string>, b: seq<string>)
    ensures Rooted(a + b, SLASH) == Rooted(a, SLASH) + Rooted(b, SLASH)
    decreases |b|
  {
    if b == [] {
      assert a + b == a;
    } else {
      var n := |b| - 1;
      assert (a + b)[..|a| + n] == a + b[..n];
      RootedConcat(a, b[..n]);
    }
  }

  lemma MadeBelow<P(!new)>(m: Manager<P>, path: string, root: ConfigGroup, make: Maker<P>, g: string)
    requires Made(m, path, root, make) && Slashless(root) && g in m.managers
    ensures g in root.groups && Made(m.managers[g], path + [SLASH] + g, root.groups[g], make)
    ensures Slashless(root.groups[g])
  {
    hide Overlaid, Own;
  }

  lemma MadePath<P(!new)>(m: Manager<P>, path: string, root: ConfigGroup, make: Maker<P>)
    requires Made(m, path, root, make)
    ensures m.path == path
  {
  }

  lemma RootedNone(path: string)
    ensures path + Rooted([], SLASH) == path
  {
  }

  /** Every manager reached is one made for a group of the tree, under the path that leads to it. */
  lemma {:induction false} ReachedMade<P(!new)>(m: Manager<P>, path: string, root: ConfigGroup, make: Maker<P>,
                                                names: seq<string>) returns (sub: ConfigGroup)
    requires Made(m, path, root, make) && Slashless(root) && ManagerAt(m, names).Some?
    ensures Made(ManagerAt(m, names).value, path + Rooted(names, SLASH), sub, make) && Slashless(sub)
    decreases |names|
  {
    hide Made, Slashless, Rooted;
    if names == [] {
      sub := root;
      RootedNone(path);
    } else {
      MadeBelow(m, path, root, make, names[0]);
      sub := ReachedMade(m.managers[names[0]], path + [SLASH] + names[0], root.groups[names[0]], make, names[1..]);
      RootedFront(names[0], names[1..]);
      assert names == [names[0]] + names[1..];
      assert path + [SLASH] + names[0] + Rooted(names[1..], SLASH) == path + Rooted(names, SLASH);
    }
  }

  lemma {:induction false} WalkSplit<P>(m: Manager<P>, a: seq<string>, b: seq<string>)
    ensures ManagerAt(m, a + b) == if ManagerAt(m, a).Some? then ManagerAt(ManagerAt(m, a).value, b) else None
    decreases |a|
  {
    if a == [] {
      assert a + b == b;
    } else {
      assert (a + b)[1..] == a[1..] + b;
      if a[0] in m.managers {
        WalkSplit(m.managers[a[0]], a[1..], b);
      }
    }
  }

  /** GetPolicy on a relative path finds exactly the policy reached by walking the sub-managers. */
  lemma RelativeFinds<P(!new)>(m: Manager<P>, path: string, root: ConfigGroup, make: Maker<P>,
                               names: seq<string>, name: string)
    requires Made(m, path, root, make) && Slashless(root) && AllFree(names + [name], SLASH)
    requires (names + [name])[0] != ""
    ensures var id := Join(names + [name], SLASH);
            GetPolicy(m, id) == match Walk(m, names, name)
                                case Some(p) => Found(p, [SLASH] + path + [SLASH] + id)
                                case None => Missing
  {
    hide Overlaid, Own, Slashless, Walk;
    var id := Join(names + [name], SLASH);
    JoinNameRooted(names, name);
    RootedIsJoin(names + [name], SLASH);
    assert id == JoinName(names, name) by {
      assert ([SLASH] + id)[1..] == ([SLASH] + JoinName(names, name))[1..];
    }
    assert id != "" && id[0] == (names + [name])[0][0];
    assert Free((names + [name])[0], SLASH);
    FlatLookup(m, path, root, make, names, name);
  }

  /** GetPolicy on an absolute path, asked of any manager along it, does so too. */
  lemma AbsoluteFinds<P(!new)>(top: Manager<P>, path: string, root: ConfigGroup, make: Maker<P>,
                               a: seq<string>, b: seq<string>, name: string)
    requires Made(top, path, root, make) && Slashless(root) && AllFree(b, SLASH) && ManagerAt(top, a).Some?
    ensures var id := [SLASH] + path + Rooted(a + b + [name], SLASH);
            GetPolicy(ManagerAt(top, a).value, id) == match Walk(top, a + b, name)
                                                       case Some(p) => Found(p, id)
                                                       case None => Missing
  {
    hide Made, Slashless, Rooted, Walk, Find, JoinName, ManagerAt;
    var m := ManagerAt(top, a).value;
    var sub := ReachedMade(top, path, root, make, a);
    MadePath(m, path + Rooted(a, SLASH), sub, make);
    AbsoluteName(path, a, b, name);
    FlatLookup(m, m.path, sub, make, b, name);
    FindWalk(m, b, name);
    WalkTail(top, a, b, name);
  }

  lemma AbsoluteName(path: string, a: seq<string>, b: seq<string>, name: string)
    ensures var id := [SLASH] + path + Rooted(a + b + [name], SLASH);
            var p := path + Rooted(a, SLASH);
            && id == [SLASH] + p + [SLASH] + JoinName(b, name)
            && [SLASH] + p <= id
            && id[1 + |p| + 1..] == JoinName(b, name)
  {
    hide Rooted, JoinName;
    assert a + b + [name] == a + (b + [name]);
    RootedConcat(a, b + [name]);
    JoinNameRooted(b, name);
    assert [SLASH] + path + (Rooted(a, SLASH) + ([SLASH] + JoinName(b, name)))
        == [SLASH] + (path + Rooted(a, SLASH)) + [SLASH] + JoinName(b, name);
  }

  lemma FindWalk<P>(m: Manager<P>, names: seq<string>, name: string)
    requires var k := JoinName(names, name);
             Walk(m, names, name) == if k in m.policies then Some(m.policies[k]) else None
    ensures Find(m, JoinName(names, name)) == match Walk(m, names, name)
                                               case Some(p) => Found(p, [SLASH] + m.path + [SLASH] + JoinName(names, name))
                                               case None => Missing
  {
    hide Walk, JoinName;
  }

  lemma WalkTail<P>(m: Manager<P>, a: seq<string>, b: seq<string>, name: string)
    requires ManagerAt(m, a).Some?
    ensures Walk(m, a + b, name) == Walk(ManagerAt(m, a).value, b, name)
  {
    WalkSplit(m, a, b);
  }

  /** What GetPolicy makes of an absolute path in general: it checks that the manager's path comes
      first, but not that a slash comes next. */
  lemma AbsoluteExact<P(!new)>(m: Manager<P>, id: string)
    requires id != "" && id[0] == SLASH
    ensures GetPolicy(m, id).Panics? <==> id == [SLASH] + m.path
    ensures GetPolicy(m, id).Found? <==> exists c: char, rel :: id == [SLASH] + m.path + [c] + rel && rel in m.policies
  {
    var n := 1 + |m.path|;
    if [SLASH] + m.path <= id && |id| > n {
      assert id == [SLASH] + m.path + [id[n]] + id[n + 1..];
    }
    forall c: char, rel | id == [SLASH] + m.path + [c] + rel && rel in m.policies ensures GetPolicy(m, id).Found? {
      assert id[n + 1..] == rel;
    }
  }

  /** So a path whose last name merely begins like the manager's path finds one of its policies. */
  lemma AbsoluteMisreads()
    ensures var m := Manager("Channel", map["Admins" := true], map[]);
            GetPolicy(m, "/Channel-Admins").Found?
  {
    var m := Manager("Channel", map["Admins" := true], map[]);
    AbsoluteExact(m, "/Channel-Admins");
    assert "/Channel-Admins" == [SLASH] + m.path + ['-'] + "Admins";
  }
}
