/** The eligibility cache of the discovery service (discovery/authcache.go): one access cache per
    channel, used by any number of callers while channel configurations change. */
module AuthCache {
  import opened Basics

  /** Nil error is None. */
  type Answer = Option<string>

  /** The service behind the cache: its answer under each configuration sequence of a channel, and
      the key a request is cached under, None when encoding the request fails. */
  datatype Support = Support(eligible: (string, nat, Bytes) -> Answer, key: Bytes -> Option<string>)

  /** retain is the retention ratio times maxSize, cut to an integer. */
  datatype Config = Config(enabled: bool, maxSize: int, retain: int)

  /** An answer, with the sequence and the request it was computed for. */
  datatype Entry = Entry(answer: Answer, at: nat, data: Bytes)

  datatype Cache = Cache(channel: string, lastSequence: nat, entries: map<string, Entry>)

  /** configChange. */
  function Changed(c: Cache, currSeq: nat): Cache
  {
    c.(lastSequence := currSeq, entries := map[])
  }

  /** What eviction may leave: so many entries fewer, or none at all. */
  ghost predicate Evicted(conf: Config, before: map<string, Entry>, after: map<string, Entry>)
  {
    var evict := conf.maxSize - conf.retain;
    && after.Keys <= before.Keys
    && (forall k :: k in after ==> after[k] == before[k])
    && |after| == if 0 <= evict <= |before| then |before| - evict else 0
  }

  class AccessCache {
    const channel: string
    var lastSequence: nat
    var entries: map<string, Entry>

    ghost function Value(): Cache
      reads this
    {
      Cache(channel, lastSequence, entries)
    }

    constructor (channel: string)
      ensures Value() == Cache(channel, 0, map[])
    {
      this.channel, lastSequence, entries := channel, 0, map[];
    }

    method ConfigChange(currSeq: nat)
      modifies this
      ensures Value() == Changed(old(Value()), currSeq)
    {
      lastSequence := currSeq;
      entries := map[];
    }

    method PurgeEntriesIfNeeded(conf: Config)
      modifies this
      ensures lastSequence == old(lastSequence)
      ensures if |old(entries)| + 1 > conf.maxSize then Evicted(conf, old(entries), entries)
              else entries == old(entries)
    {
      if |entries| + 1 <= conf.maxSize {
        return;
      }
      var evict := conf.maxSize - conf.retain;
      var todo := entries.Keys;
      ghost var gone := 0;
      while todo != {}
        invariant todo <= entries.Keys <= old(entries).Keys && lastSequence == old(lastSequence)
        invariant forall k :: k in entries ==> entries[k] == old(entries)[k]
        invariant evict == conf.maxSize - conf.retain - gone && todo == entries.Keys
        invariant |entries| == |old(entries)| - gone
        invariant conf.maxSize - conf.retain >= 0 ==> evict >= 0
        decreases todo
      {
        if evict == 0 {
          return;
        }
        var key :| key in todo;
        assert |entries.Keys - {key}| == |entries.Keys| - 1;
        evict := evict - 1;
        entries := entries - {key};
        gone := gone + 1;
        todo := todo - {key};
        assert entries.Keys == old(entries).Keys - (old(entries).Keys - todo);
      }
      assert |entries.Keys| == 0;
    }
  }

  // ---- interleavings: every lock region and every read of the sequence is one step

  datatype Pc =
    | Finding
    | Creating
    | Reading(cache: nat)
    | Checking(cache: nat, curr: nat)
    | Looking(cache: nat, curr: nat)
    | Changing(cache: nat, curr: nat)
    | Sizing(cache: nat, curr: nat)
    | Evicting(cache: nat, curr: nat)
    | Computing(cache: nat, curr: nat)
    | Locking(cache: nat, curr: nat, found: Entry)
    | Rechecking(cache: nat, curr: nat, found: Entry)
    | Storing(cache: nat, curr: nat, found: Entry)
    | Returned(curr: nat, found: Entry, when: nat)
    | Failed

  /** A call in progress. */
  datatype Caller = Caller(channel: string, data: Bytes, pc: Pc)

  /** The configuration sequences, the caches ever made, the one in use for each channel, the calls. */
  datatype State = State(seqs: map<string, nat>, caches: seq<Cache>, current: map<string, nat>,
                         callers: map<nat, Caller>)

  function Seq(s: State, channel: string): nat
  {
    if channel in s.seqs then s.seqs[channel] else 0
  }

  predicate Holds(pc: Pc, c: nat)
  {
    (pc.Rechecking? || pc.Storing?) && pc.cache == c
  }

  ghost predicate Free(s: State, c: nat)
  {
    forall t :: t in s.callers ==> !Holds(s.callers[t].pc, c)
  }

  function Goto(s: State, t: nat, pc: Pc): State
    requires t in s.callers
  {
    s.(callers := s.callers[t := s.callers[t].(pc := pc)])
  }

  function Put(s: State, c: nat, cache: Cache): State
    requires c < |s.caches|
  {
    s.(caches := s.caches[c := cache])
  }

  function Computed(k: Support, channel: string, at: nat, data: Bytes): Entry
  {
    Entry(k.eligible(channel, at, data), at, data)
  }

  /** One step of caller t. */
  ghost predicate CallerStep(k: Support, conf: Config, s: State, s': State, t: nat)
  {
    t in s.callers &&
    var p := s.callers[t];
    var now := Seq(s, p.channel);
    match p.pc
    case Finding =>
      s' == if !conf.enabled then Goto(s, t, Returned(now, Computed(k, p.channel, now, p.data), now))
            else if p.channel in s.current then Goto(s, t, Reading(s.current[p.channel]))
            else Goto(s, t, Creating)
    case Creating =>
      s' == Goto(s.(caches := s.caches + [Cache(p.channel, 0, map[])],
                    current := s.current[p.channel := |s.caches|]), t, Reading(|s.caches|))
    case Reading(c) =>
      s' == if k.key(p.data).None? then Goto(s, t, Failed) else Goto(s, t, Checking(c, now))
    case Checking(c, curr) =>
      Free(s, c) && c < |s.caches|
      && s' == Goto(s, t, if s.caches[c].lastSequence == curr then Looking(c, curr) else Changing(c, curr))
    case Looking(c, curr) =>
      Free(s, c) && c < |s.caches| && k.key(p.data).Some?
      && var key := k.key(p.data).value;
         s' == Goto(s, t, if key in s.caches[c].entries then Returned(curr, s.caches[c].entries[key], now)
                          else Sizing(c, curr))
    case Changing(c, curr) =>
      Free(s, c) && c < |s.caches|
      && s' == Goto(Put(s, c, Changed(s.caches[c], curr)), t, Sizing(c, curr))
    case Sizing(c, curr) =>
      Free(s, c) && c < |s.caches|
      && s' == Goto(s, t, if |s.caches[c].entries| + 1 > conf.maxSize then Evicting(c, curr) else Computing(c, curr))
    case Evicting(c, curr) =>
      Free(s, c) && c < |s.caches|
      && exists left :: Evicted(conf, s.caches[c].entries, left)
           && s' == Goto(Put(s, c, s.caches[c].(entries := left)), t, Computing(c, curr))
    case Computing(c, curr) =>
      s' == Goto(s, t, Locking(c, curr, Computed(k, p.channel, now, p.data)))
    case Locking(c, curr, found) =>
      Free(s, c) && s' == Goto(s, t, Rechecking(c, curr, found))
    case Rechecking(c, curr, found) =>
      s' == Goto(s, t, if curr != now then Returned(curr, found, now) else Storing(c, curr, found))
    case Storing(c, curr, found) =>
      c < |s.caches| && k.key(p.data).Some?
      && var cache := s.caches[c];
         s' == Goto(Put(s, c, cache.(entries := cache.entries[k.key(p.data).value := found])), t,
                    Returned(curr, found, now))
    case Returned(_, _, _) => false
    case Failed => false
  }

  /** A new call. */
  ghost predicate CallStep(s: State, s': State, t: nat, channel: string, data: Bytes)
  {
    t !in s.callers && s' == s.(callers := s.callers[t := Caller(channel, data, Finding)])
  }

  /** A channel's configuration sequence grows. */
  ghost predicate ConfigStep(s: State, s': State, channel: string, to: nat)
  {
    Seq(s, channel) <= to && s' == s.(seqs := s.seqs[channel := to])
  }

  ghost predicate Next(k: Support, conf: Config, s: State, s': State)
  {
    || (exists t :: CallerStep(k, conf, s, s', t))
    || (exists t, channel, data :: CallStep(s, s', t, channel, data))
    || (exists channel, to :: ConfigStep(s, s', channel, to))
  }

  ghost predicate Run(k: Support, conf: Config, states: seq<State>)
  {
    && |states| > 0
    && states[0].caches == [] && states[0].current == map[] && states[0].callers == map[]
    && forall i :: 0 < i < |states| ==> Next(k, conf, states[i - 1], states[i])
  }

  // ---- the invariant

  /** The entry is the service's answer, under its own sequence, to a request with that key. */
  predicate Genuine(k: Support, channel: string, e: Entry, key: Option<string>)
  {
    e.answer == k.eligible(channel, e.at, e.data) && k.key(e.data) == key
  }

  ghost predicate CacheOk(k: Support, s: State, c: Cache)
  {
    && c.lastSequence <= Seq(s, c.channel)
    && forall key :: key in c.entries ==>
         && c.lastSequence <= c.entries[key].at <= Seq(s, c.channel)
         && Genuine(k, c.channel, c.entries[key], Some(key))
  }

  ghost predicate NoOlder(c: Cache, curr: nat)
  {
    forall key :: key in c.entries ==> curr <= c.entries[key].at
  }

  /** The entry answers the caller's request, or one with the same key. */
  predicate Answers(k: Support, p: Caller, e: Entry)
  {
    Genuine(k, p.channel, e, k.key(p.data)) && (k.key(p.data).Some? || e.data == p.data)
  }

  /** The caller has read the sequence and not returned yet. */
  predicate Busy(pc: Pc)
  {
    || pc.Checking? || pc.Looking? || pc.Changing? || pc.Sizing? || pc.Evicting? || pc.Computing?
    || pc.Locking? || pc.Rechecking? || pc.Storing?
  }

  ghost predicate CallerOk(k: Support, s: State, p: Caller)
  {
    var pc, now := p.pc, Seq(s, p.channel);
    && (pc.Reading? || Busy(pc) ==> pc.cache < |s.caches| && s.caches[pc.cache].channel == p.channel)
    && (Busy(pc) ==> pc.curr <= now && k.key(p.data).Some?)
    && (pc.Looking? ==> NoOlder(s.caches[pc.cache], pc.curr))
    && (pc.Locking? || pc.Rechecking? || pc.Storing? ==>
          pc.curr <= pc.found.at <= now && pc.found == Computed(k, p.channel, pc.found.at, p.data))
    && (pc.Storing? ==> pc.found.at == pc.curr && s.caches[pc.cache].lastSequence <= pc.curr)
    && (pc.Returned? ==> pc.curr <= pc.found.at <= pc.when <= now && Answers(k, p, pc.found))
  }

  /** Two callers together: one writer per cache, and a caller about to look up never waits for an
      older answer than the one it read. */
  ghost predicate PairOk(p: Caller, q: Caller)
  {
    && ((p.pc.Rechecking? || p.pc.Storing?) ==> !Holds(q.pc, p.pc.cache))
    && (p.pc.Storing? && q.pc.Looking? && p.pc.cache == q.pc.cache ==> q.pc.curr <= p.pc.curr)
  }

  ghost predicate CurrentOk(s: State)
  {
    forall ch :: ch in s.current ==> s.current[ch] < |s.caches| && s.caches[s.current[ch]].channel == ch
  }

  ghost predicate Inv(k: Support, s: State)
  {
    && CurrentOk(s)
    && (forall i :: 0 <= i < |s.caches| ==> CacheOk(k, s, s.caches[i]))
    && (forall t :: t in s.callers ==> CallerOk(k, s, s.callers[t]))
    && (forall t, u :: t in s.callers && u in s.callers && t != u ==> PairOk(s.callers[t], s.callers[u]))
  }

  // ---- every step keeps it

  /** Sequences do not go back, and caches stay and keep their channels. */
  ghost predicate Grows(s: State, s': State)
  {
    && |s.caches| <= |s'.caches|
    && (forall ch :: Seq(s, ch) <= Seq(s', ch))
    && (forall i :: 0 <= i < |s.caches| ==> s'.caches[i].channel == s.caches[i].channel)
  }

  /** The cache is as it was, except that entries may be gone. */
  ghost predicate Kept(s: State, s': State, c: nat)
    requires c < |s.caches| <= |s'.caches|
  {
    && s'.caches[c].lastSequence == s.caches[c].lastSequence
    && s'.caches[c].entries.Keys <= s.caches[c].entries.Keys
    && (forall key :: key in s'.caches[c].entries ==> s'.caches[c].entries[key] == s.caches[c].entries[key])
  }

  lemma CallerKept(k: Support, s: State, s': State, p: Caller)
    requires CallerOk(k, s, p) && Grows(s, s')
    requires p.pc.Looking? || p.pc.Storing? ==> Kept(s, s', p.pc.cache)
    ensures CallerOk(k, s', p)
  {
  }

  lemma CacheKept(k: Support, s: State, s': State, c: nat)
    requires c < |s.caches| && CacheOk(k, s, s.caches[c]) && Grows(s, s') && Kept(s, s', c)
    ensures CacheOk(k, s', s'.caches[c])
  {
  }

  /** A step of one caller that leaves every cache with the entries it had or fewer. */
  lemma QuietStep(k: Support, s: State, s': State, t: nat)
    requires Inv(k, s) && t in s'.callers && Grows(s, s') && CurrentOk(s')
    requires s'.callers.Keys == s.callers.Keys + {t}
    requires forall u :: u in s.callers && u != t ==> s'.callers[u] == s.callers[u]
    requires forall i: nat :: i < |s.caches| ==> Kept(s, s', i)
    requires forall i :: |s.caches| <= i < |s'.caches| ==> CacheOk(k, s', s'.caches[i])
    requires CallerOk(k, s', s'.callers[t])
    requires forall u :: u in s.callers && u != t ==>
               PairOk(s'.callers[t], s.callers[u]) && PairOk(s.callers[u], s'.callers[t])
    ensures Inv(k, s')
  {
    hide CallerOk, PairOk, CacheOk, Kept, Grows;
    forall i | 0 <= i < |s'.caches| ensures CacheOk(k, s', s'.caches[i]) {
      if i < |s.caches| {
        CacheKept(k, s, s', i);
      }
    }
    forall u | u in s'.callers ensures CallerOk(k, s', s'.callers[u]) {
      if u != t {
        CallerReach(k, s, s.callers[u]);
        CallerKept(k, s, s', s.callers[u]);
      }
    }
  }

  lemma CallerReach(k: Support, s: State, p: Caller)
    requires CallerOk(k, s, p)
    ensures p.pc.Looking? || p.pc.Storing? ==> p.pc.cache < |s.caches|
  {
  }

  /** The caller neither holds a lock nor is about to look up. */
  predicate Idle(pc: Pc)
  {
    !pc.Looking? && !pc.Rechecking? && !pc.Storing?
  }

  lemma IdlePairs(p: Caller, q: Caller)
    requires Idle(p.pc)
    ensures PairOk(p, q) && PairOk(q, p)
  {
  }

  /** A step that changes nothing but where the caller is. */
  lemma MoveKeeps(k: Support, s: State, t: nat, pc: Pc)
    requires Inv(k, s) && t in s.callers
    requires CallerOk(k, s, s.callers[t].(pc := pc))
    requires forall u :: u in s.callers && u != t ==>
               PairOk(s.callers[t].(pc := pc), s.callers[u]) && PairOk(s.callers[u], s.callers[t].(pc := pc))
    ensures Inv(k, Goto(s, t, pc))
  {
    hide PairOk, CacheOk;
    var s' := Goto(s, t, pc);
    forall i: nat | i < |s.caches| ensures Kept(s, s', i) {
    }
    CallerKept(k, s.(callers := s'.callers), s', s'.callers[t]) by {
      assert CallerOk(k, s.(callers := s'.callers), s'.callers[t]);
    }
    QuietStep(k, s, s', t);
  }

  lemma IdleMoveKeeps(k: Support, s: State, t: nat, pc: Pc)
    requires Inv(k, s) && t in s.callers && Idle(pc)
    requires CallerOk(k, s, s.callers[t].(pc := pc))
    ensures Inv(k, Goto(s, t, pc))
  {
    hide CallerOk, CacheOk, PairOk;
    forall u | u in s.callers && u != t
      ensures PairOk(s.callers[t].(pc := pc), s.callers[u]) && PairOk(s.callers[u], s.callers[t].(pc := pc))
    {
      IdlePairs(s.callers[t].(pc := pc), s.callers[u]);
    }
    MoveKeeps(k, s, t, pc);
  }

  /** A step that rewrites one cache: those looking into it must still find nothing too old, and
      nobody else may be about to store into it. */
  lemma PutKeeps(k: Support, s: State, t: nat, c: nat, cache: Cache, pc: Pc)
    requires Inv(k, s) && t in s.callers && c < |s.caches| && Idle(pc)
    requires cache.channel == s.caches[c].channel && CacheOk(k, s, cache)
    requires CallerOk(k, s, s.callers[t].(pc := pc))
    requires forall u :: u in s.callers && u != t ==>
               && !(s.callers[u].pc.Storing? && s.callers[u].pc.cache == c)
               && (s.callers[u].pc.Looking? && s.callers[u].pc.cache == c ==> NoOlder(cache, s.callers[u].pc.curr))
    ensures Inv(k, Goto(Put(s, c, cache), t, pc))
  {
    hide PairOk, CallerOk, CacheOk, NoOlder;
    var s' := Goto(Put(s, c, cache), t, pc);
    forall u | u in s'.callers ensures CallerOk(k, s', s'.callers[u]) {
      PutCaller(k, s, s', c, s'.callers[u]);
    }
    forall u, v | u in s'.callers && v in s'.callers && u != v ensures PairOk(s'.callers[u], s'.callers[v]) {
      if u == t {
        IdlePairs(s'.callers[u], s'.callers[v]);
      } else if v == t {
        IdlePairs(s'.callers[v], s'.callers[u]);
      }
    }
    forall i | 0 <= i < |s'.caches| ensures CacheOk(k, s', s'.caches[i]) {
      SameSeqs(k, s, s', s'.caches[i]);
    }
  }

  lemma SameSeqs(k: Support, s: State, s': State, c: Cache)
    requires s'.seqs == s.seqs && CacheOk(k, s, c)
    ensures CacheOk(k, s', c)
  {
  }

  lemma PutCaller(k: Support, s: State, s': State, c: nat, p: Caller)
    requires CallerOk(k, s, p) && c < |s.caches| == |s'.caches| && s'.seqs == s.seqs
    requires s'.caches[c].channel == s.caches[c].channel
    requires forall i :: 0 <= i < |s.caches| && i != c ==> s'.caches[i] == s.caches[i]
    requires !(p.pc.Storing? && p.pc.cache == c)
    requires p.pc.Looking? && p.pc.cache == c ==> NoOlder(s'.caches[c], p.pc.curr)
    ensures CallerOk(k, s', p)
  {
    hide NoOlder, Genuine, Computed;
  }

  // the cases of CallerStep that are more than a move

  lemma CreateKeeps(k: Support, s: State, t: nat)
    requires Inv(k, s) && t in s.callers
    ensures var ch := s.callers[t].channel;
            Inv(k, Goto(s.(caches := s.caches + [Cache(ch, 0, map[])], current := s.current[ch := |s.caches|]), t,
                        Reading(|s.caches|)))
  {
    hide PairOk;
    var ch := s.callers[t].channel;
    var s' := Goto(s.(caches := s.caches + [Cache(ch, 0, map[])], current := s.current[ch := |s.caches|]), t,
                   Reading(|s.caches|));
    forall u | u in s.callers && u != t
      ensures PairOk(s'.callers[t], s.callers[u]) && PairOk(s.callers[u], s'.callers[t])
    {
      IdlePairs(s'.callers[t], s.callers[u]);
    }
    QuietStep(k, s, s', t);
  }

  /** isValid answering yes: the lock is free, so nobody is about to store, and all entries are at
      least as new as the sequence they were last invalidated for. */
  lemma CheckKeeps(k: Support, s: State, t: nat)
    requires Inv(k, s) && t in s.callers && s.callers[t].pc.Checking? && Free(s, s.callers[t].pc.cache)
    requires s.caches[s.callers[t].pc.cache].lastSequence == s.callers[t].pc.curr
    ensures Inv(k, Goto(s, t, Looking(s.callers[t].pc.cache, s.callers[t].pc.curr)))
  {
    hide Genuine, Computed;
    var p := s.callers[t];
    assert CacheOk(k, s, s.caches[p.pc.cache]);
    forall u | u in s.callers && u != t
      ensures var p' := p.(pc := Looking(p.pc.cache, p.pc.curr));
              PairOk(p', s.callers[u]) && PairOk(s.callers[u], p')
    {
      assert !Holds(s.callers[u].pc, p.pc.cache);
    }
    MoveKeeps(k, s, t, Looking(p.pc.cache, p.pc.curr));
  }

  lemma LockKeeps(k: Support, s: State, t: nat)
    requires Inv(k, s) && t in s.callers && s.callers[t].pc.Locking? && Free(s, s.callers[t].pc.cache)
    ensures Inv(k, Goto(s, t, Rechecking(s.callers[t].pc.cache, s.callers[t].pc.curr, s.callers[t].pc.found)))
  {
    hide Genuine, Computed, CacheOk;
    var p := s.callers[t];
    forall u | u in s.callers && u != t
      ensures var p' := p.(pc := Rechecking(p.pc.cache, p.pc.curr, p.pc.found));
              PairOk(p', s.callers[u]) && PairOk(s.callers[u], p')
    {
      assert !Holds(s.callers[u].pc, p.pc.cache);
    }
    MoveKeeps(k, s, t, Rechecking(p.pc.cache, p.pc.curr, p.pc.found));
  }

  /** The second read of the sequence gives the first one again: the answer was computed under it,
      and nobody about to look up has read a newer one. */
  lemma RecheckKeeps(k: Support, s: State, t: nat)
    requires Inv(k, s) && t in s.callers && s.callers[t].pc.Rechecking?
    requires s.callers[t].pc.curr == Seq(s, s.callers[t].channel)
    ensures Inv(k, Goto(s, t, Storing(s.callers[t].pc.cache, s.callers[t].pc.curr, s.callers[t].pc.found)))
  {
    hide Genuine, Computed;
    var p := s.callers[t];
    assert CacheOk(k, s, s.caches[p.pc.cache]);
    forall u | u in s.callers && u != t
      ensures var p' := p.(pc := Storing(p.pc.cache, p.pc.curr, p.pc.found));
              PairOk(p', s.callers[u]) && PairOk(s.callers[u], p')
    {
      assert PairOk(p, s.callers[u]) && PairOk(s.callers[u], p);
      assert CallerOk(k, s, s.callers[u]);
    }
    MoveKeeps(k, s, t, Storing(p.pc.cache, p.pc.curr, p.pc.found));
  }

  lemma ChangeKeeps(k: Support, s: State, t: nat)
    requires Inv(k, s) && t in s.callers && s.callers[t].pc.Changing? && Free(s, s.callers[t].pc.cache)
    ensures var p := s.callers[t];
            p.pc.cache < |s.caches|
              && Inv(k, Goto(Put(s, p.pc.cache, Changed(s.caches[p.pc.cache], p.pc.curr)), t, Sizing(p.pc.cache, p.pc.curr)))
  {
    hide PairOk, Genuine, Computed;
    var p := s.callers[t];
    assert CallerOk(k, s, p);
    forall u | u in s.callers && u != t ensures !(s.callers[u].pc.Storing? && s.callers[u].pc.cache == p.pc.cache) {
      assert !Holds(s.callers[u].pc, p.pc.cache);
    }
    PutKeeps(k, s, t, p.pc.cache, Changed(s.caches[p.pc.cache], p.pc.curr), Sizing(p.pc.cache, p.pc.curr));
  }

  lemma EvictKeeps(k: Support, conf: Config, s: State, t: nat, left: map<string, Entry>)
    requires Inv(k, s) && t in s.callers && s.callers[t].pc.Evicting? && Free(s, s.callers[t].pc.cache)
    requires s.callers[t].pc.cache < |s.caches| && Evicted(conf, s.caches[s.callers[t].pc.cache].entries, left)
    ensures var p := s.callers[t];
            Inv(k, Goto(Put(s, p.pc.cache, s.caches[p.pc.cache].(entries := left)), t, Computing(p.pc.cache, p.pc.curr)))
  {
    hide PairOk, Genuine, Computed;
    var p := s.callers[t];
    assert CacheOk(k, s, s.caches[p.pc.cache]);
    forall u | u in s.callers && u != t ensures !(s.callers[u].pc.Storing? && s.callers[u].pc.cache == p.pc.cache) {
      assert !Holds(s.callers[u].pc, p.pc.cache);
    }
    forall u | u in s.callers && u != t && s.callers[u].pc.Looking? && s.callers[u].pc.cache == p.pc.cache
      ensures NoOlder(s.caches[p.pc.cache].(entries := left), s.callers[u].pc.curr)
    {
      assert CallerOk(k, s, s.callers[u]);
    }
    PutKeeps(k, s, t, p.pc.cache, s.caches[p.pc.cache].(entries := left), Computing(p.pc.cache, p.pc.curr));
  }

  lemma StoreKeeps(k: Support, s: State, t: nat)
    requires Inv(k, s) && t in s.callers && s.callers[t].pc.Storing?
    ensures var p := s.callers[t];
            p.pc.cache < |s.caches| && k.key(p.data).Some?
              && var cache := s.caches[p.pc.cache];
              Inv(k, Goto(Put(s, p.pc.cache, cache.(entries := cache.entries[k.key(p.data).value := p.pc.found])), t,
                          Returned(p.pc.curr, p.pc.found, Seq(s, p.channel))))
  {
    var p := s.callers[t];
    assert CallerOk(k, s, p);
    var cache := s.caches[p.pc.cache];
    assert CacheOk(k, s, cache);
    var cache' := cache.(entries := cache.entries[k.key(p.data).value := p.pc.found]);
    forall u | u in s.callers && u != t
      ensures !(s.callers[u].pc.Storing? && s.callers[u].pc.cache == p.pc.cache)
      ensures s.callers[u].pc.Looking? && s.callers[u].pc.cache == p.pc.cache ==> NoOlder(cache', s.callers[u].pc.curr)
    {
      assert PairOk(p, s.callers[u]);
      assert CallerOk(k, s, s.callers[u]);
    }
    PutKeeps(k, s, t, p.pc.cache, cache', Returned(p.pc.curr, p.pc.found, Seq(s, p.channel)));
  }

  /** The steps that only move the caller on. */
  lemma PlainKeeps(k: Support, conf: Config, s: State, s': State, t: nat)
    requires Inv(k, s) && CallerStep(k, conf, s, s', t)
    requires var pc := s.callers[t].pc; pc.Reading? || pc.Sizing? || pc.Computing?
    ensures Inv(k, s')
  {
    hide PairOk, Free, CacheOk, Evicted, Changed, Put, Answers;
    var p := s.callers[t];
    assert CallerOk(k, s, p);
    IdleMoveKeeps(k, s, t, s'.callers[t].pc);
  }

  lemma FindKeeps(k: Support, conf: Config, s: State, s': State, t: nat)
    requires Inv(k, s) && CallerStep(k, conf, s, s', t) && s.callers[t].pc.Finding?
    ensures Inv(k, s')
  {
    hide PairOk, Free, CacheOk, Evicted, Changed, Put;
    IdleMoveKeeps(k, s, t, s'.callers[t].pc);
  }

  lemma MissKeeps(k: Support, s: State, t: nat)
    requires Inv(k, s) && t in s.callers && s.callers[t].pc.Checking?
    ensures Inv(k, Goto(s, t, Changing(s.callers[t].pc.cache, s.callers[t].pc.curr)))
  {
    hide PairOk, CacheOk;
    assert CallerOk(k, s, s.callers[t]);
    IdleMoveKeeps(k, s, t, Changing(s.callers[t].pc.cache, s.callers[t].pc.curr));
  }

  lemma StaleKeeps(k: Support, s: State, t: nat)
    requires Inv(k, s) && t in s.callers && s.callers[t].pc.Rechecking?
    ensures Inv(k, Goto(s, t, Returned(s.callers[t].pc.curr, s.callers[t].pc.found, Seq(s, s.callers[t].channel))))
  {
    hide PairOk, CacheOk;
    assert CallerOk(k, s, s.callers[t]);
    IdleMoveKeeps(k, s, t, Returned(s.callers[t].pc.curr, s.callers[t].pc.found, Seq(s, s.callers[t].channel)));
  }

  lemma CallerStepKeeps(k: Support, conf: Config, s: State, s': State, t: nat)
    requires Inv(k, s) && CallerStep(k, conf, s, s', t)
    ensures Inv(k, s')
  {
    hide Inv, Free, Evicted, Put, Goto, Changed;
    match s.callers[t].pc {
      case Finding => FindKeeps(k, conf, s, s', t);
      case Creating => CreateKeeps(k, s, t);
      case Checking(_, _) => CheckedKeeps(k, conf, s, s', t);
      case Looking(_, _) => LookKeeps(k, s, t);
      case Changing(_, _) => ChangeKeeps(k, s, t);
      case Evicting(_, _) => EvictedKeeps(k, conf, s, s', t);
      case Locking(_, _, _) => LockKeeps(k, s, t);
      case Rechecking(_, _, _) => RecheckedKeeps(k, conf, s, s', t);
      case Storing(_, _, _) => StoreKeeps(k, s, t);
      case _ => PlainKeeps(k, conf, s, s', t);
    }
  }

  lemma CheckedKeeps(k: Support, conf: Config, s: State, s': State, t: nat)
    requires Inv(k, s) && CallerStep(k, conf, s, s', t) && s.callers[t].pc.Checking?
    ensures Inv(k, s')
  {
    hide Inv, Free, Goto;
    if s.caches[s.callers[t].pc.cache].lastSequence == s.callers[t].pc.curr {
      CheckKeeps(k, s, t);
    } else {
      MissKeeps(k, s, t);
    }
  }

  lemma EvictedKeeps(k: Support, conf: Config, s: State, s': State, t: nat)
    requires Inv(k, s) && CallerStep(k, conf, s, s', t) && s.callers[t].pc.Evicting?
    ensures Inv(k, s')
  {
    hide Inv, Free, Evicted, Goto;
    var c, curr := s.callers[t].pc.cache, s.callers[t].pc.curr;
    var left :| Evicted(conf, s.caches[c].entries, left)
             && s' == Goto(Put(s, c, s.caches[c].(entries := left)), t, Computing(c, curr));
    EvictKeeps(k, conf, s, t, left);
  }

  lemma RecheckedKeeps(k: Support, conf: Config, s: State, s': State, t: nat)
    requires Inv(k, s) && CallerStep(k, conf, s, s', t) && s.callers[t].pc.Rechecking?
    ensures Inv(k, s')
  {
    hide Inv, Goto;
    if s.callers[t].pc.curr == Seq(s, s.callers[t].channel) {
      RecheckKeeps(k, s, t);
    } else {
      StaleKeeps(k, s, t);
    }
  }

  lemma CallKeeps(k: Support, s: State, s': State, t: nat, channel: string, data: Bytes)
    requires Inv(k, s) && CallStep(s, s', t, channel, data)
    ensures Inv(k, s')
  {
    hide PairOk, CacheOk;
    forall u | u in s.callers
      ensures PairOk(s'.callers[t], s.callers[u]) && PairOk(s.callers[u], s'.callers[t])
    {
      IdlePairs(s'.callers[t], s.callers[u]);
    }
    QuietStep(k, s, s', t);
  }

  lemma ConfigKeeps(k: Support, s: State, s': State, channel: string, to: nat)
    requires Inv(k, s) && ConfigStep(s, s', channel, to)
    ensures Inv(k, s')
  {
    hide PairOk, CacheOk, CallerOk;
    assert Grows(s, s');
    forall i | 0 <= i < |s'.caches| ensures CacheOk(k, s', s'.caches[i]) {
      CacheKept(k, s, s', i);
    }
    forall u | u in s'.callers ensures CallerOk(k, s', s'.callers[u]) {
      CallerReach(k, s, s.callers[u]);
      CallerKept(k, s, s', s.callers[u]);
    }
  }

  lemma NextKeeps(k: Support, conf: Config, s: State, s': State)
    requires Inv(k, s) && Next(k, conf, s, s')
    ensures Inv(k, s')
  {
    hide Inv, CallerStep, CallStep, ConfigStep;
    if t :| CallerStep(k, conf, s, s', t) {
      CallerStepKeeps(k, conf, s, s', t);
    } else if t, channel, data :| CallStep(s, s', t, channel, data) {
      CallKeeps(k, s, s', t, channel, data);
    } else {
      var channel, to :| ConfigStep(s, s', channel, to);
      ConfigKeeps(k, s, s', channel, to);
    }
  }

  lemma {:induction false} RunKeeps(k: Support, conf: Config, states: seq<State>, n: nat)
    requires Run(k, conf, states) && n < |states|
    ensures Inv(k, states[n])
  {
    hide Next;
    if n > 0 {
      RunKeeps(k, conf, states, n - 1);
      NextKeeps(k, conf, states[n - 1], states[n]);
    }
  }

  /** In every run, the answer a call returns was computed by the service under a configuration
      sequence no older than the one the caller read, for a request with the caller's key. */
  lemma NeverStale(k: Support, conf: Config, states: seq<State>, n: nat, t: nat)
    requires Run(k, conf, states) && n < |states| && t in states[n].callers && states[n].callers[t].pc.Returned?
    ensures var p := states[n].callers[t];
            var e := p.pc.found;
            && p.pc.curr <= e.at <= p.pc.when
            && e.answer == k.eligible(p.channel, e.at, e.data)
            && (e.data == p.data || (k.key(p.data).Some? && k.key(e.data) == k.key(p.data)))
  {
    hide CacheOk, PairOk, Run;
    RunKeeps(k, conf, states, n);
    assert CallerOk(k, states[n], states[n].callers[t]);
  }

  /** If keys tell requests apart and the sequence is at the end of the call what it was at its
      read, the cache answered as the service itself answers. */
  lemma SameAsDirect(k: Support, conf: Config, states: seq<State>, n: nat, t: nat)
    requires Run(k, conf, states) && n < |states| && t in states[n].callers && states[n].callers[t].pc.Returned?
    requires states[n].callers[t].pc.curr == states[n].callers[t].pc.when
    requires forall d, e: Bytes :: k.key(d).Some? && k.key(d) == k.key(e) ==> d == e
    ensures var p := states[n].callers[t];
            p.pc.found.answer == k.eligible(p.channel, p.pc.when, p.data)
  {
    hide Run;
    NeverStale(k, conf, states, n, t);
  }

  lemma LookKeeps(k: Support, s: State, t: nat)
    requires Inv(k, s) && t in s.callers && s.callers[t].pc.Looking? && k.key(s.callers[t].data).Some?
    requires s.callers[t].pc.cache < |s.caches|
    ensures var p := s.callers[t];
            var entries := s.caches[p.pc.cache].entries;
            var key := k.key(p.data).value;
            Inv(k, Goto(s, t, if key in entries then Returned(p.pc.curr, entries[key], Seq(s, p.channel))
                              else Sizing(p.pc.cache, p.pc.curr)))
  {
    hide PairOk;
    var p := s.callers[t];
    var entries := s.caches[p.pc.cache].entries;
    var key := k.key(p.data).value;
    assert CallerOk(k, s, p) && CacheOk(k, s, s.caches[p.pc.cache]);
    IdleMoveKeeps(k, s, t, if key in entries then Returned(p.pc.curr, entries[key], Seq(s, p.channel))
                           else Sizing(p.pc.cache, p.pc.curr));
  }
}
