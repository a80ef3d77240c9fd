/** Named logger levels (common/flogging/loggerlevels.go). Every method is one lock region, except
    Level, which is CachedLevel followed by StoreLevel. */
module LoggerLevels {
  import opened Basics
  import opened Strings

  /** A zap level: the larger the more severe. */
  type Level = int

  const PAYLOAD := -2
  const DEBUG := -1
  const INFO := 0
  const WARN := 1
  const ERROR := 2
  const DPANIC := 3
  const PANIC := 4
  const FATAL := 5

  function NameLevel(name: string): Option<Level>
  {
    if name in ["PAYLOAD", "payload"] then Some(PAYLOAD)
    else if name in ["DEBUG", "debug"] then Some(DEBUG)
    else if name in ["INFO", "info", "NOTICE", "notice"] then Some(INFO)
    else if name in ["WARNING", "WARN", "warning", "warn"] then Some(WARN)
    else if name in ["ERROR", "error", "CRITICAL", "critical"] then Some(ERROR)
    else if name in ["DPANIC", "dpanic"] then Some(DPANIC)
    else if name in ["PANIC", "panic"] then Some(PANIC)
    else if name in ["FATAL", "fatal"] then Some(FATAL)
    else None
  }

  function NameToLevel(name: string): Level
  {
    match NameLevel(name) case Some(l) => l case None => INFO
  }

  predicate NameChar(c: char)
  {
    'a' <= c <= 'z' || 'A' <= c <= 'Z' || '0' <= c <= '9' || c in ['_', '#', ':', '-']
  }

  /** Non-empty segments of legal characters, separated by periods. */
  predicate ValidName(name: string)
  {
    forall part :: part in Split(name, '.') ==> part != "" && forall c :: c in part ==> NameChar(c)
  }

  function TrimPeriod(name: string): string
  {
    if name != "" && name[|name| - 1] == '.' then name[..|name| - 1] else name
  }

  // ---- the specification

  datatype Spec = Spec(defaultLevel: Level, levels: map<string, Level>)

  function WithLoggers(levels: map<string, Level>, loggers: seq<string>, level: Level): Option<map<string, Level>>
  {
    if loggers == [] then Some(levels)
    else
      var last := |loggers| - 1;
      match WithLoggers(levels, loggers[..last], level)
      case None => None
      case Some(m) => if ValidName(TrimPeriod(loggers[last])) then Some(m[loggers[last] := level]) else None
  }

  function WithField(spec: Spec, field: string): Option<Spec>
  {
    var cut := Split(field, '=');
    if |cut| == 1 then
      if field != "" && NameLevel(field).None? then None else Some(spec.(defaultLevel := NameToLevel(field)))
    else if |cut| == 2 then
      if cut[0] == "" || NameLevel(cut[1]).None? then None
      else match WithLoggers(spec.levels, Split(cut[0], ','), NameToLevel(cut[1]))
           case None => None
           case Some(m) => Some(spec.(levels := m))
    else None
  }

  function WithFields(fields: seq<string>): Option<Spec>
  {
    if fields == [] then Some(Spec(INFO, map[]))
    else
      var last := |fields| - 1;
      match WithFields(fields[..last])
      case None => None
      case Some(spec) => WithField(spec, fields[last])
  }

  /** What a specification string means; None is an error. */
  function Parse(text: string): Option<Spec>
  {
    WithFields(Split(text, ':'))
  }

  // ---- the level of a logger

  function LastPeriod(s: string): (r: int)
    ensures -1 <= r < |s|
    ensures r >= 0 ==> s[r] == '.'
    ensures forall j :: r < j < |s| ==> s[j] != '.'
  {
    if s == "" then -1
    else if s[|s| - 1] == '.' then |s| - 1
    else LastPeriod(s[..|s| - 1])
  }

  /** The walk of calculateLevel from a candidate. */
  function Walk(spec: Spec, candidate: string): Level
    decreases |candidate|
  {
    if candidate in spec.levels then spec.levels[candidate]
    else
      var idx := LastPeriod(candidate);
      if idx <= 0 then spec.defaultLevel else Walk(spec, candidate[..idx])
  }

  function Effective(spec: Spec, name: string): Level
  {
    Walk(spec, name + ".")
  }

  /** `name` up to position i is followed by a period, counting one after its end, and is specified. */
  predicate Specified(spec: Spec, name: string, i: int)
  {
    var c := name + ".";
    0 < i < |c| && c[i] == '.' && c[..i] in spec.levels
  }

  lemma {:induction false} WalkFinds(spec: Spec, name: string, n: nat)
    requires var c := name + "."; 0 < n <= |name| && c[n] == '.'
    requires forall i :: n < i <= |name| ==> !Specified(spec, name, i)
    ensures forall i :: Specified(spec, name, i) && (forall j :: i < j <= |name| ==> !Specified(spec, name, j)) ==>
              Walk(spec, (name + ".")[..n]) == spec.levels[(name + ".")[..i]]
    ensures (forall i :: 0 < i <= |name| ==> !Specified(spec, name, i)) ==>
              Walk(spec, (name + ".")[..n]) == spec.defaultLevel
    decreases n
  {
    var c := name + ".";
    if c[..n] in spec.levels {
      assert Specified(spec, name, n);
    } else {
      var idx := LastPeriod(c[..n]);
      assert forall i :: idx < i < n ==> c[..n][i] != '.';
      if idx > 0 {
        assert c[..n][..idx] == c[..idx];
        forall i | idx < i <= |name| ensures !Specified(spec, name, i) {
          if i < n {
            assert c[i] == c[..n][i];
          }
        }
        WalkFinds(spec, name, idx);
      } else {
        forall i | 0 < i <= |name| ensures !Specified(spec, name, i) {
          if i < n {
            assert c[i] == c[..n][i];
          }
        }
      }
    }
  }

  /** The walk gives the level of the exact name, written with a trailing period; failing that, the
      level of the longest specified prefix that ends where the name ends or at a period; failing
      that, the default. */
  lemma EffectiveIsLongest(spec: Spec, name: string)
    ensures name + "." in spec.levels ==> Effective(spec, name) == spec.levels[name + "."]
    ensures name + "." !in spec.levels ==>
              && (forall i :: Specified(spec, name, i) && (forall j :: i < j <= |name| ==> !Specified(spec, name, j)) ==>
                    Effective(spec, name) == spec.levels[(name + ".")[..i]])
              && ((forall i :: 0 < i <= |name| ==> !Specified(spec, name, i)) ==>
                    Effective(spec, name) == spec.defaultLevel)
  {
    var c := name + ".";
    if c !in spec.levels {
      assert LastPeriod(c) == |name|;
      if |name| > 0 {
        WalkFinds(spec, name, |name|);
      }
    }
  }

  ghost predicate AtLeast(spec: Spec, min: Level)
  {
    min <= spec.defaultLevel && forall n :: n in spec.levels ==> min <= spec.levels[n]
  }

  lemma {:induction false} WalkAtLeast(spec: Spec, candidate: string, min: Level)
    requires AtLeast(spec, min)
    ensures min <= Walk(spec, candidate)
    decreases |candidate|
  {
    if candidate !in spec.levels && LastPeriod(candidate) > 0 {
      WalkAtLeast(spec, candidate[..LastPeriod(candidate)], min);
    }
  }

  /** The active specification after others have tried to activate these in turn. */
  function ActivateAll(spec: Spec, texts: seq<string>): Spec
  {
    if texts == [] then spec
    else
      var before := ActivateAll(spec, texts[..|texts| - 1]);
      match Parse(texts[|texts| - 1]) case None => before case Some(next) => next
  }

  class LoggerLevels {
    /** None is the nil map there is before any specification has been activated. */
    var levelCache: Option<map<string, Level>>
    var specs: map<string, Level>
    var defaultLevel: Level
    var minLevel: Level

    /** The zero value. */
    constructor ()
      ensures levelCache == None && specs == map[] && defaultLevel == INFO && minLevel == INFO
      ensures Valid()
    {
      levelCache, specs, defaultLevel, minLevel := None, map[], INFO, INFO;
    }

    ghost function Active(): Spec
      reads this
    {
      Spec(defaultLevel, specs)
    }

    predicate Cached(name: string)
      reads this
    {
      levelCache.Some? && name in levelCache.value
    }

    /** Every cached level is the walk's answer, no level anywhere is below minLevel, and the active
        specification is one that a string can mean. */
    ghost predicate Valid()
      reads this
    {
      && (forall n :: Cached(n) ==> levelCache.value[n] == Effective(Active(), n))
      && AtLeast(Active(), minLevel)
      && (minLevel == defaultLevel || exists n :: n in specs && specs[n] == minLevel)
      && Meant(Active())
    }

    method ActivateSpec(text: string) returns (ok: bool)
      requires Valid()
      modifies this
      ensures Valid()
      ensures ok == Parse(text).Some?
      ensures if ok then Active() == Parse(text).value && levelCache == Some(map[])
              else unchanged(this)
    {
      hide Parse, Meant;
      var parsed := ParseFields(text);
      if parsed.None? {
        return false;
      }
      ParsedIsMeant(text);
      var min := MinLevel(parsed.value);
      minLevel := min;
      defaultLevel := parsed.value.defaultLevel;
      specs := parsed.value.levels;
      levelCache := Some(map[]);
      return true;
    }

    method CachedLevel(name: string) returns (r: Option<Level>)
      requires Valid()
      ensures r == (if Cached(name) then Some(levelCache.value[name]) else None)
      ensures r.Some? ==> r.value == Effective(Active(), name)
    {
      return if Cached(name) then Some(levelCache.value[name]) else None;
    }

    /** The region under the write lock. None is the panic on storing into a nil map. */
    method StoreLevel(name: string) returns (level: Option<Level>)
      requires Valid()
      modifies this`levelCache
      ensures Valid()
      ensures level.None? <==> old(levelCache).None?
      ensures if level.None? then levelCache == None
              else level.value == Effective(Active(), name) && levelCache == Some(old(levelCache).value[name := level.value])
    {
      var l := CalculateLevel(name);
      if levelCache.None? {
        return None;
      }
      levelCache := Some(levelCache.value[name := l]);
      return Some(l);
    }

    method CalculateLevel(name: string) returns (level: Level)
      ensures level == Effective(Active(), name)
    {
      var candidate := name + ".";
      while true
        invariant Walk(Active(), candidate) == Effective(Active(), name)
        decreases |candidate|
      {
        if candidate in specs {
          return specs[candidate];
        }
        var idx := LastPeriod(candidate);
        if idx <= 0 {
          return defaultLevel;
        }
        candidate := candidate[..idx];
      }
    }

    /** Others may activate specifications between the two regions; the level is that of the
        specification active when it is looked up. */
    method Level(name: string, between: seq<string>) returns (level: Option<Level>)
      requires Valid()
      modifies this
      ensures Valid()
      ensures old(Cached(name)) ==> unchanged(this) && level == Some(Effective(Active(), name))
      ensures !old(Cached(name)) ==>
                && Active() == ActivateAll(old(Active()), between)
                && (level.None? <==> old(levelCache).None? && forall t :: t in between ==> Parse(t).None?)
                && (level.Some? ==> Cached(name) && level.value == Effective(Active(), name))
    {
      hide Parse, Effective, AtLeast, Meant;
      var cached := CachedLevel(name);
      if cached.Some? {
        return cached;
      }
      var i := 0;
      while i < |between|
        invariant 0 <= i <= |between| && Valid()
        invariant Active() == ActivateAll(old(Active()), between[..i])
        invariant levelCache.None? <==> old(levelCache).None? && forall j :: 0 <= j < i ==> Parse(between[j]).None?
      {
        var _ := ActivateSpec(between[i]);
        assert between[..i + 1][..i] == between[..i];
        i := i + 1;
      }
      assert between[..i] == between;
      level := StoreLevel(name);
    }

    /** The fast check never rejects an entry that some logger's own level admits. */
    method Enabled(lvl: Level) returns (enabled: bool)
      requires Valid()
      ensures enabled == (lvl >= minLevel)
      ensures !enabled ==> forall name :: lvl < Effective(Active(), name)
    {
      enabled := lvl >= minLevel;
      if !enabled {
        forall name ensures lvl < Effective(Active(), name) {
          WalkAtLeast(Active(), name + ".", minLevel);
        }
      }
    }

    /** The active specification as a string, whatever order the map is read in. */
    method SpecString() returns (text: string)
      requires Valid()
      ensures Prints(text, Active())
    {
      hide LevelName, Less;
      var fields: seq<string> := [];
      var todo := specs.Keys;
      while todo != {}
        invariant todo <= specs.Keys && Sorted(fields)
        invariant forall f :: f in fields <==> exists n :: n in specs.Keys - todo && f == Field(n, specs[n])
        decreases todo
      {
        var n :| n in todo;
        InsertSorted(fields, Field(n, specs[n]));
        fields := Insert(fields, Field(n, specs[n]));
        todo := todo - {n};
      }
      text := Join(fields + [LevelName(defaultLevel)], ':');
      assert PrintsFields(text, Active(), fields);
    }
  }

  method MinLevel(spec: Spec) returns (min: Level)
    ensures AtLeast(spec, min)
    ensures min == spec.defaultLevel || exists n :: n in spec.levels && spec.levels[n] == min
  {
    min := spec.defaultLevel;
    var todo := spec.levels.Keys;
    while todo != {}
      invariant todo <= spec.levels.Keys && min <= spec.defaultLevel
      invariant forall n :: n in spec.levels && n !in todo ==> min <= spec.levels[n]
      invariant min == spec.defaultLevel || exists n :: n in spec.levels && spec.levels[n] == min
      decreases todo
    {
      var n :| n in todo;
      if spec.levels[n] < min {
        min := spec.levels[n];
      }
      todo := todo - {n};
    }
  }

  lemma {:induction false} FailsForGood(fields: seq<string>, i: nat)
    requires i <= |fields| && WithFields(fields[..i]).None?
    ensures WithFields(fields).None?
    decreases |fields|
  {
    hide WithField;
    if i < |fields| {
      var last := |fields| - 1;
      assert fields[..last][..i] == fields[..i];
      FailsForGood(fields[..last], i);
    } else {
      assert fields[..i] == fields;
    }
  }

  method ParseFields(text: string) returns (r: Option<Spec>)
    ensures r == Parse(text)
  {
    var fields := Split(text, ':');
    var spec := Spec(INFO, map[]);
    var i := 0;
    while i < |fields|
      invariant 0 <= i <= |fields| && WithFields(fields[..i]) == Some(spec)
    {
      assert fields[..i + 1][..i] == fields[..i];
      var next := ParseField(spec, fields[i]);
      if next.None? {
        FailsForGood(fields, i + 1);
        return None;
      }
      spec := next.value;
      i := i + 1;
    }
    assert fields[..i] == fields;
    return Some(spec);
  }

  method ParseField(spec: Spec, field: string) returns (r: Option<Spec>)
    ensures r == WithField(spec, field)
  {
    hide NameLevel, ValidName, Split;
    var cut := Split(field, '=');
    if |cut| == 1 {
      if field != "" && NameLevel(field).None? {
        return None;
      }
      return Some(spec.(defaultLevel := NameToLevel(field)));
    }
    if |cut| != 2 || cut[0] == "" || NameLevel(cut[1]).None? {
      return None;
    }
    var loggers := Split(cut[0], ',');
    var levels := spec.levels;
    var i := 0;
    while i < |loggers|
      invariant 0 <= i <= |loggers|
      invariant WithLoggers(spec.levels, loggers[..i], NameToLevel(cut[1])) == Some(levels)
    {
      assert loggers[..i + 1][..i] == loggers[..i];
      if !ValidName(TrimPeriod(loggers[i])) {
        BadLogger(spec.levels, loggers, NameToLevel(cut[1]), i + 1);
        return None;
      }
      levels := levels[loggers[i] := NameToLevel(cut[1])];
      i := i + 1;
    }
    assert loggers[..i] == loggers;
    return Some(spec.(levels := levels));
  }

  lemma {:induction false} BadLogger(levels: map<string, Level>, loggers: seq<string>, level: Level, i: nat)
    requires i <= |loggers| && WithLoggers(levels, loggers[..i], level).None?
    ensures WithLoggers(levels, loggers, level).None?
    decreases |loggers|
  {
    hide ValidName;
    if i < |loggers| {
      var last := |loggers| - 1;
      assert loggers[..last][..i] == loggers[..i];
      BadLogger(levels, loggers[..last], level, i);
    } else {
      assert loggers[..i] == loggers;
    }
  }

  // ---- the specification as a string

  /** zapcore.Level's String. Nothing below debug has a name. */
  function LevelName(l: Level): string
    requires PAYLOAD <= l <= FATAL
  {
    if l == DEBUG then "debug" else if l == INFO then "info" else if l == WARN then "warn"
    else if l == ERROR then "error" else if l == DPANIC then "dpanic" else if l == PANIC then "panic"
    else if l == FATAL then "fatal" else "Level(-2)"
  }

  function Field(name: string, l: Level): string
    requires PAYLOAD <= l <= FATAL
  {
    name + "=" + LevelName(l)
  }

  /** A logger name as a specification can hold it. */
  predicate SpecName(name: string)
  {
    Free(name, ':') && Free(name, '=') && Free(name, ',') && ValidName(TrimPeriod(name))
  }

  /** A specification that some string means. */
  ghost predicate Meant(spec: Spec)
  {
    && PAYLOAD <= spec.defaultLevel <= FATAL
    && forall n :: n in spec.levels ==> SpecName(n) && PAYLOAD <= spec.levels[n] <= FATAL
  }

  lemma NameOfLevel(l: Level)
    requires PAYLOAD <= l <= FATAL
    ensures NameLevel(LevelName(l)) == if l == PAYLOAD then None else Some(l)
  {
    if l == PAYLOAD {
      assert |LevelName(l)| == 9;
    }
  }

  lemma LevelNameFree(l: Level)
    requires PAYLOAD <= l <= FATAL
    ensures LevelName(l) != "" && Free(LevelName(l), ':') && Free(LevelName(l), '=')
  {
  }

  lemma KnownLevel(name: string)
    ensures NameLevel(name).Some? ==> PAYLOAD <= NameLevel(name).value <= FATAL
    ensures PAYLOAD <= NameToLevel(name) <= FATAL
  {
  }

  lemma {:induction false} LoggersMeant(levels: map<string, Level>, loggers: seq<string>, level: Level)
    requires AllFree(loggers, ':') && AllFree(loggers, '=') && AllFree(loggers, ',') && PAYLOAD <= level <= FATAL
    requires Meant(Spec(INFO, levels))
    ensures var r := WithLoggers(levels, loggers, level);
            r.Some? ==> Meant(Spec(INFO, r.value))
  {
    hide ValidName, TrimPeriod;
    if loggers != [] {
      LoggersMeant(levels, loggers[..|loggers| - 1], level);
    }
  }

  lemma FieldMeant(spec: Spec, field: string)
    requires Meant(spec) && Free(field, ':')
    ensures WithField(spec, field).Some? ==> Meant(WithField(spec, field).value)
  {
    hide ValidName, TrimPeriod, NameLevel, Split, WithLoggers, SpecName;
    var cut := Split(field, '=');
    SplitFree(field, '=', ':');
    SplitFree(field, '=', '=');
    KnownLevel(field);
    if |cut| == 2 {
      KnownLevel(cut[1]);
      SplitFree(cut[0], ',', ':');
      SplitFree(cut[0], ',', '=');
      SplitFree(cut[0], ',', ',');
      LoggersMeant(spec.levels, Split(cut[0], ','), NameToLevel(cut[1]));
    }
  }

  lemma {:induction false} FieldsMeant(fields: seq<string>)
    requires AllFree(fields, ':')
    ensures WithFields(fields).Some? ==> Meant(WithFields(fields).value)
  {
    hide WithField, SpecName;
    if fields != [] {
      var last := |fields| - 1;
      FieldsMeant(fields[..last]);
      if WithFields(fields[..last]).Some? {
        FieldMeant(WithFields(fields[..last]).value, fields[last]);
      }
    }
  }

  lemma ParsedIsMeant(text: string)
    ensures Parse(text).Some? ==> Meant(Parse(text).value)
  {
    hide WithFields, Split, Meant;
    SplitFree(text, ':', ':');
    FieldsMeant(Split(text, ':'));
  }

  // ---- sorted fields

  /** Go's order of strings. */
  predicate Less(a: string, b: string)
  {
    b != "" && (a == "" || a[0] < b[0] || (a[0] == b[0] && Less(a[1..], b[1..])))
  }

  lemma {:induction false} LessTotal(a: string, b: string)
    ensures a == b || Less(a, b) || Less(b, a)
    ensures !(Less(a, b) && Less(b, a)) && !Less(a, a)
  {
    if a != "" && b != "" {
      LessTotal(a[1..], b[1..]);
      assert a == [a[0]] + a[1..] && b == [b[0]] + b[1..];
    }
    if a != "" {
      LessTotal(a[1..], a[1..]);
    }
  }

  lemma {:induction false} LessThrough(a: string, b: string, c: string)
    requires Less(a, b) && Less(b, c)
    ensures Less(a, c)
  {
    if a != "" && a[0] == b[0] && b[0] == c[0] {
      LessThrough(a[1..], b[1..], c[1..]);
    }
  }

  ghost predicate Sorted(s: seq<string>)
  {
    forall i, j :: 0 <= i < j < |s| ==> Less(s[i], s[j])
  }

  function Insert(s: seq<string>, x: string): seq<string>
  {
    if s == [] then [x]
    else if x == s[0] then s
    else if Less(x, s[0]) then [x] + s
    else [s[0]] + Insert(s[1..], x)
  }

  lemma {:induction false} InsertSorted(s: seq<string>, x: string)
    requires Sorted(s)
    ensures Sorted(Insert(s, x))
    ensures forall f :: f in Insert(s, x) <==> f in s || f == x
  {
    hide Less;
    if s != [] {
      LessTotal(x, s[0]);
      assert s == [s[0]] + s[1..];
      if Less(x, s[0]) {
        forall i | 0 < i < |s| ensures Less(x, s[i]) {
          LessThrough(x, s[0], s[i]);
        }
      } else if x != s[0] {
        InsertSorted(s[1..], x);
        var r := Insert(s[1..], x);
        forall i | 0 <= i < |r| ensures Less(s[0], r[i]) {
          assert r[i] in r;
        }
      }
    }
  }

  /** A set has one sorted listing. */
  lemma {:induction false} SortedUnique(a: seq<string>, b: seq<string>)
    requires Sorted(a) && Sorted(b) && forall f :: f in a <==> f in b
    ensures a == b
  {
    hide Less;
    if a == [] {
      if b != [] {
        Inhabited(b);
      }
    } else {
      assert a[0] in a;
      FirstSame(a, b);
      forall f | f in a[1..] ensures f in b[1..] {
        NotFirst(a, b, f);
      }
      forall f | f in b[1..] ensures f in a[1..] {
        NotFirst(b, a, f);
      }
      SortedUnique(a[1..], b[1..]);
      assert a == [a[0]] + a[1..] && b == [b[0]] + b[1..];
    }
  }

  lemma Inhabited(s: seq<string>)
    requires s != []
    ensures exists f :: f in s
  {
    assert s[0] in s;
  }

  lemma FirstSame(a: seq<string>, b: seq<string>)
    requires Sorted(a) && Sorted(b) && a != [] && b != [] && a[0] in b && b[0] in a
    ensures a[0] == b[0]
  {
    hide Less;
    LessTotal(a[0], b[0]);
  }

  lemma NotFirst(a: seq<string>, b: seq<string>, f: string)
    requires Sorted(a) && a != [] && b != [] && a[0] == b[0] && f in a[1..] && f in b
    ensures f in b[1..]
  {
    hide Less;
    LessTotal(f, f);
    var i :| 0 <= i < |a[1..]| && a[1..][i] == f;
    assert Less(a[0], a[i + 1]);
    var j :| 0 <= j < |b| && b[j] == f;
    assert j > 0 ==> b[1..][j - 1] == f;
  }

  /** The fields of a specification, sorted and joined, with the default at the end. */
  ghost predicate Prints(text: string, spec: Spec)
    requires Meant(spec)
  {
    exists fields :: PrintsFields(text, spec, fields)
  }

  ghost predicate PrintsFields(text: string, spec: Spec, fields: seq<string>)
    requires Meant(spec)
  {
    && Sorted(fields) && text == Join(fields + [LevelName(spec.defaultLevel)], ':')
    && (forall f :: f in fields <==> exists n :: n in spec.levels && f == Field(n, spec.levels[n]))
  }

  /** A specification is printed in one way only. */
  lemma PrintsOnce(text: string, text': string, spec: Spec)
    requires Meant(spec) && Prints(text, spec) && Prints(text', spec)
    ensures text == text'
  {
    hide Sorted, Meant, Field, LevelName;
    var fields :| PrintsFields(text, spec, fields);
    var fields' :| PrintsFields(text', spec, fields');
    SortedUnique(fields, fields');
  }

  // ---- printing and reading back

  predicate Readable(spec: Spec)
  {
    spec.defaultLevel != PAYLOAD && forall n :: n in spec.levels ==> spec.levels[n] != PAYLOAD
  }

  lemma FieldTells(n: string, l: Level, n': string, l': Level)
    requires Free(n, '=') && Free(n', '=') && PAYLOAD <= l <= FATAL && PAYLOAD <= l' <= FATAL
    requires Field(n, l) == Field(n', l')
    ensures n == n'
  {
    hide LevelName;
    var f := Field(n, l);
    assert f[..|n|] == n && f[..|n'|] == n' && f[|n|] == '=' && f[|n'|] == '=';
  }

  lemma ReadField(spec: Spec, n: string, l: Level)
    requires SpecName(n) && PAYLOAD <= l <= FATAL
    ensures WithField(spec, Field(n, l)) == if l == PAYLOAD then None else Some(spec.(levels := spec.levels[n := l]))
    ensures Free(Field(n, l), ':')
  {
    hide LevelName, NameLevel, Split, ValidName;
    LevelNameFree(l);
    NameOfLevel(l);
    var cut := Split(Field(n, l), '=');
    SplitConcat(n, LevelName(l), '=');
    SplitWhole(n, '=');
    SplitWhole(LevelName(l), '=');
    SplitWhole(n, ',');
    assert Field(n, l) == n + ['='] + LevelName(l) && cut == [n, LevelName(l)];
    NotEmptyName(n);
    assert [n][..0] == [] && WithLoggers(spec.levels, [], l) == Some(spec.levels);
  }

  lemma NotEmptyName(n: string)
    requires SpecName(n)
    ensures n != ""
  {
    assert "" in Split("", '.');
  }

  /** Every field names a logger of the specification. */
  ghost predicate FieldsOf(fields: seq<string>, spec: Spec)
    requires Meant(spec)
  {
    forall f :: f in fields ==> exists n :: n in spec.levels && f == Field(n, spec.levels[n])
  }

  /** The levels whose fields are among these. */
  ghost predicate Partial(levels: map<string, Level>, spec: Spec, fields: seq<string>)
    requires Meant(spec)
  {
    && (forall n :: n in levels ==> n in spec.levels && levels[n] == spec.levels[n] && Field(n, spec.levels[n]) in fields)
    && (forall n :: n in spec.levels && Field(n, spec.levels[n]) in fields ==> n in levels)
  }

  lemma PartialMore(levels: map<string, Level>, spec: Spec, fields: seq<string>, n: string)
    requires Meant(spec) && Partial(levels, spec, fields) && n in spec.levels
    ensures Partial(levels[n := spec.levels[n]], spec, fields + [Field(n, spec.levels[n])])
  {
    hide Field, ValidName, TrimPeriod;
    var f := Field(n, spec.levels[n]);
    forall n' | n' in spec.levels && Field(n', spec.levels[n']) == f ensures n' == n {
      FieldTells(n, spec.levels[n], n', spec.levels[n']);
    }
  }

  lemma {:induction false} ReadFields(fields: seq<string>, spec: Spec)
    requires Meant(spec) && FieldsOf(fields, spec) && forall n :: n in spec.levels ==> spec.levels[n] != PAYLOAD
    ensures var r := WithFields(fields);
            r.Some? && r.value.defaultLevel == INFO && Partial(r.value.levels, spec, fields)
  {
    hide Field, WithField, SpecName;
    if fields != [] {
      var last := |fields| - 1;
      assert forall f :: f in fields[..last] ==> f in fields;
      ReadFields(fields[..last], spec);
      assert fields[last] in fields;
      var n :| n in spec.levels && fields[last] == Field(n, spec.levels[n]);
      ReadField(WithFields(fields[..last]).value, n, spec.levels[n]);
      PartialMore(WithFields(fields[..last]).value.levels, spec, fields[..last], n);
      assert fields[..last] + [fields[last]] == fields;
    }
  }

  lemma AllRead(levels: map<string, Level>, spec: Spec, fields: seq<string>)
    requires Meant(spec) && Partial(levels, spec, fields)
    requires forall n :: n in spec.levels ==> Field(n, spec.levels[n]) in fields
    ensures levels == spec.levels
  {
    hide Field;
  }

  lemma ReadDefault(spec: Spec, l: Level)
    requires PAYLOAD <= l <= FATAL
    ensures WithField(spec, LevelName(l)) == if l == PAYLOAD then None else Some(spec.(defaultLevel := l))
  {
    hide LevelName, NameLevel, Split;
    LevelNameFree(l);
    NameOfLevel(l);
    SplitWhole(LevelName(l), '=');
  }

  lemma SplitPrinted(text: string, spec: Spec, fields: seq<string>)
    requires Meant(spec) && PrintsFields(text, spec, fields)
    ensures Split(text, ':') == fields + [LevelName(spec.defaultLevel)]
  {
    hide Split, Field, LevelName, Sorted, SpecName;
    var all := fields + [LevelName(spec.defaultLevel)];
    LevelNameFree(spec.defaultLevel);
    forall i | 0 <= i < |fields| ensures Free(fields[i], ':') {
      assert fields[i] in fields;
      var n :| n in spec.levels && fields[i] == Field(n, spec.levels[n]);
      ReadField(spec, n, spec.levels[n]);
    }
    assert AllFree(all, ':');
    SplitJoin(all, ':');
  }

  /** Activating what is printed gives the same specification back if no level in it is payload, and
      is an error otherwise. */
  lemma SpecRoundTrip(text: string, spec: Spec)
    requires Meant(spec) && Prints(text, spec)
    ensures Parse(text) == if Readable(spec) then Some(spec) else None
  {
    hide Split, Field, LevelName, Sorted, SpecName, WithField;
    var fields :| PrintsFields(text, spec, fields);
    SplitPrinted(text, spec, fields);
    var name := LevelName(spec.defaultLevel);
    assert (fields + [name])[..|fields|] == fields;
    ReadDefault(if WithFields(fields).Some? then WithFields(fields).value else spec, spec.defaultLevel);
    if exists n :: n in spec.levels && spec.levels[n] == PAYLOAD {
      var n :| n in spec.levels && spec.levels[n] == PAYLOAD;
      PayloadFails(fields + [name], spec, n);
    } else {
      ReadFields(fields, spec);
      AllRead(WithFields(fields).value.levels, spec, fields);
    }
  }

  lemma PayloadFails(fields: seq<string>, spec: Spec, n: string)
    requires Meant(spec) && n in spec.levels && spec.levels[n] == PAYLOAD && Field(n, PAYLOAD) in fields
    ensures WithFields(fields).None?
  {
    hide Field, WithField, SpecName;
    var j :| 0 <= j < |fields| && fields[j] == Field(n, PAYLOAD);
    assert fields[..j + 1][..j] == fields[..j];
    if WithFields(fields[..j]).Some? {
      ReadField(WithFields(fields[..j]).value, n, PAYLOAD);
    }
    FailsForGood(fields, j + 1);
  }
}
