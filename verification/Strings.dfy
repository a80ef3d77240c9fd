/** Options and results, bytes, and the few operations on strings that the configuration paths,
    the policy paths and the logger specification share. */
module Basics {

  datatype Option<+T> = None | Some(value: T)

  datatype Result<+T> = Ok(value: T) | Err

  newtype byte = x: int | 0 <= x < 256

  type Bytes = seq<byte>
}

/** Strings cut at a separator. */
module Strings {

  predicate Free(s: string, sep: char)
  {
    sep !in s
  }

  predicate AllFree(ps: seq<string>, sep: char)
  {
    forall i :: 0 <= i < |ps| ==> Free(ps[i], sep)
  }

  /** Go's strings.Split for a one-character separator. */
  function Split(s: string, sep: char): (parts: seq<string>)
    ensures |parts| >= 1
  {
    if s == "" then [""]
    else if s[0] == sep then [""] + Split(s[1..], sep)
    else
      var rest := Split(s[1..], sep);
      [[s[0]] + rest[0]] + rest[1..]
  }

  /** Go's strings.Join for a one-character separator. */
  function Join(parts: seq<string>, sep: char): (s: string)
  {
    if |parts| == 0 then ""
    else if |parts| == 1 then parts[0]
    else Join(parts[..|parts| - 1], sep) + [sep] + parts[|parts| - 1]
  }

  /** Every segment preceded by the separator: "/a/b/c". */
  function Rooted(parts: seq<string>, sep: char): (s: string)
  {
    if |parts| == 0 then ""
    else Rooted(parts[..|parts| - 1], sep) + [sep] + parts[|parts| - 1]
  }

  lemma {:induction false} RootedIsJoin(parts: seq<string>, sep: char)
    requires |parts| > 0
    ensures Rooted(parts, sep) == [sep] + Join(parts, sep)
  {
    if |parts| > 1 {
      RootedIsJoin(parts[..|parts| - 1], sep);
    }
  }

  /** A separator-free tail is determined by the whole string. */
  lemma CutUnique(a: string, x: string, b: string, y: string, sep: char)
    requires Free(x, sep) && Free(y, sep)
    requires a + [sep] + x == b + [sep] + y
    ensures a == b && x == y
  {
    var s := a + [sep] + x;
    assert s[|a|] == sep && s[|b|] == sep;
    assert forall i :: |a| < i < |s| ==> s[i] == x[i - |a| - 1];
    assert forall i :: |b| < i < |s| ==> s[i] == y[i - |b| - 1];
    assert |a| == |b|;
    assert a == s[..|a|] == b;
    assert x == s[|a| + 1..] == y;
  }

  lemma {:induction false} RootedInjective(ps: seq<string>, qs: seq<string>, sep: char)
    requires AllFree(ps, sep) && AllFree(qs, sep)
    requires Rooted(ps, sep) == Rooted(qs, sep)
    ensures ps == qs
  {
    if |ps| > 0 && |qs| > 0 {
      var p, q := ps[..|ps| - 1], qs[..|qs| - 1];
      CutUnique(Rooted(p, sep), ps[|ps| - 1], Rooted(q, sep), qs[|qs| - 1], sep);
      RootedInjective(p, q, sep);
      assert ps == p + [ps[|ps| - 1]];
      assert qs == q + [qs[|qs| - 1]];
    }
  }

  /** Nothing in a part is a separator, and every character of a part is from the whole. */
  lemma {:induction false} SplitFree(s: string, sep: char, other: char)
    requires other == sep || Free(s, other)
    ensures AllFree(Split(s, sep), other)
  {
    if s != "" {
      SplitFree(s[1..], sep, other);
    }
  }

  lemma {:induction false} SplitWhole(s: string, sep: char)
    requires Free(s, sep)
    ensures Split(s, sep) == [s]
  {
    if s != "" {
      SplitWhole(s[1..], sep);
      assert [s[0]] + s[1..] == s;
    }
  }

  lemma SplitFirst(c: char, s: string, sep: char)
    ensures var rest := Split(s, sep);
            Split([c] + s, sep) == if c == sep then [""] + rest else [[c] + rest[0]] + rest[1..]
    ensures Split("", sep) == [""]
  {
    assert ([c] + s)[1..] == s;
  }

  lemma FirstOfTwo(c: char, p: seq<string>, q: seq<string>)
    requires |p| > 0
    ensures [""] + (p + q) == [""] + p + q
    ensures [[c] + (p + q)[0]] + (p + q)[1..] == [[c] + p[0]] + p[1..] + q
  {
  }

  lemma Shifted(a: string, b: string, sep: char)
    ensures "" + [sep] + b == [sep] + b
    ensures a != "" ==> a == [a[0]] + a[1..] && a + [sep] + b == [a[0]] + (a[1..] + [sep] + b)
  {
  }

  lemma {:induction false} SplitConcat(a: string, b: string, sep: char)
    ensures Split(a + [sep] + b, sep) == Split(a, sep) + Split(b, sep)
  {
    hide Split;
    Shifted(a, b, sep);
    if a == "" {
      SplitFirst(sep, b, sep);
    } else {
      SplitConcat(a[1..], b, sep);
      SplitFirst(a[0], a[1..], sep);
      SplitFirst(a[0], a[1..] + [sep] + b, sep);
      FirstOfTwo(a[0], Split(a[1..], sep), Split(b, sep));
    }
  }

  /** Splitting undoes joining. */
  lemma {:induction false} SplitJoin(parts: seq<string>, sep: char)
    requires |parts| > 0 && AllFree(parts, sep)
    ensures Split(Join(parts, sep), sep) == parts
  {
    hide Split, Free;
    var last := |parts| - 1;
    SplitWhole(parts[last], sep);
    if last > 0 {
      SplitJoin(parts[..last], sep);
      SplitConcat(Join(parts[..last], sep), parts[last], sep);
      assert parts[..last] + [parts[last]] == parts;
    }
  }
}
