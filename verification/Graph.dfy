/** Choosing k of n (common/graph/choose.go). The slices the recursion passes on share storage the
    way Go's append shares it, so what counts is what the found slices hold in the end. */
module Combinations {
  /** The number of ways to choose k of n. */
  function Binomial(n: nat, k: nat): nat
  {
    if k == 0 then 1 else if n == 0 then 0 else Binomial(n - 1, k - 1) + Binomial(n - 1, k)
  }

  lemma {:induction false} BinomialEdge(n: nat, k: nat)
    requires k >= n
    ensures Binomial(n, k) == if k == n then 1 else 0
  {
    if n > 0 {
      BinomialEdge(n - 1, k - 1);
      BinomialEdge(n - 1, k);
    }
  }

  lemma {:induction false} BinomialPositive(n: nat, k: nat)
    requires k <= n
    ensures Binomial(n, k) >= 1
  {
    if k > 0 {
      BinomialPositive(n - 1, k - 1);
    }
  }

  lemma BinomialStep(n: nat, k: nat)
    ensures Binomial(n, 0) == 1
    ensures n > 0 && k > 0 ==> Binomial(n, k) == Binomial(n - 1, k - 1) + Binomial(n - 1, k)
  {
  }

  /** A negative k makes big.Int's Binomial divide one empty product by another. */
  predicate CombinationsExceed(n: nat, k: int, bound: int)
  {
    n >= k && (if k < 0 then 1 else Binomial(n, k)) > bound
  }

  /** Strictly increasing numbers from 0 to below n. */
  predicate Ascending(s: seq<int>, n: int)
  {
    && (forall i :: 0 <= i < |s| ==> 0 <= s[i] < n)
    && (forall i, j :: 0 <= i < j < |s| ==> s[i] < s[j])
  }

  lemma AscendingMore(s: seq<int>, i: nat, n: nat)
    requires Ascending(s, i) && i <= n
    ensures Ascending(s, n) && Ascending(s, i + 1) && Ascending(s + [i], i + 1)
  {
  }

  /** A slice: a stored array and a length. */
  datatype Slice = Slice(arr: nat, len: nat)

  /** Every array ever allocated, each as long as its capacity, and the slices added to the set of
      sub-groups. */
  datatype Store = Store(arrays: seq<seq<int>>, found: seq<Slice>)

  /** The nil slice is the array of capacity zero. */
  const EMPTY := Store([[]], [])
  const NIL := Slice(0, 0)

  /** The capacity append allocates when one of that capacity is full. */
  ghost predicate Growing(grow: nat -> nat)
  {
    forall c :: grow(c) > c
  }

  predicate Has(st: Store, s: Slice)
  {
    s.arr < |st.arrays| && s.len <= |st.arrays[s.arr]|
  }

  function Contents(st: Store, s: Slice): (r: seq<int>)
    requires Has(st, s)
    ensures |r| == s.len
  {
    st.arrays[s.arr][..s.len]
  }

  /** Arrays stay, with their capacities. */
  ghost predicate Keeps(st: Store, st': Store)
  {
    |st.arrays| <= |st'.arrays| && forall a :: 0 <= a < |st.arrays| ==> |st'.arrays[a]| == |st.arrays[a]|
  }

  /** append of one element: in place if there is room, otherwise into a new array. */
  function Append(grow: nat -> nat, st: Store, s: Slice, x: int): (r: (Store, Slice))
    requires Growing(grow) && Has(st, s)
    ensures Has(r.0, r.1) && r.1.len == s.len + 1 && Keeps(st, r.0)
  {
    if s.len < |st.arrays[s.arr]| then
      (st.(arrays := st.arrays[s.arr := st.arrays[s.arr][s.len := x]]), Slice(s.arr, s.len + 1))
    else
      assert grow(s.len) > s.len;
      var room := seq(grow(s.len) - s.len - 1, _ => 0);
      (st.(arrays := st.arrays + [Contents(st, s) + [x] + room]), Slice(|st.arrays|, s.len + 1))
  }

  function Choose(grow: nat -> nat, n: nat, k: nat, i: nat, cur: Slice, st: Store): (r: Store)
    requires Growing(grow) && Has(st, cur) && cur.len <= k && i <= n
    ensures Keeps(st, r)
    decreases n - i
  {
    if cur.len == k then st.(found := st.found + [cur])
    else if k - cur.len > n - i then st
    else
      var (st', picked) := Append(grow, st, cur, i);
      Choose(grow, n, k, i + 1, cur, Choose(grow, n, k, i + 1, picked, st'))
  }

  /** The calls of choose that pick nest at least that deep, one more picked and one less left in each:
      no call down to there meets either end. */
  predicate Nests(n: nat, k: int, i: nat, len: nat, depth: nat)
    decreases depth
  {
    depth == 0 || (len != k && k - len <= n - i && Nests(n, k, i + 1, len + 1, depth - 1))
  }

  lemma {:induction false} NestsOn(n: nat, k: int, i: nat, len: nat, depth: nat)
    requires k < 0 && k - len <= n - i
    ensures Nests(n, k, i, len, depth)
    decreases depth
  {
    if depth > 0 {
      NestsOn(n, k, i + 1, len + 1, depth - 1);
    }
  }

  lemma {:induction false} NestsNoFurther(n: nat, k: nat, i: nat, len: nat)
    requires len <= k
    ensures !Nests(n, k, i, len, k - len + 1)
    decreases k - len
  {
    if len < k {
      NestsNoFurther(n, k, i + 1, len + 1);
    }
  }

  /** chooseKoutOfN never returns exactly for a negative k. */
  lemma NestsForever(n: nat, k: int)
    ensures (forall depth :: Nests(n, k, 0, 0, depth)) <==> k < 0
  {
    if k < 0 {
      forall depth ensures Nests(n, k, 0, 0, depth) {
        NestsOn(n, k, 0, 0, depth);
      }
    } else {
      NestsNoFurther(n, k, 0, 0);
    }
  }

  /** choose as it runs, on shared arrays and a shared set of sub-groups. */
  class Storage {
    var store: Store
    const grow: nat -> nat

    constructor (grow: nat -> nat)
      ensures this.grow == grow && store == EMPTY
    {
      this.grow, store := grow, EMPTY;
    }

    method AppendTo(s: Slice, x: int) returns (r: Slice)
      requires Growing(grow) && Has(store, s)
      modifies this
      ensures (store, r) == Append(grow, old(store), s, x)
    {
      if s.len < |store.arrays[s.arr]| {
        store := store.(arrays := store.arrays[s.arr := store.arrays[s.arr][s.len := x]]);
        return Slice(s.arr, s.len + 1);
      }
      assert grow(s.len) > s.len;
      r := Slice(|store.arrays|, s.len + 1);
      var room := seq(grow(s.len) - s.len - 1, _ => 0);
      store := store.(arrays := store.arrays + [Contents(store, s) + [x] + room]);
    }

    method ChooseFrom(n: nat, k: nat, i: nat, cur: Slice)
      requires Growing(grow) && Has(store, cur) && cur.len <= k && i <= n
      modifies this
      ensures store == Choose(grow, n, k, i, cur, old(store))
      decreases n - i
    {
      hide Append;
      if cur.len == k {
        store := store.(found := store.found + [cur]);
        return;
      }
      if k - cur.len > n - i {
        return;
      }
      var picked := AppendTo(cur, i);
      ChooseFrom(n, k, i + 1, picked);
      ChooseFrom(n, k, i + 1, cur);
    }
  }

  // ---- what is left in the arrays

  /** Other arrays stay as they are, and so do the first `len` places of array `a`. */
  ghost predicate Beyond(st: Store, st': Store, a: nat, len: nat)
    requires Keeps(st, st') && a < |st.arrays| && len <= |st.arrays[a]|
  {
    && st'.arrays[a][..len] == st.arrays[a][..len]
    && forall b :: 0 <= b < |st.arrays| && b != a ==> st'.arrays[b] == st.arrays[b]
  }

  lemma AppendFacts(grow: nat -> nat, st: Store, s: Slice, x: int)
    requires Growing(grow) && Has(st, s)
    ensures var (st', r) := Append(grow, st, s, x);
            && st'.found == st.found && Beyond(st, st', s.arr, s.len) && Contents(st', r) == Contents(st, s) + [x]
            && (if s.len < |st.arrays[s.arr]| then r.arr == s.arr else r.arr == |st.arrays|)
            && (if s.len < |st.arrays[s.arr]| then |st'.arrays| == |st.arrays| && |st'.arrays[r.arr]| == |st.arrays[s.arr]|
                else |st'.arrays| == |st.arrays| + 1 && |st'.arrays[r.arr]| == grow(s.len) && st'.arrays[s.arr] == st.arrays[s.arr])
  {
    assert grow(s.len) > s.len;
  }

  lemma BeyondTwice(st: Store, st': Store, st'': Store, a: nat, len: nat, a': nat, len': nat)
    requires Keeps(st, st') && Keeps(st', st'') && a < |st.arrays| && len <= |st.arrays[a]|
    requires a' < |st'.arrays| && len' <= |st'.arrays[a']|
    requires Beyond(st, st', a, len) && Beyond(st', st'', a', len')
    requires (a' == a && len <= len') || a' >= |st.arrays|
    ensures Beyond(st, st'', a, len)
  {
    if a' == a {
      assert st''.arrays[a][..len] == st''.arrays[a][..len'][..len] == st'.arrays[a][..len'][..len];
    }
  }

  lemma {:induction false} ChooseBeyond(grow: nat -> nat, n: nat, k: nat, i: nat, cur: Slice, st: Store)
    requires Growing(grow) && Has(st, cur) && cur.len <= k && i <= n
    ensures var r := Choose(grow, n, k, i, cur, st);
            Beyond(st, r, cur.arr, cur.len) && st.found <= r.found
    decreases n - i
  {
    hide Append, Beyond;
    if cur.len == k || k - cur.len > n - i {
      Unmoved(st, Choose(grow, n, k, i, cur, st), cur.arr, cur.len);
    } else {
      AppendFacts(grow, st, cur, i);
      var (st', picked) := Append(grow, st, cur, i);
      var st'' := Choose(grow, n, k, i + 1, picked, st');
      ChooseBeyond(grow, n, k, i + 1, picked, st');
      BeyondTwice(st, st', st'', cur.arr, cur.len, picked.arr, picked.len);
      ChooseBeyond(grow, n, k, i + 1, cur, st'');
      BeyondTwice(st, st'', Choose(grow, n, k, i + 1, cur, st''), cur.arr, cur.len, cur.arr, cur.len);
    }
  }

  lemma Unmoved(st: Store, st': Store, a: nat, len: nat)
    requires st'.arrays == st.arrays && a < |st.arrays| && len <= |st.arrays[a]|
    ensures Beyond(st, st', a, len)
  {
  }

  /** One level of the recursion: pick i, then leave it out. */
  lemma ChooseStep(grow: nat -> nat, n: nat, k: nat, i: nat, cur: Slice, st: Store)
    returns (st': Store, picked: Slice, st'': Store)
    requires Growing(grow) && Has(st, cur) && cur.len < k && i <= n && k - cur.len <= n - i
    ensures i < n && (st', picked) == Append(grow, st, cur, i) && Has(st', picked) && picked.len == cur.len + 1
    ensures st'' == Choose(grow, n, k, i + 1, picked, st') && Has(st'', cur)
    ensures Choose(grow, n, k, i, cur, st) == Choose(grow, n, k, i + 1, cur, st'')
  {
    hide Append;
    var (appended, slice) := Append(grow, st, cur, i);
    st', picked := appended, slice;
    st'' := Choose(grow, n, k, i + 1, picked, st');
  }

  lemma ChooseEnds(grow: nat -> nat, n: nat, k: nat, i: nat, cur: Slice, st: Store)
    requires Growing(grow) && Has(st, cur) && cur.len <= k && i <= n
    ensures cur.len == k ==> Choose(grow, n, k, i, cur, st) == st.(found := st.found + [cur])
    ensures k - cur.len > n - i ==> Choose(grow, n, k, i, cur, st) == st
  {
  }

  /** As many slices are added as there are ways to complete the current one. */
  lemma {:induction false} ChooseCount(grow: nat -> nat, n: nat, k: nat, i: nat, cur: Slice, st: Store)
    requires Growing(grow) && Has(st, cur) && cur.len <= k && i <= n
    ensures |Choose(grow, n, k, i, cur, st).found| == |st.found| + Binomial(n - i, k - cur.len)
    decreases n - i
  {
    hide Append, Binomial, Choose, Keeps;
    BinomialStep(n - i, k - cur.len);
    ChooseEnds(grow, n, k, i, cur, st);
    if k - cur.len > n - i {
      BinomialEdge(n - i, k - cur.len);
    } else if cur.len < k {
      AppendFacts(grow, st, cur, i);
      var st', picked, st'' := ChooseStep(grow, n, k, i, cur, st);
      ChooseCount(grow, n, k, i + 1, picked, st');
      ChooseCount(grow, n, k, i + 1, cur, st'');
    }
  }

  /** The found slices have length k, and those outside array `a` hold ascending numbers. */
  ghost predicate FoundBut(st: Store, n: nat, k: nat, a: int)
  {
    forall f :: f in st.found ==> Has(st, f) && f.len == k && (f.arr != a ==> Ascending(Contents(st, f), n))
  }

  /** Slices that share an array overwrite each other, but every slice found ends up with k ascending
      numbers below n. */
  lemma {:induction false} ChooseAscending(grow: nat -> nat, n: nat, k: nat, i: nat, cur: Slice, st: Store)
    requires Growing(grow) && Has(st, cur) && cur.len <= k && i <= n
    requires Ascending(Contents(st, cur), i) && FoundBut(st, n, k, cur.arr)
    ensures k - cur.len <= n - i ==> FoundBut(Choose(grow, n, k, i, cur, st), n, k, -1)
    decreases n - i
  {
    hide Append, Ascending, Beyond, Choose, Contents, FoundBut, Keeps;
    ChooseEnds(grow, n, k, i, cur, st);
    AscendingMore(Contents(st, cur), i, n);
    if cur.len == k {
      AddedFound(st, n, k, cur);
    } else if k - cur.len <= n - i {
      AppendFacts(grow, st, cur, i);
      var st', picked, st'' := ChooseStep(grow, n, k, i, cur, st);
      PickedFound(grow, n, k, i, cur, st);
      ChooseAscending(grow, n, k, i + 1, picked, st');
      StillThere(grow, n, k, i, cur, st, st', picked);
      FoundAnyway(st'', n, k, cur.arr);
      ChooseEnds(grow, n, k, i + 1, cur, st'');
      ChooseAscending(grow, n, k, i + 1, cur, st'');
    }
  }

  lemma FoundAnyway(st: Store, n: nat, k: nat, a: int)
    requires FoundBut(st, n, k, -1)
    ensures FoundBut(st, n, k, a)
  {
    hide Ascending;
  }

  /** What a slice holds is there when the picks after it are done. */
  lemma StillThere(grow: nat -> nat, n: nat, k: nat, i: nat, cur: Slice, st: Store, st': Store, picked: Slice)
    requires Growing(grow) && Has(st, cur) && cur.len < k && i < n && (st', picked) == Append(grow, st, cur, i)
    ensures Has(st', picked) && picked.len <= k
    ensures var st'' := Choose(grow, n, k, i + 1, picked, st');
            Has(st'', cur) && Contents(st'', cur) == Contents(st, cur)
  {
    hide Append, Beyond, Choose;
    AppendFacts(grow, st, cur, i);
    var st'' := Choose(grow, n, k, i + 1, picked, st');
    ChooseBeyond(grow, n, k, i + 1, picked, st');
    BeyondTwice(st, st', st'', cur.arr, cur.len, picked.arr, picked.len);
    SameContents(st, st'', cur);
  }

  lemma AddedFound(st: Store, n: nat, k: nat, cur: Slice)
    requires Has(st, cur) && cur.len == k && Ascending(Contents(st, cur), n) && FoundBut(st, n, k, cur.arr)
    ensures FoundBut(st.(found := st.found + [cur]), n, k, -1)
  {
    hide Ascending;
  }

  lemma SameContents(st: Store, st': Store, s: Slice)
    requires Has(st, s) && Keeps(st, st') && Beyond(st, st', s.arr, s.len)
    ensures Has(st', s) && Contents(st', s) == Contents(st, s)
  {
  }

  /** After a pick only slices in the picked array may have lost their order. */
  lemma PickedFound(grow: nat -> nat, n: nat, k: nat, i: nat, cur: Slice, st: Store)
    requires Growing(grow) && Has(st, cur) && cur.len < k && FoundBut(st, n, k, cur.arr)
    ensures var (st', picked) := Append(grow, st, cur, i);
            FoundBut(st', n, k, picked.arr)
  {
    hide Ascending, Append;
    AppendFacts(grow, st, cur, i);
  }

  // ---- when every subset is listed

  /** The capacity of the array a slice of that length has, grown from nil one element at a time. */
  function CapAt(grow: nat -> nat, len: nat): nat
  {
    if len == 0 then 0
    else
      var c := CapAt(grow, len - 1);
      if len - 1 < c then c else grow(c)
  }

  /** The append that completes a list of k always takes a new array. */
  predicate Tight(grow: nat -> nat, k: nat)
  {
    k == 0 || CapAt(grow, k - 1) == k - 1
  }

  lemma {:induction false} CapGrows(grow: nat -> nat, len: nat, len': nat)
    requires Growing(grow) && len <= len'
    ensures len <= CapAt(grow, len) <= CapAt(grow, len')
    decreases len'
  {
    if len < len' {
      CapGrows(grow, len, len' - 1);
      CapGrows(grow, len' - 1, len' - 1);
      assert grow(CapAt(grow, len' - 1)) > CapAt(grow, len' - 1);
    } else if len > 0 {
      CapGrows(grow, len - 1, len - 1);
      assert grow(CapAt(grow, len - 1)) > CapAt(grow, len - 1);
    }
  }

  /** The current slice has been grown from nil. */
  predicate OnChain(grow: nat -> nat, st: Store, s: Slice)
    requires Has(st, s)
  {
    |st.arrays[s.arr]| == CapAt(grow, s.len)
  }

  lemma AppendOnChain(grow: nat -> nat, st: Store, s: Slice, x: int)
    requires Growing(grow) && Has(st, s) && OnChain(grow, st, s)
    ensures var (st', r) := Append(grow, st, s, x);
            OnChain(grow, st', r) && OnChain(grow, st', s)
  {
    AppendFacts(grow, st, s, x);
    hide Append;
    assert CapAt(grow, s.len + 1) == if s.len < CapAt(grow, s.len) then CapAt(grow, s.len) else grow(CapAt(grow, s.len));
  }

  /** The length at which the array that holds a list of k was made. */
  function Base(grow: nat -> nat, k: nat): (b: nat)
    ensures b <= k && (k > 0 ==> b > 0)
  {
    if k == 0 then 0 else if CapAt(grow, k - 1) == k - 1 || k == 1 then k else Base(grow, k - 1)
  }

  /** From there on there is room for all k. */
  lemma {:induction false} BaseRoom(grow: nat -> nat, k: nat)
    requires Growing(grow) && k > 0
    ensures var b := Base(grow, k); CapAt(grow, b - 1) == b - 1 && CapAt(grow, b) == CapAt(grow, k) >= k
    ensures Tight(grow, k) <==> Base(grow, k) == k
  {
    CapGrows(grow, k, k);
    if k > 1 {
      BaseRoom(grow, k - 1);
      CapGrows(grow, k - 1, k - 1);
    }
  }

  /** The last m numbers below n. */
  function Run(n: nat, m: nat): (r: seq<int>)
    ensures |r| == m
  {
    seq(m, j => n - m + j)
  }

  lemma RunStep(n: nat, m: nat)
    requires m > 0
    ensures Run(n, m) == [n - m] + Run(n, m - 1)
  {
  }

  function Times<T>(count: nat, x: T): seq<T>
  {
    seq(count, _ => x)
  }

  /** What the recursion lists when from length b on all share one array: every list of b, completed by
      the last numbers, as often as there are ways to complete it. With b == k nothing is shared. */
  function Listed(n: nat, k: nat, b: nat, i: nat, cur: seq<int>): seq<seq<int>>
    requires |cur| <= b <= k && i <= n
    decreases n - i
  {
    if k - |cur| > n - i then []
    else if |cur| == b then Times(Binomial(n - i, k - b), cur + Run(n, k - b))
    else Listed(n, k, b, i + 1, cur + [i]) + Listed(n, k, b, i + 1, cur)
  }

  predicate FoundOk(st: Store, k: nat)
  {
    forall f :: f in st.found ==> Has(st, f) && f.len == k
  }

  /** What the found slices hold. */
  function Found(st: Store, k: nat): seq<seq<int>>
    requires FoundOk(st, k)
  {
    seq(|st.found|, j requires 0 <= j < |st.found| => Contents(st, st.found[j]))
  }

  lemma {:induction false} ChooseOk(grow: nat -> nat, n: nat, k: nat, i: nat, cur: Slice, st: Store)
    requires Growing(grow) && Has(st, cur) && cur.len <= k && i <= n && FoundOk(st, k)
    ensures FoundOk(Choose(grow, n, k, i, cur, st), k)
    decreases n - i
  {
    hide Append;
    if cur.len < k && k - cur.len <= n - i {
      AppendFacts(grow, st, cur, i);
      var (st', picked) := Append(grow, st, cur, i);
      ChooseOk(grow, n, k, i + 1, picked, st');
      ChooseOk(grow, n, k, i + 1, cur, Choose(grow, n, k, i + 1, picked, st'));
    }
  }

  lemma AppendKeepsFound(grow: nat -> nat, st: Store, s: Slice, x: int, k: nat)
    requires Growing(grow) && Has(st, s) && FoundOk(st, k) && |st.arrays[s.arr]| < k
    ensures var (st', _) := Append(grow, st, s, x);
            FoundOk(st', k) && Found(st', k) == Found(st, k)
  {
    AppendFacts(grow, st, s, x);
    hide Append;
    var (st', _) := Append(grow, st, s, x);
    forall j | 0 <= j < |st.found| ensures Contents(st', st'.found[j]) == Contents(st, st.found[j]) {
      assert st.found[j] in st.found;
    }
  }

  /** Within one array every way to complete the current slice overwrites the one before: the same
      slice is added each time, and it ends up with the last numbers. */
  lemma {:induction false} SharedEnd(grow: nat -> nat, n: nat, k: nat, i: nat, cur: Slice, st: Store)
    requires Growing(grow) && Has(st, cur) && cur.len <= k && i <= n && k - cur.len <= n - i
    requires k <= |st.arrays[cur.arr]|
    ensures var r := Choose(grow, n, k, i, cur, st);
            && Has(r, Slice(cur.arr, k)) && Contents(r, Slice(cur.arr, k)) == Contents(st, cur) + Run(n, k - cur.len)
            && r.found == st.found + Times(Binomial(n - i, k - cur.len), Slice(cur.arr, k))
    decreases n - i
  {
    hide Append, Choose, Contents, Run, Binomial, Times;
    ChooseEnds(grow, n, k, i, cur, st);
    BinomialStep(n - i, k - cur.len);
    if cur.len == k {
      OnceMore(st, cur, n);
    } else {
      AppendFacts(grow, st, cur, i);
      var st', picked, st'' := ChooseStep(grow, n, k, i, cur, st);
      SharedEnd(grow, n, k, i + 1, picked, st');
      StillThere(grow, n, k, i, cur, st, st', picked);
      ChooseEnds(grow, n, k, i + 1, cur, st'');
      AddedTimes(st.found, Slice(cur.arr, k), Binomial(n - i - 1, k - cur.len - 1), Binomial(n - i - 1, k - cur.len));
      if k - cur.len <= n - i - 1 {
        SharedEnd(grow, n, k, i + 1, cur, st'');
      } else {
        BinomialEdge(n - i - 1, k - cur.len);
        RunStep(n, k - cur.len);
        Appended(Contents(st, cur), i, Run(n, k - cur.len - 1));
      }
    }
  }

  lemma OnceMore(st: Store, cur: Slice, n: nat)
    requires Has(st, cur)
    ensures st.found + [cur] == st.found + Times(1, cur) && Contents(st, cur) + Run(n, 0) == Contents(st, cur)
    ensures Contents(st.(found := st.found + [cur]), cur) == Contents(st, cur)
  {
    assert Run(n, 0) == [];
    assert Times(1, cur) == [cur];
  }

  lemma AddedTimes<T>(s: seq<T>, x: T, a: nat, b: nat)
    ensures s + Times(a, x) + Times(b, x) == s + Times(a + b, x) && s + Times(a, x) + Times(0, x) == s + Times(a, x)
  {
    assert Times(a, x) + Times(b, x) == Times(a + b, x);
    assert Times(0, x) == [];
  }

  lemma Appended(s: seq<int>, x: int, r: seq<int>)
    ensures s + [x] + r == s + ([x] + r)
  {
  }

  /** Exactly the lists of the recursion are found. */
  lemma {:induction false} LevelLists(grow: nat -> nat, n: nat, k: nat, i: nat, cur: Slice, st: Store)
    requires Growing(grow) && Has(st, cur) && cur.len < Base(grow, k) && i <= n && FoundOk(st, k)
    requires OnChain(grow, st, cur)
    ensures FoundOk(Choose(grow, n, k, i, cur, st), k)
    ensures Found(Choose(grow, n, k, i, cur, st), k) == Found(st, k) + Listed(n, k, Base(grow, k), i, Contents(st, cur))
    decreases n - i
  {
    hide Append, CapAt, Choose, Contents, Found, Base, Binomial, Times;
    ChooseEnds(grow, n, k, i, cur, st);
    ChooseOk(grow, n, k, i, cur, st);
    if k - cur.len > n - i {
      assert Found(st, k) + [] == Found(st, k);
    } else {
      BaseRoom(grow, k);
      CapGrows(grow, cur.len, Base(grow, k) - 1);
      AppendFacts(grow, st, cur, i);
      AppendOnChain(grow, st, cur, i);
      AppendKeepsFound(grow, st, cur, i, k);
      var st', picked, st'' := ChooseStep(grow, n, k, i, cur, st);
      if picked.len < Base(grow, k) {
        LevelLists(grow, n, k, i + 1, picked, st');
      } else {
        LastLevel(grow, n, k, i + 1, picked, st', st);
      }
      StillThere(grow, n, k, i, cur, st, st', picked);
      LevelLists(grow, n, k, i + 1, cur, st'');
    }
  }

  /** From the length on at which a new array is taken. */
  lemma LastLevel(grow: nat -> nat, n: nat, k: nat, i: nat, cur: Slice, st: Store, before: Store)
    requires Growing(grow) && Has(st, cur) && cur.len <= k && i <= n && k - cur.len <= n - i && FoundOk(st, k)
    requires k <= |st.arrays[cur.arr]| && before.found == st.found && cur.arr == |before.arrays|
    requires FoundOk(before, k)
    ensures FoundOk(Choose(grow, n, k, i, cur, st), k)
    ensures Found(Choose(grow, n, k, i, cur, st), k)
         == Found(st, k) + Times(Binomial(n - i, k - cur.len), Contents(st, cur) + Run(n, k - cur.len))
  {
    hide Append, Choose, Binomial, Run;
    ChooseOk(grow, n, k, i, cur, st);
    SharedEnd(grow, n, k, i, cur, st);
    ChooseBeyond(grow, n, k, i, cur, st);
    var r := Choose(grow, n, k, i, cur, st);
    forall j | 0 <= j < |st.found| ensures Contents(r, r.found[j]) == Contents(st, st.found[j]) {
      assert st.found[j] in st.found;
    }
  }

  /** If it does not, and there is more than enough to choose from, one slice is added twice. */
  lemma {:induction false} LooseRepeats(grow: nat -> nat, n: nat, k: nat, i: nat, cur: Slice, st: Store) returns (a: nat)
    requires Growing(grow) && Has(st, cur) && cur.len < k && i <= n && k - cur.len < n - i
    requires !Tight(grow, k) && OnChain(grow, st, cur)
    ensures var r := Choose(grow, n, k, i, cur, st);
            a + 1 < |r.found| && r.found[a] == r.found[a + 1]
    decreases n - i
  {
    hide Append, CapAt;
    AppendFacts(grow, st, cur, i);
    AppendOnChain(grow, st, cur, i);
    var (st', picked) := Append(grow, st, cur, i);
    var st'' := Choose(grow, n, k, i + 1, picked, st');
    ChooseBeyond(grow, n, k, i + 1, cur, st'');
    if cur.len + 1 < k {
      a := LooseRepeats(grow, n, k, i + 1, picked, st');
    } else {
      a := |st.found|;
      CapGrows(grow, k - 1, k - 1);
      AppendFacts(grow, st'', cur, i + 1);
      var (st3, again) := Append(grow, st'', cur, i + 1);
      ChooseBeyond(grow, n, k, i + 2, cur, Choose(grow, n, k, i + 2, again, st3));
      assert picked == Slice(cur.arr, k) == again;
    }
  }

  // ---- the lists of the recursion are all subsets, each once

  predicate Distinct<T(==)>(s: seq<T>)
  {
    forall i, j :: 0 <= i < j < |s| ==> s[i] != s[j]
  }

  /** s continues cur with numbers from i on. */
  predicate Continues(s: seq<int>, cur: seq<int>, i: nat)
  {
    cur <= s && forall j :: |cur| <= j < |s| ==> s[j] >= i
  }

  /** The lists that continue the current one and end, from length b on, with the last numbers. */
  lemma {:induction false} ListedExact(n: nat, k: nat, b: nat, i: nat, cur: seq<int>, s: seq<int>)
    requires |cur| <= b <= k && i <= n && Ascending(cur, i)
    ensures s in Listed(n, k, b, i, cur) <==>
            |s| == k && Ascending(s, n) && Continues(s, cur, i) && s[b..] == Run(n, k - b)
    decreases n - i
  {
    hide Ascending, Continues, Binomial, Run, Times;
    if k - |cur| > n - i {
      if |s| == k && Ascending(s, n) && Continues(s, cur, i) {
        TooShort(s, cur, i, n);
      }
    } else if |cur| == b {
      BinomialPositive(n - i, k - b);
      OnlyTimes(Binomial(n - i, k - b), cur + Run(n, k - b), s);
      OnlyRun(cur, s, i, n, k - b);
    } else {
      AscendingMore(cur, i, n);
      ListedExact(n, k, b, i + 1, cur + [i], s);
      ListedExact(n, k, b, i + 1, cur, s);
      if |s| == k && Ascending(s, n) {
        NextOrLater(s, cur, i, n);
      }
    }
  }

  lemma OnlyTimes<T>(count: nat, x: T, y: T)
    ensures y in Times(count, x) <==> count > 0 && y == x
  {
    if count > 0 {
      assert Times(count, x)[0] == x;
    }
  }

  lemma OnlyRun(cur: seq<int>, s: seq<int>, i: nat, n: nat, m: nat)
    requires Ascending(cur, i) && m <= n - i
    ensures s == cur + Run(n, m) <==>
            |s| == |cur| + m && Ascending(s, n) && Continues(s, cur, i) && s[|cur|..] == Run(n, m)
  {
    if |s| == |cur| + m && Continues(s, cur, i) && s[|cur|..] == Run(n, m) {
      assert s == s[..|cur|] + s[|cur|..];
    }
  }

  lemma TooShort(s: seq<int>, cur: seq<int>, i: nat, n: nat)
    requires Ascending(s, n) && Continues(s, cur, i) && i <= n
    ensures |s| - |cur| <= n - i
  {
    Crowded(s[|cur|..], i, n);
  }

  lemma NextOrLater(s: seq<int>, cur: seq<int>, i: nat, n: nat)
    requires Ascending(s, n) && |s| > |cur|
    ensures Continues(s, cur, i) <==> Continues(s, cur + [i], i + 1) || Continues(s, cur, i + 1)
  {
    if Continues(s, cur, i) && s[|cur|] == i {
      assert s[..|cur| + 1] == cur + [i];
    }
    if Continues(s, cur + [i], i + 1) {
      assert s[|cur|] == (cur + [i])[|cur|] && cur == (cur + [i])[..|cur|];
    }
  }

  /** Ascending numbers between two bounds are no more than the room between them. */
  lemma {:induction false} Crowded(s: seq<int>, lo: int, hi: int)
    requires lo <= hi && (forall j :: 0 <= j < |s| ==> lo <= s[j] < hi)
    requires forall i, j :: 0 <= i < j < |s| ==> s[i] < s[j]
    ensures |s| <= hi - lo
    decreases |s|
  {
    if s != [] {
      Crowded(s[..|s| - 1], lo, s[|s| - 1]);
    }
  }

  lemma {:induction false} ListedDistinct(n: nat, k: nat, i: nat, cur: seq<int>)
    requires |cur| <= k && i <= n && Ascending(cur, i)
    ensures Distinct(Listed(n, k, k, i, cur))
    decreases n - i
  {
    hide Ascending, Binomial;
    BinomialStep(n - i, 0);
    if |cur| < k && k - |cur| <= n - i {
      AscendingMore(cur, i, n);
      ListedDistinct(n, k, i + 1, cur + [i]);
      ListedDistinct(n, k, i + 1, cur);
      var a, b := Listed(n, k, k, i + 1, cur + [i]), Listed(n, k, k, i + 1, cur);
      forall x, y | 0 <= x < |a| && 0 <= y < |b| ensures a[x] != b[y] {
        assert a[x] in a && b[y] in b;
        ListedExact(n, k, k, i + 1, cur + [i], a[x]);
        ListedExact(n, k, k, i + 1, cur, b[y]);
        PickedDiffers(a[x], b[y], cur, i);
      }
      DistinctConcat(a, b);
    }
  }

  lemma PickedDiffers(s: seq<int>, t: seq<int>, cur: seq<int>, i: nat)
    requires Continues(s, cur + [i], i + 1) && Continues(t, cur, i + 1) && |s| == |t|
    ensures s != t
  {
    assert s[|cur|] == (cur + [i])[|cur|];
  }

  lemma DistinctConcat<T>(a: seq<T>, b: seq<T>)
    requires Distinct(a) && Distinct(b) && forall x, y :: 0 <= x < |a| && 0 <= y < |b| ==> a[x] != b[y]
    ensures Distinct(a + b)
  {
  }

  // ---- exactly when nothing is lost

  /** The lists chooseKoutOfN returns: what the slices hold when all have been added. */
  function Lists(grow: nat -> nat, n: nat, k: nat): (r: seq<seq<int>>)
    requires Growing(grow)
  {
    ChooseOk(grow, n, k, 0, NIL, EMPTY);
    Found(Choose(grow, n, k, 0, NIL, EMPTY), k)
  }

  lemma FoundAscend(st: Store, n: nat, k: nat, s: seq<int>)
    requires FoundOk(st, k) && FoundBut(st, n, k, -1) && s in Found(st, k)
    ensures |s| == k && Ascending(s, n)
  {
    hide Ascending;
    var j :| 0 <= j < |st.found| && s == Contents(st, st.found[j]);
    assert st.found[j] in st.found;
  }

  lemma ListsCount(grow: nat -> nat, n: nat, k: nat)
    requires Growing(grow)
    ensures |Lists(grow, n, k)| == Binomial(n, k)
  {
    hide Choose, Binomial, Contents;
    NilAscending();
    ChooseOk(grow, n, k, 0, NIL, EMPTY);
    ChooseCount(grow, n, k, 0, NIL, EMPTY);
  }

  lemma ListsSound(grow: nat -> nat, n: nat, k: nat)
    requires Growing(grow)
    ensures |Lists(grow, n, k)| == Binomial(n, k)
    ensures forall s :: s in Lists(grow, n, k) ==> |s| == k && Ascending(s, n)
  {
    hide Choose, Ascending, Binomial, Contents, Found, FoundBut;
    ListsCount(grow, n, k);
    if k <= n {
      NilAscending();
      NoneFound(n, k);
      ChooseOk(grow, n, k, 0, NIL, EMPTY);
      ChooseAscending(grow, n, k, 0, NIL, EMPTY);
      forall s | s in Lists(grow, n, k) ensures |s| == k && Ascending(s, n) {
        FoundAscend(Choose(grow, n, k, 0, NIL, EMPTY), n, k, s);
      }
    } else {
      BinomialEdge(n, k);
    }
  }

  lemma NoneFound(n: nat, k: nat)
    ensures FoundBut(EMPTY, n, k, NIL.arr)
  {
  }

  lemma NilAscending()
    ensures Has(EMPTY, NIL) && Contents(EMPTY, NIL) == [] && Ascending([], 0)
  {
  }

  /** What chooseKoutOfN returns, list by list: the ascending lists of k numbers below n that end, from
      the length on at which their array was made, with the last numbers. */
  lemma ListsAre(grow: nat -> nat, n: nat, k: nat, s: seq<int>)
    requires Growing(grow)
    ensures s in Lists(grow, n, k) <==>
            |s| == k && Ascending(s, n) && s[Base(grow, k)..] == Run(n, k - Base(grow, k))
  {
    hide Choose, Ascending, Listed, Run, Base;
    ListsListed(grow, n, k);
    AscendingNone(n);
    ListedExact(n, k, Base(grow, k), 0, [], s);
    if Ascending(s, n) {
      FromZero(s, n);
    }
  }

  lemma ListsListed(grow: nat -> nat, n: nat, k: nat)
    requires Growing(grow)
    ensures Lists(grow, n, k) == Listed(n, k, Base(grow, k), 0, [])
  {
    NilAscending();
    assert Found(EMPTY, k) == [];
    if k == 0 {
      ChooseEnds(grow, n, 0, 0, NIL, EMPTY);
      var none: seq<int> := [];
      assert none + Run(n, 0) == none && Times(1, none) == [none];
      assert Listed(n, 0, 0, 0, none) == [none];
      assert Lists(grow, n, 0) == [[]];
    } else {
      hide Choose, Listed, Base;
      BaseRoom(grow, k);
      LevelLists(grow, n, k, 0, NIL, EMPTY);
    }
  }

  lemma {:induction false} FullAscending(s: seq<int>, n: nat, j: nat)
    requires |s| == n && Ascending(s, n) && j < n
    ensures s[j] == j
  {
    Crowded(s[..j], 0, s[j]);
    Crowded(s[j..], s[j], n);
  }

  /** Every list of k ascending numbers below n is returned, and no list twice, if and only if the
      append that completes a list takes a new array or there is nothing to choose. */
  lemma ListsExact(grow: nat -> nat, n: nat, k: nat)
    requires Growing(grow)
    ensures (forall s :: |s| == k && Ascending(s, n) ==> s in Lists(grow, n, k)) <==> Tight(grow, k) || k >= n
    ensures Distinct(Lists(grow, n, k)) <==> Tight(grow, k) || k >= n
  {
    hide Choose, Ascending, Lists, Tight, Binomial, Distinct;
    if Tight(grow, k) {
      ListsWhenTight(grow, n, k);
    } else if k >= n {
      ListsWhenFull(grow, n, k);
    } else {
      ListsWhenLoose(grow, n, k);
    }
  }

  lemma ListsWhenTight(grow: nat -> nat, n: nat, k: nat)
    requires Growing(grow) && Tight(grow, k)
    ensures (forall s :: |s| == k && Ascending(s, n) ==> s in Lists(grow, n, k)) && Distinct(Lists(grow, n, k))
  {
    hide Choose, Ascending, Listed, Distinct, Lists, CapAt;
    if k > 0 {
      BaseRoom(grow, k);
    }
    AscendingNone(n);
    ListsListed(grow, n, k);
    ListedDistinct(n, k, 0, []);
    forall s | |s| == k && Ascending(s, n) ensures s in Lists(grow, n, k) {
      ListsAre(grow, n, k, s);
      assert s[k..] == [] == Run(n, 0);
    }
  }

  lemma AscendingNone(n: nat)
    ensures Ascending([], 0) && Ascending([], n)
  {
  }

  lemma FromZero(s: seq<int>, n: nat)
    requires Ascending(s, n)
    ensures Continues(s, [], 0)
  {
  }

  lemma ListsWhenFull(grow: nat -> nat, n: nat, k: nat)
    requires Growing(grow) && k >= n
    ensures (forall s :: |s| == k && Ascending(s, n) ==> s in Lists(grow, n, k)) && Distinct(Lists(grow, n, k))
  {
    hide Choose, Lists;
    ListsSound(grow, n, k);
    BinomialEdge(n, k);
    forall s | |s| == k && Ascending(s, n) ensures s in Lists(grow, n, k) {
      Crowded(s, 0, n);
      var t := Lists(grow, n, k)[0];
      assert t in Lists(grow, n, k);
      forall j | 0 <= j < n ensures s[j] == t[j] {
        FullAscending(s, n, j);
        FullAscending(t, n, j);
      }
      assert s == t;
    }
  }

  lemma ListsWhenLoose(grow: nat -> nat, n: nat, k: nat)
    requires Growing(grow) && !Tight(grow, k) && k < n
    ensures !(forall s :: |s| == k && Ascending(s, n) ==> s in Lists(grow, n, k)) && !Distinct(Lists(grow, n, k))
  {
    hide Choose, Lists, Base;
    NilAscending();
    var a := LooseRepeats(grow, n, k, 0, NIL, EMPTY);
    RepeatsStay(grow, n, k, a);
    BaseRoom(grow, k);
    var s := seq(k, j => j);
    assert Ascending(s, n);
    ListsAre(grow, n, k, s);
    assert s[Base(grow, k)..][k - Base(grow, k) - 1] == k - 1 != Run(n, k - Base(grow, k))[k - Base(grow, k) - 1];
  }

  lemma RepeatsStay(grow: nat -> nat, n: nat, k: nat, a: nat)
    requires Growing(grow)
    requires var r := Choose(grow, n, k, 0, NIL, EMPTY); a + 1 < |r.found| && r.found[a] == r.found[a + 1]
    ensures !Distinct(Lists(grow, n, k))
  {
    hide Choose;
    ChooseOk(grow, n, k, 0, NIL, EMPTY);
    assert Lists(grow, n, k)[a] == Lists(grow, n, k)[a + 1];
  }

  // ---- doubling

  function Double(c: nat): nat
  {
    if c == 0 then 1 else 2 * c
  }

  function Pow2(j: nat): nat
  {
    if j == 0 then 1 else 2 * Pow2(j - 1)
  }

  lemma {:induction false} Pow2Grows(i: nat, j: nat)
    requires i < j
    ensures 0 < Pow2(i) < Pow2(j)
  {
    if j > i + 1 {
      Pow2Grows(i, j - 1);
    } else if i > 0 {
      Pow2Grows(i - 1, i);
    }
  }

  /** With doubling the capacity is the least power of two that is enough. */
  lemma {:induction false} DoubledCap(len: nat) returns (j: nat)
    requires len > 0
    ensures CapAt(Double, len) == Pow2(j) >= len && (j == 0 || Pow2(j - 1) < len)
  {
    if len == 1 {
      j := 0;
      assert CapAt(Double, 0) == 0;
    } else {
      j := DoubledCap(len - 1);
      if len - 1 == Pow2(j) {
        j := j + 1;
        Pow2Grows(0, j);
      }
    }
  }

  /** With doubling nothing is lost exactly when k is at most one, or one more than a power of two. */
  lemma DoublingTight(k: nat)
    ensures Growing(Double) && (Tight(Double, k) <==> k <= 1 || exists j :: k - 1 == Pow2(j))
  {
    if k > 1 {
      var m := DoubledCap(k - 1);
      forall j | k - 1 == Pow2(j) ensures Tight(Double, k) {
        if j + 1 < m {
          Pow2Grows(j, m - 1);
        } else if m < j {
          Pow2Grows(m, j);
        }
      }
    }
  }

  /** Four of five, the smallest loss. */
  lemma FourOfFive()
    ensures Growing(Double) && exists s :: |s| == 4 && Ascending(s, 5) && s !in Lists(Double, 5, 4)
  {
    hide Lists, Ascending;
    assert CapAt(Double, 3) == 4 by {
      assert CapAt(Double, 0) == 0 && CapAt(Double, 1) == 1 && CapAt(Double, 2) == 2;
    }
    assert Growing(Double);
    ListsExact(Double, 5, 4);
  }
}

/** Expanding a threshold tree into trees with exactly the threshold of descendants at every inner
    vertex (common/graph/perm.go and tree.go). Vertices are values, so a clone is the vertex itself
    with its threshold forgotten. */
module Permutations {
  import opened Basics
  import opened Combinations

  datatype Vertex = Vertex(id: string, data: string, threshold: int, kids: seq<Vertex>)

  method ChooseKOutOfN(n: nat, k: nat, grow: nat -> nat) returns (r: seq<seq<int>>)
    requires Growing(grow)
    ensures r == Lists(grow, n, k)
    ensures |r| == Binomial(n, k)
    ensures forall s :: s in r ==> |s| == k && Ascending(s, n)
  {
    hide Choose, Binomial, Ascending, Contents;
    NilAscending();
    var storage := new Storage(grow);
    storage.ChooseFrom(n, k, 0, NIL);
    ChooseOk(grow, n, k, 0, NIL, EMPTY);
    ListsSound(grow, n, k);
    r := [];
    var i := 0;
    while i < |storage.store.found|
      invariant 0 <= i <= |storage.store.found| && storage.store == Choose(grow, n, k, 0, NIL, EMPTY)
      invariant r == Lists(grow, n, k)[..i]
    {
      assert storage.store.found[i] in storage.store.found;
      r := r + [Contents(storage.store, storage.store.found[i])];
      i := i + 1;
    }
  }

  // ---- pruning

  /** `part` is `whole` with some elements left out. */
  ghost predicate Within<T(!new)>(part: seq<T>, whole: seq<T>)
  {
    exists at: seq<int> :: Picks(part, whole, at)
  }

  ghost predicate Picks<T(!new)>(part: seq<T>, whole: seq<T>, at: seq<int>)
  {
    && |at| == |part| && Ascending(at, |whole|)
    && forall i :: 0 <= i < |part| ==> part[i] == whole[at[i]]
  }

  function Without<T>(s: seq<T>, k: nat): seq<T>
    requires k < |s|
  {
    s[..k] + s[k + 1..]
  }

  lemma WithoutWithin<T(!new)>(part: seq<T>, whole: seq<T>, k: nat)
    requires Within(part, whole) && k < |part|
    ensures Within(Without(part, k), whole)
  {
    var at :| Picks(part, whole, at);
    assert Picks(Without(part, k), whole, Without(at, k));
  }

  lemma WithinItself<T(!new)>(s: seq<T>)
    ensures Within(s, s)
  {
    var at := seq(|s|, i => i);
    assert Picks(s, s, at);
  }

  /** Without a bound of at least one there are too many combinations as long as the threshold can
      be reached at all; with one, never when exactly the threshold is left. */
  lemma BoundExact(threshold: int, bound: int)
    ensures threshold >= 0 ==> (bound >= 1 <==> !CombinationsExceed(threshold, threshold, bound))
    ensures bound < 1 ==> forall n: nat :: n >= threshold ==> CombinationsExceed(n, threshold, bound)
  {
    if threshold >= 0 {
      BinomialEdge(threshold, threshold);
      forall n: nat | n >= threshold ensures Binomial(n, threshold) >= 1 {
        BinomialPositive(n, threshold);
      }
    }
  }

  /** How many of n descendants pruning leaves: with a bound of at least one never fewer than a
      threshold that could be reached, otherwise one fewer than the threshold. */
  predicate Leaves(kept: nat, n: nat, threshold: int, bound: int)
  {
    if bound >= 1 then (if n >= threshold then kept >= threshold else kept == n) && (n > 0 ==> kept > 0)
    else kept == if n < threshold then n else threshold - 1
  }

  /** Descendants are dropped while there are too many combinations. None is the panic on choosing a
      victim among none. */
  method Prune(kids: seq<Vertex>, threshold: int, bound: int) returns (r: Option<seq<Vertex>>)
    ensures r.None? <==> bound < 1 && threshold <= 0
    ensures r.Some? ==> Within(r.value, kids) && !CombinationsExceed(|r.value|, threshold, bound)
    ensures r.Some? ==> Leaves(|r.value|, |kids|, threshold, bound)
    ensures r.Some? && !CombinationsExceed(|kids|, threshold, bound) ==> r.value == kids
  {
    hide Binomial, Within;
    var kept := kids;
    WithinItself(kids);
    BoundExact(threshold, bound);
    while CombinationsExceed(|kept|, threshold, bound)
      invariant Within(kept, kids) && |kept| <= |kids|
      invariant if |kids| >= threshold then |kept| >= threshold - 1 else kept == kids
      invariant bound >= 1 ==> Leaves(|kept|, |kids|, threshold, bound)
      invariant !CombinationsExceed(|kids|, threshold, bound) ==> kept == kids
      decreases |kept|
    {
      if kept == [] {
        return None;
      }
      if threshold >= 0 {
        BinomialStep(|kept|, threshold);
      }
      var victim :| 0 <= victim < |kept|;
      WithoutWithin(kept, kids, victim);
      kept := Without(kept, victim);
    }
    r := Some(kept);
  }

  /** `pruned` is `v` with descendants dropped, here and below. */
  ghost predicate Pruned(pruned: Vertex, v: Vertex, bound: int)
    decreases v
  {
    && pruned.id == v.id && pruned.data == v.data && pruned.threshold == v.threshold
    && (v.kids != [] ==> Leaves(|pruned.kids|, |v.kids|, v.threshold, bound))
    && exists at: seq<int> :: PrunedAt(pruned.kids, v.kids, at, bound)
  }

  ghost predicate PrunedAt(pruned: seq<Vertex>, kids: seq<Vertex>, at: seq<int>, bound: int)
    decreases kids
  {
    && |at| == |pruned| && Ascending(at, |kids|)
    && forall i :: 0 <= i < |at| ==> Pruned(pruned[i], kids[at[i]], bound)
  }

  /** An inner vertex has a negative threshold, or threshold zero and a bound below one. */
  ghost predicate Stuck(v: Vertex, bound: int)
  {
    || (v.kids != [] && (v.threshold < 0 || (v.threshold == 0 && bound < 1)))
    || exists i :: 0 <= i < |v.kids| && Stuck(v.kids[i], bound)
  }

  /** No vertex has too many combinations. */
  ghost predicate Small(v: Vertex, bound: int)
  {
    && (v.kids != [] ==> !CombinationsExceed(|v.kids|, v.threshold, bound))
    && forall i :: 0 <= i < |v.kids| ==> Small(v.kids[i], bound)
  }

  /** Every vertex is visited, also those dropped, because descendants are queued before they are
      pruned. None says that the pass does not return: a panic, or a recursion without end. */
  method PruneTree(v: Vertex, bound: int) returns (r: Option<Vertex>)
    ensures r.None? <==> Stuck(v, bound)
    ensures r.Some? ==> Pruned(r.value, v, bound)
    ensures r.Some? && Small(v, bound) ==> r.value == v
    decreases v
  {
    hide Pruned, PrunedAt, CombinationsExceed, Picks, Within, Ascending, Leaves;
    var kids: seq<Vertex> := [];
    var i := 0;
    while i < |v.kids|
      invariant 0 <= i <= |v.kids| && |kids| == i
      invariant forall j :: 0 <= j < i ==> Pruned(kids[j], v.kids[j], bound)
      invariant forall j :: 0 <= j < i ==> !Stuck(v.kids[j], bound)
      invariant Small(v, bound) ==> kids == v.kids[..i]
    {
      var kid := PruneTree(v.kids[i], bound);
      if kid.None? {
        return None;
      }
      kids := kids + [kid.value];
      i := i + 1;
    }
    if kids == [] {
      PrunedLeaf(v, bound);
      return Some(v);
    }
    var kept := Prune(kids, v.threshold, bound);
    if kept.None? || v.threshold < 0 {
      return None;
    }
    r := Some(v.(kids := kept.value));
    PrunedHere(r.value, v, kids, bound);
  }

  lemma PrunedLeaf(v: Vertex, bound: int)
    requires v.kids == []
    ensures Pruned(v, v, bound)
  {
    assert PrunedAt([], v.kids, [], bound);
  }

  lemma PrunedHere(pruned: Vertex, v: Vertex, kids: seq<Vertex>, bound: int)
    requires pruned.id == v.id && pruned.data == v.data && pruned.threshold == v.threshold
    requires |kids| == |v.kids| && Within(pruned.kids, kids)
    requires Leaves(|pruned.kids|, |v.kids|, v.threshold, bound)
    requires forall j :: 0 <= j < |kids| ==> Pruned(kids[j], v.kids[j], bound)
    ensures Pruned(pruned, v, bound)
  {
    hide Leaves;
    var at :| Picks(pruned.kids, kids, at);
    assert PrunedAt(pruned.kids, v.kids, at, bound);
  }

  // ---- trees

  function Ids(v: Vertex): set<string>
  {
    {v.id} + IdsOf(v.kids)
  }

  function IdsOf(vs: seq<Vertex>): set<string>
  {
    set i, id | 0 <= i < |vs| && id in Ids(vs[i]) :: id
  }

  ghost predicate Unique(v: Vertex)
  {
    v.id !in IdsOf(v.kids) && UniqueAll(v.kids)
  }

  ghost predicate UniqueAll(vs: seq<Vertex>)
  {
    && (forall i :: 0 <= i < |vs| ==> Unique(vs[i]))
    && (forall i, j :: 0 <= i < j < |vs| ==> Ids(vs[i]) !! Ids(vs[j]))
  }

  function Clone(v: Vertex): Vertex
  {
    Vertex(v.id, v.data, 0, seq(|v.kids|, i requires 0 <= i < |v.kids| => Clone(v.kids[i])))
  }

  predicate Exists(v: Vertex, id: string)
  {
    v.id == id || exists i :: 0 <= i < |v.kids| && Exists(v.kids[i], id)
  }

  function Replace(v: Vertex, id: string, kids: seq<Vertex>): Vertex
  {
    if v.id == id then v.(kids := kids)
    else v.(kids := seq(|v.kids|, i requires 0 <= i < |v.kids| => Replace(v.kids[i], id, kids)))
  }

  /** The tree uses vertices and edges of `v` only, and below every vertex that has descendants in
      `v` exactly its threshold of them. */
  ghost predicate Fits(tree: Vertex, v: Vertex)
    decreases v
  {
    && tree.id == v.id && tree.data == v.data
    && if v.kids == [] then tree.kids == []
       else |tree.kids| == v.threshold && exists at: seq<int> :: FitsAt(tree.kids, v.kids, at)
  }

  ghost predicate FitsAt(trees: seq<Vertex>, vs: seq<Vertex>, at: seq<int>)
    decreases vs
  {
    && |at| == |trees| && Ascending(at, |vs|)
    && forall i :: 0 <= i < |at| ==> Fits(trees[i], vs[at[i]])
  }

  /** One of the lists returned for choosing that many of n. */
  ghost predicate Offered(grow: nat -> nat, n: nat, at: seq<int>)
  {
    Growing(grow) && at in Lists(grow, n, |at|)
  }

  /** Fits, and the descendants at every vertex are one of the choices offered there. */
  ghost predicate FitsBy(tree: Vertex, v: Vertex, grow: nat -> nat)
    decreases v
  {
    && tree.id == v.id && tree.data == v.data
    && if v.kids == [] then tree.kids == []
       else |tree.kids| == v.threshold && exists at: seq<int> :: FitsByAt(tree.kids, v.kids, at, grow)
  }

  ghost predicate FitsByAt(trees: seq<Vertex>, vs: seq<Vertex>, at: seq<int>, grow: nat -> nat)
    decreases vs
  {
    && |at| == |trees| && Ascending(at, |vs|) && Offered(grow, |vs|, at)
    && forall i :: 0 <= i < |at| ==> FitsBy(trees[i], vs[at[i]], grow)
  }

  lemma {:induction false} FitsByFits(tree: Vertex, v: Vertex, grow: nat -> nat)
    requires FitsBy(tree, v, grow)
    ensures Fits(tree, v)
    decreases v
  {
    hide Offered;
    if v.kids != [] {
      var at :| FitsByAt(tree.kids, v.kids, at, grow);
      forall i | 0 <= i < |at| ensures Fits(tree.kids[i], v.kids[at[i]]) {
        FitsByFits(tree.kids[i], v.kids[at[i]], grow);
      }
      assert FitsAt(tree.kids, v.kids, at);
    }
  }

  lemma {:induction false} FitsPruned(tree: Vertex, pruned: Vertex, v: Vertex, bound: int)
    requires bound >= 1 && Fits(tree, pruned) && Pruned(pruned, v, bound)
    ensures Fits(tree, v)
    decreases v
  {
    var kept :| PrunedAt(pruned.kids, v.kids, kept, bound);
    assert |kept| > 0 ==> 0 <= kept[0] < |v.kids|;
    if v.kids != [] {
      var at :| FitsAt(tree.kids, pruned.kids, at);
      var both := seq(|at|, i requires 0 <= i < |at| => kept[at[i]]);
      forall i | 0 <= i < |at| ensures Fits(tree.kids[i], v.kids[both[i]]) {
        FitsPruned(tree.kids[i], pruned.kids[at[i]], v.kids[kept[at[i]]], bound);
      }
      assert FitsAt(tree.kids, v.kids, both);
    }
  }

  /** Every inner vertex has at least its threshold of descendants. */
  ghost predicate Reachable(v: Vertex)
  {
    && (v.kids != [] ==> |v.kids| >= v.threshold)
    && forall i :: 0 <= i < |v.kids| ==> Reachable(v.kids[i])
  }

  /** No inner vertex has a negative threshold. */
  ghost predicate Asked(v: Vertex)
  {
    (v.kids != [] ==> v.threshold >= 0) && forall i :: 0 <= i < |v.kids| ==> Asked(v.kids[i])
  }

  lemma {:induction false} PrunedAsked(pruned: Vertex, v: Vertex, bound: int)
    requires Pruned(pruned, v, bound) && !Stuck(v, bound)
    ensures Asked(pruned)
    decreases v
  {
    var at :| PrunedAt(pruned.kids, v.kids, at, bound);
    assert |at| > 0 ==> 0 <= at[0] < |v.kids|;
    forall i | 0 <= i < |pruned.kids| ensures Asked(pruned.kids[i]) {
      PrunedAsked(pruned.kids[i], v.kids[at[i]], bound);
    }
  }

  lemma {:induction false} PrunedReachable(pruned: Vertex, v: Vertex, bound: int)
    requires bound >= 1 && Pruned(pruned, v, bound) && Reachable(v)
    ensures Reachable(pruned)
    decreases v
  {
    var at :| PrunedAt(pruned.kids, v.kids, at, bound);
    assert |at| > 0 ==> 0 <= at[0] < |v.kids|;
    forall i | 0 <= i < |pruned.kids| ensures Reachable(pruned.kids[i]) {
      PrunedReachable(pruned.kids[i], v.kids[at[i]], bound);
    }
  }

  lemma {:induction false} PrunedIds(pruned: Vertex, v: Vertex, bound: int)
    requires Pruned(pruned, v, bound)
    ensures Ids(pruned) <= Ids(v)
    decreases v
  {
    var at :| PrunedAt(pruned.kids, v.kids, at, bound);
    forall i | 0 <= i < |pruned.kids| ensures Ids(pruned.kids[i]) <= Ids(v.kids[at[i]]) {
      PrunedIds(pruned.kids[i], v.kids[at[i]], bound);
    }
    assert IdsOf(pruned.kids) <= IdsOf(v.kids);
  }

  lemma {:induction false} PrunedUnique(pruned: Vertex, v: Vertex, bound: int)
    requires Pruned(pruned, v, bound) && Unique(v)
    ensures Unique(pruned)
    decreases v
  {
    var at :| PrunedAt(pruned.kids, v.kids, at, bound);
    assert UniqueAll(v.kids);
    forall i | 0 <= i < |pruned.kids|
      ensures Unique(pruned.kids[i]) && Ids(pruned.kids[i]) <= Ids(v.kids[at[i]])
    {
      PrunedUnique(pruned.kids[i], v.kids[at[i]], bound);
      PrunedIds(pruned.kids[i], v.kids[at[i]], bound);
    }
    forall i, j | 0 <= i < j < |pruned.kids| ensures Ids(pruned.kids[i]) !! Ids(pruned.kids[j]) {
      assert Ids(v.kids[at[i]]) !! Ids(v.kids[at[j]]);
    }
    assert UniqueAll(pruned.kids);
    assert IdsOf(pruned.kids) <= IdsOf(v.kids);
  }

  // ---- trees expanded at some vertices only

  /** The same tree, thresholds aside. */
  ghost predicate Copies(tree: Vertex, v: Vertex)
  {
    && tree.id == v.id && tree.data == v.data && |tree.kids| == |v.kids|
    && forall i :: 0 <= i < |tree.kids| ==> Copies(tree.kids[i], v.kids[i])
  }

  /** The tree fits at the vertices already expanded and copies `v` from the first others down. */
  ghost predicate Partly(tree: Vertex, v: Vertex, done: set<string>, grow: nat -> nat)
    decreases v
  {
    if v.id !in done then Copies(tree, v)
    else
      && tree.id == v.id && tree.data == v.data
      && if v.kids == [] then tree.kids == []
         else |tree.kids| == v.threshold && exists at: seq<int> :: PartlyAt(tree.kids, v.kids, at, done, grow)
  }

  ghost predicate PartlyAt(trees: seq<Vertex>, vs: seq<Vertex>, at: seq<int>, done: set<string>, grow: nat -> nat)
    decreases vs
  {
    && |at| == |trees| && Ascending(at, |vs|) && Offered(grow, |vs|, at)
    && forall i :: 0 <= i < |at| ==> Partly(trees[i], vs[at[i]], done, grow)
  }

  lemma {:induction false} CopiesItself(v: Vertex)
    ensures Copies(v, v)
  {
    forall i | 0 <= i < |v.kids| ensures Copies(v.kids[i], v.kids[i]) {
      CopiesItself(v.kids[i]);
    }
  }

  lemma {:induction false} CopiesIds(tree: Vertex, v: Vertex)
    requires Copies(tree, v)
    ensures Ids(tree) == Ids(v)
  {
    forall i | 0 <= i < |tree.kids| ensures Ids(tree.kids[i]) == Ids(v.kids[i]) {
      CopiesIds(tree.kids[i], v.kids[i]);
    }
    assert IdsOf(tree.kids) == IdsOf(v.kids);
  }

  lemma {:induction false} CloneCopies(tree: Vertex, v: Vertex)
    requires Copies(tree, v)
    ensures Copies(Clone(tree), v)
  {
    forall i | 0 <= i < |tree.kids| ensures Copies(Clone(tree.kids[i]), v.kids[i]) {
      CloneCopies(tree.kids[i], v.kids[i]);
    }
  }

  lemma {:induction false} ClonePartly(tree: Vertex, v: Vertex, done: set<string>, grow: nat -> nat)
    requires Partly(tree, v, done, grow)
    ensures Partly(Clone(tree), v, done, grow)
    decreases v
  {
    hide Copies, Offered;
    if v.id !in done {
      CloneCopies(tree, v);
    } else if v.kids != [] {
      var at :| PartlyAt(tree.kids, v.kids, at, done, grow);
      forall i | 0 <= i < |at| ensures Partly(Clone(tree).kids[i], v.kids[at[i]], done, grow) {
        ClonePartly(tree.kids[i], v.kids[at[i]], done, grow);
      }
      assert PartlyAt(Clone(tree).kids, v.kids, at, done, grow);
    }
  }

  lemma {:induction false} ExistsIsId(v: Vertex, id: string)
    ensures Exists(v, id) <==> id in Ids(v)
  {
    forall i | 0 <= i < |v.kids| ensures Exists(v.kids[i], id) <==> id in Ids(v.kids[i]) {
      ExistsIsId(v.kids[i], id);
    }
  }

  lemma {:induction false} ReplaceAbsent(v: Vertex, id: string, kids: seq<Vertex>)
    requires id !in Ids(v)
    ensures Replace(v, id, kids) == v
  {
    forall i | 0 <= i < |v.kids| ensures Replace(v.kids[i], id, kids) == v.kids[i] {
      ReplaceAbsent(v.kids[i], id, kids);
    }
    assert Replace(v, id, kids).kids == v.kids;
  }

  /** w is next to be expanded: it is where its id is found, everything above it is expanded, and
      nothing in it is. */
  ghost predicate Frontier(v: Vertex, done: set<string>, w: Vertex)
  {
    && (v.id == w.id ==> v == w && v.id !in done)
    && (v.id != w.id && v.id !in done ==> w.id !in Ids(v))
    && (v.id in done ==> forall i :: 0 <= i < |v.kids| ==> Frontier(v.kids[i], done, w))
  }

  ghost predicate Untouched(w: Vertex, done: set<string>)
  {
    Ids(w) !! done && w.id !in IdsOf(w.kids)
  }

  /** The descendants at the given places. */
  function Select(kids: seq<Vertex>, at: seq<int>): seq<Vertex>
    requires Ascending(at, |kids|)
  {
    seq(|at|, i requires 0 <= i < |at| => kids[at[i]])
  }

  lemma ExpandHere(tree: Vertex, w: Vertex, done: set<string>, at: seq<int>, grow: nat -> nat)
    requires Copies(tree, w) && Untouched(w, done) && w.kids != []
    requires |at| == w.threshold && Ascending(at, |w.kids|) && Offered(grow, |w.kids|, at)
    ensures Partly(tree.(kids := Select(w.kids, at)), w, done + {w.id}, grow)
  {
    hide Copies, Offered;
    var chosen := Select(w.kids, at);
    forall i | 0 <= i < |at| ensures Partly(chosen[i], w.kids[at[i]], done + {w.id}, grow) {
      assert w.kids[at[i]].id in Ids(w.kids[at[i]]);
      assert w.kids[at[i]].id in IdsOf(w.kids);
      CopiesItself(chosen[i]);
    }
    assert PartlyAt(chosen, w.kids, at, done + {w.id}, grow);
    CopiesIds(tree, w);
    CopiesHead(tree, w);
  }

  lemma CopiesHead(tree: Vertex, v: Vertex)
    requires Copies(tree, v)
    ensures tree.id == v.id && tree.data == v.data
  {
  }

  /** Replacing the descendants of w by a choice of its threshold expands every tree at w. */
  lemma {:induction false} ReplacePartly(tree: Vertex, v: Vertex, done: set<string>, w: Vertex, at: seq<int>, grow: nat -> nat)
    requires Partly(tree, v, done, grow) && Frontier(v, done, w) && Untouched(w, done) && w.kids != []
    requires |at| == w.threshold && Ascending(at, |w.kids|) && Offered(grow, |w.kids|, at)
    ensures Partly(Replace(tree, w.id, Select(w.kids, at)), v, done + {w.id}, grow)
    decreases v
  {
    hide Copies, Untouched, Offered;
    var chosen := Select(w.kids, at);
    if v.id !in done {
      CopiesHead(tree, v);
      CopiesIds(tree, v);
      if v.id == w.id {
        ExpandHere(tree, w, done, at, grow);
      } else {
        ReplaceAbsent(tree, w.id, chosen);
      }
    } else if v.kids != [] {
      var tree' := Replace(tree, w.id, chosen);
      var on :| PartlyAt(tree.kids, v.kids, on, done, grow);
      forall i | 0 <= i < |on| ensures Partly(tree'.kids[i], v.kids[on[i]], done + {w.id}, grow) {
        ReplacePartly(tree.kids[i], v.kids[on[i]], done, w, at, grow);
      }
      assert PartlyAt(tree'.kids, v.kids, on, done + {w.id}, grow);
    }
  }

  /** A tree without w, or one where w has no descendants, is expanded at w as it is. */
  lemma {:induction false} AbsentPartly(tree: Vertex, v: Vertex, done: set<string>, w: Vertex, grow: nat -> nat)
    requires Partly(tree, v, done, grow) && Frontier(v, done, w)
    requires w.id !in Ids(tree) || w.kids == []
    ensures Partly(tree, v, done + {w.id}, grow)
    decreases v
  {
    hide Offered;
    if v.id !in done {
      if v.id == w.id {
        assert tree.id in Ids(tree);
      }
    } else if v.kids != [] {
      var on :| PartlyAt(tree.kids, v.kids, on, done, grow);
      forall i | 0 <= i < |on| ensures Partly(tree.kids[i], v.kids[on[i]], done + {w.id}, grow) {
        assert Ids(tree.kids[i]) <= IdsOf(tree.kids) <= Ids(tree);
        AbsentPartly(tree.kids[i], v.kids[on[i]], done, w, grow);
      }
      assert PartlyAt(tree.kids, v.kids, on, done + {w.id}, grow);
    }
  }

  // ---- trees on the way to a given one

  /** A tree expanded where visited that can still become `t`. */
  ghost predicate Toward(p: Vertex, t: Vertex, v: Vertex, done: set<string>, grow: nat -> nat)
    decreases v
  {
    if v.id !in done then Copies(p, v) && FitsBy(t, v, grow)
    else
      && p.id == t.id == v.id && p.data == t.data == v.data
      && if v.kids == [] then p.kids == t.kids == []
         else |t.kids| == v.threshold && exists at: seq<int> :: TowardAt(p.kids, t.kids, v.kids, at, done, grow)
  }

  ghost predicate TowardAt(ps: seq<Vertex>, ts: seq<Vertex>, vs: seq<Vertex>, at: seq<int>, done: set<string>, grow: nat -> nat)
    decreases vs
  {
    && |at| == |ps| == |ts| && Ascending(at, |vs|)
    && forall i :: 0 <= i < |at| ==> Toward(ps[i], ts[i], vs[at[i]], done, grow)
  }

  lemma {:induction false} TowardIds(p: Vertex, t: Vertex, v: Vertex, done: set<string>, grow: nat -> nat)
    requires Toward(p, t, v, done, grow)
    ensures Ids(p) <= Ids(v)
    decreases v
  {
    hide FitsBy;
    if v.id !in done {
      CopiesIds(p, v);
    } else if v.kids != [] {
      var at :| TowardAt(p.kids, t.kids, v.kids, at, done, grow);
      forall i | 0 <= i < |at| ensures Ids(p.kids[i]) <= Ids(v.kids[at[i]]) {
        TowardIds(p.kids[i], t.kids[i], v.kids[at[i]], done, grow);
      }
      assert IdsOf(p.kids) <= IdsOf(v.kids);
    }
  }

  lemma {:induction false} CloneToward(p: Vertex, t: Vertex, v: Vertex, done: set<string>, grow: nat -> nat)
    requires Toward(p, t, v, done, grow)
    ensures Toward(Clone(p), t, v, done, grow)
    decreases v
  {
    hide Copies, FitsBy;
    if v.id !in done {
      CloneCopies(p, v);
    } else if v.kids != [] {
      var at :| TowardAt(p.kids, t.kids, v.kids, at, done, grow);
      forall i | 0 <= i < |at| ensures Toward(Clone(p).kids[i], t.kids[i], v.kids[at[i]], done, grow) {
        CloneToward(p.kids[i], t.kids[i], v.kids[at[i]], done, grow);
      }
      assert TowardAt(Clone(p).kids, t.kids, v.kids, at, done, grow);
    }
  }

  lemma {:induction false} AbsentToward(p: Vertex, t: Vertex, v: Vertex, done: set<string>, w: Vertex, grow: nat -> nat)
    requires Toward(p, t, v, done, grow) && Frontier(v, done, w)
    requires w.id !in Ids(p) || w.kids == []
    ensures Toward(p, t, v, done + {w.id}, grow)
    decreases v
  {
    if v.id !in done {
      if v.id == w.id {
        assert p.id in Ids(p);
      }
    } else if v.kids != [] {
      var at :| TowardAt(p.kids, t.kids, v.kids, at, done, grow);
      forall i | 0 <= i < |at| ensures Toward(p.kids[i], t.kids[i], v.kids[at[i]], done + {w.id}, grow) {
        assert Ids(p.kids[i]) <= IdsOf(p.kids) <= Ids(p);
        AbsentToward(p.kids[i], t.kids[i], v.kids[at[i]], done, w, grow);
      }
      assert TowardAt(p.kids, t.kids, v.kids, at, done + {w.id}, grow);
    }
  }

  lemma TowardHere(p: Vertex, t: Vertex, w: Vertex, done: set<string>, grow: nat -> nat) returns (at: seq<int>)
    requires Copies(p, w) && FitsBy(t, w, grow) && Untouched(w, done) && w.kids != []
    ensures |at| == w.threshold && Ascending(at, |w.kids|) && Offered(grow, |w.kids|, at)
    ensures Toward(p.(kids := Select(w.kids, at)), t, w, done + {w.id}, grow)
  {
    hide Copies, Offered;
    at :| FitsByAt(t.kids, w.kids, at, grow);
    var chosen := Select(w.kids, at);
    forall i | 0 <= i < |at| ensures Toward(chosen[i], t.kids[i], w.kids[at[i]], done + {w.id}, grow) {
      assert w.kids[at[i]].id in Ids(w.kids[at[i]]);
      assert w.kids[at[i]].id in IdsOf(w.kids);
      CopiesItself(chosen[i]);
    }
    CopiesHead(p, w);
    assert TowardAt(chosen, t.kids, w.kids, at, done + {w.id}, grow);
  }

  /** In a tree that holds w, one of the choices offered at w leads on to `t`. */
  lemma {:induction false} ExpandToward(p: Vertex, t: Vertex, v: Vertex, done: set<string>, w: Vertex, grow: nat -> nat)
    returns (at: seq<int>)
    requires Toward(p, t, v, done, grow) && Frontier(v, done, w) && Untouched(w, done) && w.kids != [] && Unique(v)
    requires w.id in Ids(p)
    ensures |at| == w.threshold && Ascending(at, |w.kids|) && Offered(grow, |w.kids|, at)
    ensures Toward(Replace(p, w.id, Select(w.kids, at)), t, v, done + {w.id}, grow)
    decreases v
  {
    hide Copies, Untouched, Offered, FitsBy;
    if v.id !in done {
      CopiesIds(p, v);
      CopiesHead(p, v);
      at := TowardHere(p, t, w, done, grow);
    } else {
      var on :| TowardAt(p.kids, t.kids, v.kids, on, done, grow);
      var k :| 0 <= k < |p.kids| && w.id in Ids(p.kids[k]);
      at := ExpandToward(p.kids[k], t.kids[k], v.kids[on[k]], done, w, grow);
      var p' := Replace(p, w.id, Select(w.kids, at));
      forall i | 0 <= i < |on| ensures Toward(p'.kids[i], t.kids[i], v.kids[on[i]], done + {w.id}, grow) {
        if i != k {
          ElsewhereAbsent(p, t, v, done, w.id, grow, on, k, i);
          ReplaceAbsent(p.kids[i], w.id, Select(w.kids, at));
          AbsentToward(p.kids[i], t.kids[i], v.kids[on[i]], done, w, grow);
        }
      }
      assert TowardAt(p'.kids, t.kids, v.kids, on, done + {w.id}, grow);
    }
  }

  lemma ElsewhereAbsent(p: Vertex, t: Vertex, v: Vertex, done: set<string>, id: string, grow: nat -> nat, on: seq<int>, k: int, i: int)
    requires TowardAt(p.kids, t.kids, v.kids, on, done, grow) && Unique(v)
    requires 0 <= k < |on| && 0 <= i < |on| && i != k && id in Ids(p.kids[k])
    ensures id !in Ids(p.kids[i])
  {
    hide Toward;
    TowardIds(p.kids[k], t.kids[k], v.kids[on[k]], done, grow);
    TowardIds(p.kids[i], t.kids[i], v.kids[on[i]], done, grow);
    assert UniqueAll(v.kids);
    if i < k {
      assert Ids(v.kids[on[i]]) !! Ids(v.kids[on[k]]);
    } else {
      assert Ids(v.kids[on[k]]) !! Ids(v.kids[on[i]]);
    }
  }

  /** With everything visited the tree is the given one, thresholds aside. */
  lemma {:induction false} ArrivesAt(p: Vertex, t: Vertex, v: Vertex, done: set<string>, grow: nat -> nat)
    requires Toward(p, t, v, done, grow) && Cover(v, done, [])
    ensures Copies(p, t)
    decreases v
  {
    if v.kids != [] {
      var at :| TowardAt(p.kids, t.kids, v.kids, at, done, grow);
      forall i | 0 <= i < |at| ensures Copies(p.kids[i], t.kids[i]) {
        ArrivesAt(p.kids[i], t.kids[i], v.kids[at[i]], done, grow);
      }
    }
  }

  /** Some tree so far can still become `t`. */
  ghost predicate Aimed(trees: seq<Vertex>, t: Vertex, v: Vertex, done: set<string>, grow: nat -> nat)
  {
    exists p :: p in trees && Toward(p, t, v, done, grow)
  }

  // ---- breadth first

  function Size(v: Vertex): nat
  {
    1 + SizeAll(v.kids)
  }

  function SizeAll(vs: seq<Vertex>): nat
  {
    if vs == [] then 0 else SizeAll(vs[..|vs| - 1]) + Size(vs[|vs| - 1])
  }

  lemma {:induction false} SizeConcat(a: seq<Vertex>, b: seq<Vertex>)
    ensures SizeAll(a + b) == SizeAll(a) + SizeAll(b)
    decreases |b|
  {
    if b == [] {
      assert a + b == a;
    } else {
      assert (a + b)[..|a + b| - 1] == a + b[..|b| - 1];
      SizeConcat(a, b[..|b| - 1]);
    }
  }

  /** A visit takes one vertex off what is left to visit. */
  lemma SizeVisit(queue: seq<Vertex>)
    requires queue != []
    ensures SizeAll(queue[1..] + queue[0].kids) < SizeAll(queue)
  {
    hide Size;
    SizeConcat(queue[1..], queue[0].kids);
    SizeConcat([queue[0]], queue[1..]);
    assert queue == [queue[0]] + queue[1..];
    SizeOne(queue[0]);
  }

  lemma SizeOne(v: Vertex)
    ensures SizeAll([v]) == 1 + SizeAll(v.kids)
  {
    assert [v][..0] == [];
  }

  /** From the root down: a visited vertex has its descendants covered, one not visited is queued. */
  ghost predicate Cover(v: Vertex, done: set<string>, queue: seq<Vertex>)
  {
    if v.id in done then forall i :: 0 <= i < |v.kids| ==> Cover(v.kids[i], done, queue)
    else v in queue
  }

  /** Nothing queued is visited, and no id is queued twice. */
  ghost predicate QueueOk(queue: seq<Vertex>, done: set<string>)
  {
    UniqueAll(queue) && IdsOf(queue) !! done
  }

  lemma QueueHead(queue: seq<Vertex>, done: set<string>)
    requires QueueOk(queue, done) && queue != []
    ensures Untouched(queue[0], done) && queue[0].id in Ids(queue[0])
    ensures forall v :: v in queue && v != queue[0] ==> Ids(v) !! Ids(queue[0])
  {
    assert Unique(queue[0]);
    forall v | v in queue && v != queue[0] ensures Ids(v) !! Ids(queue[0]) {
      var i :| 0 <= i < |queue| && queue[i] == v;
    }
    assert Ids(queue[0]) <= IdsOf(queue);
  }

  lemma {:induction false} CoverFrontier(v: Vertex, done: set<string>, queue: seq<Vertex>)
    requires Cover(v, done, queue) && QueueOk(queue, done) && queue != []
    ensures Frontier(v, done, queue[0])
  {
    hide QueueOk, Untouched;
    QueueHead(queue, done);
    if v.id in done {
      assert v.id != queue[0].id by { HeadUnvisited(queue, done); }
      forall i | 0 <= i < |v.kids| ensures Frontier(v.kids[i], done, queue[0]) {
        CoverFrontier(v.kids[i], done, queue);
      }
    } else {
      assert v.id in Ids(v);
    }
  }

  lemma HeadUnvisited(queue: seq<Vertex>, done: set<string>)
    requires QueueOk(queue, done) && queue != []
    ensures queue[0].id !in done
    ensures forall i :: 0 <= i < |queue[0].kids| ==> queue[0].kids[i].id !in done + {queue[0].id}
  {
    QueueHead(queue, done);
    forall i | 0 <= i < |queue[0].kids| ensures queue[0].kids[i].id !in done + {queue[0].id} {
      assert queue[0].kids[i].id in Ids(queue[0].kids[i]);
      assert queue[0].kids[i].id in IdsOf(queue[0].kids);
    }
  }

  lemma {:induction false} CoverVisit(v: Vertex, done: set<string>, queue: seq<Vertex>)
    requires Cover(v, done, queue) && QueueOk(queue, done) && queue != []
    ensures Cover(v, done + {queue[0].id}, queue[1..] + queue[0].kids)
  {
    hide QueueOk;
    var w := queue[0];
    if v.id in done {
      forall i | 0 <= i < |v.kids| ensures Cover(v.kids[i], done + {w.id}, queue[1..] + w.kids) {
        CoverVisit(v.kids[i], done, queue);
      }
    } else {
      QueueHead(queue, done);
      HeadUnvisited(queue, done);
      if v != w {
        assert v.id in Ids(v);
        assert v in queue[1..];
      }
    }
  }

  lemma QueueVisit(queue: seq<Vertex>, done: set<string>)
    requires QueueOk(queue, done) && queue != []
    ensures QueueOk(queue[1..] + queue[0].kids, done + {queue[0].id})
  {
    hide Unique, Untouched;
    var w, next := queue[0], queue[1..] + queue[0].kids;
    HeadUnique(queue, done);
    forall i | 0 <= i < |next|
      ensures Unique(next[i]) && Ids(next[i]) <= IdsOf(queue) && w.id !in Ids(next[i])
    {
      QueuedNext(queue, i);
    }
    forall i, j | 0 <= i < j < |next| ensures Ids(next[i]) !! Ids(next[j]) {
      ApartNext(queue, i, j);
    }
  }

  lemma HeadUnique(queue: seq<Vertex>, done: set<string>)
    requires QueueOk(queue, done) && queue != []
    ensures UniqueAll(queue) && UniqueAll(queue[0].kids) && queue[0].id !in IdsOf(queue[0].kids)
  {
    assert Unique(queue[0]);
  }

  lemma QueuedNext(queue: seq<Vertex>, i: nat)
    requires queue != [] && UniqueAll(queue) && UniqueAll(queue[0].kids) && queue[0].id !in IdsOf(queue[0].kids)
    requires i < |queue[1..] + queue[0].kids|
    ensures var x := (queue[1..] + queue[0].kids)[i];
            Unique(x) && Ids(x) <= IdsOf(queue) && queue[0].id !in Ids(x)
  {
    hide Unique;
    var w, next := queue[0], queue[1..] + queue[0].kids;
    if i < |queue| - 1 {
      assert next[i] == queue[i + 1] && Ids(w) !! Ids(queue[i + 1]) && w.id in Ids(w);
    } else {
      assert next[i] == w.kids[i - (|queue| - 1)] && Ids(next[i]) <= IdsOf(w.kids) <= Ids(w) <= IdsOf(queue);
    }
  }

  lemma ApartNext(queue: seq<Vertex>, i: nat, j: nat)
    requires queue != [] && UniqueAll(queue) && UniqueAll(queue[0].kids)
    requires i < j < |queue[1..] + queue[0].kids|
    ensures var next := queue[1..] + queue[0].kids; Ids(next[i]) !! Ids(next[j])
  {
    hide Unique;
    var w, last := queue[0], |queue| - 1;
    if j < last {
      assert Ids(queue[i + 1]) !! Ids(queue[j + 1]);
    } else if i < last {
      assert Ids(w) !! Ids(queue[i + 1]) && Ids(w.kids[j - last]) <= IdsOf(w.kids) <= Ids(w);
    } else {
      assert Ids(w.kids[i - last]) !! Ids(w.kids[j - last]);
    }
  }

  /** With everything visited, a tree expanded where visited fits. */
  lemma {:induction false} AllVisited(tree: Vertex, v: Vertex, done: set<string>, grow: nat -> nat)
    requires Partly(tree, v, done, grow) && Cover(v, done, [])
    ensures FitsBy(tree, v, grow)
    decreases v
  {
    hide Offered;
    if v.kids != [] {
      var at :| PartlyAt(tree.kids, v.kids, at, done, grow);
      forall i | 0 <= i < |at| ensures FitsBy(tree.kids[i], v.kids[at[i]], grow) {
        AllVisited(tree.kids[i], v.kids[at[i]], done, grow);
      }
      assert FitsByAt(tree.kids, v.kids, at, grow);
    }
  }

  /** The trees without w are kept, and those with it are there with every choice offered at w. */
  ghost predicate Expanded(perms: seq<Vertex>, w: Vertex, grow: nat -> nat, r: seq<Vertex>)
    requires Growing(grow) && w.threshold >= 0
  {
    && (forall p :: p in perms && !Exists(p, w.id) ==> p in r)
    && (forall p, at :: p in perms && Exists(p, w.id) && at in Lists(grow, |w.kids|, w.threshold) && Ascending(at, |w.kids|) ==>
          Replace(Clone(p), w.id, Select(w.kids, at)) in r)
  }

  lemma AimedNext(perms: seq<Vertex>, w: Vertex, grow: nat -> nat, r: seq<Vertex>, t: Vertex, top: Vertex, done: set<string>)
    requires Growing(grow) && w.threshold >= 0 && w.kids != [] && Expanded(perms, w, grow, r)
    requires Aimed(perms, t, top, done, grow) && Frontier(top, done, w) && Untouched(w, done) && Unique(top)
    ensures Aimed(r, t, top, done + {w.id}, grow)
  {
    hide Toward, Frontier, Untouched, Unique, Lists, Exists, Ids, Clone, Replace;
    var p :| p in perms && Toward(p, t, top, done, grow);
    ExistsIsId(p, w.id);
    if Exists(p, w.id) {
      CloneToward(p, t, top, done, grow);
      CloneIds(p);
      var at := ExpandToward(Clone(p), t, top, done, w, grow);
      assert Replace(Clone(p), w.id, Select(w.kids, at)) in r;
    } else {
      AbsentToward(p, t, top, done, w, grow);
    }
  }

  lemma CloneIds(p: Vertex)
    ensures Ids(Clone(p)) == Ids(p)
  {
    CopiesItself(p);
    CloneCopies(p, p);
    CopiesIds(Clone(p), p);
  }

  /** The trees that hold a vertex, and the others. */
  method Separate(perms: seq<Vertex>, id: string) returns (with: seq<Vertex>, without: seq<Vertex>)
    ensures |with| + |without| == |perms|
    ensures forall p :: p in with <==> p in perms && Exists(p, id)
    ensures forall p :: p in without <==> p in perms && !Exists(p, id)
  {
    hide Exists;
    with, without := [], [];
    for i := 0 to |perms|
      invariant |with| + |without| == i
      invariant forall p :: p in with <==> p in perms[..i] && Exists(p, id)
      invariant forall p :: p in without <==> p in perms[..i] && !Exists(p, id)
    {
      assert perms[..i + 1] == perms[..i] + [perms[i]];
      if Exists(perms[i], id) {
        with := with + [perms[i]];
      } else {
        without := without + [perms[i]];
      }
    }
    assert perms[..|perms|] == perms;
  }

  /** The tree with each of the choices at w. */
  ghost predicate EachChoice(p: Vertex, w: Vertex, options: seq<seq<int>>, r: seq<Vertex>)
    requires forall s :: s in options ==> Ascending(s, |w.kids|)
  {
    forall s :: s in options ==> Replace(Clone(p), w.id, Select(w.kids, s)) in r
  }

  /** Every tree that holds w, replaced by one for each choice of w's threshold of descendants. */
  method Expand(perms: seq<Vertex>, w: Vertex, grow: nat -> nat, ghost root: Vertex, ghost done: set<string>)
    returns (r: seq<Vertex>)
    requires Growing(grow) && w.kids != [] && w.threshold >= 0
    requires Frontier(root, done, w) && Untouched(w, done)
    requires forall t :: t in perms ==> Partly(t, root, done, grow)
    ensures forall t :: t in r ==> Partly(t, root, done + {w.id}, grow)
    ensures perms != [] && |w.kids| >= w.threshold ==> r != []
    ensures Expanded(perms, w, grow, r)
  {
    hide Partly, Frontier, Untouched, Binomial, Exists, Replace, Clone, Ids, Lists, Ascending;
    var options := ChooseKOutOfN(|w.kids|, w.threshold, grow);
    var with, without := Separate(perms, w.id);
    forall t | t in without ensures Partly(t, root, done + {w.id}, grow) {
      ExistsIsId(t, w.id);
      AbsentPartly(t, root, done, w, grow);
    }
    r := without;
    for i := 0 to |with|
      invariant without <= r && forall t :: t in r ==> Partly(t, root, done + {w.id}, grow)
      invariant forall m :: 0 <= m < i ==> EachChoice(with[m], w, options, r)
    {
      assert with[i] in with;
      var more := ExpandTree(with[i], w, options, grow, root, done);
      r := r + more;
    }
    if |w.kids| >= w.threshold {
      BinomialPositive(|w.kids|, w.threshold);
      if with != [] {
        assert EachChoice(with[0], w, options, r) && options[0] in options;
      }
    }
  }

  /** One tree with each choice at w. */
  method ExpandTree(p: Vertex, w: Vertex, options: seq<seq<int>>, grow: nat -> nat, ghost root: Vertex, ghost done: set<string>)
    returns (r: seq<Vertex>)
    requires Growing(grow) && w.kids != [] && w.threshold >= 0 && options == Lists(grow, |w.kids|, w.threshold)
    requires forall s :: s in options ==> |s| == w.threshold && Ascending(s, |w.kids|)
    requires Frontier(root, done, w) && Untouched(w, done) && Partly(p, root, done, grow)
    ensures forall t :: t in r ==> Partly(t, root, done + {w.id}, grow)
    ensures EachChoice(p, w, options, r)
  {
    hide Partly, Frontier, Untouched, Replace, Clone, Lists, Ascending;
    r := [];
    for j := 0 to |options|
      invariant forall t :: t in r ==> Partly(t, root, done + {w.id}, grow)
      invariant forall m :: 0 <= m < j ==> Replace(Clone(p), w.id, Select(w.kids, options[m])) in r
    {
      assert options[j] in options;
      ClonePartly(p, root, done, grow);
      ReplacePartly(Clone(p), root, done, w, options[j], grow);
      r := r + [Replace(Clone(p), w.id, Select(w.kids, options[j]))];
    }
  }

  /** What is returned is, thresholds aside, exactly the trees that choose at every vertex of the
      pruned tree one of the lists offered there. With a bound of at least one they use only vertices
      and edges of the original, with exactly the threshold of descendants at every vertex kept that
      has descendants in the original, and if every threshold can be reached there is such a tree.
      With a smaller bound no tree returned is such a tree, unless the root is a leaf. */
  method Permute(root: Vertex, bound: int, grow: nat -> nat) returns (r: Option<seq<Vertex>>, ghost top: Vertex)
    requires Unique(root) && Growing(grow)
    ensures r.None? <==> Stuck(root, bound)
    ensures r.Some? ==> Pruned(top, root, bound) && (Small(root, bound) ==> top == root)
    ensures r.Some? ==> Exactly(r.value, top, grow)
    ensures r.Some? && bound >= 1 ==> forall t :: t in r.value ==> Fits(t, root)
    ensures r.Some? && bound >= 1 && Reachable(root) ==> r.value != []
    ensures r.Some? && bound < 1 ==> forall t :: t in r.value ==> (Fits(t, root) <==> root.kids == [])
  {
    hide Pruned, Unique, Fits, Stuck, Small, Exactly;
    top := root;
    var pruned := PruneTree(root, bound);
    if pruned.None? {
      return None, top;
    }
    top := pruned.value;
    PermuteStart(root, top, bound);
    var trees := ExpandAll(pruned.value, grow);
    forall t | t in trees
      ensures (bound >= 1 ==> Fits(t, root)) && (bound < 1 ==> (Fits(t, root) <==> root.kids == []))
    {
      ReturnedFits(trees, t, top, root, bound, grow);
    }
    r := Some(trees);
  }

  lemma ReturnedFits(trees: seq<Vertex>, t: Vertex, top: Vertex, root: Vertex, bound: int, grow: nat -> nat)
    requires Exactly(trees, top, grow) && t in trees && Pruned(top, root, bound) && !Stuck(root, bound)
    ensures bound >= 1 ==> Fits(t, root)
    ensures bound < 1 ==> (Fits(t, root) <==> root.kids == [])
  {
    hide Pruned, Fits, FitsBy, Stuck, Copies;
    FitsByFits(t, top, grow);
    if bound >= 1 {
      FitsPruned(t, top, root, bound);
    } else {
      FitsNoMore(t, top, root, bound);
    }
  }

  /** These are the trees that choose one of the lists offered at every vertex, thresholds aside. */
  ghost predicate Exactly(trees: seq<Vertex>, top: Vertex, grow: nat -> nat)
  {
    && (forall t :: t in trees ==> FitsBy(t, top, grow))
    && (forall t :: FitsBy(t, top, grow) ==> exists p :: p in trees && Copies(p, t))
  }

  /** The second pass, over the pruned tree. */
  method ExpandAll(top: Vertex, grow: nat -> nat) returns (trees: seq<Vertex>)
    requires Unique(top) && Growing(grow) && Asked(top)
    ensures Exactly(trees, top, grow)
    ensures Reachable(top) ==> trees != []
  {
    hide Partly, Unique, Cover, QueueOk, Frontier, Untouched, FitsBy, Toward, Copies;
    trees := [top];
    var queue := [top];
    ghost var done: set<string> := {};
    ExpandStart(top, grow);
    while queue != []
      invariant Cover(top, done, queue) && QueueOk(queue, done)
      invariant forall t :: t in trees ==> Partly(t, top, done, grow)
      invariant Reachable(top) ==> trees != [] && forall q :: q in queue ==> Reachable(q)
      invariant forall q :: q in queue ==> Asked(q)
      invariant forall t :: FitsBy(t, top, grow) ==> Aimed(trees, t, top, done, grow)
      decreases SizeAll(queue)
    {
      var v := queue[0];
      assert v in queue && Asked(v);
      QueueHead(queue, done);
      CoverFrontier(top, done, queue);
      CoverVisit(top, done, queue);
      QueueVisit(queue, done);
      SizeVisit(queue);
      if v.kids != [] {
        ghost var perms := trees;
        trees := Expand(trees, v, grow, top, done);
        forall t | FitsBy(t, top, grow) ensures Aimed(trees, t, top, done + {v.id}, grow) {
          AimedNext(perms, v, grow, trees, t, top, done);
        }
      } else {
        forall t | t in trees ensures Partly(t, top, done + {v.id}, grow) {
          AbsentPartly(t, top, done, v, grow);
        }
        forall t | FitsBy(t, top, grow) ensures Aimed(trees, t, top, done + {v.id}, grow) {
          AimedLeaf(trees, v, grow, t, top, done);
        }
      }
      done := done + {v.id};
      queue := queue[1..] + v.kids;
    }
    forall t | t in trees ensures FitsBy(t, top, grow) {
      AllVisited(t, top, done, grow);
    }
    forall t | FitsBy(t, top, grow) ensures exists r :: r in trees && Copies(r, t) {
      var p :| p in trees && Toward(p, t, top, done, grow);
      ArrivesAt(p, t, top, done, grow);
    }
  }

  lemma AimedLeaf(trees: seq<Vertex>, w: Vertex, grow: nat -> nat, t: Vertex, top: Vertex, done: set<string>)
    requires w.kids == [] && Aimed(trees, t, top, done, grow) && Frontier(top, done, w)
    ensures Aimed(trees, t, top, done + {w.id}, grow)
  {
    hide Toward, Frontier;
    var p :| p in trees && Toward(p, t, top, done, grow);
    AbsentToward(p, t, top, done, w, grow);
  }

  lemma ExpandStart(top: Vertex, grow: nat -> nat)
    requires Unique(top)
    ensures Cover(top, {}, [top]) && QueueOk([top], {}) && Partly(top, top, {}, grow)
    ensures forall t :: FitsBy(t, top, grow) ==> Aimed([top], t, top, {}, grow)
  {
    hide Unique, Copies, FitsBy;
    CopiesItself(top);
  }

  lemma PermuteStart(root: Vertex, top: Vertex, bound: int)
    requires Unique(root) && Pruned(top, root, bound) && !Stuck(root, bound)
    ensures Unique(top) && Asked(top) && (bound >= 1 && Reachable(root) ==> Reachable(top))
  {
    hide Pruned, Unique, Stuck;
    PrunedUnique(top, root, bound);
    PrunedAsked(top, root, bound);
    if bound >= 1 && Reachable(root) {
      PrunedReachable(top, root, bound);
    }
  }

  /** Pruned below its threshold, an inner root keeps too few descendants for any tree to fit. */
  lemma FitsNoMore(tree: Vertex, top: Vertex, root: Vertex, bound: int)
    requires bound < 1 && Pruned(top, root, bound) && Fits(tree, top) && !Stuck(root, bound)
    ensures Fits(tree, root) <==> root.kids == []
  {
    if top.kids != [] {
      var at :| FitsAt(tree.kids, top.kids, at);
      Crowded(at, 0, |top.kids|);
    }
    var kept :| PrunedAt(top.kids, root.kids, kept, bound);
    Crowded(kept, 0, |root.kids|);
  }
}
