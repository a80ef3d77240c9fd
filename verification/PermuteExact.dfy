/** When expanding a threshold tree (common/graph/perm.go, choose.go) gives every tree that the
    thresholds allow: exactly when no vertex that such a tree can hold loses a choice to shared
    storage. */
module PermuteExact {
  import opened Combinations
  import opened Permutations

  /** Some tree fits: enough descendants have one. */
  predicate Fittable(v: Vertex)
  {
    v.kids == [] || 0 <= v.threshold <= |Places(v.kids)|
  }

  /** The places of the descendants that some tree fits. */
  function Places(vs: seq<Vertex>): (at: seq<int>)
    ensures Ascending(at, |vs|)
    ensures forall i :: i in at <==> 0 <= i < |vs| && Fittable(vs[i])
  {
    if vs == [] then []
    else
      var last := |vs| - 1;
      var before := Places(vs[..last]);
      assert forall i :: 0 <= i < last ==> vs[..last][i] == vs[i];
      if Fittable(vs[last]) then before + [last] else before
  }

  lemma NotTheLast(all: seq<int>, n: nat, i: int)
    requires Ascending(all, n) && i in all
    ensures i in all[..|all| - 1] || i == all[|all| - 1]
    ensures i <= all[|all| - 1]
  {
    var k :| 0 <= k < |all| && all[k] == i;
    assert k < |all| - 1 ==> all[..|all| - 1][k] == i;
  }

  lemma WithoutLast(at: seq<int>, all: seq<int>, n: nat)
    requires Ascending(at, n) && Ascending(all, n) && at != [] && forall k :: 0 <= k < |at| ==> at[k] in all
    ensures all != [] && forall k :: 0 <= k < |at| - 1 ==> at[k] in all[..|all| - 1]
    ensures at[|at| - 1] in all[..|all| - 1] || at[|at| - 1] == all[|all| - 1]
  {
    var last := |at| - 1;
    NotTheLast(all, n, at[last]);
    forall k | 0 <= k < last ensures at[k] in all[..|all| - 1] {
      NotTheLast(all, n, at[k]);
    }
  }

  /** Ascending numbers that are all in another ascending list are no more than that, and as many only if
      they are that list. */
  lemma {:induction false} Among(at: seq<int>, all: seq<int>, n: nat)
    requires Ascending(at, n) && Ascending(all, n) && forall k :: 0 <= k < |at| ==> at[k] in all
    ensures |at| <= |all| && (|at| == |all| ==> at == all)
    decreases |all|
  {
    if at != [] {
      WithoutLast(at, all, n);
      var last, rest := |at| - 1, all[..|all| - 1];
      if at[last] in rest {
        Among(at, rest, n);
      } else {
        Among(at[..last], rest, n);
        assert at == at[..last] + [at[last]] && all == rest + [all[|all| - 1]];
      }
    }
  }

  lemma {:induction false} FitsIsFittable(tree: Vertex, v: Vertex)
    requires Fits(tree, v)
    ensures Fittable(v)
    decreases v
  {
    if v.kids != [] {
      var at :| FitsAt(tree.kids, v.kids, at);
      ChosenAreFittable(tree.kids, v.kids, at);
    }
  }

  lemma {:induction false} ChosenAreFittable(trees: seq<Vertex>, vs: seq<Vertex>, at: seq<int>)
    requires FitsAt(trees, vs, at)
    ensures |at| <= |Places(vs)| && (|at| == |Places(vs)| ==> at == Places(vs))
    ensures forall i :: 0 <= i < |at| ==> at[i] in Places(vs)
    decreases vs
  {
    forall i | 0 <= i < |at| ensures at[i] in Places(vs) {
      FitsIsFittable(trees[i], vs[at[i]]);
    }
    Among(at, Places(vs), |vs|);
  }

  /** No choice that a fitting tree makes is lost. A vertex that no tree fits makes none, one whose
      threshold is zero the empty one. Otherwise the last append takes a new array, or there is one
      choice only, and it ends as the lists that share an array do. */
  ghost predicate NothingLost(v: Vertex, grow: nat -> nat)
  {
    Fittable(v) && v.kids != [] ==>
      && (Tight(grow, v.threshold) || OnlyChoice(v, grow))
      && (v.threshold > 0 ==> forall i :: 0 <= i < |v.kids| && Fittable(v.kids[i]) ==> NothingLost(v.kids[i], grow))
  }

  ghost predicate OnlyChoice(v: Vertex, grow: nat -> nat)
  {
    var at := Places(v.kids);
    |at| == v.threshold && at[Base(grow, |at|)..] == Run(|v.kids|, |at| - Base(grow, |at|))
  }

  /** Where no choice is lost, a tree that fits is one of the trees returned. */
  lemma {:induction false} AllOffered(tree: Vertex, v: Vertex, grow: nat -> nat)
    requires Growing(grow) && NothingLost(v, grow) && Fits(tree, v)
    ensures FitsBy(tree, v, grow)
    decreases v
  {
    hide Tight, Lists, Base, Run;
    FitsIsFittable(tree, v);
    if v.kids != [] {
      var at :| FitsAt(tree.kids, v.kids, at);
      ChosenAreFittable(tree.kids, v.kids, at);
      forall i | 0 <= i < |at| ensures FitsBy(tree.kids[i], v.kids[at[i]], grow) {
        AllOffered(tree.kids[i], v.kids[at[i]], grow);
      }
      ChoiceOffered(v, at, grow);
      assert FitsByAt(tree.kids, v.kids, at, grow);
    }
  }

  lemma ChoiceOffered(v: Vertex, at: seq<int>, grow: nat -> nat)
    requires Growing(grow) && |at| == v.threshold && Ascending(at, |v.kids|)
    requires |at| == |Places(v.kids)| ==> at == Places(v.kids)
    requires Tight(grow, v.threshold) || OnlyChoice(v, grow)
    ensures Offered(grow, |v.kids|, at)
  {
    hide Tight, Lists, Places;
    if Tight(grow, v.threshold) {
      ListsExact(grow, |v.kids|, v.threshold);
    } else {
      ListsAre(grow, |v.kids|, v.threshold, at);
    }
  }

  /** A tree for each of the places. */
  lemma {:induction false} FitAll(vs: seq<Vertex>, at: seq<int>, m: nat) returns (trees: seq<Vertex>)
    requires Ascending(at, |vs|) && m <= |at| && forall i :: i in at ==> i in Places(vs)
    ensures |trees| == m && forall i :: 0 <= i < m ==> Fits(trees[i], vs[at[i]])
    decreases vs, 1, m
  {
    hide Fits, Fittable;
    if m == 0 {
      trees := [];
    } else {
      var before := FitAll(vs, at, m - 1);
      assert at[m - 1] in at;
      var last := FitOne(vs[at[m - 1]]);
      trees := before + [last];
    }
  }

  lemma {:induction false} FitOne(v: Vertex) returns (tree: Vertex)
    requires Fittable(v)
    ensures Fits(tree, v)
    decreases v, 0
  {
    if v.kids == [] {
      tree := v;
    } else {
      var at := Places(v.kids)[..v.threshold];
      var kids := FitAll(v.kids, at, |at|);
      tree := v.(kids := kids);
      assert FitsAt(kids, v.kids, at);
    }
  }

  lemma Chosen(tree: Vertex, v: Vertex, grow: nat -> nat) returns (at: seq<int>)
    requires FitsBy(tree, v, grow) && v.kids != []
    ensures FitsByAt(tree.kids, v.kids, at, grow)
  {
    at :| FitsByAt(tree.kids, v.kids, at, grow);
  }

  /** Vertices with different ids tell the places of the chosen ones. */
  lemma SamePlaces(trees: seq<Vertex>, vs: seq<Vertex>, at: seq<int>, at': seq<int>, grow: nat -> nat)
    requires FitsAt(trees, vs, at) && FitsByAt(trees, vs, at', grow) && UniqueAll(vs)
    ensures at == at'
  {
    hide Offered, Unique;
    forall i | 0 <= i < |at| ensures at[i] == at'[i] {
      assert Fits(trees[i], vs[at[i]]) && FitsBy(trees[i], vs[at'[i]], grow);
      assert vs[at[i]].id in Ids(vs[at[i]]) && vs[at'[i]].id in Ids(vs[at'[i]]);
    }
  }

  /** A choice that is not offered, or a lost choice further down, gives a tree that is not returned. */
  lemma {:induction false} SomeLost(v: Vertex, grow: nat -> nat) returns (tree: Vertex)
    requires Growing(grow) && Unique(v) && !NothingLost(v, grow)
    ensures Fits(tree, v) && !FitsBy(tree, v, grow)
    decreases v
  {
    hide Tight, Lists, Fits, FitsBy, Unique, OnlyChoice, Places;
    UniqueKids(v);
    var k := v.threshold;
    if !Tight(grow, k) && !OnlyChoice(v, grow) {
      var at := LostChoice(v, grow);
      var kids := FitAll(v.kids, at, k);
      tree := v.(kids := kids);
      NotOffered(tree, v, at, grow);
    } else {
      var i :| 0 <= i < |v.kids| && Fittable(v.kids[i]) && !NothingLost(v.kids[i], grow);
      var lost := SomeLost(v.kids[i], grow);
      var at, j := Around(Places(v.kids), |v.kids|, k, i);
      var kids := FitAll(v.kids, at, k);
      tree := v.(kids := kids[j := lost]);
      LostBelow(tree, v, at, j, grow);
    }
  }

  /** Of the descendants that some tree fits, a choice that is not offered: all of them, or the first. */
  lemma LostChoice(v: Vertex, grow: nat -> nat) returns (at: seq<int>)
    requires Growing(grow) && v.kids != [] && Fittable(v) && !Tight(grow, v.threshold) && !OnlyChoice(v, grow)
    ensures |at| == v.threshold && Ascending(at, |v.kids|) && (forall i :: i in at ==> i in Places(v.kids))
    ensures !Offered(grow, |v.kids|, at)
  {
    hide Lists, CapAt, Places;
    var n, k, all := |v.kids|, v.threshold, Places(v.kids);
    at := all[..k];
    BaseRoom(grow, k);
    ListsAre(grow, n, k, at);
    if |all| == k {
      assert at == all;
    } else {
      assert all[k - 1] < all[k] < n;
      NotLast(at, Base(grow, k), n);
    }
  }

  lemma NotLast(at: seq<int>, b: nat, n: nat)
    requires b < |at| && at[|at| - 1] != n - 1
    ensures at[b..] != Run(n, |at| - b)
  {
    assert at[b..][|at| - b - 1] == at[|at| - 1] && Run(n, |at| - b)[|at| - b - 1] == n - 1;
  }

  /** Of an ascending list, k next to each other, one of them i. */
  lemma Around(all: seq<int>, n: nat, k: nat, i: int) returns (at: seq<int>, j: nat)
    requires Ascending(all, n) && i in all && 0 < k <= |all|
    ensures |at| == k && Ascending(at, n) && (forall x :: x in at ==> x in all) && j < k && at[j] == i
  {
    var m :| 0 <= m < |all| && all[m] == i;
    var start := if m <= |all| - k then m else |all| - k;
    at, j := all[start..start + k], m - start;
  }

  lemma UniqueKids(v: Vertex)
    requires Unique(v)
    ensures UniqueAll(v.kids) && forall i :: 0 <= i < |v.kids| ==> Unique(v.kids[i])
  {
  }

  lemma NotOffered(tree: Vertex, v: Vertex, at: seq<int>, grow: nat -> nat)
    requires tree.id == v.id && tree.data == v.data && v.kids != [] && |tree.kids| == v.threshold
    requires FitsAt(tree.kids, v.kids, at) && UniqueAll(v.kids) && !Offered(grow, |v.kids|, at)
    ensures Fits(tree, v) && !FitsBy(tree, v, grow)
  {
    hide Offered, UniqueAll;
    if FitsBy(tree, v, grow) {
      var at' := Chosen(tree, v, grow);
      SamePlaces(tree.kids, v.kids, at, at', grow);
    }
  }

  lemma LostBelow(tree: Vertex, v: Vertex, at: seq<int>, j: nat, grow: nat -> nat)
    requires tree.id == v.id && tree.data == v.data && v.kids != [] && |tree.kids| == v.threshold
    requires FitsAt(tree.kids, v.kids, at) && UniqueAll(v.kids) && j < |at| && !FitsBy(tree.kids[j], v.kids[at[j]], grow)
    ensures Fits(tree, v) && !FitsBy(tree, v, grow)
  {
    hide Offered, UniqueAll;
    if FitsBy(tree, v, grow) {
      var at' := Chosen(tree, v, grow);
      SamePlaces(tree.kids, v.kids, at, at', grow);
    }
  }

  /** For a tree with different ids: every tree that fits is one that Permute returns if and only if no
      choice is lost. */
  lemma FittingIsOffered(v: Vertex, grow: nat -> nat)
    requires Growing(grow) && Unique(v)
    ensures (forall t :: Fits(t, v) ==> FitsBy(t, v, grow)) <==> NothingLost(v, grow)
  {
    hide Fits, FitsBy, NothingLost, Unique;
    if NothingLost(v, grow) {
      forall t | Fits(t, v) ensures FitsBy(t, v, grow) {
        AllOffered(t, v, grow);
      }
    } else {
      var t := SomeLost(v, grow);
    }
  }
}
