/**
 The staged-package walker of `src/staged_pkg.rs`: a depth-limited walk that keeps going after
 errors and returns a list of packages together with a map of results in which one package can
 be both listed and in error.
 */
module StagedPackages {
  import opened Names
  import opened Ordering

  datatype Error =
    | NotFound(name: PackageName)
    | Recursion(trail: seq<PackageName>)
    | DependencyInvalid(name: PackageName)
  {
    function AppendRecursion(name: PackageName): Error {
      match this
      case Recursion(trail) => Recursion(trail + [name])
      case _ => this
    }
  }

  datatype Entry = Good | Bad(error: Error)

  /** The staged packages that can be read, with their dependencies; a package carries the name asked for. */
  type Stage = map<PackageName, seq<PackageName>>

  /** The list of packages and the map of results. */
  datatype Walked = Walked(list: seq<PackageName>, results: map<PackageName, Entry>)

  // ---- The walk as a function ----

  function MergeListed(acc: Walked, list: seq<PackageName>): Walked
    decreases |list|
  {
    if list == [] then acc
    else
      var before := MergeListed(acc, list[..|list| - 1]);
      var x := list[|list| - 1];
      if x in before.results then before else Walked(before.list + [x], before.results[x := Good])
  }

  function MergeErrors(acc: Walked, results: map<PackageName, Entry>, name: PackageName): Walked {
    acc.(results := (map k | k in results && results[k].Bad? :: Bad(results[k].error.AppendRecursion(name)))
                    + acc.results)
  }

  predicate HasErrors(results: map<PackageName, Entry>) {
    exists k :: k in results && results[k].Bad?
  }

  function Walk(stage: Stage, names: seq<PackageName>, recursion: nat): Walked
    decreases recursion, |names|
  {
    if names == [] then Walked([], map[])
    else
      var acc := Walk(stage, names[..|names| - 1], recursion);
      Visit(stage, names[|names| - 1], recursion, acc)
  }

  function Visit(stage: Stage, name: PackageName, recursion: nat, acc: Walked): Walked
    decreases recursion, 0
  {
    if name in acc.results then acc
    else if recursion == 0 then acc.(results := acc.results[name := Bad(Recursion([]))])
    else if name !in stage then acc.(results := acc.results[name := Bad(NotFound(name))])
    else
      Absorb(name, acc, Walk(stage, stage[name], recursion - 1))
  }

  /** Take over what the walk of `name`'s dependencies found, then record `name`. */
  function Absorb(name: PackageName, acc: Walked, inner: Walked): Walked {
    Finish(name, MergeErrors(MergeListed(acc, inner.list), inner.results, name), HasErrors(inner.results))
  }

  /** The package itself goes last, unless its own walk already recorded its name. */
  function Finish(name: PackageName, acc: Walked, invalid: bool): Walked {
    if name in acc.results then acc
    else Walked(acc.list + [name], acc.results[name := if invalid then Bad(DependencyInvalid(name)) else Good])
  }

  // ---- Well-formed results ----

  /** Each name once; listed names are keys; a key that is not listed is an error. */
  ghost predicate Booked(stage: Stage, w: Walked) {
    && Distinct(w.list)
    && (forall x :: x in w.list ==> x in w.results && x in stage)
    && (forall k :: k in w.results && k !in w.list ==> w.results[k].Bad?)
  }

  ghost predicate OrderedAt(stage: Stage, list: seq<PackageName>, k: nat)
    requires k < |list| && list[k] in stage
  {
    forall d :: d in stage[list[k]] && d in list ==> d in list[..k]
  }

  /** A dependency that is itself listed comes strictly earlier. */
  ghost predicate Ordered(stage: Stage, list: seq<PackageName>)
    requires forall x :: x in list ==> x in stage
  {
    forall k :: 0 <= k < |list| ==> OrderedAt(stage, list, k)
  }

  /** The dependencies of every listed package are keys. */
  ghost predicate Keyed(stage: Stage, w: Walked)
    requires forall x :: x in w.list ==> x in stage
  {
    forall x, d :: x in w.list && d in stage[x] ==> d in w.results
  }

  ghost predicate WellFormed(stage: Stage, w: Walked) {
    Booked(stage, w) && Ordered(stage, w.list) && Keyed(stage, w)
  }

  lemma AppendOrdered(stage: Stage, list: seq<PackageName>, x: PackageName)
    requires (forall y :: y in list ==> y in stage) && x in stage
    requires Ordered(stage, list) && x !in list && x !in stage[x]
    requires forall y :: y in list ==> x !in stage[y]
    ensures forall y :: y in list + [x] ==> y in stage
    ensures Ordered(stage, list + [x])
  {
    var longer := list + [x];
    forall k | 0 <= k < |longer| ensures OrderedAt(stage, longer, k) {
      assert longer[..k] == list[..k];
      if k < |list| {
        assert OrderedAt(stage, list, k);
        assert list[k] in list;
      } else {
        assert list[..k] == list;
      }
    }
  }

  /** Where the merge of a well-formed list into a well-formed walk has got to. */
  ghost predicate MergedUpTo(stage: Stage, acc: Walked, inner: Walked, j: nat, w: Walked)
    requires WellFormed(stage, acc) && WellFormed(stage, inner) && j <= |inner.list|
  {
    && Booked(stage, w) && Ordered(stage, w.list)
    && w.results.Keys == acc.results.Keys + (set x | x in inner.list[..j])
    && (forall x :: x in w.list ==> x in acc.list || x in inner.list[..j])
    && (forall x :: x in acc.list ==> x in w.list)
  }

  /** Nothing merged so far, nor the next package itself, depends on the next package. */
  lemma NextIsNew(stage: Stage, acc: Walked, inner: Walked, j: nat, w: Walked)
    requires WellFormed(stage, acc) && WellFormed(stage, inner) && j < |inner.list|
    requires MergedUpTo(stage, acc, inner, j, w) && inner.list[j] !in w.results
    ensures forall y :: y in w.list ==> inner.list[j] !in stage[y]
    ensures inner.list[j] !in stage[inner.list[j]]
  {
    var x := inner.list[j];
    assert OrderedAt(stage, inner.list, j);
    forall y | y in w.list ensures x !in stage[y] {
      if y !in acc.list {
        var i :| 0 <= i < j && inner.list[i] == y;
        assert OrderedAt(stage, inner.list, i);
      }
    }
  }

  lemma MergeOneMore(stage: Stage, acc: Walked, inner: Walked, j: nat, w: Walked)
    requires WellFormed(stage, acc) && WellFormed(stage, inner) && j < |inner.list|
    requires MergedUpTo(stage, acc, inner, j, w)
    ensures var x := inner.list[j];
      MergedUpTo(stage, acc, inner, j + 1,
                 if x in w.results then w else Walked(w.list + [x], w.results[x := Good]))
  {
    var x := inner.list[j];
    assert inner.list[..j + 1] == inner.list[..j] + [x];
    if x !in w.results {
      NextIsNew(stage, acc, inner, j, w);
      AppendOrdered(stage, w.list, x);
    }
  }

  /** Merging a well-formed list into a well-formed walk keeps everything but `Keyed`. */
  lemma {:induction false} MergeListedKeeps(stage: Stage, acc: Walked, inner: Walked, j: nat)
    requires WellFormed(stage, acc) && WellFormed(stage, inner) && j <= |inner.list|
    ensures MergedUpTo(stage, acc, inner, j, MergeListed(acc, inner.list[..j]))
    decreases j
  {
    if j == 0 {
      assert inner.list[..0] == [];
    } else {
      MergeListedKeeps(stage, acc, inner, j - 1);
      assert inner.list[..j][..j - 1] == inner.list[..j - 1];
      MergeOneMore(stage, acc, inner, j - 1, MergeListed(acc, inner.list[..j - 1]));
    }
  }

  lemma FinishKeeps(stage: Stage, name: PackageName, w: Walked, invalid: bool)
    requires WellFormed(stage, w) && name in stage
    requires forall d :: d in stage[name] ==> d in w.results
    ensures WellFormed(stage, Finish(name, w, invalid))
  {
    if name !in w.results {
      AppendOrdered(stage, w.list, name);
    }
  }

  lemma VisitKeeps(stage: Stage, name: PackageName, acc: Walked, inner: Walked)
    requires WellFormed(stage, acc) && name !in acc.results && name in stage && WellFormed(stage, inner)
    requires forall d :: d in stage[name] ==> d in inner.results
    ensures WellFormed(stage, Absorb(name, acc, inner))
  {
    assert inner.list[..|inner.list|] == inner.list;
    MergeListedKeeps(stage, acc, inner, |inner.list|);
    var merged := MergeErrors(MergeListed(acc, inner.list), inner.results, name);
    assert forall k :: k in inner.results ==> k in merged.results;
    FinishKeeps(stage, name, merged, HasErrors(inner.results));
  }

  lemma {:induction false} WalkIsWellFormed(stage: Stage, names: seq<PackageName>, recursion: nat)
    ensures WellFormed(stage, Walk(stage, names, recursion))
    ensures forall n :: n in names ==> n in Walk(stage, names, recursion).results
    decreases recursion, |names|
  {
    if names != [] {
      var k := |names| - 1;
      WalkIsWellFormed(stage, names[..k], recursion);
      var acc := Walk(stage, names[..k], recursion);
      var name := names[k];
      if name !in acc.results && recursion > 0 && name in stage {
        WalkIsWellFormed(stage, stage[name], recursion - 1);
        VisitKeeps(stage, name, acc, Walk(stage, stage[name], recursion - 1));
        VisitKeepsKeys(stage, name, recursion, acc);
      }
      assert names == names[..k] + [name];
    }
  }

  lemma {:induction false} MergeListedKeys(acc: Walked, list: seq<PackageName>)
    ensures MergeListed(acc, list).results.Keys == acc.results.Keys + set x | x in list
    decreases |list|
  {
    if list != [] {
      MergeListedKeys(acc, list[..|list| - 1]);
      assert list == list[..|list| - 1] + [list[|list| - 1]];
    }
  }

  lemma VisitKeepsKeys(stage: Stage, name: PackageName, recursion: nat, acc: Walked)
    ensures acc.results.Keys <= Visit(stage, name, recursion, acc).results.Keys
    ensures name in Visit(stage, name, recursion, acc).results
  {
    if name !in acc.results && recursion > 0 && name in stage {
      MergeListedKeys(acc, Walk(stage, stage[name], recursion - 1).list);
    }
  }

  // ---- Paths ----

  ghost predicate Link(stage: Stage, p: seq<PackageName>, k: nat)
    requires k + 1 < |p|
  {
    p[k] in stage && p[k + 1] in stage[p[k]]
  }

  ghost predicate PathFrom(stage: Stage, names: seq<PackageName>, p: seq<PackageName>) {
    |p| > 0 && p[0] in names && forall k :: 0 <= k < |p| - 1 ==> Link(stage, p, k)
  }

  ghost predicate Reachable(stage: Stage, names: seq<PackageName>, x: PackageName) {
    exists p :: PathFrom(stage, names, p) && p[|p| - 1] == x
  }

  lemma PathPrepend(stage: Stage, names: seq<PackageName>, n: PackageName, p: seq<PackageName>)
    requires n in names && n in stage && PathFrom(stage, stage[n], p)
    ensures PathFrom(stage, names, [n] + p)
  {
    var q := [n] + p;
    forall k | 0 <= k < |q| - 1 ensures Link(stage, q, k) {
      if k > 0 {
        assert Link(stage, p, k - 1);
      }
    }
  }

  lemma AbsorbKeys(stage: Stage, name: PackageName, acc: Walked, inner: Walked)
    requires WellFormed(stage, inner)
    ensures Absorb(name, acc, inner).results.Keys == acc.results.Keys + inner.results.Keys + {name}
  {
    MergeListedKeys(acc, inner.list);
  }

  lemma NewKeyComesFromWithin(stage: Stage, name: PackageName, recursion: nat, acc: Walked, x: PackageName)
    requires x in Visit(stage, name, recursion, acc).results && x !in acc.results && x != name
    ensures recursion > 0 && name in stage && x in Walk(stage, stage[name], recursion - 1).results
  {
    if recursion > 0 && name in stage {
      WalkIsWellFormed(stage, stage[name], recursion - 1);
      AbsorbKeys(stage, name, acc, Walk(stage, stage[name], recursion - 1));
    }
  }

  /** Only reachable names are ever recorded. */
  lemma {:induction false} KeyHasPath(stage: Stage, names: seq<PackageName>, recursion: nat, x: PackageName)
    returns (p: seq<PackageName>)
    requires x in Walk(stage, names, recursion).results
    ensures PathFrom(stage, names, p) && p[|p| - 1] == x
    decreases recursion, |names|
  {
    var k := |names| - 1;
    var acc := Walk(stage, names[..k], recursion);
    if x in acc.results {
      p := KeyHasPath(stage, names[..k], recursion, x);
    } else if x == names[k] {
      p := [x];
      assert PathFrom(stage, names, p);
    } else {
      NewKeyComesFromWithin(stage, names[k], recursion, acc, x);
      var rest := KeyHasPath(stage, stage[names[k]], recursion - 1, x);
      PathPrepend(stage, names, names[k], rest);
      p := [names[k]] + rest;
    }
  }

  // ---- `new_recursive`: the strict and the nonstop answer ----

  /** The list `new_recursive` returns, or nothing when it returns an error. */
  function Accepted(stage: Stage, names: seq<PackageName>, nonstop: bool, recursion: nat): Option<seq<PackageName>> {
    if names == [] then Some([])
    else
      var w := Walk(stage, names, recursion);
      if nonstop && |w.list| > 0 then Some(w.list)
      else if !nonstop && |w.results| == |w.list| then Some(w.list)
      else None
  }

  lemma {:induction false} DistinctCount(s: seq<PackageName>)
    requires Distinct(s)
    ensures |set x | x in s| == |s|
    decreases |s|
  {
    if s != [] {
      var k := |s| - 1;
      DistinctCount(s[..k]);
      assert (set x | x in s) == (set x | x in s[..k]) + {s[k]};
    }
  }

  lemma SubsetOfSameSize(a: set<PackageName>, b: set<PackageName>)
    requires a <= b && |a| == |b|
    ensures a == b
  {
    assert b == a + (b - a);
  }

  /** When the counts agree, every recorded name is listed. */
  lemma CountsAgree(stage: Stage, w: Walked)
    requires WellFormed(stage, w)
    ensures |w.list| <= |w.results|
    ensures |w.results| == |w.list| <==> forall k :: k in w.results ==> k in w.list
  {
    DistinctCount(w.list);
    var listed := set x | x in w.list;
    assert listed <= w.results.Keys;
    assert |w.results.Keys| == |listed| + |w.results.Keys - listed|;
    if |w.results| == |w.list| {
      SubsetOfSameSize(listed, w.results.Keys);
    }
  }

  /** Every dependency of every listed package is listed strictly before it. */
  ghost predicate ClosedAndOrdered(stage: Stage, list: seq<PackageName>) {
    forall k, d :: 0 <= k < |list| && list[k] in stage && d in stage[list[k]] ==> d in list[..k]
  }

  lemma {:induction false} PathStaysListed(stage: Stage, names: seq<PackageName>, list: seq<PackageName>,
                                           p: seq<PackageName>)
    requires PathFrom(stage, names, p) && ClosedAndOrdered(stage, list)
    requires forall n :: n in names ==> n in list
    ensures p[|p| - 1] in list
    decreases |p|
  {
    var k := |p| - 1;
    if k > 0 {
      forall j | 0 <= j < k - 1 ensures Link(stage, p[..k], j) {
        assert Link(stage, p, j);
      }
      PathStaysListed(stage, names, list, p[..k]);
      assert Link(stage, p, k - 1);
      var i :| 0 <= i < |list| && list[i] == p[k - 1];
      assert p[k] in list[..i];
    }
  }

  /**
   Strict mode returns a list only if it is complete: without duplicates, exactly what is
   reachable from the requested names, every package readable, and every dependency strictly
   before its dependents (so what is reachable has no cycle).
   */
  lemma {:induction false} StrictListsAreClosed(stage: Stage, names: seq<PackageName>, recursion: nat)
    requires Accepted(stage, names, false, recursion).Some?
    ensures var list := Accepted(stage, names, false, recursion).value;
      && Distinct(list) && ClosedAndOrdered(stage, list)
      && (forall x :: x in list ==> x in stage)
      && (forall x :: x in list <==> Reachable(stage, names, x))
  {
    var list := Accepted(stage, names, false, recursion).value;
    var w := Walk(stage, names, recursion);
    WalkIsWellFormed(stage, names, recursion);
    CountsAgree(stage, w);
    assert w.list == list;
    forall k, d | 0 <= k < |list| && list[k] in stage && d in stage[list[k]]
      ensures d in list[..k]
    {
      assert OrderedAt(stage, list, k);
      assert list[k] in list;
    }
    forall x ensures x in list <==> Reachable(stage, names, x) {
      if x in list {
        var p := KeyHasPath(stage, names, recursion, x);
      } else if p :| PathFrom(stage, names, p) && p[|p| - 1] == x {
        PathStaysListed(stage, names, list, p);
      }
    }
  }

  /** Every reachable name can be read and no dependency path has more than `recursion` names. */
  ghost predicate Bounded(stage: Stage, names: seq<PackageName>, recursion: nat) {
    forall p :: PathFrom(stage, names, p) ==> |p| <= recursion && p[|p| - 1] in stage
  }

  // ---- Exactly when strict mode accepts ----

  ghost predicate Reaches(stage: Stage, n: PackageName, x: PackageName) { Reachable(stage, [n], x) }

  /** The first of `names` that reaches `x` is number `i`. */
  ghost predicate FirstToReach(stage: Stage, names: seq<PackageName>, i: nat, x: PackageName) {
    i < |names| && Reaches(stage, names[i], x) && forall j :: 0 <= j < i ==> !Reaches(stage, names[j], x)
  }

  /**
   Following, level by level, only the first name that reaches `x` uses up all `recursion` levels.
   This looks at the dependency graph alone: no later name can make up for the first one.
   */
  ghost predicate TooDeep(stage: Stage, names: seq<PackageName>, x: PackageName, recursion: nat)
    decreases recursion
  {
    exists i: nat :: FirstToReach(stage, names, i, x)
                     && (recursion == 0
                         || (names[i] in stage && TooDeep(stage, stage[names[i]], x, recursion - 1)))
  }

  lemma PathConcat(stage: Stage, names: seq<PackageName>, p: seq<PackageName>, q: seq<PackageName>)
    requires PathFrom(stage, names, p) && PathFrom(stage, [p[|p| - 1]], q)
    ensures PathFrom(stage, names, p + q[1..]) && (p + q[1..])[|p + q[1..]| - 1] == q[|q| - 1]
  {
    var r, m := p + q[1..], |p| - 1;
    assert forall k :: 0 <= k < |q| ==> r[m + k] == q[k];
    forall k | 0 <= k < |r| - 1 ensures Link(stage, r, k) {
      if k < m {
        assert Link(stage, p, k);
      } else {
        assert Link(stage, q, k - m);
      }
    }
  }

  /** What reaches a name that reaches `x` reaches `x`. */
  lemma ReachesOn(stage: Stage, names: seq<PackageName>, n: PackageName, x: PackageName)
    requires Reachable(stage, names, n) && Reaches(stage, n, x)
    ensures exists j: nat :: j < |names| && Reaches(stage, names[j], x)
  {
    var p :| PathFrom(stage, names, p) && p[|p| - 1] == n;
    var q :| PathFrom(stage, [n], q) && q[|q| - 1] == x;
    PathConcat(stage, names, p, q);
    var r := p + q[1..];
    var j: nat :| j < |names| && names[j] == r[0];
    assert forall k :: 0 <= k < |r| - 1 ==> Link(stage, r, k);
    assert PathFrom(stage, [names[j]], r);
  }

  lemma {:induction false} FirstExists(stage: Stage, names: seq<PackageName>, x: PackageName, j: nat)
    returns (i: nat)
    requires j < |names| && Reaches(stage, names[j], x)
    ensures FirstToReach(stage, names, i, x)
    decreases j
  {
    i := j;
    if k: nat :| k < j && Reaches(stage, names[k], x) {
      i := FirstExists(stage, names, x, k);
    }
  }

  lemma FirstOfReachable(stage: Stage, names: seq<PackageName>, x: PackageName) returns (i: nat)
    requires Reachable(stage, names, x)
    ensures FirstToReach(stage, names, i, x)
  {
    assert PathFrom(stage, [x], [x]);
    ReachesOn(stage, names, x, x);
    var j: nat :| j < |names| && Reaches(stage, names[j], x);
    i := FirstExists(stage, names, x, j);
  }

  /** From a name other than `x` the way to `x` leads through its dependencies. */
  lemma ReachesThroughDependencies(stage: Stage, n: PackageName, x: PackageName)
    requires Reaches(stage, n, x) && n != x
    ensures n in stage && Reachable(stage, stage[n], x)
  {
    var p :| PathFrom(stage, [n], p) && p[|p| - 1] == x;
    assert Link(stage, p, 0);
    var q := p[1..];
    forall k | 0 <= k < |q| - 1 ensures Link(stage, q, k) {
      assert Link(stage, p, k + 1);
    }
    assert PathFrom(stage, stage[n], q);
  }

  lemma {:induction false} MergeListedContents(acc: Walked, list: seq<PackageName>, x: PackageName)
    ensures x in MergeListed(acc, list).list <==> x in acc.list || (x in list && x !in acc.results)
    decreases |list|
  {
    if list != [] {
      var k := |list| - 1;
      MergeListedContents(acc, list[..k], x);
      MergeListedKeys(acc, list[..k]);
      assert list == list[..k] + [list[k]];
    }
  }

  /** What one package's walk adds to the list. */
  lemma AbsorbContents(stage: Stage, name: PackageName, acc: Walked, inner: Walked, x: PackageName)
    requires WellFormed(stage, inner)
    ensures x in Absorb(name, acc, inner).list
            <==> x in acc.list || (x in inner.list && x !in acc.results)
                 || (x == name && x !in acc.results && x !in inner.results)
  {
    MergeListedContents(acc, inner.list, x);
    MergeListedKeys(acc, inner.list);
  }

  /** What is recorded stays recorded, and stays listed or unlisted. */
  ghost predicate Extends(w: Walked, acc: Walked) {
    && acc.results.Keys <= w.results.Keys
    && forall x :: x in acc.results ==> (x in w.list <==> x in acc.list)
  }

  lemma VisitExtends(stage: Stage, name: PackageName, recursion: nat, acc: Walked)
    ensures Extends(Visit(stage, name, recursion, acc), acc)
  {
    VisitKeepsKeys(stage, name, recursion, acc);
    if name !in acc.results && recursion > 0 && name in stage {
      var inner := Walk(stage, stage[name], recursion - 1);
      WalkIsWellFormed(stage, stage[name], recursion - 1);
      forall x | x in acc.results ensures x in Absorb(name, acc, inner).list <==> x in acc.list {
        AbsorbContents(stage, name, acc, inner, x);
      }
    }
  }

  lemma {:induction false} WalkExtends(stage: Stage, names: seq<PackageName>, recursion: nat, i: nat)
    requires i <= |names|
    ensures Extends(Walk(stage, names, recursion), Walk(stage, names[..i], recursion))
    decreases |names|
  {
    if i == |names| {
      assert names[..i] == names;
    } else {
      var k := |names| - 1;
      WalkExtends(stage, names[..k], recursion, i);
      assert names[..k][..i] == names[..i];
      VisitExtends(stage, names[k], recursion, Walk(stage, names[..k], recursion));
    }
  }

  /** When the first name that reaches `x` is visited, nothing that reaches `x` has been recorded. */
  lemma NothingRecordedYet(stage: Stage, names: seq<PackageName>, recursion: nat, i: nat, x: PackageName,
                           y: PackageName)
    requires FirstToReach(stage, names, i, x) && Reaches(stage, y, x)
    ensures y !in Walk(stage, names[..i], recursion).results
  {
    if y in Walk(stage, names[..i], recursion).results {
      var p := KeyHasPath(stage, names[..i], recursion, y);
      ReachesOn(stage, names[..i], y, x);
      var j: nat :| j < i && Reaches(stage, names[..i][j], x);
    }
  }

  /** The visit of the first name that reaches `x`. */
  lemma FirstVisit(stage: Stage, names: seq<PackageName>, recursion: nat, i: nat, x: PackageName)
    requires FirstToReach(stage, names, i, x)
    ensures var acc, next := Walk(stage, names[..i], recursion), Walk(stage, names[..i + 1], recursion);
      && names[i] !in acc.results
      && next == Visit(stage, names[i], recursion, acc)
      && Extends(Walk(stage, names, recursion), next)
  {
    NothingRecordedYet(stage, names, recursion, i, x, names[i]);
    assert names[..i + 1][..i] == names[..i];
    WalkExtends(stage, names, recursion, i + 1);
  }

  lemma ListedByVisit(stage: Stage, n: PackageName, recursion: nat, acc: Walked, x: PackageName)
    requires n in stage && recursion > 0 && n !in acc.results && x !in acc.results
    requires x in Walk(stage, stage[n], recursion - 1).list
             || (x == n && x !in Walk(stage, stage[n], recursion - 1).results)
    ensures var w := Visit(stage, n, recursion, acc); x in w.list && x in w.results
  {
    var inner := Walk(stage, stage[n], recursion - 1);
    WalkIsWellFormed(stage, stage[n], recursion - 1);
    AbsorbContents(stage, n, acc, inner, x);
    AbsorbKeys(stage, n, acc, inner);
  }

  lemma ListedThroughFirst(stage: Stage, names: seq<PackageName>, recursion: nat, i: nat, x: PackageName)
    requires FirstToReach(stage, names, i, x) && names[i] in stage && recursion > 0
    requires var inner := Walk(stage, stage[names[i]], recursion - 1);
      x in inner.list || (x == names[i] && x !in inner.results)
    ensures x in Walk(stage, names, recursion).list
  {
    FirstVisit(stage, names, recursion, i, x);
    assert PathFrom(stage, [x], [x]);
    NothingRecordedYet(stage, names, recursion, i, x, x);
    ListedByVisit(stage, names[i], recursion, Walk(stage, names[..i], recursion), x);
  }

  /** The first name that reaches a package that is not too deep has a level left, and so have its dependencies. */
  lemma NotTooDeepStep(stage: Stage, names: seq<PackageName>, x: PackageName, recursion: nat, i: nat)
    requires x in stage && FirstToReach(stage, names, i, x) && !TooDeep(stage, names, x, recursion)
    ensures names[i] in stage && recursion > 0 && !TooDeep(stage, stage[names[i]], x, recursion - 1)
    ensures Reachable(stage, stage[names[i]], x) || names[i] == x
  {
    if names[i] != x {
      ReachesThroughDependencies(stage, names[i], x);
    }
  }

  lemma OnlyReachableIsRecorded(stage: Stage, names: seq<PackageName>, recursion: nat, x: PackageName)
    requires !Reachable(stage, names, x)
    ensures x !in Walk(stage, names, recursion).results
  {
    if x in Walk(stage, names, recursion).results {
      var p := KeyHasPath(stage, names, recursion, x);
    }
  }

  lemma ListedItself(stage: Stage, names: seq<PackageName>, recursion: nat, i: nat, x: PackageName)
    requires FirstToReach(stage, names, i, x) && names[i] == x && x in stage && recursion > 0
    requires !Reachable(stage, stage[x], x)
    ensures x in Walk(stage, names, recursion).list
  {
    OnlyReachableIsRecorded(stage, stage[x], recursion - 1, x);
    ListedThroughFirst(stage, names, recursion, i, x);
  }

  lemma {:induction false} ListedFromFirst(stage: Stage, names: seq<PackageName>, recursion: nat, i: nat,
                                           x: PackageName)
    requires FirstToReach(stage, names, i, x) && x in stage && !TooDeep(stage, names, x, recursion)
    ensures x in Walk(stage, names, recursion).list
    decreases recursion
  {
    NotTooDeepStep(stage, names, x, recursion, i);
    var deps := stage[names[i]];
    if Reachable(stage, deps, x) {
      var j := FirstOfReachable(stage, deps, x);
      ListedFromFirst(stage, deps, recursion - 1, j, x);
      ListedThroughFirst(stage, names, recursion, i, x);
    } else {
      ListedItself(stage, names, recursion, i, x);
    }
  }

  /** A readable package that is not too deep is listed, whatever else goes wrong. */
  lemma {:induction false} NotTooDeepIsListed(stage: Stage, names: seq<PackageName>, x: PackageName, recursion: nat)
    requires Reachable(stage, names, x) && x in stage && !TooDeep(stage, names, x, recursion)
    ensures x in Walk(stage, names, recursion).list
  {
    var i := FirstOfReachable(stage, names, x);
    ListedFromFirst(stage, names, recursion, i, x);
  }

  /** Skipping failures answers the whole list as soon as one readable package that is not too deep is reached. */
  lemma {:induction false} NonstopAnswers(stage: Stage, names: seq<PackageName>, recursion: nat, x: PackageName)
    requires Reachable(stage, names, x) && x in stage && !TooDeep(stage, names, x, recursion)
    ensures var r := Accepted(stage, names, true, recursion);
      r == Some(Walk(stage, names, recursion).list) && x in r.value
  {
    NotTooDeepIsListed(stage, names, x, recursion);
  }

  /** When none of the names asked for can be read, skipping failures still is an error. */
  lemma {:induction false} NonstopRefuses(stage: Stage, names: seq<PackageName>, recursion: nat)
    requires forall i :: 0 <= i < |names| ==> names[i] !in stage || recursion == 0
    ensures Accepted(stage, names, true, recursion) == if names == [] then Some([]) else None
  {
    WalkIsWellFormed(stage, names, recursion);
    if Walk(stage, names, recursion).list != [] {
      NothingIsListed(stage, names, recursion, Walk(stage, names, recursion).list[0]);
    }
  }

  lemma {:induction false} NothingIsListed(stage: Stage, names: seq<PackageName>, recursion: nat, x: PackageName)
    requires forall i :: 0 <= i < |names| ==> names[i] !in stage || recursion == 0
    ensures x !in Walk(stage, names, recursion).list
    decreases |names|
  {
    if names != [] {
      NothingIsListed(stage, names[..|names| - 1], recursion, x);
    }
  }

  lemma UnlistedByVisit(stage: Stage, n: PackageName, recursion: nat, acc: Walked, y: PackageName)
    requires n in stage && recursion > 0 && n !in acc.results && y !in acc.results && y !in acc.list
    requires y in Walk(stage, stage[n], recursion - 1).results && y !in Walk(stage, stage[n], recursion - 1).list
    ensures var w := Visit(stage, n, recursion, acc); y in w.results && y !in w.list
  {
    var inner := Walk(stage, stage[n], recursion - 1);
    WalkIsWellFormed(stage, stage[n], recursion - 1);
    AbsorbContents(stage, n, acc, inner, y);
    AbsorbKeys(stage, n, acc, inner);
  }

  lemma GapThroughFirst(stage: Stage, names: seq<PackageName>, recursion: nat, i: nat, x: PackageName, y: PackageName)
    requires FirstToReach(stage, names, i, x) && names[i] in stage && recursion > 0 && Reaches(stage, y, x)
    requires var inner := Walk(stage, stage[names[i]], recursion - 1); y in inner.results && y !in inner.list
    ensures y in Walk(stage, names, recursion).results && y !in Walk(stage, names, recursion).list
  {
    FirstVisit(stage, names, recursion, i, x);
    NothingRecordedYet(stage, names, recursion, i, x, y);
    WalkIsWellFormed(stage, names[..i], recursion);
    UnlistedByVisit(stage, names[i], recursion, Walk(stage, names[..i], recursion), y);
  }

  lemma GapAtTheLimit(stage: Stage, names: seq<PackageName>, i: nat, x: PackageName)
    requires FirstToReach(stage, names, i, x)
    ensures names[i] in Walk(stage, names, 0).results && names[i] !in Walk(stage, names, 0).list
  {
    FirstVisit(stage, names, 0, i, x);
    WalkIsWellFormed(stage, names[..i], 0);
  }

  /** A package that is too deep leaves something on the way to it recorded but not listed. */
  lemma {:induction false} TooDeepLeavesAGap(stage: Stage, names: seq<PackageName>, x: PackageName, recursion: nat)
    returns (y: PackageName)
    requires TooDeep(stage, names, x, recursion)
    ensures y in Walk(stage, names, recursion).results && y !in Walk(stage, names, recursion).list
    ensures Reaches(stage, y, x)
    decreases recursion
  {
    var i: nat :| FirstToReach(stage, names, i, x)
                  && (recursion == 0 || (names[i] in stage && TooDeep(stage, stage[names[i]], x, recursion - 1)));
    if recursion == 0 {
      GapAtTheLimit(stage, names, i, x);
      y := names[i];
    } else {
      y := TooDeepLeavesAGap(stage, stage[names[i]], x, recursion - 1);
      GapThroughFirst(stage, names, recursion, i, x, y);
    }
  }

  /**
   Strict mode accepts a request if and only if everything reachable from it can be read and
   nothing is too deep along the way on which it is first reached.
   */
  lemma {:induction false} StrictAcceptsExactlyWhen(stage: Stage, names: seq<PackageName>, recursion: nat)
    ensures Accepted(stage, names, false, recursion).Some?
            <==> forall x :: Reachable(stage, names, x) ==> x in stage && !TooDeep(stage, names, x, recursion)
  {
    var w := Walk(stage, names, recursion);
    WalkIsWellFormed(stage, names, recursion);
    CountsAgree(stage, w);
    if Accepted(stage, names, false, recursion).Some? {
      StrictListsAreClosed(stage, names, recursion);
      forall x | Reachable(stage, names, x) ensures x in stage && !TooDeep(stage, names, x, recursion) {
        if TooDeep(stage, names, x, recursion) {
          var y := TooDeepLeavesAGap(stage, names, x, recursion);
        }
      }
    }
    if forall x :: Reachable(stage, names, x) ==> x in stage && !TooDeep(stage, names, x, recursion) {
      forall k | k in w.results ensures k in w.list {
        var p := KeyHasPath(stage, names, recursion, k);
        NotTooDeepIsListed(stage, names, k, recursion);
      }
    }
  }

  /** Whatever is too deep lies at the end of the walk along too long a path. */
  lemma {:induction false} TooDeepHasLongPath(stage: Stage, names: seq<PackageName>, x: PackageName, recursion: nat)
    returns (p: seq<PackageName>)
    requires TooDeep(stage, names, x, recursion)
    ensures PathFrom(stage, names, p) && |p| > recursion
    decreases recursion
  {
    var i: nat :| FirstToReach(stage, names, i, x)
                  && (recursion == 0 || (names[i] in stage && TooDeep(stage, stage[names[i]], x, recursion - 1)));
    p := [names[i]];
    if recursion > 0 {
      var rest := TooDeepHasLongPath(stage, stage[names[i]], x, recursion - 1);
      PathPrepend(stage, names, names[i], rest);
      p := [names[i]] + rest;
    }
  }

  /** Strict mode accepts whatever is readable and shallow enough. */
  lemma {:induction false} BoundedIsAccepted(stage: Stage, names: seq<PackageName>, recursion: nat)
    requires Bounded(stage, names, recursion)
    ensures Accepted(stage, names, false, recursion).Some?
  {
    StrictAcceptsExactlyWhen(stage, names, recursion);
    forall x | Reachable(stage, names, x) ensures x in stage && !TooDeep(stage, names, x, recursion) {
      if TooDeep(stage, names, x, recursion) {
        var p := TooDeepHasLongPath(stage, names, x, recursion);
      }
    }
  }

  // ---- The depth limit alone does not decide strict mode ----

  /** b depends on a, a depends on z, z on nothing. */
  function Chain(z: PackageName, a: PackageName, b: PackageName): Stage {
    map[z := [], a := [z], b := [a]]
  }

  lemma WalkOne(stage: Stage, n: PackageName, recursion: nat)
    ensures Walk(stage, [n], recursion) == Visit(stage, n, recursion, Walked([], map[]))
  {
    assert [n][..0] == [];
  }

  lemma MergeOne(acc: Walked, x: PackageName)
    ensures MergeListed(acc, [x]) == if x in acc.results then acc else Walked(acc.list + [x], acc.results[x := Good])
  {
    assert [x][..0] == [];
  }

  lemma AbsorbTooDeep(z: PackageName, a: PackageName)
    requires z != a
    ensures Absorb(a, Walked([], map[]), Walked([], map[z := Bad(Recursion([]))]))
            == Walked([a], map[z := Bad(Recursion([a])), a := Bad(DependencyInvalid(a))])
  {
    var results := map[z := Bad(Recursion([]))];
    assert results[z].Bad? && [] + [a] == [a];
    assert MergeErrors(Walked([], map[]), results, a).results == map[z := Bad(Recursion([a]))];
  }

  lemma WalkTooDeep(z: PackageName, a: PackageName, b: PackageName)
    requires z != a && a != b && z != b
    ensures Walk(Chain(z, a, b), [a], 1)
            == Walked([a], map[z := Bad(Recursion([a])), a := Bad(DependencyInvalid(a))])
  {
    WalkOne(Chain(z, a, b), z, 0);
    WalkOne(Chain(z, a, b), a, 1);
    AbsorbTooDeep(z, a);
  }

  lemma WalkDeepEnough(z: PackageName, a: PackageName, b: PackageName)
    requires z != a && a != b && z != b
    ensures Walk(Chain(z, a, b), [a], 2) == Walked([z, a], map[z := Good, a := Good])
  {
    var stage := Chain(z, a, b);
    WalkOne(stage, z, 1);
    WalkOne(stage, a, 2);
    assert Walk(stage, [z], 1) == Walked([z], map[z := Good]);
    MergeOne(Walked([], map[]), z);
  }

  lemma AbsorbInvalid(z: PackageName, a: PackageName, b: PackageName, acc: Walked)
    requires z != a && a != b && z != b && b !in acc.results
    ensures var w := Absorb(b, acc, Walked([a], map[z := Bad(Recursion([a])), a := Bad(DependencyInvalid(a))]));
      && w.list == (if a in acc.results then acc.list else acc.list + [a]) + [b]
      && w.results.Keys == acc.results.Keys + {z, a, b}
      && w.results[b] == Bad(DependencyInvalid(b))
  {
    var results := map[z := Bad(Recursion([a])), a := Bad(DependencyInvalid(a))];
    assert results[a].Bad? && results[z].Bad?;
    MergeOne(acc, a);
  }

  lemma VisitLast(z: PackageName, a: PackageName, b: PackageName, acc: Walked)
    requires z != a && a != b && z != b && b !in acc.results
    ensures Visit(Chain(z, a, b), b, 2, acc)
            == Absorb(b, acc, Walked([a], map[z := Bad(Recursion([a])), a := Bad(DependencyInvalid(a))]))
  {
    WalkTooDeep(z, a, b);
    assert Chain(z, a, b)[b] == [a];
  }

  lemma WalkPair(z: PackageName, a: PackageName, b: PackageName)
    requires z != a && a != b && z != b
    ensures var w := Walk(Chain(z, a, b), [a, b], 2);
      w.list == [z, a, b] && w.results.Keys == {z, a, b} && w.results[b] == Bad(DependencyInvalid(b))
  {
    var first := Walked([z, a], map[z := Good, a := Good]);
    assert Walk(Chain(z, a, b), [a, b], 2) == Visit(Chain(z, a, b), b, 2, first) by {
      WalkDeepEnough(z, a, b);
      assert [a, b][..1] == [a];
    }
    VisitLast(z, a, b, first);
    AbsorbInvalid(z, a, b, first);
  }

  lemma ReachesUnfold(stage: Stage, n: PackageName, x: PackageName)
    requires n in stage
    ensures Reaches(stage, n, x) <==> x == n || exists d :: d in stage[n] && Reaches(stage, d, x)
  {
    if x == n {
      assert PathFrom(stage, [n], [n]);
    } else if Reaches(stage, n, x) {
      ReachesThroughDependencies(stage, n, x);
      var i := FirstOfReachable(stage, stage[n], x);
    } else if d :| d in stage[n] && Reaches(stage, d, x) {
      var p :| PathFrom(stage, [d], p) && p[|p| - 1] == x;
      PathPrepend(stage, [n], n, p);
    }
  }

  lemma ChainReaches(z: PackageName, a: PackageName, b: PackageName, x: PackageName)
    requires z != a && a != b && z != b
    ensures Reaches(Chain(z, a, b), z, x) <==> x == z
    ensures Reaches(Chain(z, a, b), a, x) <==> x == z || x == a
    ensures Reaches(Chain(z, a, b), b, x) <==> x == z || x == a || x == b
  {
    ReachesUnfold(Chain(z, a, b), z, x);
    ReachesUnfold(Chain(z, a, b), a, x);
    ReachesUnfold(Chain(z, a, b), b, x);
  }

  /** Only `[b]` reaches `z` the long way first. */
  lemma ChainDepths(z: PackageName, a: PackageName, b: PackageName)
    requires z != a && a != b && z != b
    ensures TooDeep(Chain(z, a, b), [b], z, 2)
    ensures forall x :: x in {z, a, b} ==> !TooDeep(Chain(z, a, b), [a, b], x, 2)
  {
    var stage := Chain(z, a, b);
    ChainReaches(z, a, b, z);
    ChainReaches(z, a, b, a);
    ChainReaches(z, a, b, b);
    assert FirstToReach(stage, [z], 0, z) && TooDeep(stage, [z], z, 0);
    assert FirstToReach(stage, [a], 0, z) && TooDeep(stage, [a], z, 1);
    assert FirstToReach(stage, [b], 0, z);
    assert Reaches(stage, [a, b][0], z) && Reaches(stage, [a, b][0], a);
    assert !TooDeep(stage, [], z, 0) && !TooDeep(stage, [z], z, 1);
    assert !TooDeep(stage, [z], a, 1) && !TooDeep(stage, [a], b, 1);
  }

  lemma ChainReachable(z: PackageName, a: PackageName, b: PackageName, names: seq<PackageName>, x: PackageName)
    requires z != a && a != b && z != b && forall n :: n in names ==> n in {z, a, b}
    requires Reachable(Chain(z, a, b), names, x)
    ensures x in {z, a, b}
  {
    var i := FirstOfReachable(Chain(z, a, b), names, x);
    ChainReaches(z, a, b, x);
    assert names[i] in names;
  }

  lemma ChainRefused(z: PackageName, a: PackageName, b: PackageName)
    requires z != a && a != b && z != b
    ensures Accepted(Chain(z, a, b), [b], false, 2) == None
  {
    StrictAcceptsExactlyWhen(Chain(z, a, b), [b], 2);
    ChainDepths(z, a, b);
    ChainReaches(z, a, b, z);
  }

  lemma ChainAccepted(z: PackageName, a: PackageName, b: PackageName)
    requires z != a && a != b && z != b
    ensures Accepted(Chain(z, a, b), [a, b], false, 2).Some?
  {
    StrictAcceptsExactlyWhen(Chain(z, a, b), [a, b], 2);
    ChainDepths(z, a, b);
    forall x | Reachable(Chain(z, a, b), [a, b], x) ensures x in {z, a, b} {
      ChainReachable(z, a, b, [a, b], x);
    }
  }

  /**
   An instance: strict mode accepts a package too deep to be walked when an earlier root has
   already recorded the rest of its closure. With b -> a -> z and a limit of two, `[a, b]` is
   accepted although the path from `b` has three names and `[b]` is refused, and `b` is then both
   listed and in error.
   */
  lemma {:induction false} DepthLimitDependsOnOrder(z: PackageName, a: PackageName, b: PackageName)
    requires z != a && a != b && z != b
    ensures Accepted(Chain(z, a, b), [a, b], false, 2) == Some([z, a, b])
    ensures !Bounded(Chain(z, a, b), [a, b], 2)
    ensures Accepted(Chain(z, a, b), [b], false, 2) == None
    ensures b in Walk(Chain(z, a, b), [a, b], 2).results
            && Walk(Chain(z, a, b), [a, b], 2).results[b] == Bad(DependencyInvalid(b))
  {
    ChainRefused(z, a, b);
    ChainAccepted(z, a, b);
    WalkPair(z, a, b);
    var p := [b, a, z];
    assert Link(Chain(z, a, b), p, 0) && Link(Chain(z, a, b), p, 1);
    assert PathFrom(Chain(z, a, b), [a, b], p);
  }

  // ---- The loops ----

  /** `new_recursive_nonstop`. The errors of a dependency are merged in an arbitrary order. */
  method NewRecursiveNonstop(stage: Stage, names: seq<PackageName>, recursion: nat)
    returns (packages: seq<PackageName>, packagesMap: map<PackageName, Entry>)
    ensures Walked(packages, packagesMap) == Walk(stage, names, recursion)
    decreases recursion
  {
    packages, packagesMap := [], map[];
    var i := 0;
    while i < |names|
      invariant 0 <= i <= |names|
      invariant Walked(packages, packagesMap) == Walk(stage, names[..i], recursion)
    {
      var name := names[i];
      i := i + 1;
      assert names[..i][..i - 1] == names[..i - 1];
      if name in packagesMap {
        continue;
      }
      if recursion == 0 {
        packagesMap := packagesMap[name := Bad(Recursion([]))];
      } else if name !in stage {
        packagesMap := packagesMap[name := Bad(NotFound(name))];
      } else {
        var list, results := NewRecursiveNonstop(stage, stage[name], recursion - 1);
        packages, packagesMap := TakeListed(Walked(packages, packagesMap), list);
        var hasInvalidDependency;
        packagesMap, hasInvalidDependency := TakeErrors(Walked(packages, packagesMap), results, name);
        if name !in packagesMap {
          packagesMap := packagesMap[name := if hasInvalidDependency then Bad(DependencyInvalid(name)) else Good];
          packages := packages + [name];
        }
      }
    }
    assert names[..i] == names;
  }

  method TakeListed(acc: Walked, list: seq<PackageName>)
    returns (packages: seq<PackageName>, packagesMap: map<PackageName, Entry>)
    ensures Walked(packages, packagesMap) == MergeListed(acc, list)
  {
    packages, packagesMap := acc.list, acc.results;
    var i := 0;
    while i < |list|
      invariant 0 <= i <= |list|
      invariant Walked(packages, packagesMap) == MergeListed(acc, list[..i])
    {
      assert list[..i + 1][..i] == list[..i];
      if list[i] !in packagesMap {
        packagesMap := packagesMap[list[i] := Good];
        packages := packages + [list[i]];
      }
      i := i + 1;
    }
    assert list[..i] == list;
  }

  method TakeErrors(acc: Walked, results: map<PackageName, Entry>, name: PackageName)
    returns (packagesMap: map<PackageName, Entry>, hasInvalidDependency: bool)
    ensures packagesMap == MergeErrors(acc, results, name).results
    ensures hasInvalidDependency == HasErrors(results)
  {
    packagesMap, hasInvalidDependency := acc.results, false;
    var rest := results.Keys;
    while rest != {}
      invariant rest <= results.Keys
      invariant packagesMap
                == (map k | k in results && k !in rest && results[k].Bad?
                        :: Bad(results[k].error.AppendRecursion(name)))
                   + acc.results
      invariant hasInvalidDependency <==> exists k :: k in results && k !in rest && results[k].Bad?
      decreases |rest|
    {
      var dep :| dep in rest;
      rest := rest - {dep};
      if results[dep].Bad? {
        if dep !in packagesMap {
          packagesMap := packagesMap[dep := Bad(results[dep].error.AppendRecursion(name))];
        }
        hasInvalidDependency := true;
      }
    }
  }

  /** `k` is the smallest name recorded with an error: the map is ordered, so the search finds it first. */
  ghost predicate FirstError(lt: Less<PackageName>, results: map<PackageName, Entry>, k: PackageName) {
    && k in results && results[k].Bad?
    && forall j :: j in results && results[j].Bad? && j != k ==> lt(k, j)
  }

  /** `new_recursive`: the search for an error always finds one, so its `unwrap` cannot fail. */
  method NewRecursive(lt: Less<PackageName>, stage: Stage, names: seq<PackageName>, nonstop: bool, recursion: nat)
    returns (r: Result<seq<PackageName>, Error>)
    requires StrictTotal(lt)
    ensures r.Ok? <==> Accepted(stage, names, nonstop, recursion).Some?
    ensures r.Ok? ==> r.value == Accepted(stage, names, nonstop, recursion).value
    ensures r.Err? ==> exists k :: FirstError(lt, Walk(stage, names, recursion).results, k)
                                  && Walk(stage, names, recursion).results[k] == Bad(r.error)
  {
    if |names| == 0 {
      return Ok([]);
    }
    var list, results := NewRecursiveNonstop(stage, names, recursion);
    if nonstop && |list| > 0 {
      r := Ok(list);
    } else if !nonstop && |results| == |list| {
      r := Ok(list);
    } else {
      SomeErrorExists(stage, names, nonstop, recursion);
      var k := FindError(lt, results);
      r := Err(results[k].error);
    }
  }

  /** The first error in the order of the names. */
  method FindError(lt: Less<PackageName>, results: map<PackageName, Entry>) returns (k: PackageName)
    requires StrictTotal(lt) && HasErrors(results)
    ensures FirstError(lt, results, k)
  {
    k :| k in results && results[k].Bad?;
    var rest := results.Keys;
    while rest != {}
      invariant rest <= results.Keys && k in results && results[k].Bad?
      invariant forall j :: j in results && j !in rest && results[j].Bad? && j != k ==> lt(k, j)
      decreases |rest|
    {
      var j :| j in rest;
      rest := rest - {j};
      if results[j].Bad? && lt(j, k) {
        k := j;
      }
    }
  }

  lemma {:induction false} SomeErrorExists(stage: Stage, names: seq<PackageName>, nonstop: bool, recursion: nat)
    requires Accepted(stage, names, nonstop, recursion).None?
    ensures HasErrors(Walk(stage, names, recursion).results)
  {
    var w := Walk(stage, names, recursion);
    WalkIsWellFormed(stage, names, recursion);
    CountsAgree(stage, w);
    if nonstop {
      assert names[0] in w.results && names[0] !in w.list;
    }
  }
}
