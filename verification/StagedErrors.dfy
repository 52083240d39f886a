/** What the map of results of the staged walk says: which entries are errors, and why. */
module StagedErrors {
  import opened Names
  import opened StagedPackages

  // ---- Errors stay ----

  /** Every entry of `acc` is kept as it is. */
  ghost predicate KeepsEntries(w: Walked, acc: Walked) {
    forall k :: k in acc.results ==> k in w.results && w.results[k] == acc.results[k]
  }

  lemma {:induction false} MergeListedEntries(acc: Walked, list: seq<PackageName>, k: PackageName)
    ensures k in MergeListed(acc, list).results <==> k in acc.results || k in list
    ensures k in acc.results ==> MergeListed(acc, list).results[k] == acc.results[k]
    ensures k in list && k !in acc.results ==> MergeListed(acc, list).results[k] == Good
    decreases |list|
  {
    if list != [] {
      MergeListedEntries(acc, list[..|list| - 1], k);
      assert list == list[..|list| - 1] + [list[|list| - 1]];
    }
  }

  /** The entries after one package has been absorbed. */
  lemma AbsorbEntries(name: PackageName, acc: Walked, inner: Walked, k: PackageName)
    ensures var w := Absorb(name, acc, inner).results;
      if k in acc.results then k in w && w[k] == acc.results[k]
      else if k in inner.list then k in w && w[k] == Good
      else if k in inner.results && inner.results[k].Bad? then
        k in w && w[k] == Bad(inner.results[k].error.AppendRecursion(name))
      else if k == name then
        k in w && w[k] == if HasErrors(inner.results) then Bad(DependencyInvalid(name)) else Good
      else k !in w
  {
    MergeListedEntries(acc, inner.list, k);
  }

  lemma VisitKeepsEntries(stage: Stage, name: PackageName, recursion: nat, acc: Walked)
    ensures KeepsEntries(Visit(stage, name, recursion, acc), acc)
  {
    if name !in acc.results && recursion > 0 && name in stage {
      forall k | k in acc.results
        ensures var w := Visit(stage, name, recursion, acc); k in w.results && w.results[k] == acc.results[k]
      {
        AbsorbEntries(name, acc, Walk(stage, stage[name], recursion - 1), k);
      }
    }
  }

  lemma {:induction false} WalkKeepsEntries(stage: Stage, names: seq<PackageName>, recursion: nat, i: nat)
    requires i <= |names|
    ensures KeepsEntries(Walk(stage, names, recursion), Walk(stage, names[..i], recursion))
    decreases |names|
  {
    if i == |names| {
      assert names[..i] == names;
    } else {
      var k := |names| - 1;
      WalkKeepsEntries(stage, names[..k], recursion, i);
      assert names[..k][..i] == names[..i];
      VisitKeepsEntries(stage, names[k], recursion, Walk(stage, names[..k], recursion));
    }
  }

  // ---- There is an error exactly when something is missing or too deep ----

  lemma BoundedInitial(stage: Stage, names: seq<PackageName>, recursion: nat, k: nat)
    requires Bounded(stage, names, recursion) && k <= |names|
    ensures Bounded(stage, names[..k], recursion)
  {
    forall p | PathFrom(stage, names[..k], p) ensures |p| <= recursion && p[|p| - 1] in stage {
      assert PathFrom(stage, names, p);
    }
  }

  lemma BoundedStep(stage: Stage, names: seq<PackageName>, recursion: nat, n: PackageName)
    requires Bounded(stage, names, recursion) && n in names
    ensures recursion > 0 && n in stage && Bounded(stage, stage[n], recursion - 1)
  {
    assert PathFrom(stage, names, [n]);
    forall p | PathFrom(stage, stage[n], p) ensures |p| <= recursion - 1 && p[|p| - 1] in stage {
      PathPrepend(stage, names, n, p);
      var q := [n] + p;
      assert |q| <= recursion && q[|q| - 1] in stage;
    }
  }

  lemma AbsorbNoErrors(name: PackageName, acc: Walked, inner: Walked)
    requires !HasErrors(acc.results) && !HasErrors(inner.results)
    ensures !HasErrors(Absorb(name, acc, inner).results)
  {
    forall k | k in Absorb(name, acc, inner).results ensures !Absorb(name, acc, inner).results[k].Bad? {
      AbsorbEntries(name, acc, inner, k);
    }
  }

  lemma {:induction false} BoundedHasNoErrors(stage: Stage, names: seq<PackageName>, recursion: nat)
    requires Bounded(stage, names, recursion)
    ensures !HasErrors(Walk(stage, names, recursion).results)
    decreases recursion, |names|
  {
    if names != [] {
      var k := |names| - 1;
      BoundedInitial(stage, names, recursion, k);
      BoundedHasNoErrors(stage, names[..k], recursion);
      BoundedStep(stage, names, recursion, names[k]);
      BoundedHasNoErrors(stage, stage[names[k]], recursion - 1);
      AbsorbNoErrors(names[k], Walk(stage, names[..k], recursion), Walk(stage, stage[names[k]], recursion - 1));
    }
  }

  /** Without errors everything recorded is listed, and every dependency of it strictly earlier. */
  lemma NoErrorsMeansClosed(stage: Stage, w: Walked)
    requires WellFormed(stage, w) && !HasErrors(w.results)
    ensures (forall k :: k in w.results ==> k in w.list) && ClosedAndOrdered(stage, w.list)
  {
    forall k, d | 0 <= k < |w.list| && w.list[k] in stage && d in stage[w.list[k]]
      ensures d in w.list[..k]
    {
      assert OrderedAt(stage, w.list, k);
      assert w.list[k] in w.list;
    }
  }

  /** Along a path from a listed package the positions in the list only decrease. */
  lemma {:induction false} PathGoesBack(stage: Stage, list: seq<PackageName>, p: seq<PackageName>, j: nat)
    returns (i: nat)
    requires ClosedAndOrdered(stage, list) && |p| > 0 && j < |list| && list[j] == p[0]
    requires forall k :: 0 <= k < |p| - 1 ==> Link(stage, p, k)
    ensures i <= j && list[i] == p[|p| - 1] && (|p| > 1 ==> i < j)
    decreases |p|
  {
    i := j;
    if |p| > 1 {
      assert Link(stage, p, 0) && p[1] in list[..j];
      var next :| 0 <= next < j && list[next] == p[1];
      forall k | 0 <= k < |p[1..]| - 1 ensures Link(stage, p[1..], k) {
        assert Link(stage, p, k + 1);
      }
      i := PathGoesBack(stage, list, p[1..], next);
    }
  }

  /** A package that can be reached from its own dependencies cannot be listed without an error. */
  lemma CycleLeavesAnError(stage: Stage, w: Walked, n: PackageName)
    requires WellFormed(stage, w) && n in w.results && n in stage && Reachable(stage, stage[n], n)
    ensures HasErrors(w.results)
  {
    if !HasErrors(w.results) {
      NoErrorsMeansClosed(stage, w);
      var p :| PathFrom(stage, stage[n], p) && p[|p| - 1] == n;
      PathPrepend(stage, [n], n, p);
      var j :| 0 <= j < |w.list| && w.list[j] == n;
      var i := PathGoesBack(stage, w.list, [n] + p, j);
    }
  }

  /** One too long or broken path. */
  ghost predicate Breaks(stage: Stage, names: seq<PackageName>, recursion: nat, p: seq<PackageName>) {
    PathFrom(stage, names, p) && (|p| > recursion || p[|p| - 1] !in stage)
  }

  lemma BreaksBelow(stage: Stage, names: seq<PackageName>, recursion: nat, p: seq<PackageName>)
    requires Breaks(stage, names, recursion, p) && recursion > 0 && p[0] in stage
    ensures Breaks(stage, stage[p[0]], recursion - 1, p[1..])
  {
    if |p| > 1 {
      assert Link(stage, p, 0);
      forall k | 0 <= k < |p[1..]| - 1 ensures Link(stage, p[1..], k) {
        assert Link(stage, p, k + 1);
      }
    }
  }

  /** What breaks from a recorded name breaks from the names it was reached from. */
  lemma BreaksFromEarlier(stage: Stage, names: seq<PackageName>, recursion: nat, p: seq<PackageName>)
    requires |p| > 0 && Reachable(stage, names, p[0]) && Breaks(stage, [p[0]], recursion, p)
    ensures !Bounded(stage, names, recursion)
  {
    var q :| PathFrom(stage, names, q) && q[|q| - 1] == p[0];
    PathConcat(stage, names, q, p);
    var r := q + p[1..];
    assert PathFrom(stage, names, r) && |r| >= |p| && r[|r| - 1] == p[|p| - 1];
  }

  lemma VisitBroken(stage: Stage, names: seq<PackageName>, recursion: nat, n: PackageName, acc: Walked)
    requires n !in acc.results && WellFormed(stage, acc)
    requires recursion == 0 || n !in stage || HasErrors(Walk(stage, stage[n], recursion - 1).results)
    ensures HasErrors(Visit(stage, n, recursion, acc).results)
  {
    if recursion == 0 || n !in stage {
      assert Visit(stage, n, recursion, acc).results[n].Bad?;
    } else {
      var inner := Walk(stage, stage[n], recursion - 1);
      WalkIsWellFormed(stage, stage[n], recursion - 1);
      AbsorbEntries(n, acc, inner, n);
      if n in inner.list {
        KeyHasPathAt(stage, stage[n], recursion - 1, n);
        VisitKeeps(stage, n, acc, inner);
        CycleLeavesAnError(stage, Absorb(n, acc, inner), n);
      } else {
        assert Absorb(n, acc, inner).results[n].Bad?;
      }
    }
  }

  lemma KeyHasPathAt(stage: Stage, names: seq<PackageName>, recursion: nat, x: PackageName)
    requires x in Walk(stage, names, recursion).results
    ensures Reachable(stage, names, x)
  {
    var p := KeyHasPath(stage, names, recursion, x);
  }

  lemma {:induction false} BrokenHasErrors(stage: Stage, names: seq<PackageName>, recursion: nat, p: seq<PackageName>)
    requires Breaks(stage, names, recursion, p)
    ensures HasErrors(Walk(stage, names, recursion).results)
    decreases recursion, |names|
  {
    var k := |names| - 1;
    var acc := Walk(stage, names[..k], recursion);
    if Bounded(stage, names[..k], recursion) {
      LastBreaks(stage, names, recursion, p);
      if recursion > 0 && names[k] in stage {
        BreaksBelow(stage, names, recursion, p);
        BrokenHasErrors(stage, stage[names[k]], recursion - 1, p[1..]);
      }
      WalkIsWellFormed(stage, names[..k], recursion);
      VisitBroken(stage, names, recursion, names[k], acc);
    } else {
      var q :| PathFrom(stage, names[..k], q) && !(|q| <= recursion && q[|q| - 1] in stage);
      BrokenHasErrors(stage, names[..k], recursion, q);
      ErrorsStay(stage, names[k], recursion, acc);
    }
  }

  lemma ErrorsStay(stage: Stage, name: PackageName, recursion: nat, acc: Walked)
    requires HasErrors(acc.results)
    ensures HasErrors(Visit(stage, name, recursion, acc).results)
  {
    VisitKeepsEntries(stage, name, recursion, acc);
    var bad :| bad in acc.results && acc.results[bad].Bad?;
    assert Visit(stage, name, recursion, acc).results[bad].Bad?;
  }

  /** A path that breaks from a name that is among, or was recorded for, the first `k` names. */
  lemma EarlierBreaks(stage: Stage, names: seq<PackageName>, recursion: nat, p: seq<PackageName>, k: nat)
    requires k <= |names| && Breaks(stage, names, recursion, p)
    requires p[0] in names[..k] || p[0] in Walk(stage, names[..k], recursion).results
    ensures !Bounded(stage, names[..k], recursion)
  {
    if p[0] in names[..k] {
      assert PathFrom(stage, names[..k], p);
    } else {
      KeyHasPathAt(stage, names[..k], recursion, p[0]);
      assert Breaks(stage, [p[0]], recursion, p);
      BreaksFromEarlier(stage, names[..k], recursion, p);
    }
  }

  /** If nothing breaks from the earlier names, the path starts at the last one, which is not recorded yet. */
  lemma LastBreaks(stage: Stage, names: seq<PackageName>, recursion: nat, p: seq<PackageName>)
    requires names != [] && Breaks(stage, names, recursion, p) && Bounded(stage, names[..|names| - 1], recursion)
    ensures p[0] == names[|names| - 1] && p[0] !in Walk(stage, names[..|names| - 1], recursion).results
  {
    var k := |names| - 1;
    if p[0] in names[..k] || p[0] in Walk(stage, names[..k], recursion).results {
      EarlierBreaks(stage, names, recursion, p, k);
    }
  }

  /**
   The walk reports an error if and only if something it can reach is missing or lies at the end of
   a path of more than `recursion` names.
   */
  lemma {:induction false} ErrorsExactlyWhen(stage: Stage, names: seq<PackageName>, recursion: nat)
    ensures HasErrors(Walk(stage, names, recursion).results) <==> !Bounded(stage, names, recursion)
  {
    if Bounded(stage, names, recursion) {
      BoundedHasNoErrors(stage, names, recursion);
    } else {
      var p :| PathFrom(stage, names, p) && !(|p| <= recursion && p[|p| - 1] in stage);
      assert Breaks(stage, names, recursion, p);
      BrokenHasErrors(stage, names, recursion, p);
    }
  }

  // ---- Each requested name ----

  /** What the map says of a requested name that no earlier one reaches and that is not part of a cycle. */
  function EntryOf(stage: Stage, x: PackageName, recursion: nat, fine: bool): Entry {
    if recursion == 0 then Bad(Recursion([]))
    else if x !in stage then Bad(NotFound(x))
    else if fine then Good
    else Bad(DependencyInvalid(x))
  }

  lemma VisitEntry(stage: Stage, x: PackageName, recursion: nat, acc: Walked)
    requires x !in acc.results && (x in stage ==> !Reachable(stage, stage[x], x))
    ensures var w := Visit(stage, x, recursion, acc);
      var fine := recursion > 0 && x in stage && Bounded(stage, stage[x], recursion - 1);
      x in w.results && w.results[x] == EntryOf(stage, x, recursion, fine)
  {
    if recursion > 0 && x in stage {
      NotRecordedBelow(stage, x, recursion);
      AbsorbEntries(x, acc, Walk(stage, stage[x], recursion - 1), x);
      ErrorsExactlyWhen(stage, stage[x], recursion - 1);
    }
  }

  lemma NotRecordedBelow(stage: Stage, x: PackageName, recursion: nat)
    requires recursion > 0 && x in stage && !Reachable(stage, stage[x], x)
    ensures var inner := Walk(stage, stage[x], recursion - 1); x !in inner.results && x !in inner.list
  {
    OnlyReachableIsRecorded(stage, stage[x], recursion - 1, x);
    WalkIsWellFormed(stage, stage[x], recursion - 1);
  }

  /**
   The entry of a requested name that no earlier one reaches and that does not depend on itself is
   good exactly when its dependencies can all be read within the depth that is left; otherwise it is
   the package's own error or says that a dependency is invalid.
   */
  lemma {:induction false} RequestedEntry(stage: Stage, names: seq<PackageName>, recursion: nat, i: nat)
    requires i < |names| && !Reachable(stage, names[..i], names[i])
    requires names[i] in stage ==> !Reachable(stage, stage[names[i]], names[i])
    ensures var w, x := Walk(stage, names, recursion), names[i];
      var fine := recursion > 0 && x in stage && Bounded(stage, stage[x], recursion - 1);
      x in w.results && w.results[x] == EntryOf(stage, x, recursion, fine)
  {
    var acc := Walk(stage, names[..i], recursion);
    OnlyReachableIsRecorded(stage, names[..i], recursion, names[i]);
    VisitEntry(stage, names[i], recursion, acc);
    assert names[..i + 1][..i] == names[..i];
    WalkKeepsEntries(stage, names, recursion, i + 1);
  }

  lemma FirstEntry(stage: Stage, names: seq<PackageName>, recursion: nat)
    requires names != [] && names[0] in stage && recursion > 0 && !Reachable(stage, stage[names[0]], names[0])
    ensures var w, x := Walk(stage, names, recursion).results, names[0];
      x in w && w[x] == if Bounded(stage, stage[x], recursion - 1) then Good else Bad(DependencyInvalid(x))
  {
    assert names[..0] == [];
    RequestedEntry(stage, names, recursion, 0);
  }

  /** In particular a package with a missing or too deep dependency is marked invalid. */
  lemma {:induction false} InvalidDependencyIsMarked(stage: Stage, names: seq<PackageName>, recursion: nat,
                                                     y: PackageName)
    requires names != [] && names[0] in stage && recursion > 0
    requires !Reachable(stage, stage[names[0]], names[0]) && Reachable(stage, stage[names[0]], y)
    requires y !in stage || TooDeep(stage, stage[names[0]], y, recursion - 1)
    ensures names[0] in Walk(stage, names, recursion).results
    ensures Walk(stage, names, recursion).results[names[0]] == Bad(DependencyInvalid(names[0]))
  {
    UnboundedBelow(stage, stage[names[0]], recursion - 1, y);
    FirstEntry(stage, names, recursion);
  }

  lemma UnboundedBelow(stage: Stage, names: seq<PackageName>, recursion: nat, y: PackageName)
    requires Reachable(stage, names, y) && (y !in stage || TooDeep(stage, names, y, recursion))
    ensures !Bounded(stage, names, recursion)
  {
    if y in stage {
      var p := TooDeepHasLongPath(stage, names, y, recursion);
    }
  }

  // ---- Every other entry ----

  /** A listed package that was not requested itself is recorded as good. */
  lemma {:induction false} PulledInIsGood(stage: Stage, names: seq<PackageName>, recursion: nat, x: PackageName)
    requires x in Walk(stage, names, recursion).list && x !in names
    ensures x in Walk(stage, names, recursion).results && Walk(stage, names, recursion).results[x] == Good
    decreases |names|
  {
    var k := |names| - 1;
    var acc := Walk(stage, names[..k], recursion);
    WalkIsWellFormed(stage, names[..k], recursion);
    WalkExtends(stage, names, recursion, k);
    WalkKeepsEntries(stage, names, recursion, k);
    if x in acc.results {
      PulledInIsGood(stage, names[..k], recursion, x);
    } else {
      assert names[k] != x;
      PulledInByVisit(stage, names[k], recursion, acc, x);
    }
  }

  lemma PulledInByVisit(stage: Stage, name: PackageName, recursion: nat, acc: Walked, x: PackageName)
    requires x !in acc.results && x !in acc.list && x != name && x in Visit(stage, name, recursion, acc).list
    ensures var w := Visit(stage, name, recursion, acc).results; x in w && w[x] == Good
  {
    var inner := Walk(stage, stage[name], recursion - 1);
    WalkIsWellFormed(stage, stage[name], recursion - 1);
    AbsorbContents(stage, name, acc, inner, x);
    AbsorbEntries(name, acc, inner, x);
  }

  /**
   An error entry is true: a missing package is the one named; a trail, read backwards, leads from a
   requested name to the package and uses up the depth; only a requested package that can itself be
   read is called invalid, and some dependency of it is missing or too deep.
   */
  ghost predicate Explains(stage: Stage, names: seq<PackageName>, recursion: nat, k: PackageName, e: Error) {
    match e
    case NotFound(m) => m == k && k !in stage && Reachable(stage, names, k)
    case Recursion(trail) => |trail| == recursion && PathFrom(stage, names, Reversed(trail) + [k])
    case DependencyInvalid(m) =>
      m == k && k in names && k in stage && recursion > 0 && !Bounded(stage, stage[k], recursion - 1)
  }

  lemma ExplainsMore(stage: Stage, names: seq<PackageName>, all: seq<PackageName>, recursion: nat, k: PackageName,
                     e: Error)
    requires Explains(stage, names, recursion, k, e) && forall n :: n in names ==> n in all
    ensures Explains(stage, all, recursion, k, e)
  {
    if e.NotFound? {
      var p :| PathFrom(stage, names, p) && p[|p| - 1] == k;
      assert PathFrom(stage, all, p);
    }
  }

  lemma ExplainsThrough(stage: Stage, names: seq<PackageName>, recursion: nat, n: PackageName, k: PackageName, e: Error)
    requires recursion > 0 && n in names && n in stage && !e.DependencyInvalid?
    requires Explains(stage, stage[n], recursion - 1, k, e)
    ensures Explains(stage, names, recursion, k, e.AppendRecursion(n))
  {
    match e {
      case NotFound(_) =>
        var p :| PathFrom(stage, stage[n], p) && p[|p| - 1] == k;
        PathPrepend(stage, names, n, p);
        var q := [n] + p;
        assert q[|q| - 1] == k;
      case Recursion(trail) =>
        PathPrepend(stage, names, n, Reversed(trail) + [k]);
        assert Reversed(trail + [n]) + [k] == [n] + (Reversed(trail) + [k]);
    }
  }

  lemma VisitErrorExplains(stage: Stage, names: seq<PackageName>, recursion: nat, n: PackageName, acc: Walked,
                           k: PackageName)
    requires n in names && n !in acc.results && k !in acc.results
    requires k in Visit(stage, n, recursion, acc).results && Visit(stage, n, recursion, acc).results[k].Bad?
    requires recursion > 0 && n in stage ==>
      var inner := Walk(stage, stage[n], recursion - 1);
      k in inner.results && inner.results[k].Bad? ==>
        Explains(stage, stage[n], recursion - 1, k, inner.results[k].error)
    ensures Explains(stage, names, recursion, k, Visit(stage, n, recursion, acc).results[k].error)
  {
    if recursion == 0 || n !in stage {
      assert PathFrom(stage, names, [n]);
      assert Reversed([]) + [n] == [n];
    } else {
      var inner := Walk(stage, stage[n], recursion - 1);
      AbsorbEntries(n, acc, inner, k);
      if k in inner.results && inner.results[k].Bad? {
        UnlistedIsNotInvalid(stage, stage[n], recursion - 1, k);
        ExplainsThrough(stage, names, recursion, n, k, inner.results[k].error);
      } else {
        ErrorsExactlyWhen(stage, stage[n], recursion - 1);
      }
    }
  }

  /** Only a listed package is called invalid. */
  lemma {:induction false} UnlistedIsNotInvalid(stage: Stage, names: seq<PackageName>, recursion: nat, k: PackageName)
    requires k in Walk(stage, names, recursion).results && k !in Walk(stage, names, recursion).list
    ensures Walk(stage, names, recursion).results[k].Bad?
    ensures !Walk(stage, names, recursion).results[k].error.DependencyInvalid?
    decreases recursion, |names|
  {
    WalkIsWellFormed(stage, names, recursion);
    var last := |names| - 1;
    var n, acc := names[last], Walk(stage, names[..last], recursion);
    WalkExtends(stage, names, recursion, last);
    WalkKeepsEntries(stage, names, recursion, last);
    if k in acc.results {
      UnlistedIsNotInvalid(stage, names[..last], recursion, k);
    } else if recursion > 0 && n in stage {
      var inner := Walk(stage, stage[n], recursion - 1);
      WalkIsWellFormed(stage, stage[n], recursion - 1);
      AbsorbEntries(n, acc, inner, k);
      AbsorbContents(stage, n, acc, inner, k);
      UnlistedIsNotInvalid(stage, stage[n], recursion - 1, k);
    }
  }

  lemma {:induction false} EntryExplainsItself(stage: Stage, names: seq<PackageName>, recursion: nat, k: PackageName)
    requires k in Walk(stage, names, recursion).results && Walk(stage, names, recursion).results[k].Bad?
    ensures Explains(stage, names, recursion, k, Walk(stage, names, recursion).results[k].error)
    decreases recursion, |names|
  {
    var last := |names| - 1;
    var n, acc := names[last], Walk(stage, names[..last], recursion);
    WalkKeepsEntries(stage, names, recursion, last);
    if k in acc.results {
      EntryExplainsItself(stage, names[..last], recursion, k);
      ExplainsMore(stage, names[..last], names, recursion, k, acc.results[k].error);
    } else {
      if recursion > 0 && n in stage {
        var inner := Walk(stage, stage[n], recursion - 1);
        if k in inner.results && inner.results[k].Bad? {
          EntryExplainsItself(stage, stage[n], recursion - 1, k);
        }
      }
      VisitErrorExplains(stage, names, recursion, n, acc, k);
    }
  }
}
