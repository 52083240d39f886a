/**
 The depth-bounded dependency collector of `src/recipe.rs` and the list assembly built on it.

 A recipe repository maps base names to recipes. A collected recipe is determined by its name,
 so a recipe list is modelled by its list of names.
 */
module Recipes {
  import opened Names

  datatype Recipe = Recipe(build: seq<PackageName>, dev: seq<PackageName>, package: seq<PackageName>)

  type Repo = map<string, Recipe>

  /** How many levels the walkers descend by default. */
  const WALK_DEPTH: nat := 16

  datatype Error =
    | NotFound(name: PackageName)
    | Recursion(trail: seq<PackageName>)
  {
    /** `append_recursion`: every caller the error passes through adds its own name. */
    function AppendRecursion(name: PackageName): Error {
      match this
      case NotFound(_) => this
      case Recursion(trail) => Recursion(trail + [name])
    }
  }

  // ---- Loading one recipe ----

  /** What a dependency of the host recipe `this` becomes. */
  function HostDependency(self: PackageName, p: PackageName): Option<PackageName> {
    if p.IsHost() then
      if self.suffix.None? && p.base == self.base then None else Some(p)
    else if p.IsTarget() then None
    else Some(p.WithHost())
  }

  function HostDependencies(self: PackageName, deps: seq<PackageName>): seq<PackageName>
  {
    if deps == [] then []
    else
      var rest := HostDependencies(self, deps[1..]);
      match HostDependency(self, deps[0])
      case None => rest
      case Some(d) => [d] + rest
  }

  /** `CookRecipe::from_name`: look the base name up and map the build dependencies of host recipes. */
  function Load(repo: Repo, name: PackageName): Option<Recipe> {
    if name.base !in repo then None
    else
      var r := repo[name.base];
      Some(if name.IsHost() then
             r.(build := HostDependencies(name, r.build), dev := HostDependencies(name, r.dev))
           else r)
  }

  // ---- What the collector follows ----

  /** The five flags handed down unchanged through the recursion. */
  datatype Flags = Flags(followBuild: bool, followDev: bool, followPackage: bool,
                         collectBuild: bool, collectPackage: bool)

  /** One followed dependency list and whether its own names are collected. */
  datatype Group = Group(deps: seq<PackageName>, collect: bool)

  function Groups(repo: Repo, f: Flags, name: PackageName): (r: seq<Group>)
    ensures f.followBuild || f.followDev || f.followPackage ==> Load(repo, name).None? || r != []
  {
    match Load(repo, name)
    case None => []
    case Some(r) =>
      (if f.followBuild then [Group(r.build, f.collectBuild)] else [])
      + (if f.followDev then [Group(r.dev, f.collectBuild)] else [])
      + (if f.followPackage then [Group(r.package, f.collectPackage)] else [])
  }

  /** `name` has an edge to `d` that the walk follows. */
  ghost predicate Follows(repo: Repo, f: Flags, name: PackageName, d: PackageName) {
    exists g :: g in Groups(repo, f, name) && d in g.deps
  }

  /** ... and that makes `d` part of the result. */
  ghost predicate Keeps(repo: Repo, f: Flags, name: PackageName, d: PackageName) {
    exists g :: g in Groups(repo, f, name) && g.collect && d in g.deps
  }

  // ---- The collector as a function ----

  /** `acc` followed by the elements of `more` it does not hold yet. */
  function Extend(acc: seq<PackageName>, more: seq<PackageName>): seq<PackageName>
    decreases |more|
  {
    if more == [] then acc
    else
      var before := Extend(acc, more[..|more| - 1]);
      var last := more[|more| - 1];
      if last in before then before else before + [last]
  }

  function Collect(repo: Repo, names: seq<PackageName>, f: Flags, collectSelf: bool, depth: nat)
    : Result<seq<PackageName>, Error>
    decreases depth, 3, 0
  {
    if depth == 0 then Err(Recursion([])) else CollectAll(repo, names, f, collectSelf, depth)
  }

  function CollectAll(repo: Repo, names: seq<PackageName>, f: Flags, collectSelf: bool, depth: nat)
    : Result<seq<PackageName>, Error>
    requires depth > 0
    decreases depth, 2, |names|
  {
    if names == [] then Ok([])
    else
      match CollectAll(repo, names[..|names| - 1], f, collectSelf, depth)
      case Err(e) => Err(e)
      case Ok(acc) => Visit(repo, names[|names| - 1], f, collectSelf, depth, acc)
  }

  function Visit(repo: Repo, name: PackageName, f: Flags, collectSelf: bool, depth: nat, acc: seq<PackageName>)
    : Result<seq<PackageName>, Error>
    requires depth > 0
    decreases depth, 1, 0
  {
    if Load(repo, name).None? then Err(NotFound(name))
    else
      match FollowAll(repo, Groups(repo, f, name), name, f, depth, acc)
      case Err(e) => Err(e)
      case Ok(got) => Ok(if collectSelf then Extend(got, [name]) else got)
  }

  function FollowAll(repo: Repo, groups: seq<Group>, name: PackageName, f: Flags, depth: nat, acc: seq<PackageName>)
    : Result<seq<PackageName>, Error>
    requires depth > 0
    decreases depth, 0, |groups|
  {
    if groups == [] then Ok(acc)
    else
      match FollowAll(repo, groups[..|groups| - 1], name, f, depth, acc)
      case Err(e) => Err(e)
      case Ok(got) =>
        var g := groups[|groups| - 1];
        match Collect(repo, g.deps, f, g.collect, depth - 1)
        case Err(e) => Err(e.AppendRecursion(name))
        case Ok(more) => Ok(Extend(got, more))
  }

  // ---- Paths ----

  ghost predicate Link(repo: Repo, f: Flags, p: seq<PackageName>, k: nat)
    requires k + 1 < |p|
  {
    Follows(repo, f, p[k], p[k + 1])
  }

  /** A nonempty chain of followed dependencies that starts in `names`. */
  ghost predicate PathFrom(repo: Repo, f: Flags, names: seq<PackageName>, p: seq<PackageName>) {
    |p| > 0 && p[0] in names && forall k :: 0 <= k < |p| - 1 ==> Link(repo, f, p, k)
  }

  /** Every reachable name resolves and no path has more than `depth - 1` names. */
  ghost predicate Bounded(repo: Repo, f: Flags, names: seq<PackageName>, depth: nat) {
    depth > 0
    && forall p :: PathFrom(repo, f, names, p) ==> |p| <= depth - 1 && Load(repo, p[|p| - 1]).Some?
  }

  /** `x` ends a path whose last edge is a kept one, or is a root and roots are collected. */
  ghost predicate EndsKept(repo: Repo, f: Flags, names: seq<PackageName>, collectSelf: bool,
                           p: seq<PackageName>, x: PackageName)
  {
    && PathFrom(repo, f, names, p) && p[|p| - 1] == x
    && (if |p| == 1 then collectSelf else Keeps(repo, f, p[|p| - 2], x))
  }

  ghost predicate Wanted(repo: Repo, f: Flags, names: seq<PackageName>, collectSelf: bool, x: PackageName) {
    exists p :: EndsKept(repo, f, names, collectSelf, p, x)
  }

  // ---- Success ----

  lemma {:induction false} FollowAllOk(repo: Repo, groups: seq<Group>, name: PackageName, f: Flags, depth: nat,
                                       acc: seq<PackageName>)
    requires depth > 0
    ensures FollowAll(repo, groups, name, f, depth, acc).Ok?
            <==> forall g :: g in groups ==> Collect(repo, g.deps, f, g.collect, depth - 1).Ok?
    decreases |groups|
  {
    if groups != [] {
      var n := |groups| - 1;
      FollowAllOk(repo, groups[..n], name, f, depth, acc);
      assert groups == groups[..n] + [groups[n]];
    }
  }

  lemma {:induction false} CollectAllOk(repo: Repo, names: seq<PackageName>, f: Flags, collectSelf: bool, depth: nat)
    requires depth > 0
    ensures CollectAll(repo, names, f, collectSelf, depth).Ok?
            <==> forall n :: n in names ==>
                   && Load(repo, n).Some?
                   && forall g :: g in Groups(repo, f, n) ==> Collect(repo, g.deps, f, g.collect, depth - 1).Ok?
    decreases |names|
  {
    if names != [] {
      var k := |names| - 1;
      CollectAllOk(repo, names[..k], f, collectSelf, depth);
      assert names == names[..k] + [names[k]];
      match CollectAll(repo, names[..k], f, collectSelf, depth) {
        case Err(_) =>
        case Ok(acc) => FollowAllOk(repo, Groups(repo, f, names[k]), names[k], f, depth, acc);
      }
    }
  }

  lemma OkMeansGroupsOk(repo: Repo, names: seq<PackageName>, f: Flags, collectSelf: bool, depth: nat, n: PackageName,
                        g: Group)
    requires Collect(repo, names, f, collectSelf, depth).Ok? && n in names && g in Groups(repo, f, n)
    ensures Collect(repo, g.deps, f, g.collect, depth - 1).Ok?
  {
    CollectAllOk(repo, names, f, collectSelf, depth);
  }

  lemma {:induction false} OkBoundsPath(repo: Repo, names: seq<PackageName>, f: Flags, collectSelf: bool, depth: nat,
                                        p: seq<PackageName>)
    requires f.followBuild || f.followDev || f.followPackage
    requires Collect(repo, names, f, collectSelf, depth).Ok? && PathFrom(repo, f, names, p)
    ensures |p| <= depth - 1 && Load(repo, p[|p| - 1]).Some?
    decreases depth
  {
    CollectAllOk(repo, names, f, collectSelf, depth);
    if |p| == 1 {
      var g := Groups(repo, f, p[0])[0];
      assert g in Groups(repo, f, p[0]);
    } else {
      assert Link(repo, f, p, 0);
      var g :| g in Groups(repo, f, p[0]) && p[1] in g.deps;
      var rest := p[1..];
      forall k | 0 <= k < |rest| - 1 ensures Link(repo, f, rest, k) {
        assert Link(repo, f, p, k + 1);
      }
      OkBoundsPath(repo, g.deps, f, g.collect, depth - 1, rest);
    }
  }

  /** Prepending a followed edge to a path gives a path. */
  lemma PathPrepend(repo: Repo, f: Flags, names: seq<PackageName>, n: PackageName, g: Group, p: seq<PackageName>)
    requires n in names && g in Groups(repo, f, n) && PathFrom(repo, f, g.deps, p)
    ensures PathFrom(repo, f, names, [n] + p)
  {
    var q := [n] + p;
    assert Follows(repo, f, n, p[0]);
    forall k | 0 <= k < |q| - 1 ensures Link(repo, f, q, k) {
      if k > 0 {
        assert Link(repo, f, p, k - 1);
      }
    }
  }

  /** A bound on the paths from `names` bounds the paths from each followed list by one less. */
  lemma BoundedStep(repo: Repo, names: seq<PackageName>, f: Flags, depth: nat, n: PackageName, g: Group)
    requires Bounded(repo, f, names, depth) && n in names && g in Groups(repo, f, n)
    ensures Bounded(repo, f, g.deps, depth - 1)
  {
    assert PathFrom(repo, f, names, [n]);
    forall p | PathFrom(repo, f, g.deps, p)
      ensures |p| <= depth - 2 && Load(repo, p[|p| - 1]).Some?
    {
      PathPrepend(repo, f, names, n, g, p);
    }
  }

  lemma {:induction false} BoundedIsOk(repo: Repo, names: seq<PackageName>, f: Flags, collectSelf: bool, depth: nat)
    requires Bounded(repo, f, names, depth)
    ensures Collect(repo, names, f, collectSelf, depth).Ok?
    decreases depth
  {
    forall n | n in names ensures Load(repo, n).Some? {
      assert PathFrom(repo, f, names, [n]);
    }
    forall n, g | n in names && g in Groups(repo, f, n)
      ensures Collect(repo, g.deps, f, g.collect, depth - 1).Ok?
    {
      BoundedStep(repo, names, f, depth, n, g);
      BoundedIsOk(repo, g.deps, f, g.collect, depth - 1);
    }
    CollectAllOk(repo, names, f, collectSelf, depth);
  }

  /**
   With at least one recurse flag set, the collector succeeds exactly when every reachable name
   resolves and no dependency path has more than `depth - 1` names.
   */
  lemma {:induction false} SucceedsExactlyWhenBounded(repo: Repo, names: seq<PackageName>, f: Flags,
                                                      collectSelf: bool, depth: nat)
    requires f.followBuild || f.followDev || f.followPackage
    ensures Collect(repo, names, f, collectSelf, depth).Ok? <==> Bounded(repo, f, names, depth)
  {
    if Collect(repo, names, f, collectSelf, depth).Ok? {
      forall p | PathFrom(repo, f, names, p)
        ensures |p| <= depth - 1 && Load(repo, p[|p| - 1]).Some?
      {
        OkBoundsPath(repo, names, f, collectSelf, depth, p);
      }
    }
    if Bounded(repo, f, names, depth) {
      BoundedIsOk(repo, names, f, collectSelf, depth);
    }
  }

  // ---- Contents ----

  lemma {:induction false} ExtendContents(acc: seq<PackageName>, more: seq<PackageName>)
    ensures forall x :: x in Extend(acc, more) <==> x in acc || x in more
    ensures Distinct(acc) ==> Distinct(Extend(acc, more))
    ensures acc <= Extend(acc, more)
    decreases |more|
  {
    if more != [] {
      var k := |more| - 1;
      ExtendContents(acc, more[..k]);
      assert more == more[..k] + [more[k]];
    }
  }

  /** `x` was collected through the dependency list `g` of `n`. */
  ghost predicate Via(repo: Repo, f: Flags, depth: nat, n: PackageName, g: Group, x: PackageName)
    requires depth > 0
  {
    g in Groups(repo, f, n)
    && Collect(repo, g.deps, f, g.collect, depth - 1).Ok?
    && x in Collect(repo, g.deps, f, g.collect, depth - 1).value
  }

  lemma {:induction false} FollowAllHolds(repo: Repo, groups: seq<Group>, n: PackageName, f: Flags, depth: nat,
                                          acc: seq<PackageName>, x: PackageName)
    requires depth > 0 && FollowAll(repo, groups, n, f, depth, acc).Ok?
    requires forall g :: g in groups ==> g in Groups(repo, f, n)
    ensures var got := FollowAll(repo, groups, n, f, depth, acc).value;
      x in got <==> x in acc || exists g :: g in groups && Via(repo, f, depth, n, g, x)
    decreases |groups|
  {
    if groups != [] {
      var k := |groups| - 1;
      FollowAllHolds(repo, groups[..k], n, f, depth, acc, x);
      var g := groups[k];
      ExtendContents(FollowAll(repo, groups[..k], n, f, depth, acc).value,
                     Collect(repo, g.deps, f, g.collect, depth - 1).value);
      assert groups == groups[..k] + [g];
      assert forall h :: h in groups <==> h in groups[..k] || h == g;
      assert g in Groups(repo, f, n);
      assert x in Collect(repo, g.deps, f, g.collect, depth - 1).value <==> Via(repo, f, depth, n, g, x);
    }
  }

  lemma VisitHolds(repo: Repo, n: PackageName, f: Flags, collectSelf: bool, depth: nat, acc: seq<PackageName>,
                   x: PackageName)
    requires depth > 0 && Visit(repo, n, f, collectSelf, depth, acc).Ok?
    ensures var got := Visit(repo, n, f, collectSelf, depth, acc).value;
      x in got <==> x in acc || (collectSelf && x == n) || exists g :: Via(repo, f, depth, n, g, x)
  {
    FollowAllHolds(repo, Groups(repo, f, n), n, f, depth, acc, x);
    ExtendContents(FollowAll(repo, Groups(repo, f, n), n, f, depth, acc).value, [n]);
  }

  lemma {:induction false} CollectAllHolds(repo: Repo, names: seq<PackageName>, f: Flags, collectSelf: bool,
                                           depth: nat, x: PackageName)
    requires depth > 0 && CollectAll(repo, names, f, collectSelf, depth).Ok?
    ensures var got := CollectAll(repo, names, f, collectSelf, depth).value;
      x in got <==> (collectSelf && x in names) || exists n, g :: n in names && Via(repo, f, depth, n, g, x)
    decreases |names|
  {
    if names != [] {
      var k := |names| - 1;
      CollectAllHolds(repo, names[..k], f, collectSelf, depth, x);
      var acc := CollectAll(repo, names[..k], f, collectSelf, depth).value;
      VisitHolds(repo, names[k], f, collectSelf, depth, acc, x);
      assert names == names[..k] + [names[k]];
    }
  }

  lemma {:induction false} FollowAllDistinct(repo: Repo, groups: seq<Group>, n: PackageName, f: Flags, depth: nat,
                                             acc: seq<PackageName>)
    requires depth > 0 && Distinct(acc) && FollowAll(repo, groups, n, f, depth, acc).Ok?
    ensures Distinct(FollowAll(repo, groups, n, f, depth, acc).value)
    decreases |groups|
  {
    if groups != [] {
      var g := groups[|groups| - 1];
      FollowAllDistinct(repo, groups[..|groups| - 1], n, f, depth, acc);
      ExtendContents(FollowAll(repo, groups[..|groups| - 1], n, f, depth, acc).value,
                     Collect(repo, g.deps, f, g.collect, depth - 1).value);
    }
  }

  lemma {:induction false} CollectDistinct(repo: Repo, names: seq<PackageName>, f: Flags, collectSelf: bool,
                                           depth: nat)
    requires depth > 0 && CollectAll(repo, names, f, collectSelf, depth).Ok?
    ensures Distinct(CollectAll(repo, names, f, collectSelf, depth).value)
    decreases |names|
  {
    if names != [] {
      var k := |names| - 1;
      CollectDistinct(repo, names[..k], f, collectSelf, depth);
      var acc := CollectAll(repo, names[..k], f, collectSelf, depth).value;
      FollowAllDistinct(repo, Groups(repo, f, names[k]), names[k], f, depth, acc);
      ExtendContents(FollowAll(repo, Groups(repo, f, names[k]), names[k], f, depth, acc).value, [names[k]]);
    }
  }

  lemma KeptPrepend(repo: Repo, names: seq<PackageName>, f: Flags, collectSelf: bool, x: PackageName,
                    n: PackageName, g: Group, p: seq<PackageName>)
    requires n in names && g in Groups(repo, f, n) && EndsKept(repo, f, g.deps, g.collect, p, x)
    ensures EndsKept(repo, f, names, collectSelf, [n] + p, x)
  {
    PathPrepend(repo, f, names, n, g, p);
    var q := [n] + p;
    assert Keeps(repo, f, q[|q| - 2], x) by {
      if |p| == 1 {
        assert q[|q| - 2] == n && g.collect && x in g.deps;
      } else {
        assert q[|q| - 2] == p[|p| - 2];
      }
    }
  }

  /** The first edge of a kept path leads into one of the lists followed from its root. */
  lemma KeptSplits(repo: Repo, names: seq<PackageName>, f: Flags, collectSelf: bool, p: seq<PackageName>,
                   x: PackageName) returns (g: Group)
    requires EndsKept(repo, f, names, collectSelf, p, x) && |p| > 1
    ensures g in Groups(repo, f, p[0]) && EndsKept(repo, f, g.deps, g.collect, p[1..], x)
  {
    var rest := p[1..];
    if |p| == 2 {
      assert p[|p| - 2] == p[0];
      g :| g in Groups(repo, f, p[0]) && g.collect && x in g.deps;
    } else {
      assert Link(repo, f, p, 0);
      g :| g in Groups(repo, f, p[0]) && p[1] in g.deps;
      assert rest[|rest| - 2] == p[|p| - 2];
    }
    forall k | 0 <= k < |rest| - 1 ensures Link(repo, f, rest, k) {
      assert Link(repo, f, p, k + 1);
    }
  }

  lemma {:induction false} CollectedIsWanted(repo: Repo, names: seq<PackageName>, f: Flags, collectSelf: bool,
                                             depth: nat, x: PackageName) returns (p: seq<PackageName>)
    requires Collect(repo, names, f, collectSelf, depth).Ok?
    requires x in Collect(repo, names, f, collectSelf, depth).value
    ensures EndsKept(repo, f, names, collectSelf, p, x)
    decreases depth
  {
    CollectAllHolds(repo, names, f, collectSelf, depth, x);
    if collectSelf && x in names {
      p := [x];
    } else {
      var n, g :| n in names && Via(repo, f, depth, n, g, x);
      var rest := CollectedIsWanted(repo, g.deps, f, g.collect, depth - 1, x);
      KeptPrepend(repo, names, f, collectSelf, x, n, g, rest);
      p := [n] + rest;
    }
  }

  lemma HeldVia(repo: Repo, names: seq<PackageName>, f: Flags, collectSelf: bool, depth: nat, n: PackageName,
                g: Group, x: PackageName)
    requires depth > 0 && CollectAll(repo, names, f, collectSelf, depth).Ok?
    requires n in names && Via(repo, f, depth, n, g, x)
    ensures x in CollectAll(repo, names, f, collectSelf, depth).value
  {
    CollectAllHolds(repo, names, f, collectSelf, depth, x);
  }

  lemma {:induction false} WantedIsCollected(repo: Repo, names: seq<PackageName>, f: Flags, collectSelf: bool,
                                             depth: nat, p: seq<PackageName>, x: PackageName)
    requires Collect(repo, names, f, collectSelf, depth).Ok?
    requires EndsKept(repo, f, names, collectSelf, p, x)
    ensures x in Collect(repo, names, f, collectSelf, depth).value
    decreases depth
  {
    if |p| > 1 {
      var g := KeptSplits(repo, names, f, collectSelf, p, x);
      OkMeansGroupsOk(repo, names, f, collectSelf, depth, p[0], g);
      WantedIsCollected(repo, g.deps, f, g.collect, depth - 1, p[1..], x);
      HeldVia(repo, names, f, collectSelf, depth, p[0], g, x);
    } else {
      CollectAllHolds(repo, names, f, collectSelf, depth, x);
    }
  }

  /**
   Whatever the flags, a successful walk returns, without duplicates, exactly the names it was
   asked to collect: the roots if roots are collected, and every name at the end of a followed
   path whose last edge is a collected one.
   */
  lemma {:induction false} CollectsExactly(repo: Repo, names: seq<PackageName>, f: Flags, collectSelf: bool,
                                           depth: nat)
    requires Collect(repo, names, f, collectSelf, depth).Ok?
    ensures Distinct(Collect(repo, names, f, collectSelf, depth).value)
    ensures forall x :: x in Collect(repo, names, f, collectSelf, depth).value
                        <==> Wanted(repo, f, names, collectSelf, x)
  {
    CollectDistinct(repo, names, f, collectSelf, depth);
    forall x
      ensures x in Collect(repo, names, f, collectSelf, depth).value <==> Wanted(repo, f, names, collectSelf, x)
    {
      if x in Collect(repo, names, f, collectSelf, depth).value {
        var p := CollectedIsWanted(repo, names, f, collectSelf, depth, x);
      } else if p :| EndsKept(repo, f, names, collectSelf, p, x) {
        WantedIsCollected(repo, names, f, collectSelf, depth, p, x);
      }
    }
  }

  // ---- Order ----

  ghost predicate DepsBefore(repo: Repo, f: Flags, list: seq<PackageName>, k: nat)
    requires k < |list|
  {
    forall d :: Follows(repo, f, list[k], d) ==> d in list[..k]
  }

  /** Every element comes strictly after everything it follows. */
  ghost predicate DepsFirst(repo: Repo, f: Flags, list: seq<PackageName>) {
    forall k :: 0 <= k < |list| ==> DepsBefore(repo, f, list, k)
  }

  /** Everything that is followed is also collected. */
  predicate CollectsAllFollowed(f: Flags) {
    (f.followBuild || f.followDev ==> f.collectBuild) && (f.followPackage ==> f.collectPackage)
  }

  lemma AppendDepsFirst(repo: Repo, f: Flags, list: seq<PackageName>, last: PackageName)
    requires DepsFirst(repo, f, list)
    requires forall d :: Follows(repo, f, last, d) ==> d in list
    ensures DepsFirst(repo, f, list + [last])
  {
    var longer := list + [last];
    forall k | 0 <= k < |longer| ensures DepsBefore(repo, f, longer, k) {
      assert longer[..k] == list[..k];
      if k < |list| {
        assert DepsBefore(repo, f, list, k);
      }
    }
  }

  lemma {:induction false} ExtendDepsFirst(repo: Repo, f: Flags, acc: seq<PackageName>, more: seq<PackageName>)
    requires DepsFirst(repo, f, acc) && DepsFirst(repo, f, more)
    ensures DepsFirst(repo, f, Extend(acc, more))
    decreases |more|
  {
    if more != [] {
      var k := |more| - 1;
      forall j | 0 <= j < k ensures DepsBefore(repo, f, more[..k], j) {
        assert DepsBefore(repo, f, more, j);
        assert more[..k][..j] == more[..j];
      }
      ExtendDepsFirst(repo, f, acc, more[..k]);
      ExtendContents(acc, more[..k]);
      assert DepsBefore(repo, f, more, k);
      if more[k] !in Extend(acc, more[..k]) {
        AppendDepsFirst(repo, f, Extend(acc, more[..k]), more[k]);
      }
    }
  }

  lemma {:induction false} FollowAllDepsFirst(repo: Repo, groups: seq<Group>, n: PackageName, f: Flags, depth: nat,
                                              acc: seq<PackageName>)
    requires depth > 0 && CollectsAllFollowed(f) && DepsFirst(repo, f, acc)
    requires FollowAll(repo, groups, n, f, depth, acc).Ok?
    requires forall g :: g in groups ==> g.collect
    ensures DepsFirst(repo, f, FollowAll(repo, groups, n, f, depth, acc).value)
    ensures forall g, d :: g in groups && d in g.deps ==> d in FollowAll(repo, groups, n, f, depth, acc).value
    decreases depth, 0, |groups|
  {
    if groups != [] {
      var k := |groups| - 1;
      var g := groups[k];
      FollowAllDepsFirst(repo, groups[..k], n, f, depth, acc);
      var got := FollowAll(repo, groups[..k], n, f, depth, acc).value;
      var more := Collect(repo, g.deps, f, g.collect, depth - 1).value;
      CollectAllDepsFirst(repo, g.deps, f, depth - 1);
      ExtendDepsFirst(repo, f, got, more);
      ExtendContents(got, more);
      assert groups == groups[..k] + [g];
    }
  }

  lemma VisitDepsFirst(repo: Repo, n: PackageName, f: Flags, depth: nat, acc: seq<PackageName>)
    requires depth > 0 && CollectsAllFollowed(f) && DepsFirst(repo, f, acc)
    requires Visit(repo, n, f, true, depth, acc).Ok?
    ensures DepsFirst(repo, f, Visit(repo, n, f, true, depth, acc).value)
    ensures n in Visit(repo, n, f, true, depth, acc).value
    ensures forall x :: x in acc ==> x in Visit(repo, n, f, true, depth, acc).value
    decreases depth, 1, 0
  {
    FollowAllDepsFirst(repo, Groups(repo, f, n), n, f, depth, acc);
    var got := FollowAll(repo, Groups(repo, f, n), n, f, depth, acc).value;
    forall x | x in acc ensures x in got {
      FollowAllHolds(repo, Groups(repo, f, n), n, f, depth, acc, x);
    }
    ExtendContents(got, [n]);
    if n !in got {
      AppendDepsFirst(repo, f, got, n);
    }
    assert Extend(got, [n]) == if n in got then got else got + [n] by {
      assert [n][..0] == [];
    }
  }

  lemma {:induction false} CollectAllDepsFirst(repo: Repo, names: seq<PackageName>, f: Flags, depth: nat)
    requires depth > 0 && CollectsAllFollowed(f) && CollectAll(repo, names, f, true, depth).Ok?
    ensures DepsFirst(repo, f, CollectAll(repo, names, f, true, depth).value)
    ensures forall n :: n in names ==> n in CollectAll(repo, names, f, true, depth).value
    decreases depth, 2, |names|
  {
    if names != [] {
      var k := |names| - 1;
      CollectAllDepsFirst(repo, names[..k], f, depth);
      VisitDepsFirst(repo, names[k], f, depth, CollectAll(repo, names[..k], f, true, depth).value);
      assert names == names[..k] + [names[k]];
    }
  }

  // ---- The entry points ----

  function BuildFlags(includeDev: bool): Flags { Flags(true, includeDev, false, true, false) }

  function BuildDeps(repo: Repo, names: seq<PackageName>, includeDev: bool): Result<seq<PackageName>, Error> {
    Collect(repo, names, BuildFlags(includeDev), true, WALK_DEPTH)
  }

  const PACKAGE_FLAGS: Flags := Flags(true, false, true, false, true)

  function PackageDeps(repo: Repo, names: seq<PackageName>, includeNames: bool): Result<seq<PackageName>, Error> {
    Collect(repo, names, PACKAGE_FLAGS, includeNames, WALK_DEPTH)
  }

  /** `x` can be reached from `names` along followed edges, in any number of steps including none. */
  ghost predicate Reachable(repo: Repo, f: Flags, names: seq<PackageName>, x: PackageName) {
    exists p :: PathFrom(repo, f, names, p) && p[|p| - 1] == x
  }

  lemma AllFollowedIsWanted(repo: Repo, f: Flags, names: seq<PackageName>, x: PackageName)
    requires CollectsAllFollowed(f)
    ensures Wanted(repo, f, names, true, x) <==> Reachable(repo, f, names, x)
  {
    if p :| PathFrom(repo, f, names, p) && p[|p| - 1] == x {
      if |p| > 1 {
        assert Link(repo, f, p, |p| - 2);
        var g :| g in Groups(repo, f, p[|p| - 2]) && x in g.deps;
        assert g.collect;
      }
      assert EndsKept(repo, f, names, true, p, x);
    }
  }

  /**
   When everything followed is collected, a walk of any depth that succeeds returns the
   duplicate-free reachable closure, with every recipe after all the dependencies it follows.
   */
  lemma {:induction false} OrderedClosure(repo: Repo, names: seq<PackageName>, f: Flags, depth: nat)
    requires CollectsAllFollowed(f) && Collect(repo, names, f, true, depth).Ok?
    ensures var list := Collect(repo, names, f, true, depth).value;
      && Distinct(list) && DepsFirst(repo, f, list)
      && forall x :: x in list <==> Reachable(repo, f, names, x)
  {
    CollectsExactly(repo, names, f, true, depth);
    CollectAllDepsFirst(repo, names, f, depth);
    forall x
      ensures x in Collect(repo, names, f, true, depth).value <==> Reachable(repo, f, names, x)
    {
      AllFollowedIsWanted(repo, f, names, x);
    }
  }

  function AllFlags(includeDev: bool): Flags { Flags(true, includeDev, true, true, true) }

  function AllDeps(repo: Repo, names: seq<PackageName>, includeDev: bool): Result<seq<PackageName>, Error> {
    Collect(repo, names, AllFlags(includeDev), true, WALK_DEPTH)
  }

  /** The mapping goes dependency by dependency and keeps their order. */
  lemma {:induction false} HostDependenciesInOrder(self: PackageName, a: seq<PackageName>, b: seq<PackageName>)
    ensures HostDependencies(self, a + b) == HostDependencies(self, a) + HostDependencies(self, b)
    decreases |a|
  {
    if a == [] {
      assert a + b == b;
    } else {
      assert (a + b)[1..] == a[1..] + b;
      HostDependenciesInOrder(self, a[1..], b);
    }
  }

  /** The host packages among `deps` other than the recipe itself, and the host form of the unprefixed ones. */
  ghost predicate MappedToHost(self: PackageName, deps: seq<PackageName>, d: PackageName) {
    || (d.IsHost() && d in deps && !(self.suffix.None? && d.base == self.base))
    || (exists p :: p in deps && p.prefix == Any && p.WithHost() == d)
  }

  /** Target dependencies and the recipe's own host name are dropped; what is left are host packages. */
  lemma {:induction false} HostDependenciesAreHost(self: PackageName, deps: seq<PackageName>)
    ensures forall d :: d in HostDependencies(self, deps) ==> d.IsHost()
    ensures forall d :: d in HostDependencies(self, deps) <==> MappedToHost(self, deps, d)
    decreases |deps|
  {
    if deps != [] {
      HostDependenciesAreHost(self, deps[1..]);
      forall d ensures d in HostDependencies(self, deps) <==> MappedToHost(self, deps, d) {
        assert deps == [deps[0]] + deps[1..];
        if MappedToHost(self, deps[1..], d) {
          assert MappedToHost(self, deps, d);
        }
      }
    }
  }
}
