/** The three dependency walks of `src/recipe.rs`, stated over the edges between recipes on disk. */
module RecipeEdges {
  import opened Names
  import opened Recipes

  // ---- Edges between recipes on disk ----

  predicate OnDisk(repo: Repo, n: PackageName) { n.base in repo }

  /** A host recipe builds against host packages only. */
  ghost predicate Needs(a: PackageName, deps: seq<PackageName>, b: PackageName) {
    if a.IsHost() then MappedToHost(a, deps, b) else b in deps
  }

  ghost predicate BuildEdge(repo: Repo, a: PackageName, b: PackageName) {
    OnDisk(repo, a) && Needs(a, repo[a.base].build, b)
  }

  ghost predicate DevEdge(repo: Repo, a: PackageName, b: PackageName) {
    OnDisk(repo, a) && Needs(a, repo[a.base].dev, b)
  }

  /** `b` is a runtime (package) dependency of `a`; these are not mapped. */
  ghost predicate PackageEdge(repo: Repo, a: PackageName, b: PackageName) {
    OnDisk(repo, a) && b in repo[a.base].package
  }

  /** Build edges, and dev and package edges where asked for. */
  ghost predicate Edge(repo: Repo, dev: bool, package: bool, a: PackageName, b: PackageName) {
    BuildEdge(repo, a, b) || (dev && DevEdge(repo, a, b)) || (package && PackageEdge(repo, a, b))
  }

  ghost predicate EdgePath(repo: Repo, dev: bool, package: bool, names: seq<PackageName>, p: seq<PackageName>) {
    |p| > 0 && p[0] in names
    && forall k, n :: 0 <= k && n == k + 1 && n < |p| ==> Edge(repo, dev, package, p[k], p[n])
  }

  /** Every such path leads to a recipe on disk and has at most `limit` names. */
  ghost predicate Shallow(repo: Repo, dev: bool, package: bool, names: seq<PackageName>, limit: nat) {
    forall p :: EdgePath(repo, dev, package, names, p) ==> |p| <= limit && OnDisk(repo, p[|p| - 1])
  }

  ghost predicate Reached(repo: Repo, dev: bool, package: bool, names: seq<PackageName>, x: PackageName) {
    exists p :: EdgePath(repo, dev, package, names, p) && p[|p| - 1] == x
  }

  ghost predicate EdgesBefore(repo: Repo, dev: bool, package: bool, list: seq<PackageName>, k: nat)
    requires k < |list|
  {
    forall d :: Edge(repo, dev, package, list[k], d) ==> d in list[..k]
  }

  /** Without duplicates, everything strictly after what it depends on, and nothing but what is reached. */
  ghost predicate OrderedClosureOf(repo: Repo, dev: bool, package: bool, names: seq<PackageName>,
                                   list: seq<PackageName>)
  {
    && Distinct(list)
    && (forall k :: 0 <= k < |list| ==> EdgesBefore(repo, dev, package, list, k))
    && (forall x :: x in list <==> Reached(repo, dev, package, names, x))
  }

  // ---- The flags mean these edges ----

  lemma LoadedNeeds(repo: Repo, a: PackageName)
    ensures Load(repo, a).Some? <==> OnDisk(repo, a)
    ensures OnDisk(repo, a) ==>
      var r := Load(repo, a).value;
      && (forall b :: b in r.build <==> BuildEdge(repo, a, b))
      && (forall b :: b in r.dev <==> DevEdge(repo, a, b))
      && (forall b :: b in r.package <==> PackageEdge(repo, a, b))
  {
    if OnDisk(repo, a) && a.IsHost() {
      HostDependenciesAreHost(a, repo[a.base].build);
      HostDependenciesAreHost(a, repo[a.base].dev);
    }
  }

  lemma GroupsHold(repo: Repo, f: Flags, a: PackageName)
    requires OnDisk(repo, a)
    ensures var r := Load(repo, a).value;
      && (forall g :: g in Groups(repo, f, a) ==>
            || (f.followBuild && g == Group(r.build, f.collectBuild))
            || (f.followDev && g == Group(r.dev, f.collectBuild))
            || (f.followPackage && g == Group(r.package, f.collectPackage)))
      && (f.followBuild ==> Group(r.build, f.collectBuild) in Groups(repo, f, a))
      && (f.followDev ==> Group(r.dev, f.collectBuild) in Groups(repo, f, a))
      && (f.followPackage ==> Group(r.package, f.collectPackage) in Groups(repo, f, a))
  {}

  lemma FlagEdges(repo: Repo, f: Flags, a: PackageName, b: PackageName)
    ensures Follows(repo, f, a, b)
            <==> || (f.followBuild && BuildEdge(repo, a, b)) || (f.followDev && DevEdge(repo, a, b))
                 || (f.followPackage && PackageEdge(repo, a, b))
    ensures Keeps(repo, f, a, b)
            <==> || (f.followBuild && f.collectBuild && BuildEdge(repo, a, b))
                 || (f.followDev && f.collectBuild && DevEdge(repo, a, b))
                 || (f.followPackage && f.collectPackage && PackageEdge(repo, a, b))
  {
    LoadedNeeds(repo, a);
    if OnDisk(repo, a) {
      GroupsHold(repo, f, a);
    }
  }

  lemma FlagPaths(repo: Repo, f: Flags, names: seq<PackageName>, p: seq<PackageName>)
    requires f.followBuild
    ensures PathFrom(repo, f, names, p) <==> EdgePath(repo, f.followDev, f.followPackage, names, p)
  {
    if PathFrom(repo, f, names, p) {
      forall k, n | 0 <= k && n == k + 1 && n < |p|
        ensures Edge(repo, f.followDev, f.followPackage, p[k], p[n])
      {
        assert Link(repo, f, p, k);
        FlagEdges(repo, f, p[k], p[n]);
      }
    } else if EdgePath(repo, f.followDev, f.followPackage, names, p) {
      forall k | 0 <= k < |p| - 1 ensures Link(repo, f, p, k) {
        FlagEdges(repo, f, p[k], p[k + 1]);
      }
    }
  }

  lemma FlagsBounded(repo: Repo, f: Flags, names: seq<PackageName>)
    requires f.followBuild
    ensures Bounded(repo, f, names, WALK_DEPTH) <==> Shallow(repo, f.followDev, f.followPackage, names, 15)
  {
    forall p ensures PathFrom(repo, f, names, p) <==> EdgePath(repo, f.followDev, f.followPackage, names, p) {
      FlagPaths(repo, f, names, p);
    }
    forall n ensures Load(repo, n).Some? <==> OnDisk(repo, n) {
      LoadedNeeds(repo, n);
    }
  }

  lemma FlagsReach(repo: Repo, f: Flags, names: seq<PackageName>, x: PackageName)
    requires f.followBuild
    ensures Reachable(repo, f, names, x) <==> Reached(repo, f.followDev, f.followPackage, names, x)
  {
    if p :| PathFrom(repo, f, names, p) && p[|p| - 1] == x {
      FlagPaths(repo, f, names, p);
    }
    if p :| EdgePath(repo, f.followDev, f.followPackage, names, p) && p[|p| - 1] == x {
      FlagPaths(repo, f, names, p);
    }
  }

  lemma FlagsOrder(repo: Repo, f: Flags, list: seq<PackageName>, k: nat)
    requires f.followBuild && k < |list| && DepsBefore(repo, f, list, k)
    ensures EdgesBefore(repo, f.followDev, f.followPackage, list, k)
  {
    forall d | Edge(repo, f.followDev, f.followPackage, list[k], d) ensures d in list[..k] {
      FlagEdges(repo, f, list[k], d);
    }
  }

  lemma ClosureOverEdges(repo: Repo, names: seq<PackageName>, f: Flags)
    requires f.followBuild && CollectsAllFollowed(f)
    ensures var r := Collect(repo, names, f, true, WALK_DEPTH);
      && (r.Ok? <==> Shallow(repo, f.followDev, f.followPackage, names, 15))
      && (r.Ok? ==> OrderedClosureOf(repo, f.followDev, f.followPackage, names, r.value))
  {
    SucceedsExactlyWhenBounded(repo, names, f, true, WALK_DEPTH);
    FlagsBounded(repo, f, names);
    if Collect(repo, names, f, true, WALK_DEPTH).Ok? {
      OrderedClosure(repo, names, f, WALK_DEPTH);
      var list := Collect(repo, names, f, true, WALK_DEPTH).value;
      forall k | 0 <= k < |list| ensures EdgesBefore(repo, f.followDev, f.followPackage, list, k) {
        FlagsOrder(repo, f, list, k);
      }
      forall x ensures x in list <==> Reached(repo, f.followDev, f.followPackage, names, x) {
        FlagsReach(repo, f, names, x);
      }
    }
  }

  // ---- The three walks ----

  /**
   The build closure: `get_build_deps_recursive` succeeds exactly when every path of build edges,
   and with `include_dev` of dev edges, resolves and has at most 15 names; the result is then the
   closure along these edges, each recipe once and after what it depends on.
   */
  lemma {:induction false} BuildDepsIsTheOrderedClosure(repo: Repo, names: seq<PackageName>, includeDev: bool)
    ensures var r := BuildDeps(repo, names, includeDev);
      && (r.Ok? <==> Shallow(repo, includeDev, false, names, 15))
      && (r.Ok? ==> OrderedClosureOf(repo, includeDev, false, names, r.value))
  {
    ClosureOverEdges(repo, names, BuildFlags(includeDev));
  }

  /** `get_all_deps_names_recursive` is the same over build, package and with `include_dev` dev edges. */
  lemma {:induction false} AllDepsIsTheOrderedClosure(repo: Repo, names: seq<PackageName>, includeDev: bool)
    ensures var r := AllDeps(repo, names, includeDev);
      && (r.Ok? <==> Shallow(repo, includeDev, true, names, 15))
      && (r.Ok? ==> OrderedClosureOf(repo, includeDev, true, names, r.value))
  {
    ClosureOverEdges(repo, names, AllFlags(includeDev));
  }

  /** `x` ends a path of build and package edges whose last edge is a package edge. */
  ghost predicate RuntimeEnd(repo: Repo, names: seq<PackageName>, x: PackageName) {
    exists p :: EdgePath(repo, false, true, names, p) && |p| > 1 && p[|p| - 1] == x && PackageEdge(repo, p[|p| - 2], x)
  }

  /**
   The runtime closure: `get_package_deps_recursive` succeeds exactly when every path of build and
   package edges resolves and has at most 15 names; its result is then, each once, exactly the roots,
   if asked for, plus every name at the end of such a path whose last edge is a package edge.
   */
  lemma {:induction false} PackageDepsAreRuntimeEnds(repo: Repo, names: seq<PackageName>, includeNames: bool)
    ensures var r := PackageDeps(repo, names, includeNames);
      && (r.Ok? <==> Shallow(repo, false, true, names, 15))
      && (r.Ok? ==> Distinct(r.value))
      && (r.Ok? ==> forall x :: x in r.value <==> (includeNames && x in names) || RuntimeEnd(repo, names, x))
  {
    SucceedsExactlyWhenBounded(repo, names, PACKAGE_FLAGS, includeNames, WALK_DEPTH);
    FlagsBounded(repo, PACKAGE_FLAGS, names);
    if PackageDeps(repo, names, includeNames).Ok? {
      CollectsExactly(repo, names, PACKAGE_FLAGS, includeNames, WALK_DEPTH);
      forall x
        ensures Wanted(repo, PACKAGE_FLAGS, names, includeNames, x)
                <==> (includeNames && x in names) || RuntimeEnd(repo, names, x)
      {
        WantedAtRuntime(repo, names, includeNames, x);
      }
    }
  }

  lemma WantedAtRuntime(repo: Repo, names: seq<PackageName>, includeNames: bool, x: PackageName)
    ensures Wanted(repo, PACKAGE_FLAGS, names, includeNames, x)
            <==> (includeNames && x in names) || RuntimeEnd(repo, names, x)
  {
    if p :| EndsKept(repo, PACKAGE_FLAGS, names, includeNames, p, x) {
      FlagPaths(repo, PACKAGE_FLAGS, names, p);
      if |p| > 1 {
        FlagEdges(repo, PACKAGE_FLAGS, p[|p| - 2], x);
      }
    }
    if includeNames && x in names {
      assert EndsKept(repo, PACKAGE_FLAGS, names, includeNames, [x], x);
    }
    if p :| EdgePath(repo, false, true, names, p) && |p| > 1 && p[|p| - 1] == x && PackageEdge(repo, p[|p| - 2], x) {
      FlagPaths(repo, PACKAGE_FLAGS, names, p);
      FlagEdges(repo, PACKAGE_FLAGS, p[|p| - 2], x);
      assert EndsKept(repo, PACKAGE_FLAGS, names, includeNames, p, x);
    }
  }

  /** Everything a host recipe builds against, however deep, is itself a host recipe. */
  lemma {:induction false} HostClosureIsHost(repo: Repo, dev: bool, names: seq<PackageName>, p: seq<PackageName>)
    requires forall n :: n in names ==> n.IsHost()
    requires EdgePath(repo, dev, false, names, p)
    ensures p[|p| - 1].IsHost()
    decreases |p|
  {
    if |p| > 1 {
      var k := |p| - 1;
      HostClosureIsHost(repo, dev, names, p[..k]);
      assert Edge(repo, dev, false, p[k - 1], p[k]);
    }
  }

  // ---- The order of the list ----

  /** What following one dependency list of `n`, or not, makes of the list so far. */
  function Adds(repo: Repo, follow: bool, deps: seq<PackageName>, collect: bool, n: PackageName, f: Flags, depth: nat,
                before: Result<seq<PackageName>, Error>): Result<seq<PackageName>, Error>
    requires depth > 0
  {
    if !follow || before.Err? then before
    else
      match Collect(repo, deps, f, collect, depth - 1)
      case Err(e) => Err(e.AppendRecursion(n))
      case Ok(more) => Ok(Extend(before.value, more))
  }

  lemma GroupAdds(repo: Repo, gs: seq<Group>, g: Group, n: PackageName, f: Flags, depth: nat)
    requires depth > 0
    ensures FollowAll(repo, gs + [g], n, f, depth, [])
         == Adds(repo, true, g.deps, g.collect, n, f, depth, FollowAll(repo, gs, n, f, depth, []))
  {
    assert (gs + [g])[..|gs|] == gs;
  }

  /** The followed lists in the order of the source. */
  lemma GroupsAdd(repo: Repo, n: PackageName, f: Flags, depth: nat)
    requires depth > 0 && OnDisk(repo, n)
    ensures var r := Load(repo, n).value;
      var built := Adds(repo, f.followBuild, r.build, f.collectBuild, n, f, depth, Ok([]));
      var dev := Adds(repo, f.followDev, r.dev, f.collectBuild, n, f, depth, built);
      FollowAll(repo, Groups(repo, f, n), n, f, depth, [])
      == Adds(repo, f.followPackage, r.package, f.collectPackage, n, f, depth, dev)
  {
    var r := Load(repo, n).value;
    var b, d, p := Group(r.build, f.collectBuild), Group(r.dev, f.collectBuild), Group(r.package, f.collectPackage);
    var one := if f.followBuild then [b] else [];
    var two := if f.followDev then one + [d] else one;
    var three := if f.followPackage then two + [p] else two;
    assert Groups(repo, f, n) == three;
    var built := Adds(repo, f.followBuild, r.build, f.collectBuild, n, f, depth, Ok([]));
    assert FollowAll(repo, one, n, f, depth, []) == built by {
      GroupAdds(repo, [], b, n, f, depth);
      assert [] + [b] == [b];
    }
    assert FollowAll(repo, two, n, f, depth, [])
        == Adds(repo, f.followDev, r.dev, f.collectBuild, n, f, depth, built) by {
      GroupAdds(repo, one, d, n, f, depth);
    }
    GroupAdds(repo, two, p, n, f, depth);
  }

  lemma OneIsVisited(repo: Repo, n: PackageName, f: Flags, collectSelf: bool, depth: nat)
    requires depth > 0
    ensures Collect(repo, [n], f, collectSelf, depth) == Visit(repo, n, f, collectSelf, depth, [])
  {
    assert [n][..|[n]| - 1] == [];
    assert CollectAll(repo, [], f, collectSelf, depth) == Ok([]);
  }

  /**
   What one recipe brings: the results for its build, its dev and its package dependencies, as far
   as they are followed, in this order and without repeats, and then, if collected, the recipe
   itself; the first of them to fail decides the error.
   */
  lemma {:induction false} OneRecipeInOrder(repo: Repo, n: PackageName, f: Flags, collectSelf: bool, depth: nat)
    requires depth > 0 && OnDisk(repo, n)
    ensures var r := Load(repo, n).value;
      var built := Adds(repo, f.followBuild, r.build, f.collectBuild, n, f, depth, Ok([]));
      var dev := Adds(repo, f.followDev, r.dev, f.collectBuild, n, f, depth, built);
      var all := Adds(repo, f.followPackage, r.package, f.collectPackage, n, f, depth, dev);
      Collect(repo, [n], f, collectSelf, depth) == if all.Ok? && collectSelf then Ok(Extend(all.value, [n])) else all
  {
    OneIsVisited(repo, n, f, collectSelf, depth);
    GroupsAdd(repo, n, f, depth);
  }

  // ---- What an error says ----

  /** A missing recipe is named and reached; a trail, read backwards, is a path that uses up the depth. */
  ghost predicate Explains(repo: Repo, f: Flags, names: seq<PackageName>, depth: nat, e: Error) {
    match e
    case NotFound(x) => !OnDisk(repo, x) && Reachable(repo, f, names, x)
    case Recursion(trail) => |trail| == depth && (depth > 0 ==> PathFrom(repo, f, names, Reversed(trail)))
  }

  lemma MissingThrough(repo: Repo, f: Flags, names: seq<PackageName>, n: PackageName, g: Group, x: PackageName)
    requires n in names && g in Groups(repo, f, n) && Reachable(repo, f, g.deps, x)
    ensures Reachable(repo, f, names, x)
  {
    var p :| PathFrom(repo, f, g.deps, p) && p[|p| - 1] == x;
    var q := [n] + p;
    PathPrepend(repo, f, names, n, g, p);
    assert q[|q| - 1] == x;
  }

  lemma TrailThrough(repo: Repo, f: Flags, names: seq<PackageName>, n: PackageName, g: Group, trail: seq<PackageName>)
    requires n in names && g in Groups(repo, f, n) && (trail != [] ==> PathFrom(repo, f, g.deps, Reversed(trail)))
    ensures PathFrom(repo, f, names, Reversed(trail + [n]))
  {
    assert Reversed(trail + [n]) == [n] + Reversed(trail);
    if trail != [] {
      PathPrepend(repo, f, names, n, g, Reversed(trail));
    }
  }

  lemma ExplainsThrough(repo: Repo, f: Flags, names: seq<PackageName>, depth: nat, n: PackageName, g: Group, e: Error)
    requires depth > 0 && n in names && g in Groups(repo, f, n) && Explains(repo, f, g.deps, depth - 1, e)
    ensures Explains(repo, f, names, depth, e.AppendRecursion(n))
  {
    match e {
      case NotFound(x) => MissingThrough(repo, f, names, n, g, x);
      case Recursion(trail) => TrailThrough(repo, f, names, n, g, trail);
    }
  }

  lemma {:induction false} FollowedErrorExplains(repo: Repo, gs: seq<Group>, n: PackageName, f: Flags, depth: nat,
                                                 acc: seq<PackageName>, names: seq<PackageName>)
    requires depth > 0 && n in names && forall g :: g in gs ==> g in Groups(repo, f, n)
    requires FollowAll(repo, gs, n, f, depth, acc).Err?
    ensures Explains(repo, f, names, depth, FollowAll(repo, gs, n, f, depth, acc).error)
    decreases depth, 0, |gs|
  {
    var k := |gs| - 1;
    if FollowAll(repo, gs[..k], n, f, depth, acc).Err? {
      FollowedErrorExplains(repo, gs[..k], n, f, depth, acc, names);
    } else {
      assert gs[k] in gs;
      ErrorExplainsItself(repo, gs[k].deps, f, gs[k].collect, depth - 1);
      ExplainsThrough(repo, f, names, depth, n, gs[k], Collect(repo, gs[k].deps, f, gs[k].collect, depth - 1).error);
    }
  }

  lemma {:induction false} CollectedErrorExplains(repo: Repo, names: seq<PackageName>, f: Flags, collectSelf: bool,
                                                  depth: nat, all: seq<PackageName>)
    requires depth > 0 && names <= all && CollectAll(repo, names, f, collectSelf, depth).Err?
    ensures Explains(repo, f, all, depth, CollectAll(repo, names, f, collectSelf, depth).error)
    decreases depth, 1, |names|
  {
    var k := |names| - 1;
    assert names[k] == all[k];
    if CollectAll(repo, names[..k], f, collectSelf, depth).Err? {
      CollectedErrorExplains(repo, names[..k], f, collectSelf, depth, all);
    } else if OnDisk(repo, names[k]) {
      LoadedNeeds(repo, names[k]);
      FollowedErrorExplains(repo, Groups(repo, f, names[k]), names[k], f, depth,
                            CollectAll(repo, names[..k], f, collectSelf, depth).value, all);
    } else {
      LoadedNeeds(repo, names[k]);
      assert PathFrom(repo, f, all, [names[k]]);
    }
  }

  /**
   The error of a failed walk is true: it names a recipe that is reached and not on disk, or its
   trail is, innermost caller first, a followed path from the roots as long as the depth allows.
   */
  lemma {:induction false} ErrorExplainsItself(repo: Repo, names: seq<PackageName>, f: Flags, collectSelf: bool,
                                               depth: nat)
    requires Collect(repo, names, f, collectSelf, depth).Err?
    ensures Explains(repo, f, names, depth, Collect(repo, names, f, collectSelf, depth).error)
    decreases depth, 2, 0
  {
    if depth > 0 {
      CollectedErrorExplains(repo, names, f, collectSelf, depth, names);
    }
  }
}
