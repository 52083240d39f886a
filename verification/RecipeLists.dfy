/** The loops of `src/recipe.rs` that build recipe lists, and what they mean for the cook pipeline. */
module RecipeLists {
  import opened Names
  import opened Recipes
  import opened RecipeEdges
  import opened CookPipeline
  import PipelineSafety

  // ---- `new_recursive` ----

  /** One of the three identical blocks: walk a dependency list and append what is new. */
  method FollowGroup(repo: Repo, g: Group, name: PackageName, f: Flags, depth: nat,
                     recipes: seq<PackageName>, recipesSet: set<PackageName>)
    returns (r: Result<seq<PackageName>, Error>, seen: set<PackageName>)
    requires depth > 0 && recipesSet == set x | x in recipes
    ensures r == match Collect(repo, g.deps, f, g.collect, depth - 1)
                 case Err(e) => Err(e.AppendRecursion(name))
                 case Ok(more) => Ok(Extend(recipes, more))
    ensures r.Ok? ==> seen == set x | x in r.value
    decreases depth, 0, 0
  {
    var dependencies := NewRecursive(repo, g.deps, f, g.collect, depth - 1);
    if dependencies.Err? {
      return Err(dependencies.error.AppendRecursion(name)), recipesSet;
    }
    var out := recipes;
    seen := recipesSet;
    var i := 0;
    while i < |dependencies.value|
      invariant 0 <= i <= |dependencies.value|
      invariant out == Extend(recipes, dependencies.value[..i])
      invariant seen == set x | x in out
    {
      assert dependencies.value[..i + 1][..i] == dependencies.value[..i];
      var dependency := dependencies.value[i];
      if dependency !in seen {
        seen := seen + {dependency};
        out := out + [dependency];
      }
      i := i + 1;
    }
    assert dependencies.value[..i] == dependencies.value;
    r := Ok(out);
  }

  /** The blocks for the followed dependency lists of one recipe, in order. */
  method FollowGroups(repo: Repo, name: PackageName, f: Flags, depth: nat, before: seq<PackageName>,
                      beforeSet: set<PackageName>)
    returns (r: Result<seq<PackageName>, Error>, recipesSet: set<PackageName>)
    requires depth > 0 && beforeSet == set x | x in before
    ensures r == FollowAll(repo, Groups(repo, f, name), name, f, depth, before)
    ensures r.Ok? ==> recipesSet == set x | x in r.value
    decreases depth, 0, 1
  {
    var groups := Groups(repo, f, name);
    var recipes := before;
    recipesSet := beforeSet;
    var k := 0;
    while k < |groups|
      invariant 0 <= k <= |groups|
      invariant FollowAll(repo, groups[..k], name, f, depth, before) == Ok(recipes)
      invariant recipesSet == set x | x in recipes
    {
      FollowAllStep(repo, groups, name, f, depth, before, k);
      var followed, seen := FollowGroup(repo, groups[k], name, f, depth, recipes, recipesSet);
      if followed.Err? {
        FollowErrorStops(repo, groups, name, f, depth, before, k + 1);
        return followed, seen;
      }
      recipes, recipesSet := followed.value, seen;
      k := k + 1;
    }
    assert groups[..k] == groups;
    r := Ok(recipes);
  }

  method NewRecursive(repo: Repo, names: seq<PackageName>, f: Flags, collectSelf: bool, recursion: nat)
    returns (r: Result<seq<PackageName>, Error>)
    ensures r == Collect(repo, names, f, collectSelf, recursion)
    decreases recursion, 1, 0
  {
    if recursion == 0 {
      return Err(Recursion([]));
    }
    var recipes: seq<PackageName> := [];
    var recipesSet: set<PackageName> := {};
    var i := 0;
    while i < |names|
      invariant 0 <= i <= |names|
      invariant CollectAll(repo, names[..i], f, collectSelf, recursion) == Ok(recipes)
      invariant recipesSet == set x | x in recipes
    {
      var name := names[i];
      assert names[..i + 1][..i] == names[..i];
      var loaded := Load(repo, name);
      if loaded.None? {
        ErrorStops(repo, names, f, collectSelf, recursion, i + 1);
        return Err(NotFound(name));
      }
      var followed, seen := FollowGroups(repo, name, f, recursion, recipes, recipesSet);
      if followed.Err? {
        ErrorStops(repo, names, f, collectSelf, recursion, i + 1);
        return followed;
      }
      ExtendOne(followed.value, name);
      recipes, recipesSet := followed.value, seen;
      if collectSelf && name !in recipesSet {
        recipesSet := recipesSet + {name};
        recipes := recipes + [name];
      }
      i := i + 1;
    }
    assert names[..i] == names;
    r := Ok(recipes);
  }

  lemma ExtendOne(acc: seq<PackageName>, x: PackageName)
    ensures Extend(acc, [x]) == if x in acc then acc else acc + [x]
  {
    assert [x][..0] == [];
  }

  /** Once a prefix of the names fails, the whole list fails with the same error. */
  lemma ErrorStops(repo: Repo, names: seq<PackageName>, f: Flags, collectSelf: bool, depth: nat, i: nat)
    requires depth > 0 && i <= |names| && CollectAll(repo, names[..i], f, collectSelf, depth).Err?
    ensures CollectAll(repo, names, f, collectSelf, depth) == CollectAll(repo, names[..i], f, collectSelf, depth)
    decreases |names|
  {
    if i == |names| {
      assert names[..i] == names;
    } else {
      var shorter := names[..|names| - 1];
      assert shorter[..i] == names[..i];
      ErrorStops(repo, shorter, f, collectSelf, depth, i);
    }
  }

  lemma FollowAllStep(repo: Repo, groups: seq<Group>, n: PackageName, f: Flags, depth: nat, acc: seq<PackageName>,
                      k: nat)
    requires depth > 0 && k < |groups| && FollowAll(repo, groups[..k], n, f, depth, acc).Ok?
    ensures FollowAll(repo, groups[..k + 1], n, f, depth, acc)
         == match Collect(repo, groups[k].deps, f, groups[k].collect, depth - 1)
            case Err(e) => Err(e.AppendRecursion(n))
            case Ok(more) => Ok(Extend(FollowAll(repo, groups[..k], n, f, depth, acc).value, more))
  {
    assert groups[..k + 1][..k] == groups[..k];
  }

  lemma FollowErrorStops(repo: Repo, groups: seq<Group>, n: PackageName, f: Flags, depth: nat, acc: seq<PackageName>,
                         k: nat)
    requires depth > 0 && k <= |groups| && FollowAll(repo, groups[..k], n, f, depth, acc).Err?
    ensures FollowAll(repo, groups, n, f, depth, acc) == FollowAll(repo, groups[..k], n, f, depth, acc)
    decreases |groups|
  {
    if k == |groups| {
      assert groups[..k] == groups;
    } else {
      var shorter := groups[..|groups| - 1];
      assert shorter[..k] == groups[..k];
      FollowErrorStops(repo, shorter, n, f, depth, acc, k);
    }
  }

  // ---- `recipes_flatten_package_names` ----

  /** Drop the suffix; of the prefixes only `host:` survives. */
  function Flat(name: PackageName): PackageName {
    PackageName(if name.IsHost() then Host else Any, name.base, None)
  }

  /** A recipe of the flattened list: its new name, and the position it was taken from. */
  datatype Kept = Kept(name: PackageName, origin: nat)

  ghost predicate TakenFrom(names: seq<PackageName>, flat: seq<Kept>) {
    forall a :: 0 <= a < |flat| ==> flat[a].origin < |names| && flat[a].name == Flat(names[flat[a].origin])
  }

  ghost predicate InListOrder(flat: seq<Kept>) {
    forall a, b :: 0 <= a < b < |flat| ==> flat[a].origin < flat[b].origin && flat[a].name != flat[b].name
  }

  /** Some kept recipe has this name and comes from position `o` or earlier. */
  ghost predicate KeptBy(flat: seq<Kept>, name: PackageName, o: nat) {
    exists a :: 0 <= a < |flat| && flat[a].name == name && flat[a].origin <= o
  }

  ghost predicate CoversAll(names: seq<PackageName>, flat: seq<Kept>) {
    forall o :: 0 <= o < |names| ==> KeptBy(flat, Flat(names[o]), o)
  }

  /** `flat` keeps, in order, the first recipe of each flattened name in `names`. */
  ghost predicate Flattens(names: seq<PackageName>, flat: seq<Kept>) {
    TakenFrom(names, flat) && InListOrder(flat) && CoversAll(names, flat)
  }

  lemma CoversOneMore(names: seq<PackageName>, flat: seq<Kept>, flat': seq<Kept>, next: PackageName)
    requires CoversAll(names, flat) && flat <= flat' && KeptBy(flat', Flat(next), |names|)
    ensures CoversAll(names + [next], flat')
  {
    forall o | 0 <= o < |names| ensures KeptBy(flat', Flat(names[o]), o) {
      assert KeptBy(flat, Flat(names[o]), o);
      var b :| 0 <= b < |flat| && flat[b].name == Flat(names[o]) && flat[b].origin <= o;
      assert flat'[b] == flat[b];
    }
  }

  /** The set holds exactly the names kept so far. */
  ghost predicate SeenAgrees(flat: seq<Kept>, seen: set<PackageName>, i: nat) {
    && (forall a :: 0 <= a < |flat| ==> flat[a].name in seen)
    && (forall n :: n in seen ==> KeptBy(flat, n, i))
  }

  lemma SeeOneMore(flat: seq<Kept>, seen: set<PackageName>, i: nat, k: Kept)
    requires SeenAgrees(flat, seen, i) && k.origin == i
    ensures SeenAgrees(flat + [k], seen + {k.name}, i + 1)
  {
    var flat' := flat + [k];
    forall n | n in seen + {k.name} ensures KeptBy(flat', n, i + 1) {
      if n in seen {
        var b :| 0 <= b < |flat| && flat[b].name == n && flat[b].origin <= i;
        assert flat'[b] == flat[b];
      } else {
        assert flat'[|flat|] == k;
      }
    }
  }

  lemma TakeOneMore(names: seq<PackageName>, flat: seq<Kept>, next: PackageName)
    requires TakenFrom(names, flat) && InListOrder(flat)
    requires forall a :: 0 <= a < |flat| ==> flat[a].name != Flat(next)
    ensures TakenFrom(names + [next], flat + [Kept(Flat(next), |names|)])
    ensures InListOrder(flat + [Kept(Flat(next), |names|)])
  {}

  method FlattenPackageNames(names: seq<PackageName>) returns (flat: seq<Kept>)
    ensures Flattens(names, flat)
  {
    flat := [];
    var packagesSet: set<PackageName> := {};
    for i := 0 to |names|
      invariant Flattens(names[..i], flat)
      invariant SeenAgrees(flat, packagesSet, i)
    {
      var name := Flat(names[i]);
      assert names[..i + 1] == names[..i] + [names[i]];
      if name !in packagesSet {
        var longer := flat + [Kept(name, i)];
        SeeOneMore(flat, packagesSet, i, Kept(name, i));
        TakeOneMore(names[..i], flat, names[i]);
        assert KeptBy(longer, name, i) by {
          assert longer[|flat|].name == name;
        }
        CoversOneMore(names[..i], flat, longer, names[i]);
        packagesSet := packagesSet + {name};
        flat := longer;
      } else {
        CoversOneMore(names[..i], flat, flat, names[i]);
      }
    }
    assert names[..|names|] == names;
  }

  /** Two recipes share a flattened name exactly when they share base and kind; flattening again changes nothing. */
  lemma {:induction false} FlatMergesExactly(a: PackageName, b: PackageName)
    ensures Flat(a) == Flat(b) <==> a.base == b.base && (a.IsHost() <==> b.IsHost())
    ensures Flat(Flat(a)) == Flat(a) && Flat(a).suffix.None? && !Flat(a).IsTarget()
    ensures Flat(a).base == a.base && (Flat(a).IsHost() <==> a.IsHost())
  {}

  /** The list the pipeline is started with. */
  ghost function ListOf(flat: seq<Kept>): seq<PackageName> {
    seq(|flat|, a requires 0 <= a < |flat| => flat[a].name)
  }

  lemma FlatListIsDistinct(names: seq<PackageName>, flat: seq<Kept>)
    requires Flattens(names, flat)
    ensures Distinct(ListOf(flat))
  {}

  /** Whatever precedes a kept recipe's origin is represented before it in the flattened list. */
  lemma {:induction false} FlattenKeepsOrder(names: seq<PackageName>, flat: seq<Kept>, a: nat,
                                             o: nat) returns (b: nat)
    requires Flattens(names, flat) && a < |flat| && o < flat[a].origin
    ensures b < a && flat[b].name == Flat(names[o])
  {
    assert KeptBy(flat, Flat(names[o]), o);
    b :| 0 <= b < |flat| && flat[b].name == Flat(names[o]) && flat[b].origin <= o;
  }

  // ---- Assembly: source closure, binary closure, ignored recipes, then flattening ----

  datatype Assembly = Assembly(source: seq<PackageName>, binary: seq<PackageName>, ignored: seq<PackageName>)
  {
    function All(): seq<PackageName> { source + binary + ignored }
  }

  /** Both lists come out of `get_build_deps_recursive`; only the source list follows dev dependencies. */
  ghost predicate Assembled(repo: Repo, includeDev: bool, asm: Assembly, sourceRoots: seq<PackageName>,
                            binaryRoots: seq<PackageName>)
  {
    BuildDeps(repo, sourceRoots, includeDev) == Ok(asm.source) && BuildDeps(repo, binaryRoots, false) == Ok(asm.binary)
  }

  /** In the concatenated list every source or binary recipe comes after its build dependencies. */
  lemma {:induction false} ConcatenationKeepsOrder(repo: Repo, includeDev: bool, asm: Assembly,
                                                   sourceRoots: seq<PackageName>, binaryRoots: seq<PackageName>,
                                                   o: nat, d: PackageName) returns (q: nat)
    requires Assembled(repo, includeDev, asm, sourceRoots, binaryRoots)
    requires o < |asm.source| + |asm.binary| && BuildEdge(repo, asm.All()[o], d)
    ensures q < o && asm.All()[q] == d
  {
    var n := asm.All()[o];
    if o < |asm.source| {
      BuildDepsIsTheOrderedClosure(repo, sourceRoots, includeDev);
      assert EdgesBefore(repo, includeDev, false, asm.source, o) && Edge(repo, includeDev, false, n, d);
      q :| 0 <= q < o && asm.source[q] == d;
    } else {
      var k := o - |asm.source|;
      assert asm.binary[k] == n;
      BuildDepsIsTheOrderedClosure(repo, binaryRoots, false);
      assert EdgesBefore(repo, false, false, asm.binary, k) && Edge(repo, false, false, n, d);
      var j :| 0 <= j < k && asm.binary[j] == d;
      q := |asm.source| + j;
    }
  }

  /**
   End to end: in every run of the pipeline on the assembled list, with any answers and any
   interleaving, when the cooker starts a source or binary recipe, each of its build
   dependencies has been cooked, given up on or dropped at fetch, and is never touched again.
   */
  lemma {:induction false} DependenciesAreOverBeforeCooking(repo: Repo, includeDev: bool, asm: Assembly,
                                                            sourceRoots: seq<PackageName>,
                                                            binaryRoots: seq<PackageName>, flat: seq<Kept>,
                                                            nonstop: bool, events: seq<Event>, p: nat, a: nat,
                                                            d: PackageName) returns (b: nat)
    requires Assembled(repo, includeDev, asm, sourceRoots, binaryRoots) && Flattens(asm.All(), flat)
    requires a < |flat| && flat[a].origin < |asm.source| + |asm.binary|
    requires BuildEdge(repo, asm.All()[flat[a].origin], d)
    requires var s := Exec(Config(ListOf(flat), nonstop), events);
      p < |s.sent| && s.sent[p] == StartCook(flat[a].name)
    ensures b < a && flat[b].name == Flat(d)
    ensures var log := Exec(Config(ListOf(flat), nonstop), events).sent;
      && PhaseOf(ListOf(flat), log[..p], b).Over()
      && forall q :: p <= q < |log| ==> !About(ListOf(flat), log[q], b)
  {
    var o := ConcatenationKeepsOrder(repo, includeDev, asm, sourceRoots, binaryRoots, flat[a].origin, d);
    b := FlattenKeepsOrder(asm.All(), flat, a, o);
    FlatListIsDistinct(asm.All(), flat);
    EarlierInListAreOver(ListOf(flat), nonstop, events, p, a, b);
  }

  /** In a run on distinct names, what precedes a recipe in the list is over when the cooker starts it. */
  lemma EarlierInListAreOver(names: seq<PackageName>, nonstop: bool, events: seq<Event>, p: nat, a: nat, b: nat)
    requires Distinct(names) && b < a < |names|
    requires var s := Exec(Config(names, nonstop), events); p < |s.sent| && s.sent[p] == StartCook(names[a])
    ensures var log := Exec(Config(names, nonstop), events).sent;
      PhaseOf(names, log[..p], b).Over() && forall q :: p <= q < |log| ==> !About(names, log[q], b)
  {
    var c := Config(names, nonstop);
    PipelineSafety.CookingFollowsListOrder(c, events, p, a);
    assert PipelineSafety.EarlierAreOver(c, Exec(c, events).sent, p, a);
  }
}
