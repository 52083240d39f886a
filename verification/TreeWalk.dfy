/**
 The dependency-tree walk of `src/cook/tree.rs` as the tree commands and the push command use it:
 a depth-first walk with one shared `visited` set and two running totals, over a graph that may
 have cycles. The operation called for each recipe decides whether the walk enters it.
 */
module TreeWalk {
  import opened Names

  /** What the stage directory of a recipe holds. */
  datatype TomlFile = NoToml | BrokenToml | ReadableToml(depends: seq<PackageName>)

  datatype Entry = Entry(build: seq<PackageName>, package: seq<PackageName>, archiveSize: Option<nat>, toml: TomlFile)
  {
    predicate NotBuilt() { archiveSize.None? && toml.NoToml? }

    function Size(): nat { if archiveSize.Some? then archiveSize.value else 0 }
  }

  /** The recipes handed to the walk; any other name is shown as missing and not walked. */
  type RecipeMap = map<PackageName, Entry>

  /** `d` is shown under `e`; in the push tree the dependencies come from the stage metadata. */
  predicate Under(e: Entry, buildTree: bool, d: PackageName) {
    if buildTree then d in e.build || d in e.package else e.toml.ReadableToml? && d in e.toml.depends
  }

  /** The set of the dependencies that are shown. */
  function Children(e: Entry, buildTree: bool): (r: set<PackageName>)
    ensures forall d :: d in r <==> Under(e, buildTree, d)
  {
    if buildTree then (set d | d in e.build) + (set d | d in e.package)
    else if e.toml.ReadableToml? then set d | d in e.toml.depends
    else {}
  }

  /** What one visited recipe adds to `total_size`: one if unbuilt in the build tree, its size in the push tree. */
  function Weight(e: Entry, buildTree: bool): nat {
    if buildTree then (if e.NotBuilt() then 1 else 0) else e.Size()
  }

  /** How the walk meets a name: it is no recipe of the map, not visited yet, or visited before. */
  datatype Meeting = Missing | Unvisited | Deduped

  /**
   What the operation answers: go on, "cached" (a recipe not visited yet is left out with everything
   below it), or an error that ends the walk.
   */
  datatype Answer = Fresh | Cached | Failed

  type Operation = (PackageName, Meeting) -> Answer

  /** The operation that only displays what it is shown. */
  function Displaying(): Operation { (name: PackageName, m: Meeting) => Fresh }

  /** What a walk is given. */
  datatype Tree = Tree(recipes: RecipeMap, buildTree: bool, op: Operation)
  {
    /** The walk enters this recipe when it comes to it. */
    predicate Enters(name: PackageName) { name in recipes && op(name, Unvisited).Fresh? }
  }

  // ---- Sums over a set of recipes ----

  ghost function Sum(t: Tree, s: set<PackageName>): nat
    requires s <= t.recipes.Keys
  {
    if s == {} then 0
    else
      var x :| x in s;
      Weight(t.recipes[x], t.buildTree) + Sum(t, s - {x})
  }

  lemma {:induction false} SumInsert(t: Tree, s: set<PackageName>, y: PackageName)
    requires s <= t.recipes.Keys && y in t.recipes && y !in s
    ensures Sum(t, s + {y}) == Sum(t, s) + Weight(t.recipes[y], t.buildTree)
    decreases s
  {
    var big := s + {y};
    var x :| x in big && Sum(t, big) == Weight(t.recipes[x], t.buildTree) + Sum(t, big - {x});
    if x == y {
      assert big - {y} == s;
    } else {
      assert big - {x} == (s - {x}) + {y};
      SumInsert(t, s - {x}, y);
      SumInsert(t, s - {x}, x);
      assert (s - {x}) + {x} == s;
    }
  }

  /** The recipes of `s` with neither an archive nor metadata. */
  ghost function Unbuilt(t: Tree, s: set<PackageName>): set<PackageName>
    requires s <= t.recipes.Keys
  {
    set x | x in s && t.recipes[x].archiveSize == None && t.recipes[x].toml == NoToml
  }

  lemma OneMoreUnbuilt(t: Tree, s: set<PackageName>, y: PackageName)
    requires t.buildTree && s <= t.recipes.Keys && y in t.recipes && y !in s
    ensures |Unbuilt(t, s + {y})| == |Unbuilt(t, s)| + Weight(t.recipes[y], t.buildTree)
  {
    assert Unbuilt(t, s + {y}) == if t.recipes[y].NotBuilt() then Unbuilt(t, s) + {y} else Unbuilt(t, s);
  }

  /** The build tree's total is how many of the recipes have neither an archive nor metadata. */
  lemma {:induction false} BuildTotalCountsUnbuilt(t: Tree, s: set<PackageName>)
    requires t.buildTree && s <= t.recipes.Keys
    ensures Sum(t, s) == |Unbuilt(t, s)|
    decreases s
  {
    if s == {} {
      assert Unbuilt(t, s) == {};
    } else {
      var y :| y in s;
      BuildTotalCountsUnbuilt(t, s - {y});
      SumInsert(t, s - {y}, y);
      OneMoreUnbuilt(t, s - {y}, y);
      assert (s - {y}) + {y} == s;
    }
  }

  /** The push tree's total is that of the recipes with an archive, and grows by the size of each archive. */
  lemma {:induction false} PushTotalAddsArchives(t: Tree, s: set<PackageName>, y: PackageName)
    requires !t.buildTree && s <= t.recipes.Keys && y in t.recipes && y !in s
    ensures t.recipes[y].archiveSize == None ==> Sum(t, s + {y}) == Sum(t, s)
    ensures forall n :: t.recipes[y].archiveSize == Some(n) ==> Sum(t, s + {y}) == Sum(t, s) + n
    ensures Sum(t, {}) == 0
  {
    SumInsert(t, s, y);
  }

  // ---- Reachability through the recipes that are entered ----

  ghost predicate Link(t: Tree, p: seq<PackageName>, k: nat)
    requires k + 1 < |p|
  {
    t.Enters(p[k]) && Under(t.recipes[p[k]], t.buildTree, p[k + 1]) && t.Enters(p[k + 1])
  }

  /** A nonempty chain of entered recipes, each shown under the one before. */
  ghost predicate Path(t: Tree, p: seq<PackageName>) {
    |p| > 0 && t.Enters(p[0]) && forall k :: 0 <= k < |p| - 1 ==> Link(t, p, k)
  }

  ghost predicate Reaches(t: Tree, from: PackageName, x: PackageName) {
    exists p :: Path(t, p) && p[0] == from && p[|p| - 1] == x
  }

  lemma ReachesItself(t: Tree, x: PackageName)
    requires t.Enters(x)
    ensures Reaches(t, x, x)
  {
    assert Path(t, [x]);
  }

  lemma ReachesThroughChild(t: Tree, from: PackageName, child: PackageName, x: PackageName)
    requires t.Enters(from) && Under(t.recipes[from], t.buildTree, child)
    requires Reaches(t, child, x)
    ensures Reaches(t, from, x)
  {
    var p :| Path(t, p) && p[0] == child && p[|p| - 1] == x;
    var q := [from] + p;
    forall k | 0 <= k < |q| - 1 ensures Link(t, q, k) {
      if k > 0 {
        assert Link(t, p, k - 1);
      }
    }
    assert Path(t, q);
  }

  /** The operation does not fail on `d` when it is first met, and if the walk then enters `d`, it has. */
  ghost predicate Answered(t: Tree, s: set<PackageName>, d: PackageName) {
    if d !in t.recipes then !t.op(d, Missing).Failed?
    else match t.op(d, Unvisited) case Fresh => d in s case Cached => true case Failed => false
  }

  /** Nothing below `x` is left to walk, and nothing about it is an error. */
  ghost predicate Settled(t: Tree, s: set<PackageName>, x: PackageName)
    requires x in t.recipes
  {
    && (t.buildTree || !t.recipes[x].toml.BrokenToml?)
    && forall d :: Under(t.recipes[x], t.buildTree, d) ==> Answered(t, s, d)
  }

  /** Every member of `s` is settled, except the members of `open`. */
  ghost predicate ClosedBut(t: Tree, s: set<PackageName>, open: set<PackageName>) {
    forall x :: x in s && x !in open && x in t.recipes ==> Settled(t, s, x)
  }

  /** A recipe just visited is the only one that is not settled yet. */
  lemma OpenOneMore(t: Tree, s: set<PackageName>, open: set<PackageName>, name: PackageName)
    requires ClosedBut(t, s, open)
    ensures ClosedBut(t, s + {name}, open + {name})
  {
    forall x | x in s + {name} && x !in open + {name} && x in t.recipes ensures Settled(t, s + {name}, x) {
      assert Settled(t, s, x);
    }
  }

  lemma {:induction false} PathStaysInside(t: Tree, s: set<PackageName>, p: seq<PackageName>)
    requires ClosedBut(t, s, {}) && Path(t, p) && p[0] in s
    ensures p[|p| - 1] in s
    decreases |p|
  {
    var k := |p| - 1;
    if k > 0 {
      forall j | 0 <= j < k - 1 ensures Link(t, p[..k], j) {
        assert Link(t, p, j);
      }
      PathStaysInside(t, s, p[..k]);
      assert Link(t, p, k - 1);
      assert Settled(t, s, p[k - 1]) && Answered(t, s, p[k]);
    }
  }

  // ---- The walk ----

  /** The walk meets `x`: it starts there or `x` is shown under a visited recipe. */
  ghost predicate Meets(t: Tree, visited: set<PackageName>, starts: set<PackageName>, x: PackageName) {
    x in starts || exists y :: y in visited && y in t.recipes && Under(t.recipes[y], t.buildTree, x)
  }

  /** Why a walk stops early: metadata of a visited recipe does not parse, or the operation failed on a name it met. */
  ghost predicate Trouble(t: Tree, visited: set<PackageName>, starts: set<PackageName>) {
    || (exists x :: x in visited && x in t.recipes && t.recipes[x].toml.BrokenToml?)
    || (exists x, m :: t.op(x, m).Failed? && Meets(t, visited, starts, x))
  }

  lemma TroubleWidens(t: Tree, visited: set<PackageName>, starts: set<PackageName>, more: set<PackageName>)
    requires Trouble(t, visited, starts) && forall x :: x in starts ==> Meets(t, visited, more, x)
    ensures Trouble(t, visited, more)
  {
    if x, m :| t.op(x, m).Failed? && Meets(t, visited, starts, x) {
      assert Meets(t, visited, more, x);
    }
  }

  class Walker {
    const t: Tree
    var visited: set<PackageName>
    var totalSize: nat
    var totalCount: nat

    constructor (t: Tree)
      ensures this.t == t
      ensures visited == {} && totalSize == 0 && totalCount == 0
    {
      this.t := t;
      visited, totalSize, totalCount := {}, 0, 0;
    }

    /** Both totals are about exactly the visited recipes, all of which the operation let through. */
    ghost predicate Tallied()
      reads this
    {
      && visited <= t.recipes.Keys && (forall x :: x in visited ==> t.Enters(x))
      && totalCount == |visited| && totalSize == Sum(t, visited)
    }

    /** Mark a recipe as visited and add it to both totals. */
    method Count(name: PackageName, entry: Entry)
      requires Tallied() && t.Enters(name) && name !in visited && entry == t.recipes[name]
      modifies this
      ensures Tallied() && visited == old(visited) + {name}
    {
      SumInsert(t, visited, name);
      visited := visited + {name};
      if t.buildTree {
        if entry.NotBuilt() {
          totalSize := totalSize + 1;
        }
      } else if !entry.NotBuilt() {
        totalSize := totalSize + entry.Size();
      }
      totalCount := totalCount + 1;
    }

    /**
     `walk_tree_entry`. The children come from a hash set, so they are taken in an arbitrary order.
     `open` are the callers still running. The answer is false when the walk ends in an error.
     */
    method WalkTreeEntry(name: PackageName, ghost open: set<PackageName>) returns (ok: bool)
      requires Tallied() && open <= visited && ClosedBut(t, visited, open)
      modifies this
      ensures Tallied() && old(visited) <= visited
      ensures forall x :: x in visited && x !in old(visited) ==> Reaches(t, name, x)
      ensures name in old(visited) ==> visited == old(visited) && ok == !t.op(name, Deduped).Failed?
      ensures name !in old(visited) ==> (ok ==> Answered(t, visited, name))
      ensures name !in old(visited) && !t.Enters(name) ==> visited == old(visited)
      ensures ok ==> ClosedBut(t, visited, open)
      ensures !ok ==> Trouble(t, visited, {name})
      decreases t.recipes.Keys - visited, 0
    {
      if name !in t.recipes {
        return !t.op(name, Missing).Failed?;
      }
      var entry := t.recipes[name];
      if name in visited {
        return !t.op(name, Deduped).Failed?;
      }
      match t.op(name, Unvisited) {
        case Failed => return false;
        case Cached => return true;
        case Fresh =>
      }
      ReachesItself(t, name);
      OpenOneMore(t, visited, open, name);
      Count(name, entry);
      if !t.buildTree && entry.toml.BrokenToml? {
        return false;
      }
      ok := WalkChildren(name, open);
      if !ok {
        TroubleWidens(t, visited, {}, {name});
      }
    }

    /** The loop over the children of a recipe just visited. */
    method WalkChildren(name: PackageName, ghost open: set<PackageName>) returns (ok: bool)
      requires Tallied() && open + {name} <= visited && ClosedBut(t, visited, open + {name})
      requires t.buildTree || !t.recipes[name].toml.BrokenToml?
      modifies this
      ensures Tallied() && old(visited) <= visited
      ensures forall x :: x in visited && x !in old(visited) ==> Reaches(t, name, x)
      ensures ok ==> ClosedBut(t, visited, open)
      ensures !ok ==> Trouble(t, visited, {})
      decreases t.recipes.Keys - visited, 1
    {
      var children := Children(t.recipes[name], t.buildTree);
      var rest := children;
      while rest != {}
        invariant rest <= children
        invariant Tallied() && old(visited) <= visited
        invariant forall x :: x in visited && x !in old(visited) ==> Reaches(t, name, x)
        invariant ClosedBut(t, visited, open + {name})
        invariant forall d :: d in children && d !in rest ==> Answered(t, visited, d)
        decreases |rest|
      {
        var d :| d in rest;
        rest := rest - {d};
        ghost var before := visited;
        ok := WalkTreeEntry(d, open + {name});
        forall x | x in visited && x !in before ensures Reaches(t, name, x) {
          ReachesThroughChild(t, name, d, x);
        }
        if !ok {
          TroubleWidens(t, visited, {d}, {});
          return false;
        }
      }
      ok := true;
    }
  }

  /** `x` is reachable from some root through recipes the walk enters. */
  ghost predicate ReachedFromRoots(t: Tree, roots: seq<PackageName>, x: PackageName) {
    exists r :: r in roots && Reaches(t, r, x)
  }

  /**
   Walk every root with shared totals. Whatever the order of the children and however cyclic the
   graph, a walk without errors visits exactly the recipes reachable from the roots through recipes
   the operation lets through, counts each once and sums each weight once.
   */
  method WalkRoots(t: Tree, roots: seq<PackageName>)
    returns (ok: bool, visited: set<PackageName>, totalSize: nat, totalCount: nat)
    ensures visited <= t.recipes.Keys && totalCount == |visited| && totalSize == Sum(t, visited)
    ensures forall x :: x in visited ==> ReachedFromRoots(t, roots, x)
    ensures ok ==> forall x :: x in visited <==> ReachedFromRoots(t, roots, x)
    ensures ok ==> ClosedBut(t, visited, {}) && forall r :: r in roots ==> Answered(t, visited, r)
    ensures !ok ==> Trouble(t, visited, set r | r in roots)
  {
    var w := new Walker(t);
    var i := 0;
    ok := true;
    while i < |roots| && ok
      invariant 0 <= i <= |roots| && w.t == t && w.Tallied()
      invariant RootsWalked(t, roots, i, ok, w.visited)
    {
      ghost var before := w.visited;
      ok := w.WalkTreeEntry(roots[i], {});
      NextRootWalked(t, roots, i, before, ok, w.visited);
      i := i + 1;
    }
    visited, totalSize, totalCount := w.visited, w.totalSize, w.totalCount;
    if ok {
      forall x | ReachedFromRoots(t, roots, x) ensures x in visited {
        RootsCover(t, visited, roots, x);
      }
    }
  }

  /** Where the loop over the roots has got to. */
  ghost predicate RootsWalked(t: Tree, roots: seq<PackageName>, i: nat, ok: bool, visited: set<PackageName>)
    requires i <= |roots|
  {
    && (forall x :: x in visited ==> ReachedFromRoots(t, roots, x))
    && (ok ==> ClosedBut(t, visited, {}) && forall k :: 0 <= k < i ==> Answered(t, visited, roots[k]))
    && (!ok ==> Trouble(t, visited, set r | r in roots))
  }

  lemma NextRootWalked(t: Tree, roots: seq<PackageName>, i: nat, before: set<PackageName>, ok: bool,
                       visited: set<PackageName>)
    requires i < |roots| && RootsWalked(t, roots, i, true, before) && before <= visited
    requires forall x :: x in visited && x !in before ==> Reaches(t, roots[i], x)
    requires ok ==> ClosedBut(t, visited, {}) && Answered(t, visited, roots[i])
    requires !ok ==> Trouble(t, visited, {roots[i]})
    ensures RootsWalked(t, roots, i + 1, ok, visited)
  {
    forall x | x in visited ensures ReachedFromRoots(t, roots, x) {
      assert x in before || (roots[i] in roots && Reaches(t, roots[i], x));
    }
    if !ok {
      TroubleWidens(t, visited, {roots[i]}, set r | r in roots);
    }
  }

  /** Closed under children and holding every entered root, the visited recipes are all that is reachable. */
  lemma RootsCover(t: Tree, visited: set<PackageName>, roots: seq<PackageName>, x: PackageName)
    requires ClosedBut(t, visited, {}) && forall k :: 0 <= k < |roots| ==> Answered(t, visited, roots[k])
    requires ReachedFromRoots(t, roots, x)
    ensures x in visited
  {
    var r :| r in roots && Reaches(t, r, x);
    var p :| Path(t, p) && p[0] == r && p[|p| - 1] == x;
    PathStaysInside(t, visited, p);
  }

  // ---- The two commands ----

  /** One recipe of the list a command is given. */
  datatype Listed = Listed(name: PackageName, entry: Entry, isDeps: bool)

  /** Collecting the list into a map keyed by name. */
  function MapOf(list: seq<Listed>): (m: RecipeMap)
    ensures forall n :: n in m <==> exists r :: r in list && r.name == n
    decreases |list|
  {
    if list == [] then map[]
    else
      var last := list[|list| - 1];
      assert list == list[..|list| - 1] + [last];
      MapOf(list[..|list| - 1])[last.name := last.entry]
  }

  /** Of several recipes with one name the map keeps the last. */
  lemma {:induction false} LastEntryStays(list: seq<Listed>, i: nat)
    requires i < |list| && forall j :: i < j < |list| ==> list[j].name != list[i].name
    ensures list[i].name in MapOf(list) && MapOf(list)[list[i].name] == list[i].entry
    decreases |list|
  {
    if i < |list| - 1 {
      LastEntryStays(list[..|list| - 1], i);
    }
  }

  /** The names of the recipes that were asked for, as opposed to pulled in. */
  function RootsOf(list: seq<Listed>): (r: seq<PackageName>)
    ensures forall n :: n in r <==> exists l :: l in list && !l.isDeps && l.name == n
  {
    if list == [] then []
    else
      assert list == [list[0]] + list[1..];
      (if list[0].isDeps then [] else [list[0].name]) + RootsOf(list[1..])
  }

  function NamesOf(list: seq<Listed>): (r: seq<PackageName>)
    ensures |r| == |list| && forall i :: 0 <= i < |r| ==> r[i] == list[i].name
  {
    seq(|list|, i requires 0 <= i < |list| => list[i].name)
  }

  /** `handle_tree`: the operation only displays and never answers "cached", so everything is entered. */
  method HandleTree(list: seq<Listed>, buildTree: bool)
    returns (ok: bool, visited: set<PackageName>, totalSize: nat, totalCount: nat)
    ensures var t := Tree(MapOf(list), buildTree, Displaying());
      && visited <= t.recipes.Keys && totalCount == |visited| && totalSize == Sum(t, visited)
      && (forall x :: x in visited ==> ReachedFromRoots(t, RootsOf(list), x))
      && (ok ==> forall x :: x in visited <==> ReachedFromRoots(t, RootsOf(list), x))
      && (ok ==> buildTree || forall x :: x in visited ==> !t.recipes[x].toml.BrokenToml?)
    ensures !ok ==> exists x :: x in visited && x in MapOf(list) && MapOf(list)[x].toml.BrokenToml?
  {
    var t := Tree(MapOf(list), buildTree, Displaying());
    ok, visited, totalSize, totalCount := WalkRoots(t, RootsOf(list));
  }

  /**
   `handle_push`: every recipe of the list is a root. A run without errors has pushed exactly the
   recipes that were neither host packages, nor pushed before, nor failed, each of them once.
   */
  method HandlePush(list: seq<Listed>, op: Operation)
    returns (ok: bool, visited: set<PackageName>, totalSize: nat, totalCount: nat)
    ensures var t := Tree(MapOf(list), false, op);
      && visited <= t.recipes.Keys && totalCount == |visited| && totalSize == Sum(t, visited)
      && (forall x :: x in visited ==> op(x, Unvisited).Fresh?)
      && (ok ==> PushedAll(list, op, visited))
      && (!ok ==> Trouble(t, visited, set r | r in NamesOf(list)))
  {
    var t := Tree(MapOf(list), false, op);
    ok, visited, totalSize, totalCount := WalkRoots(t, NamesOf(list));
    forall x | x in visited ensures op(x, Unvisited).Fresh? {
      ReachedIsEntered(t, NamesOf(list), x);
    }
    if ok {
      SettledIsPushed(list, op, visited);
    }
  }

  /** No listed recipe failed; those let through are what was visited, and their metadata can be read. */
  ghost predicate PushedAll(list: seq<Listed>, op: Operation, visited: set<PackageName>) {
    && (forall x :: x in visited <==> x in NamesOf(list) && op(x, Unvisited).Fresh?)
    && (forall x :: x in NamesOf(list) ==> !op(x, Unvisited).Failed?)
    && (forall x :: x in visited && x in MapOf(list) ==> !MapOf(list)[x].toml.BrokenToml?)
  }

  lemma NamesAreKeys(list: seq<Listed>, x: PackageName)
    ensures x in NamesOf(list) <==> x in MapOf(list)
  {
    if x in NamesOf(list) {
      var i :| 0 <= i < |list| && NamesOf(list)[i] == x;
      assert list[i] in list && list[i].name == x;
    }
    if x in MapOf(list) {
      var r :| r in list && r.name == x;
      var i :| 0 <= i < |list| && list[i] == r;
      assert NamesOf(list)[i] == x;
    }
  }

  lemma SettledIsPushed(list: seq<Listed>, op: Operation, visited: set<PackageName>)
    requires var t := Tree(MapOf(list), false, op);
      && visited <= t.recipes.Keys && ClosedBut(t, visited, {})
      && (forall x :: x in visited ==> op(x, Unvisited).Fresh?)
      && (forall r :: r in NamesOf(list) ==> Answered(t, visited, r))
    ensures PushedAll(list, op, visited)
  {
    var t := Tree(MapOf(list), false, op);
    forall x ensures x in NamesOf(list) <==> x in MapOf(list) {
      NamesAreKeys(list, x);
    }
    forall x | x in NamesOf(list) ensures !op(x, Unvisited).Failed? && (op(x, Unvisited).Fresh? ==> x in visited) {
      assert Answered(t, visited, x);
    }
    forall x | x in visited ensures !MapOf(list)[x].toml.BrokenToml? {
      assert Settled(t, visited, x);
    }
  }

  lemma ReachedIsEntered(t: Tree, roots: seq<PackageName>, x: PackageName)
    requires ReachedFromRoots(t, roots, x)
    ensures t.Enters(x)
  {
    var r :| r in roots && Reaches(t, r, x);
    var p :| Path(t, p) && p[0] == r && p[|p| - 1] == x;
    if |p| > 1 {
      assert Link(t, p, |p| - 2);
    }
  }
}
