/** What an index built from many packages says about every path. */
module IndexLabels {
  import opened Names
  import opened FileTree
  import opened FileTreeText
  import opened FileTreeRoundTrip

  type Path = p: seq<string> | p != [] witness [""]

  /** What the index holds at a path. */
  datatype Spot = Nothing | Directory | Labelled(packages: string)

  function At(m: Entries, path: Path): Spot
    decreases |path|
  {
    if path[0] !in m then Nothing
    else
      match m[path[0]]
      case FsFile(packages) => if |path| == 1 then Labelled(packages) else Nothing
      case FsDir(entries) => if |path| == 1 then Directory else At(entries, path[1..])
  }

  /** What a printed tree has at a path; hollow directories are not there. */
  datatype Kind = Absent | IsDirectory | IsLeaf

  function Find(items: seq<Item>, name: string): Option<Node> {
    if items == [] then None
    else if items[0].name == name then Some(items[0].node)
    else Find(items[1..], name)
  }

  function KindAt(items: seq<Item>, path: Path): Kind
    decreases |path|
  {
    match Find(items, path[0])
    case None => Absent
    case Some(node) =>
      if Hollow(node) then Absent
      else if |path| == 1 then (if node.Dir? then IsDirectory else IsLeaf)
      else if node.Dir? then KindAt(node.items, path[1..])
      else Absent
  }

  /** No path is a file on one side and a directory on the other. */
  ghost predicate Compatible(m: Entries, items: seq<Item>) {
    forall q: Path :: !(KindAt(items, q) == IsLeaf && At(m, q) == Directory)
                      && !(KindAt(items, q) == IsDirectory && At(m, q).Labelled?)
  }

  /** The spot after merging in a package that has `k` there. */
  function After(spot: Spot, k: Kind, pkg: string): Spot {
    match k
    case Absent => spot
    case IsDirectory => Directory
    case IsLeaf => Labelled(if spot.Labelled? then spot.packages + "," + pkg else pkg)
  }

  ghost predicate SameEntry(m: Entries, m': Entries, name: string) {
    (name in m <==> name in m') && (name in m ==> m[name] == m'[name])
  }

  lemma MergeItemIsLocal(m: Entries, m': Entries, item: Item, pkg: string)
    requires SameEntry(m, m', item.name)
    ensures SameEntry(MergeItem(m, item, pkg), MergeItem(m', item, pkg), item.name)
    ensures forall n :: n != item.name ==> SameEntry(m, MergeItem(m, item, pkg), n)
  {}

  lemma {:induction false} FindInTail(items: seq<Item>, name: string)
    requires UniqueNames(items) && items != [] && items[0].name == name
    ensures Find(items[1..], name).None?
  {
    UniqueTail(items);
    NotFound(items[1..], name);
  }

  lemma {:induction false} NotFound(items: seq<Item>, name: string)
    requires forall i :: 0 <= i < |items| ==> items[i].name != name
    ensures Find(items, name).None?
    decreases |items|
  {
    if items != [] {
      NotFound(items[1..], name);
    }
  }

  lemma {:induction false} FoundIsUnique(items: seq<Item>, name: string)
    requires UniqueNames(items)
    ensures match Find(items, name) case Some(Dir(below)) => UniqueNames(below) case _ => true
    decreases |items|
  {
    if items != [] {
      UniqueTail(items);
      FoundIsUnique(items[1..], name);
    }
  }

  /** At one name a merge does exactly what merging that one entry does. */
  lemma {:induction false} MergeAtName(m: Entries, items: seq<Item>, pkg: string, name: string)
    requires UniqueNames(items)
    ensures match Find(items, name)
            case None => SameEntry(m, Merge(m, items, pkg), name)
            case Some(node) => SameEntry(MergeItem(m, Item(name, node), pkg), Merge(m, items, pkg), name)
    decreases |items|
  {
    if items != [] {
      UniqueTail(items);
      var m' := MergeItem(m, items[0], pkg);
      MergeAtName(m', items[1..], pkg, name);
      MergeItemIsLocal(m, m, items[0], pkg);
      if items[0].name == name {
        FindInTail(items, name);
        assert items[0] == Item(name, items[0].node);
      } else {
        match Find(items[1..], name) {
          case None =>
          case Some(node) => MergeItemIsLocal(m, m', Item(name, node), pkg);
        }
      }
    }
  }

  /** Compatibility is inherited by the subdirectories that are merged. */
  lemma CompatibleBelow(m: Entries, items: seq<Item>, name: string, below: seq<Item>)
    requires Compatible(m, items) && Find(items, name) == Some(Dir(below)) && !AllHollow(below)
    ensures Compatible(Sub(m, name), below)
    ensures name in m ==> m[name].FsDir?
  {
    var here: Path := [name];
    assert KindAt(items, here) == IsDirectory;
    assert !At(m, here).Labelled?;
    forall q: Path
      ensures !(KindAt(below, q) == IsLeaf && At(Sub(m, name), q) == Directory)
              && !(KindAt(below, q) == IsDirectory && At(Sub(m, name), q).Labelled?)
    {
      var longer: Path := [name] + q;
      assert longer[1..] == q;
      assert KindAt(items, longer) == KindAt(below, q);
      assert name in m ==> At(m, longer) == At(Sub(m, name), q);
    }
  }

  /** Merging one package changes each path exactly as that package has it. */
  lemma {:induction false} MergeAt(m: Entries, items: seq<Item>, pkg: string, q: Path)
    requires UniqueNames(items) && Compatible(m, items)
    ensures At(Merge(m, items, pkg), q) == After(At(m, q), KindAt(items, q), pkg)
    decreases |q|
  {
    MergeAtName(m, items, pkg, q[0]);
    match Find(items, q[0]) {
      case None =>
      case Some(Dir(below)) =>
        if !AllHollow(below) {
          FoundIsUnique(items, q[0]);
          CompatibleBelow(m, items, q[0], below);
          if |q| > 1 {
            MergeAt(Sub(m, q[0]), below, pkg, q[1..]);
          }
        }
      case Some(_) =>
        var here: Path := [q[0]];
        assert KindAt(items, here) == IsLeaf;
        assert At(m, here) != Directory;
    }
  }

  // ---- A sequence of packages ----

  datatype Package = Package(name: string, items: seq<Item>)

  function IndexAll(packages: seq<Package>): Entries
    decreases |packages|
  {
    if packages == [] then map[]
    else
      var last := packages[|packages| - 1];
      Merge(IndexAll(packages[..|packages| - 1]), last.items, last.name)
  }

  /** The names of the packages that contain a file at `q`, in order. */
  function Owners(packages: seq<Package>, q: Path): seq<string>
    decreases |packages|
  {
    if packages == [] then []
    else
      var last := packages[|packages| - 1];
      Owners(packages[..|packages| - 1], q) + (if KindAt(last.items, q) == IsLeaf then [last.name] else [])
  }

  function JoinComma(names: seq<string>): string
    requires names != []
    decreases |names|
  {
    if |names| == 1 then names[0]
    else JoinComma(names[..|names| - 1]) + "," + names[|names| - 1]
  }

  ghost predicate SomeDirectory(packages: seq<Package>, q: Path) {
    exists i :: 0 <= i < |packages| && KindAt(packages[i].items, q) == IsDirectory
  }

  /** No path is a file in one package and a directory in another. */
  ghost predicate NoClash(packages: seq<Package>) {
    forall i, j, q: Path :: 0 <= i < |packages| && 0 <= j < |packages| && KindAt(packages[i].items, q) == IsLeaf ==>
      KindAt(packages[j].items, q) != IsDirectory
  }

  lemma {:induction false} OwnersAreLeaves(packages: seq<Package>, q: Path)
    requires Owners(packages, q) != []
    ensures exists i :: 0 <= i < |packages| && KindAt(packages[i].items, q) == IsLeaf
    decreases |packages|
  {
    var k := |packages| - 1;
    if KindAt(packages[k].items, q) != IsLeaf {
      OwnersAreLeaves(packages[..k], q);
      var i :| 0 <= i < k && KindAt(packages[..k][i].items, q) == IsLeaf;
      assert KindAt(packages[i].items, q) == IsLeaf;
    }
  }

  /** What the index should say about `q`. */
  ghost function Expected(packages: seq<Package>, q: Path): Spot {
    var owners := Owners(packages, q);
    if owners != [] then Labelled(JoinComma(owners))
    else if SomeDirectory(packages, q) then Directory
    else Nothing
  }

  lemma ExpectedIsCompatible(packages: seq<Package>, k: nat, m: Entries)
    requires NoClash(packages) && k < |packages|
    requires forall q: Path :: At(m, q) == Expected(packages[..k], q)
    ensures Compatible(m, packages[k].items)
  {
    forall q: Path
      ensures !(KindAt(packages[k].items, q) == IsLeaf && At(m, q) == Directory)
              && !(KindAt(packages[k].items, q) == IsDirectory && At(m, q).Labelled?)
    {
      if At(m, q) == Directory {
        var i :| 0 <= i < k && KindAt(packages[..k][i].items, q) == IsDirectory;
        assert KindAt(packages[i].items, q) == IsDirectory;
      } else if At(m, q).Labelled? {
        OwnersAreLeaves(packages[..k], q);
        var i :| 0 <= i < k && KindAt(packages[..k][i].items, q) == IsLeaf;
        assert KindAt(packages[i].items, q) == IsLeaf;
      }
    }
  }

  lemma OwnersGrow(packages: seq<Package>, q: Path)
    requires packages != []
    ensures var k := |packages| - 1;
      var before := Owners(packages[..k], q);
      if KindAt(packages[k].items, q) == IsLeaf then
        Owners(packages, q) == before + [packages[k].name]
        && JoinComma(Owners(packages, q))
           == if before == [] then packages[k].name else JoinComma(before) + "," + packages[k].name
      else Owners(packages, q) == before
  {
    var k := |packages| - 1;
    var before := Owners(packages[..k], q);
    assert before + [] == before;
    if KindAt(packages[k].items, q) == IsLeaf {
      assert (before + [packages[k].name])[..|before|] == before;
    }
  }

  /** A directory of the last package has no owner before, as nothing clashes. */
  lemma DirectoryHasNoOwner(packages: seq<Package>, q: Path)
    requires NoClash(packages) && packages != [] && KindAt(packages[|packages| - 1].items, q) == IsDirectory
    ensures Owners(packages[..|packages| - 1], q) == []
  {
    var before := packages[..|packages| - 1];
    if Owners(before, q) != [] {
      OwnersAreLeaves(before, q);
    }
  }

  lemma ExpectedStep(packages: seq<Package>, q: Path)
    requires NoClash(packages) && packages != []
    ensures var k := |packages| - 1;
      Expected(packages, q) == After(Expected(packages[..k], q), KindAt(packages[k].items, q), packages[k].name)
  {
    OwnersGrow(packages, q);
    if KindAt(packages[|packages| - 1].items, q) == IsDirectory {
      DirectoryHasNoOwner(packages, q);
    }
  }

  /**
   After indexing any sequence of packages in which no path is a file in one and a directory in
   another, every path is exactly as expected: a file is labelled with the comma-joined names, in
   order, of exactly the packages containing it, and nothing else is a file.
   */
  lemma {:induction false} LabelsNameTheOwners(packages: seq<Package>, q: Path)
    requires NoClash(packages) && forall p :: p in packages ==> UniqueNames(p.items)
    ensures At(IndexAll(packages), q) == Expected(packages, q)
    decreases |packages|
  {
    if packages != [] {
      var k := |packages| - 1;
      var before := packages[..k];
      assert NoClash(before) by {
        forall i, j, p: Path | 0 <= i < k && 0 <= j < k && KindAt(before[i].items, p) == IsLeaf
          ensures KindAt(before[j].items, p) != IsDirectory
        {
          assert KindAt(packages[i].items, p) == IsLeaf;
        }
      }
      forall p: Path ensures At(IndexAll(before), p) == Expected(before, p) {
        LabelsNameTheOwners(before, p);
      }
      ExpectedIsCompatible(packages, k, IndexAll(before));
      assert packages[k] in packages;
      MergeAt(IndexAll(before), packages[k].items, packages[k].name, q);
      ExpectedStep(packages, q);
    }
  }

  /** The indexing loop: parse every package's printed tree into one index. */
  method IndexPackages(packages: seq<Package>) returns (inner: Entries)
    requires forall p :: p in packages ==> GoodItems(p.items)
    ensures inner == IndexAll(packages)
  {
    var builder := new FileIndexBuilder();
    for i := 0 to |packages|
      invariant builder.inner == IndexAll(packages[..i])
    {
      assert packages[i] in packages;
      ParseOfPrintedTreeMerges(builder.inner, packages[i].name, packages[i].items);
      assert packages[..i + 1][..i] == packages[..i];
      builder.ParseContent(packages[i].name, FileText(packages[i].items));
    }
    assert packages[..|packages|] == packages;
    inner := builder.inner;
  }
}
