/** Staged file trees, the nested file index, and how a tree merges into an index. */
module FileTree {
  import opened Names

  // ---- Trees as they are on disk ----

  /** A directory entry. A file carries its printed size, a symlink its target. */
  datatype Node = Dir(items: seq<Item>) | Symlink(target: string) | File(size: string)

  datatype Item = Item(name: string, node: Node)

  /** Nothing but directories all the way down: the printer leaves such a directory out. */
  predicate Hollow(node: Node)
    decreases node, 1
  {
    node.Dir? && AllHollow(node.items)
  }

  predicate AllHollow(items: seq<Item>)
    decreases items, 0
  {
    items == [] || (Hollow(items[0].node) && AllHollow(items[1..]))
  }

  /** Names are unique within a directory, at every level. */
  ghost predicate UniqueNames(items: seq<Item>)
    decreases items
  {
    && (forall i, j :: 0 <= i < j < |items| ==> items[i].name != items[j].name)
    && (forall i :: 0 <= i < |items| && items[i].node.Dir? ==> UniqueNames(items[i].node.items))
  }

  // ---- The index ----

  type Entries = map<string, FsNode>

  /** An index node: a directory, or a file labelled with the packages that contain it. */
  datatype FsNode = FsDir(entries: Entries) | FsFile(packages: string)

  /** The directory called `name`, or an empty one where there is none or a file is in the way. */
  function Sub(m: Entries, name: string): Entries {
    if name in m && m[name].FsDir? then m[name].entries else map[]
  }

  /** What happens at the last path component. */
  function InsertLeaf(m: Entries, name: string, package: Option<string>): Entries {
    match package
    case None => if name in m then m else m[name := FsDir(map[])]
    case Some(pkg) =>
      m[name := FsFile(if name in m && m[name].FsFile? then m[name].packages + "," + pkg else pkg)]
  }

  /** `insert_node`: walk down the path, turning files in the way into directories. */
  function Insert(m: Entries, path: seq<string>, name: string, package: Option<string>): Entries
    decreases |path|
  {
    if path == [] then InsertLeaf(m, name, package)
    else m[path[0] := FsDir(Insert(Sub(m, path[0]), path[1..], name, package))]
  }

  /** The directory at `path`. */
  function DirAt(m: Entries, path: seq<string>): Entries
    decreases |path|
  {
    if path == [] then m else DirAt(Sub(m, path[0]), path[1..])
  }

  /** The index with the directory at `path` replaced by `sub`. */
  function Graft(m: Entries, path: seq<string>, sub: Entries): Entries
    decreases |path|
  {
    if path == [] then sub else m[path[0] := FsDir(Graft(Sub(m, path[0]), path[1..], sub))]
  }

  lemma {:induction false} InsertIsGraft(m: Entries, path: seq<string>, name: string, package: Option<string>)
    ensures Insert(m, path, name, package) == Graft(m, path, InsertLeaf(DirAt(m, path), name, package))
    decreases |path|
  {
    if path != [] {
      InsertIsGraft(Sub(m, path[0]), path[1..], name, package);
    }
  }

  lemma {:induction false} GraftThenLook(m: Entries, path: seq<string>, sub: Entries)
    ensures DirAt(Graft(m, path, sub), path) == sub
    decreases |path|
  {
    if path != [] {
      GraftThenLook(Sub(m, path[0]), path[1..], sub);
    }
  }

  lemma {:induction false} GraftTwice(m: Entries, path: seq<string>, first: Entries, second: Entries)
    ensures Graft(Graft(m, path, first), path, second) == Graft(m, path, second)
    decreases |path|
  {
    if path != [] {
      GraftTwice(Sub(m, path[0]), path[1..], first, second);
    }
  }

  /**
   What is found where a node was inserted: files are joined with a comma, a file takes the place of
   a directory, a directory never takes the place of anything, and the neighbours stay.
   */
  lemma {:induction false} InsertedNode(m: Entries, path: seq<string>, name: string, package: Option<string>)
    ensures var before, after := DirAt(m, path), DirAt(Insert(m, path, name, package), path);
      && after.Keys == before.Keys + {name} && (forall n :: n in before && n != name ==> after[n] == before[n])
      && match package
         case Some(pkg) =>
           var shared := name in before && before[name].FsFile?;
           after[name] == if shared then FsFile(before[name].packages + "," + pkg) else FsFile(pkg)
         case None => after[name] == if name in before then before[name] else FsDir(map[])
  {
    InsertIsGraft(m, path, name, package);
    GraftThenLook(m, path, InsertLeaf(DirAt(m, path), name, package));
  }

  lemma {:induction false} LookBelow(m: Entries, path: seq<string>, name: string)
    ensures DirAt(m, path + [name]) == Sub(DirAt(m, path), name)
    decreases |path|
  {
    if path != [] {
      LookBelow(Sub(m, path[0]), path[1..], name);
      assert (path + [name])[1..] == path[1..] + [name];
    } else {
      assert (path + [name])[1..] == [];
    }
  }

  lemma {:induction false} GraftBelow(m: Entries, path: seq<string>, name: string, sub: Entries)
    ensures Graft(m, path + [name], sub) == Graft(m, path, DirAt(m, path)[name := FsDir(sub)])
    decreases |path|
  {
    if path != [] {
      GraftBelow(Sub(m, path[0]), path[1..], name, sub);
      assert (path + [name])[1..] == path[1..] + [name];
    } else {
      assert (path + [name])[1..] == [];
    }
  }

  // ---- Merging a tree into an index ----

  /** One entry: hollow directories vanish, directories merge, files gain the package's label. */
  function MergeItem(m: Entries, item: Item, pkg: string): Entries
    decreases item, 1
  {
    if Hollow(item.node) then m
    else if item.node.Dir? then m[item.name := FsDir(Merge(Sub(m, item.name), item.node.items, pkg))]
    else InsertLeaf(m, item.name, Some(pkg))
  }

  function Merge(m: Entries, items: seq<Item>, pkg: string): Entries
    decreases items, 0
  {
    if items == [] then m else Merge(MergeItem(m, items[0], pkg), items[1..], pkg)
  }

  /** A tree with only hollow directories adds nothing. */
  lemma {:induction false} MergeOfHollow(m: Entries, items: seq<Item>, pkg: string)
    requires AllHollow(items)
    ensures Merge(m, items, pkg) == m
    decreases |items|
  {
    if items != [] {
      MergeOfHollow(m, items[1..], pkg);
    }
  }

  /** The tree itself as an index: hollow directories removed, every file labelled with its package. */
  function Indexed(items: seq<Item>, pkg: string): Entries
    decreases items
  {
    if items == [] then map[]
    else
      var rest := Indexed(items[1..], pkg);
      var item := items[0];
      if Hollow(item.node) then rest
      else if item.node.Dir? then rest[item.name := FsDir(Indexed(item.node.items, pkg))]
      else rest[item.name := FsFile(pkg)]
  }

  lemma {:induction false} IndexedNames(items: seq<Item>, pkg: string)
    ensures forall n :: n in Indexed(items, pkg) ==> exists i :: 0 <= i < |items| && items[i].name == n
    decreases |items|
  {
    if items != [] {
      IndexedNames(items[1..], pkg);
      forall n | n in Indexed(items, pkg) ensures exists i :: 0 <= i < |items| && items[i].name == n {
        if n in Indexed(items[1..], pkg) {
          var i :| 0 <= i < |items[1..]| && items[1..][i].name == n;
          assert items[i + 1].name == n;
        } else {
          assert items[0].name == n;
        }
      }
    }
  }

  lemma UniqueTail(items: seq<Item>)
    requires items != [] && UniqueNames(items)
    ensures UniqueNames(items[1..])
    ensures items[0].node.Dir? ==> UniqueNames(items[0].node.items)
    ensures forall i :: 0 <= i < |items[1..]| ==> items[1..][i].name != items[0].name
  {}

  /** What one entry contributes to an index. */
  function IndexedItem(item: Item, pkg: string): Entries {
    if Hollow(item.node) then map[]
    else if item.node.Dir? then map[item.name := FsDir(Indexed(item.node.items, pkg))]
    else map[item.name := FsFile(pkg)]
  }

  lemma IndexedCons(items: seq<Item>, pkg: string)
    requires items != []
    ensures Indexed(items, pkg) == Indexed(items[1..], pkg) + IndexedItem(items[0], pkg)
  {}

  /** Adding an unrelated entry and then the rest adds both. */
  lemma AddBoth(m: Entries, first: Entries, rest: Entries)
    requires first.Keys !! rest.Keys
    ensures m + first + rest == m + (rest + first)
  {}

  /** Merging a tree next to unrelated entries adds exactly its index. */
  lemma {:induction false} MergeIsIndexed(m: Entries, items: seq<Item>, pkg: string)
    requires UniqueNames(items)
    requires forall i :: 0 <= i < |items| ==> items[i].name !in m
    ensures Merge(m, items, pkg) == m + Indexed(items, pkg)
    decreases items, 0
  {
    if items != [] {
      UniqueTail(items);
      MergeItemIsIndexed(m, items[0], pkg);
      MergeIsIndexed(MergeItem(m, items[0], pkg), items[1..], pkg);
      IndexedNames(items[1..], pkg);
      IndexedCons(items, pkg);
      AddBoth(m, IndexedItem(items[0], pkg), Indexed(items[1..], pkg));
    }
  }

  lemma {:induction false} MergeItemIsIndexed(m: Entries, item: Item, pkg: string)
    requires item.name !in m && (item.node.Dir? ==> UniqueNames(item.node.items))
    ensures MergeItem(m, item, pkg) == m + IndexedItem(item, pkg)
    decreases item, 1
  {
    if item.node.Dir? && !Hollow(item.node) {
      MergeIsIndexed(map[], item.node.items, pkg);
      assert map[] + Indexed(item.node.items, pkg) == Indexed(item.node.items, pkg);
    }
  }
}
