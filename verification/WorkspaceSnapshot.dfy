/**
 `workspace_snapshot` after Git has listed the workspace: drop what does not exist, sort, remove
 duplicates, hash.
 */
module WorkspaceSnapshot {
  import opened Names
  import opened Ordering
  import opened Workspace

  /** What is on disk under the workspace, by relative path. */
  type Disk = map<Bytes, Meta>

  predicate Listed(disk: Disk, path: Bytes) { path != [] && path in disk }

  function Existing(disk: Disk, listing: seq<Bytes>): seq<Bytes>
    decreases |listing|
  {
    if listing == [] then []
    else
      var before := Existing(disk, listing[..|listing| - 1]);
      var path := listing[|listing| - 1];
      if Listed(disk, path) then before + [path] else before
  }

  lemma {:induction false} ExistingElements(disk: Disk, listing: seq<Bytes>)
    ensures forall p :: p in Existing(disk, listing) <==> p in listing && Listed(disk, p)
    decreases |listing|
  {
    if listing != [] {
      var k := |listing| - 1;
      ExistingElements(disk, listing[..k]);
      assert listing == listing[..k] + [listing[k]];
    }
  }

  /** The snapshot's file list. */
  function Paths(lt: Less<Bytes>, disk: Disk, listing: seq<Bytes>): seq<Bytes> {
    DedupAdjacent(Sort(lt, Existing(disk, listing)))
  }

  lemma {:induction false} PathsAreTheListing(lt: Less<Bytes>, disk: Disk, listing: seq<Bytes>)
    requires StrictTotal(lt)
    ensures StrictlySorted(lt, Paths(lt, disk, listing))
    ensures forall p :: p in Paths(lt, disk, listing) <==> p in listing && p != [] && p in disk
  {
    ExistingElements(disk, listing);
    SortSorts(lt, Existing(disk, listing));
    DedupSorted(lt, Sort(lt, Existing(disk, listing)));
  }

  function FilesAt(disk: Disk, paths: seq<Bytes>): (r: seq<File>)
    requires forall p :: p in paths ==> p in disk
    ensures |r| == |paths| && forall i :: 0 <= i < |r| ==> r[i] == File(paths[i], disk[paths[i]])
  {
    seq(|paths|, i requires 0 <= i < |paths| => assert paths[i] in paths; File(paths[i], disk[paths[i]]))
  }

  /** What the snapshot is about: every listed path that exists, with what is there. */
  function Visible(disk: Disk, listing: seq<Bytes>): Disk {
    map p | p in listing && Listed(disk, p) :: disk[p]
  }

  /** The bytes hashed into the identifier of a dirty workspace. */
  function DirtyStream(lt: Less<Bytes>, disk: Disk, listing: seq<Bytes>): Option<Bytes>
    requires forall p :: p in Paths(lt, disk, listing) ==> p in disk
  {
    Stream(FilesAt(disk, Paths(lt, disk, listing)))
  }

  ghost predicate DiskFits(disk: Disk) {
    forall p :: p in disk ==> FitsFile(File(p, disk[p]))
  }

  /**
   Two dirty workspaces feed the hasher the same bytes exactly when they show the same files: the
   same paths, kinds, executable bits, contents and link targets. How often and in which order Git
   lists a path makes no difference.
   */
  lemma {:induction false} SameStreamExactlyForSameFiles(lt: Less<Bytes>, disk: Disk, listing: seq<Bytes>,
                                                         disk': Disk, listing': seq<Bytes>)
    requires StrictTotal(lt) && DiskFits(disk) && DiskFits(disk')
    ensures forall p :: p in Paths(lt, disk, listing) ==> p in disk
    ensures forall p :: p in Paths(lt, disk', listing') ==> p in disk'
    ensures DirtyStream(lt, disk, listing).Some? ==>
      (DirtyStream(lt, disk, listing) == DirtyStream(lt, disk', listing')
       <==> Visible(disk, listing) == Visible(disk', listing'))
  {
    PathsAreTheListing(lt, disk, listing);
    PathsAreTheListing(lt, disk', listing');
    var paths, paths' := Paths(lt, disk, listing), Paths(lt, disk', listing');
    var a, b := FilesAt(disk, paths), FilesAt(disk', paths');
    if Stream(a).Some? && Stream(a) == Stream(b) {
      StreamIsUniquelyDecodable(a, b);
      SameFilesSameView(disk, listing, paths, disk', listing', paths');
    }
    if Visible(disk, listing) == Visible(disk', listing') {
      SameViewSameFiles(lt, disk, listing, disk', listing');
      forall i | 0 <= i < |paths| ensures a[i] == b[i] {
        assert paths[i] in paths;
      }
      assert a == b;
    }
  }

  /** There is nothing to hash exactly when a visible file is neither a regular file nor a symlink. */
  lemma {:induction false} RefusedExactlyWhen(lt: Less<Bytes>, disk: Disk, listing: seq<Bytes>)
    requires StrictTotal(lt)
    ensures forall p :: p in Paths(lt, disk, listing) ==> p in disk
    ensures DirtyStream(lt, disk, listing).None?
            <==> exists p :: p in Visible(disk, listing) && disk[p].Unsupported?
  {
    PathsAreTheListing(lt, disk, listing);
    var paths := Paths(lt, disk, listing);
    var files := FilesAt(disk, paths);
    if i :| 0 <= i < |files| && files[i].meta.Unsupported? {
      assert paths[i] in paths && paths[i] in Visible(disk, listing);
    }
    if p :| p in Visible(disk, listing) && disk[p].Unsupported? {
      var i :| 0 <= i < |paths| && paths[i] == p;
      assert files[i].meta.Unsupported?;
    }
  }

  /** `paths` lists exactly what is visible. */
  ghost predicate Shows(disk: Disk, listing: seq<Bytes>, paths: seq<Bytes>) {
    forall p :: p in paths <==> p in listing && Listed(disk, p)
  }

  lemma SameFilesSameView(disk: Disk, listing: seq<Bytes>, paths: seq<Bytes>, disk': Disk, listing': seq<Bytes>,
                          paths': seq<Bytes>)
    requires Shows(disk, listing, paths) && Shows(disk', listing', paths')
    requires (forall p :: p in paths ==> p in disk) && (forall p :: p in paths' ==> p in disk')
    requires FilesAt(disk, paths) == FilesAt(disk', paths')
    ensures Visible(disk, listing) == Visible(disk', listing')
  {
    var a, b := FilesAt(disk, paths), FilesAt(disk', paths');
    assert |paths| == |paths'|;
    forall i | 0 <= i < |paths| ensures paths[i] == paths'[i] && disk[paths[i]] == disk'[paths'[i]] {
      assert a[i] == b[i];
    }
    assert paths == paths';
  }

  lemma SameViewSameFiles(lt: Less<Bytes>, disk: Disk, listing: seq<Bytes>, disk': Disk, listing': seq<Bytes>)
    requires StrictTotal(lt) && Visible(disk, listing) == Visible(disk', listing')
    ensures var paths, paths' := Paths(lt, disk, listing), Paths(lt, disk', listing');
      paths == paths' && (forall p :: p in paths ==> p in disk && p in disk' && disk[p] == disk'[p])
  {
    PathsAreTheListing(lt, disk, listing);
    PathsAreTheListing(lt, disk', listing');
    var v, v' := Visible(disk, listing), Visible(disk', listing');
    var paths, paths' := Paths(lt, disk, listing), Paths(lt, disk', listing');
    forall p ensures p in paths <==> p in paths' {
      assert p in paths <==> p in v;
      assert p in paths' <==> p in v';
    }
    SortedListIsUnique(lt, paths, paths');
    forall p | p in paths ensures p in disk && p in disk' && disk[p] == disk'[p] {
      assert p in v && p in v' && v[p] == disk[p] && v'[p] == disk'[p];
    }
  }

  // ---- The loops ----

  lemma {:induction false} ConcatSnoc(chunks: seq<Bytes>, last: Bytes)
    ensures Concat(chunks + [last]) == Concat(chunks) + last
    decreases |chunks|
  {
    if chunks != [] {
      ConcatSnoc(chunks[1..], last);
      assert (chunks + [last])[1..] == chunks[1..] + [last];
    } else {
      assert [last][1..] == [];
    }
  }

  method CollectExisting(disk: Disk, listing: seq<Bytes>) returns (files: seq<Bytes>)
    ensures files == Existing(disk, listing)
  {
    files := [];
    for i := 0 to |listing|
      invariant files == Existing(disk, listing[..i])
    {
      assert listing[..i + 1][..i] == listing[..i];
      if listing[i] == [] {
        continue;
      }
      if listing[i] in disk {
        files := files + [listing[i]];
      }
    }
    assert listing[..|listing|] == listing;
  }

  /** The hashing loop: feed every file's record to the hasher, or stop at an unsupported file. */
  method FeedHasher(files: seq<File>) returns (fed: Option<Bytes>)
    ensures fed == Stream(files)
  {
    var bytes: Bytes := [];
    for i := 0 to |files|
      invariant Stream(files[..i]) == Some(bytes)
    {
      FeedStep(files, i);
      if files[i].meta.Unsupported? {
        return None;
      }
      bytes := FeedOne(bytes, files[i]);
    }
    assert files[..|files|] == files;
    fed := Some(bytes);
  }

  /** The body of the loop for a supported file. */
  method FeedOne(before: Bytes, f: File) returns (bytes: Bytes)
    requires !f.meta.Unsupported?
    ensures bytes == before + EncodeFile(f)
  {
    bytes := before + LittleEndian(|f.relative|, 8);
    bytes := bytes + f.relative;
    match f.meta {
      case Link(target) =>
        bytes := bytes + SYMLINK_TAG;
        bytes := bytes + LittleEndian(|target|, 8);
        bytes := bytes + target;
      case Regular(exec, content) =>
        bytes := bytes + FILE_TAG;
        bytes := bytes + LittleEndian(exec.Bits(), 4);
        bytes := bytes + LittleEndian(|content|, 8);
        bytes := bytes + content;
    }
  }

  lemma FeedStep(files: seq<File>, i: nat)
    requires i < |files| && Stream(files[..i]).Some?
    ensures if files[i].meta.Unsupported? then Stream(files).None?
            else Stream(files[..i + 1]) == Some(Stream(files[..i]).value + EncodeFile(files[i]))
  {
    if files[i].meta.Unsupported? {
      assert files[i] in files;
    } else {
      assert files[..i + 1] == files[..i] + [files[i]];
      EncodedSnoc(files, i);
    }
  }

  lemma EncodedSnoc(files: seq<File>, i: nat)
    requires i < |files| && Supported(files[..i + 1])
    ensures Supported(files[..i])
    ensures Concat(Encoded(files[..i + 1])) == Concat(Encoded(files[..i])) + EncodeFile(files[i])
  {
    assert files[..i + 1] == files[..i] + [files[i]];
    ConcatSnoc(Encoded(files[..i]), EncodeFile(files[i]));
    assert Encoded(files[..i + 1]) == Encoded(files[..i]) + [EncodeFile(files[i])];
  }

  method Snapshot(lt: Less<Bytes>, disk: Disk, listing: seq<Bytes>) returns (paths: seq<Bytes>, fed: Option<Bytes>)
    requires StrictTotal(lt)
    ensures paths == Paths(lt, disk, listing) && (forall p :: p in paths ==> p in disk)
    ensures fed == DirtyStream(lt, disk, listing)
  {
    var files := CollectExisting(disk, listing);
    paths := DedupAdjacent(Sort(lt, files));
    PathsAreTheListing(lt, disk, listing);
    fed := FeedHasher(FilesAt(disk, paths));
  }
}
