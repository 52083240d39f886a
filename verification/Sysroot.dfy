/**
 The dependency sysroot of a recipe: a directory of installed packages cached by one tag file per
 package, and emptied down to its tags when `clean_target` is set.
 */
module Sysroot {
  import opened Names
  import opened Ordering

  type Hash = int

  /** Installed files by path. */
  type Files = map<string, string>

  datatype Archive = Archive(hash: Hash, files: Files)

  /** A dependency: its name without prefix, and its package archive if it can be opened. */
  datatype Dep = Dep(name: string, archive: Option<Archive>)

  /** The contents of a tag file: a hash in hexadecimal, or something else. */
  datatype Tag = Tag(hash: Hash) | Garbage

  type Tags = map<string, Tag>

  /** A sysroot is either emptied, or the `usr` skeleton with packages installed into it. */
  datatype Contents = Emptied | Installed(files: Files)

  datatype Dir = Gone | Untagged(contents: Contents) | Tagged(tags: Tags, contents: Contents)

  // ---- Installing ----

  function InstallAll(deps: seq<Dep>): Files
    requires forall d :: d in deps ==> d.archive.Some?
    decreases |deps|
  {
    if deps == [] then map[]
    else
      var last := deps[|deps| - 1];
      assert last in deps;
      InstallAll(deps[..|deps| - 1]) + last.archive.value.files
  }

  function TagsOf(deps: seq<Dep>): Tags
    requires forall d :: d in deps ==> d.archive.Some?
    decreases |deps|
  {
    if deps == [] then map[]
    else
      var last := deps[|deps| - 1];
      assert last in deps;
      TagsOf(deps[..|deps| - 1])[last.name := Tag(last.archive.value.hash)]
  }

  predicate AllReadable(deps: seq<Dep>) { forall d :: d in deps ==> d.archive.Some? }

  /** A fresh install of exactly these dependencies. */
  function Fresh(deps: seq<Dep>): Dir
    requires AllReadable(deps)
  {
    Tagged(TagsOf(deps), Installed(InstallAll(deps)))
  }

  /** Of several packages with a file at the same path the last one installed wins. */
  lemma {:induction false} LaterPackageWins(deps: seq<Dep>, k: nat, path: string)
    requires AllReadable(deps) && k < |deps| && deps[k] in deps && path in deps[k].archive.value.files
    requires forall j :: k < j < |deps| && deps[j] in deps ==> path !in deps[j].archive.value.files
    ensures path in InstallAll(deps) && InstallAll(deps)[path] == deps[k].archive.value.files[path]
    decreases |deps|
  {
    var n := |deps| - 1;
    assert deps[n] in deps;
    if k < n {
      var before := deps[..n];
      assert before[k] in before;
      forall j | k < j < n ensures path !in before[j].archive.value.files {
        assert deps[j] in deps;
      }
      LaterPackageWins(before, k, path);
    }
  }

  function NamesOf(deps: seq<Dep>): (r: seq<string>)
    ensures |r| == |deps| && forall i :: 0 <= i < |r| ==> r[i] == deps[i].name
  {
    seq(|deps|, i requires 0 <= i < |deps| => deps[i].name)
  }

  // ---- Checking ----

  predicate Hidden(name: string) { name != "" && name[0] == '.' }

  /** Exactly the expected files are there, hidden ones aside. */
  predicate PresentExactly(entries: set<string>, expected: set<string>) {
    expected <= entries && forall e :: e in entries && e !in expected ==> Hidden(e)
  }

  /** The tag loop: nothing if an archive cannot be opened, otherwise whether every tag is up to date. */
  function CheckTags(tags: Tags, deps: seq<Dep>): Option<bool>
    requires forall d :: d in deps ==> d.name in tags
    decreases |deps|
  {
    if deps == [] then Some(true)
    else
      var last := deps[|deps| - 1];
      assert last in deps;
      match CheckTags(tags, deps[..|deps| - 1])
      case None => None
      case Some(cached) =>
        if tags[last.name].Garbage? then Some(false)
        else if last.archive.None? then None
        else Some(cached && tags[last.name].hash == last.archive.value.hash)
  }

  /** `build_deps_dir`: whether the directory was cached, or nothing on an error, and the new directory. */
  function BuildDepsDir(dir: Dir, deps: seq<Dep>, haveKey: bool): (Option<bool>, Dir) {
    if !haveKey && deps != [] then (None, dir)
    else
      match dir
      case Gone => InstallOver(dir, deps)
      case Untagged(contents) =>
        // the finished directory can only be renamed over an empty one
        if contents.Emptied? then InstallOver(dir, deps) else (None, dir)
      case Tagged(tags, _) =>
        if PresentExactly(tags.Keys, set d | d in deps :: d.name) then
          assert forall d :: d in deps ==> d.name in tags;
          match CheckTags(tags, deps)
          case None => (None, dir)
          case Some(true) => (Some(true), dir)
          case Some(false) => InstallOver(Gone, deps)
        else InstallOver(Gone, deps)
  }

  /** Install and move into place, or fail and leave what is there. */
  function InstallOver(dir: Dir, deps: seq<Dep>): (Option<bool>, Dir) {
    if AllReadable(deps) then (Some(false), Fresh(deps)) else (None, dir)
  }

  /** `clean_deps_dir`: keep the tags, drop everything else. */
  function CleanDepsDir(dir: Dir): Dir {
    match dir case Tagged(tags, _) => Tagged(tags, Emptied) case _ => dir
  }

  /** A directory without tags is only ever replaced when it is empty; otherwise the build fails. */
  lemma UntaggedIsKept(contents: Contents, deps: seq<Dep>, haveKey: bool)
    ensures var (cached, after) := BuildDepsDir(Untagged(contents), deps, haveKey);
      var installs := contents == Emptied && AllReadable(deps) && (haveKey || deps == []);
      && cached == (if installs then Some(false) else None)
      && after == if installs then Fresh(deps) else Untagged(contents)
  {}

  // ---- One build ----

  /** What one build finds: its settings, its dependencies, and how things turn out. */
  datatype Input = Input(cleanTarget: bool, deps: seq<Dep>, haveKey: bool, otherReason: bool, scriptSucceeds: bool)

  /** The directory left behind, what the build script saw if it ran, and whether the build ended in an error. */
  datatype Built = Built(dir: Dir, seen: Option<Dir>, failed: bool)

  /** The part of `build` that concerns the sysroot; `otherReason` is a stale toolchain or newer source. */
  function Build(dir: Dir, i: Input): Built {
    match BuildDepsDir(dir, i.deps, i.haveKey)
    case (None, after) => Built(after, None, true)
    case (Some(cached), after) =>
      if cached && !i.otherReason then Built(after, None, false)
      else
        match if i.cleanTarget && cached then BuildDepsDir(Gone, i.deps, i.haveKey) else (Some(cached), after)
        case (None, again) => Built(again, None, true)
        case (Some(_), ready) =>
          Built(if i.scriptSucceeds && i.cleanTarget then CleanDepsDir(ready) else ready, Some(ready),
                !i.scriptSucceeds)
  }

  // ---- The cache is sound ----

  /** Equal header hashes mean equal packages: every archive is the registered one for its hash. */
  ghost predicate Registered(registry: map<Hash, Files>, deps: seq<Dep>) {
    forall d :: d in deps && d.archive.Some? ==>
      d.archive.value.hash in registry && registry[d.archive.value.hash] == d.archive.value.files
  }

  /** Each name once, and no name looks hidden. The order, by full name, is whatever it is. */
  ghost predicate Proper(deps: seq<Dep>) {
    Distinct(NamesOf(deps)) && forall d :: d in deps ==> !Hidden(d.name)
  }

  /** The same packages, in whatever order. */
  ghost predicate SamePackages(ds: seq<Dep>, deps: seq<Dep>) {
    forall d :: d in ds <==> d in deps
  }

  /** The directory is what a fresh install of exactly these packages gives, in some order. */
  ghost predicate FreshInstall(dir: Dir, deps: seq<Dep>) {
    exists ds :: AllReadable(ds) && Proper(ds) && SamePackages(ds, deps) && dir == Fresh(ds)
  }

  /** The tags are those of the packages `ds`, and the contents are their install, or emptied. */
  ghost predicate TidyFor(registry: map<Hash, Files>, dir: Dir, mayBeEmptied: bool, ds: seq<Dep>) {
    && dir.Tagged? && AllReadable(ds) && Proper(ds) && Registered(registry, ds)
    && dir.tags == TagsOf(ds)
    && (dir.contents == Installed(InstallAll(ds)) || (mayBeEmptied && dir.contents == Emptied))
  }

  /** Nothing is there, or what one of `lists` left behind. */
  ghost predicate Tidy(registry: map<Hash, Files>, dir: Dir, mayBeEmptied: bool, lists: set<seq<Dep>>) {
    dir.Gone? || exists ds :: ds in lists && TidyFor(registry, dir, mayBeEmptied, ds)
  }

  lemma {:induction false} TagsOfNames(ds: seq<Dep>)
    requires AllReadable(ds)
    ensures forall n :: n in TagsOf(ds) <==> exists d :: d in ds && d.name == n
    decreases |ds|
  {
    if ds != [] {
      var k := |ds| - 1;
      TagsOfNames(ds[..k]);
      assert ds == ds[..k] + [ds[k]];
    }
  }

  lemma {:induction false} TagsOfEntry(ds: seq<Dep>, i: nat)
    requires AllReadable(ds) && Distinct(NamesOf(ds)) && i < |ds|
    ensures ds[i] in ds && ds[i].name in TagsOf(ds)
    ensures TagsOf(ds)[ds[i].name] == Tag(ds[i].archive.value.hash)
    decreases |ds|
  {
    var k := |ds| - 1;
    if i < k {
      assert NamesOf(ds[..k]) == NamesOf(ds)[..k];
      TagsOfEntry(ds[..k], i);
      assert NamesOf(ds)[i] != NamesOf(ds)[k];
    }
  }

  lemma TagsOfMember(ds: seq<Dep>, d: Dep)
    requires AllReadable(ds) && Distinct(NamesOf(ds)) && d in ds
    ensures d.name in TagsOf(ds) && TagsOf(ds)[d.name] == Tag(d.archive.value.hash)
  {
    var i :| 0 <= i < |ds| && ds[i] == d;
    TagsOfEntry(ds, i);
  }

  /** The tags do not depend on the order. */
  lemma SamePackagesSameTags(ds: seq<Dep>, deps: seq<Dep>)
    requires AllReadable(ds) && Proper(ds) && Proper(deps) && SamePackages(ds, deps)
    ensures AllReadable(deps) && TagsOf(ds) == TagsOf(deps)
  {
    TagsOfNames(ds);
    TagsOfNames(deps);
    forall n | n in TagsOf(ds) ensures n in TagsOf(deps) && TagsOf(ds)[n] == TagsOf(deps)[n] {
      var d :| d in ds && d.name == n;
      TagsOfMember(ds, d);
      TagsOfMember(deps, d);
    }
    forall n | n in TagsOf(deps) ensures n in TagsOf(ds) {
      var d :| d in deps && d.name == n;
      TagsOfMember(ds, d);
    }
  }

  lemma {:induction false} CheckedTagsMatch(tags: Tags, deps: seq<Dep>)
    requires (forall d :: d in deps ==> d.name in tags) && CheckTags(tags, deps) == Some(true)
    ensures forall d :: d in deps ==> d.archive.Some? && tags[d.name] == Tag(d.archive.value.hash)
    decreases |deps|
  {
    if deps != [] {
      var k := |deps| - 1;
      CheckedTagsMatch(tags, deps[..k]);
      assert deps == deps[..k] + [deps[k]];
    }
  }

  /** Two registered dependencies with the same name and the same tag are the same package. */
  lemma SameTagSameDep(registry: map<Hash, Files>, ds: seq<Dep>, deps: seq<Dep>, a: Dep, b: Dep)
    requires Registered(registry, ds) && Registered(registry, deps) && a in ds && b in deps
    requires a.archive.Some? && b.archive.Some?
    requires a.name == b.name && a.archive.value.hash == b.archive.value.hash
    ensures a == b
  {}

  /** If the tags of `ds` are up to date for `deps`, the two lists are the same packages. */
  lemma {:induction false} SameTagsSameDeps(registry: map<Hash, Files>, ds: seq<Dep>, deps: seq<Dep>)
    requires AllReadable(ds) && Proper(ds) && Registered(registry, ds) && Registered(registry, deps)
    requires PresentExactly(TagsOf(ds).Keys, set d | d in deps :: d.name)
    requires forall d :: d in deps ==> d.name in TagsOf(ds)
    requires CheckTags(TagsOf(ds), deps) == Some(true)
    ensures SamePackages(ds, deps)
  {
    CheckedTagsMatch(TagsOf(ds), deps);
    TagsOfNames(ds);
    forall d | d in ds ensures d in deps {
      TagsOfMember(ds, d);
      assert !Hidden(d.name) && d.name in TagsOf(ds).Keys;
      var e :| e in deps && e.name == d.name;
      SameTagSameDep(registry, ds, deps, d, e);
    }
    forall e | e in deps ensures e in ds {
      var d :| d in ds && d.name == e.name;
      TagsOfMember(ds, d);
      SameTagSameDep(registry, ds, deps, d, e);
    }
  }

  /** The directory belongs to the packages `deps`, installed in the order of one of `lists`. */
  ghost predicate Holds(registry: map<Hash, Files>, dir: Dir, mayBeEmptied: bool, lists: set<seq<Dep>>,
                        deps: seq<Dep>)
  {
    exists ds :: ds in lists && TidyFor(registry, dir, mayBeEmptied, ds) && SamePackages(ds, deps)
  }

  /** What `build_deps_dir` promises about a tidy directory. */
  lemma {:induction false} BuildDepsDirIsSound(registry: map<Hash, Files>, dir: Dir, mayBeEmptied: bool,
                                               lists: set<seq<Dep>>, deps: seq<Dep>, haveKey: bool)
    requires Tidy(registry, dir, mayBeEmptied, lists) && Proper(deps) && Registered(registry, deps)
    ensures match BuildDepsDir(dir, deps, haveKey)
      case (None, after) => after == dir || after == Gone
      case (Some(true), after) => after == dir && Holds(registry, dir, mayBeEmptied, lists, deps)
      case (Some(false), after) => AllReadable(deps) && after == Fresh(deps)
  {
    if BuildDepsDir(dir, deps, haveKey).0 == Some(true) {
      CachedMeansCurrentTags(dir, deps, haveKey);
      CurrentTagsHold(registry, dir, mayBeEmptied, lists, deps);
    }
  }

  /** Every tag is there and up to date. */
  predicate CurrentTags(dir: Dir, deps: seq<Dep>) {
    && dir.Tagged? && PresentExactly(dir.tags.Keys, set d | d in deps :: d.name)
    && (forall d :: d in deps ==> d.name in dir.tags)
    && CheckTags(dir.tags, deps) == Some(true)
  }

  lemma CachedMeansCurrentTags(dir: Dir, deps: seq<Dep>, haveKey: bool)
    requires BuildDepsDir(dir, deps, haveKey).0 == Some(true)
    ensures CurrentTags(dir, deps)
  {}

  lemma CurrentTagsHold(registry: map<Hash, Files>, dir: Dir, mayBeEmptied: bool, lists: set<seq<Dep>>, deps: seq<Dep>)
    requires Tidy(registry, dir, mayBeEmptied, lists) && Registered(registry, deps) && CurrentTags(dir, deps)
    ensures Holds(registry, dir, mayBeEmptied, lists, deps)
  {
    var ds :| ds in lists && TidyFor(registry, dir, mayBeEmptied, ds);
    SameTagsSameDeps(registry, ds, deps);
  }

  /** A directory emptied down to exactly the tags of these dependencies. */
  predicate EmptiedFor(dir: Dir, deps: seq<Dep>) {
    AllReadable(deps) && dir == Tagged(TagsOf(deps), Emptied)
  }

  /** A directory reported as cached is a fresh install, in the order of one of `lists`, or was emptied. */
  lemma CachedDir(registry: map<Hash, Files>, dir: Dir, mayBeEmptied: bool, lists: set<seq<Dep>>, deps: seq<Dep>)
    requires Holds(registry, dir, mayBeEmptied, lists, deps) && Proper(deps)
    ensures AllReadable(deps)
    ensures if EmptiedFor(dir, deps) then mayBeEmptied
            else exists ds :: ds in lists && AllReadable(ds) && Proper(ds) && SamePackages(ds, deps) && dir == Fresh(ds)
  {
    var ds :| ds in lists && TidyFor(registry, dir, mayBeEmptied, ds) && SamePackages(ds, deps);
    SamePackagesSameTags(ds, deps);
  }

  lemma FreshIsFreshInstall(deps: seq<Dep>)
    requires AllReadable(deps) && Proper(deps)
    ensures FreshInstall(Fresh(deps), deps)
  {}

  /** What the script sees: an emptied directory is passed through only when cleaning is off. */
  ghost predicate SeesFresh(dir: Dir, i: Input, seen: Dir, lists: set<seq<Dep>>) {
    && AllReadable(i.deps)
    && (i.cleanTarget ==> seen == Fresh(i.deps))
    && if !i.cleanTarget && EmptiedFor(dir, i.deps) then seen == dir
       else seen == Fresh(i.deps)
            || exists ds :: ds in lists && AllReadable(ds) && Proper(ds) && SamePackages(ds, i.deps)
                            && seen == Fresh(ds)
  }

  /** A directory with exactly these tags counts as cached, whatever else it holds. */
  lemma TaggedIsCached(dir: Dir, deps: seq<Dep>, haveKey: bool)
    requires Proper(deps) && (haveKey || deps == []) && AllReadable(deps) && dir.Tagged? && dir.tags == TagsOf(deps)
    ensures BuildDepsDir(dir, deps, haveKey).0 == Some(true)
  {
    TagsOfNames(deps);
    forall i | 0 <= i < |deps| ensures TagsOf(deps)[deps[i].name] == Tag(deps[i].archive.value.hash) {
      TagsOfEntry(deps, i);
    }
    OwnTagsMatch(TagsOf(deps), deps);
  }

  lemma {:induction false} OwnTagsMatch(tags: Tags, deps: seq<Dep>)
    requires AllReadable(deps)
    requires forall i :: 0 <= i < |deps| ==>
      deps[i].name in tags && deps[i] in deps && tags[deps[i].name] == Tag(deps[i].archive.value.hash)
    ensures (forall d :: d in deps ==> d.name in tags) && CheckTags(tags, deps) == Some(true)
    decreases |deps|
  {
    if deps != [] {
      var k := |deps| - 1;
      assert deps == deps[..k] + [deps[k]];
      OwnTagsMatch(tags, deps[..k]);
    }
  }

  lemma SeenByScript(registry: map<Hash, Files>, dir: Dir, mayBeEmptied: bool, lists: set<seq<Dep>>, i: Input)
    requires Tidy(registry, dir, mayBeEmptied, lists) && Proper(i.deps) && Registered(registry, i.deps)
    requires Build(dir, i).seen.Some?
    ensures SeesFresh(dir, i, Build(dir, i).seen.value, lists)
    ensures !mayBeEmptied ==> !EmptiedFor(dir, i.deps)
  {
    BuildDepsDirIsSound(registry, dir, mayBeEmptied, lists, i.deps, i.haveKey);
    if BuildDepsDir(dir, i.deps, i.haveKey).0 == Some(true) {
      CachedDir(registry, dir, mayBeEmptied, lists, i.deps);
    } else if EmptiedFor(dir, i.deps) {
      TaggedIsCached(dir, i.deps, i.haveKey);
    }
  }

  /** One build, after any history of builds with any settings. */
  lemma {:induction false} BuildIsSound(registry: map<Hash, Files>, dir: Dir, mayBeEmptied: bool, lists: set<seq<Dep>>,
                                        i: Input)
    requires Tidy(registry, dir, mayBeEmptied, lists) && (i.cleanTarget ==> mayBeEmptied)
    requires Proper(i.deps) && Registered(registry, i.deps)
    ensures Tidy(registry, Build(dir, i).dir, mayBeEmptied, lists + {i.deps})
    ensures Build(dir, i).seen.Some? ==> SeesFresh(dir, i, Build(dir, i).seen.value, lists)
  {
    if Build(dir, i).seen.Some? {
      SeenByScript(registry, dir, mayBeEmptied, lists, i);
    }
  }

  // ---- Whole histories ----

  function RunBuilds(inputs: seq<Input>): Dir
    decreases |inputs|
  {
    if inputs == [] then Gone else Build(RunBuilds(inputs[..|inputs| - 1]), inputs[|inputs| - 1]).dir
  }

  ghost predicate Legitimate(registry: map<Hash, Files>, inputs: seq<Input>) {
    forall k :: 0 <= k < |inputs| ==> Proper(inputs[k].deps) && Registered(registry, inputs[k].deps)
  }

  /** The dependency lists of a history. */
  function ListsOf(inputs: seq<Input>): set<seq<Dep>> { set i | i in inputs :: i.deps }

  lemma {:induction false} HistoryIsTidy(registry: map<Hash, Files>, inputs: seq<Input>, mayBeEmptied: bool)
    requires Legitimate(registry, inputs)
    requires forall k :: 0 <= k < |inputs| ==> inputs[k].cleanTarget ==> mayBeEmptied
    ensures Tidy(registry, RunBuilds(inputs), mayBeEmptied, ListsOf(inputs))
    decreases |inputs|
  {
    if inputs != [] {
      var k := |inputs| - 1;
      HistoryIsTidy(registry, inputs[..k], mayBeEmptied);
      BuildIsSound(registry, RunBuilds(inputs[..k]), mayBeEmptied, ListsOf(inputs[..k]), inputs[k]);
      assert inputs == inputs[..k] + [inputs[k]];
      assert ListsOf(inputs) == ListsOf(inputs[..k]) + {inputs[k].deps};
    }
  }

  /**
   After any history of builds, with `clean_target` switched on and off at will, a build script
   that runs sees a fresh install of exactly its current dependencies if and only if
   `clean_target` is on or the directory is not one emptied down to these very tags.
   */
  lemma {:induction false} SeenIsFreshExactlyWhen(registry: map<Hash, Files>, inputs: seq<Input>, i: Input)
    requires Legitimate(registry, inputs) && Proper(i.deps) && Registered(registry, i.deps)
    requires Build(RunBuilds(inputs), i).seen.Some?
    ensures AllReadable(i.deps)
    ensures FreshInstall(Build(RunBuilds(inputs), i).seen.value, i.deps)
            <==> i.cleanTarget || !EmptiedFor(RunBuilds(inputs), i.deps)
  {
    HistoryIsTidy(registry, inputs, true);
    BuildIsSound(registry, RunBuilds(inputs), true, ListsOf(inputs), i);
    FreshIsFreshInstall(i.deps);
  }

  /**
   Under a constant `clean_target` setting, through any history of builds with changing
   dependencies, failures included: whenever a build script runs, the sysroot is a fresh install
   of exactly its current dependencies, and with `clean_target` on in exactly their current order.
   */
  lemma {:induction false} ConstantSettingSeesFresh(registry: map<Hash, Files>, inputs: seq<Input>, clean: bool,
                                                    i: Input)
    requires Legitimate(registry, inputs) && Proper(i.deps) && Registered(registry, i.deps)
    requires forall k :: 0 <= k < |inputs| ==> inputs[k].cleanTarget == clean
    requires i.cleanTarget == clean && Build(RunBuilds(inputs), i).seen.Some?
    ensures AllReadable(i.deps) && FreshInstall(Build(RunBuilds(inputs), i).seen.value, i.deps)
    ensures clean ==> Build(RunBuilds(inputs), i).seen == Some(Fresh(i.deps))
  {
    HistoryIsTidy(registry, inputs, clean);
    SeenByScript(registry, RunBuilds(inputs), clean, ListsOf(inputs), i);
    FreshIsFreshInstall(i.deps);
  }

  // ---- When a recipe is rebuilt ----

  /** Everything an install needs is there. */
  predicate CanInstall(i: Input) { AllReadable(i.deps) && (i.haveKey || i.deps == []) }

  /** On a tidy directory "cached" is the answer exactly when the tags are those of the current packages. */
  lemma CachedExactlyWhen(registry: map<Hash, Files>, dir: Dir, mayBeEmptied: bool, lists: set<seq<Dep>>, i: Input)
    requires Tidy(registry, dir, mayBeEmptied, lists) && Proper(i.deps) && Registered(registry, i.deps) && CanInstall(i)
    ensures BuildDepsDir(dir, i.deps, i.haveKey).0 == Some(dir.Tagged? && dir.tags == TagsOf(i.deps))
    ensures BuildDepsDir(dir, i.deps, i.haveKey).1 == dir || BuildDepsDir(dir, i.deps, i.haveKey).1 == Fresh(i.deps)
  {
    BuildDepsDirIsSound(registry, dir, mayBeEmptied, lists, i.deps, i.haveKey);
    if dir.Tagged? && dir.tags == TagsOf(i.deps) {
      TaggedIsCached(dir, i.deps, i.haveKey);
    } else if BuildDepsDir(dir, i.deps, i.haveKey).0 == Some(true) {
      var ds :| ds in lists && TidyFor(registry, dir, mayBeEmptied, ds) && SamePackages(ds, i.deps);
      SamePackagesSameTags(ds, i.deps);
    } else {
      InstallGivesAnAnswer(registry, dir, mayBeEmptied, lists, i);
    }
  }

  lemma InstallGivesAnAnswer(registry: map<Hash, Files>, dir: Dir, mayBeEmptied: bool, lists: set<seq<Dep>>, i: Input)
    requires Tidy(registry, dir, mayBeEmptied, lists) && CanInstall(i)
    ensures BuildDepsDir(dir, i.deps, i.haveKey).0.Some?
  {
    if dir.Tagged? && PresentExactly(dir.tags.Keys, set d | d in i.deps :: d.name) {
      ReadableIsChecked(dir.tags, i.deps);
    }
  }

  /** Comparing the tags of readable packages never ends in an error. */
  lemma {:induction false} ReadableIsChecked(tags: Tags, deps: seq<Dep>)
    requires AllReadable(deps) && forall d :: d in deps ==> d.name in tags
    ensures CheckTags(tags, deps).Some?
    decreases |deps|
  {
    if deps != [] {
      var k := |deps| - 1;
      assert deps == deps[..k] + [deps[k]];
      ReadableIsChecked(tags, deps[..k]);
    }
  }

  /**
   After any history of builds, with everything there to install from: the build script is left out
   exactly when there is no other reason to rebuild and the tags are those of exactly the current
   packages, and then nothing changes and nothing fails. When it runs, the directory afterwards is what it saw, or,
   if it succeeded with `clean_target` on, emptied down to the tags of the current packages.
   */
  lemma {:induction false} RebuiltExactlyWhen(registry: map<Hash, Files>, inputs: seq<Input>, i: Input)
    requires Legitimate(registry, inputs) && Proper(i.deps) && Registered(registry, i.deps) && CanInstall(i)
    ensures var dir := RunBuilds(inputs);
      var b := Build(dir, i);
      && (b.seen.None? <==> !i.otherReason && dir.Tagged? && dir.tags == TagsOf(i.deps))
      && (b.seen.None? ==> b.dir == dir)
      && (b.seen.Some? ==>
            b.dir == if i.scriptSucceeds && i.cleanTarget then Tagged(TagsOf(i.deps), Emptied) else b.seen.value)
      && (b.failed <==> b.seen.Some? && !i.scriptSucceeds)
  {
    var dir := RunBuilds(inputs);
    HistoryIsTidy(registry, inputs, true);
    CachedExactlyWhen(registry, dir, true, ListsOf(inputs), i);
    CleanedUp(dir, i);
  }

  /** A script that ran with cleaning on ran in a directory with the tags of the current packages. */
  lemma CleanedUp(dir: Dir, i: Input)
    requires CanInstall(i) && BuildDepsDir(dir, i.deps, i.haveKey).0 == Some(dir.Tagged? && dir.tags == TagsOf(i.deps))
    requires BuildDepsDir(dir, i.deps, i.haveKey).1 == dir || BuildDepsDir(dir, i.deps, i.haveKey).1 == Fresh(i.deps)
    ensures var b := Build(dir, i);
      && (b.seen.None? <==> !i.otherReason && dir.Tagged? && dir.tags == TagsOf(i.deps))
      && (b.seen.None? ==> b.dir == dir)
      && (b.seen.Some? ==>
            b.dir == if i.scriptSucceeds && i.cleanTarget then Tagged(TagsOf(i.deps), Emptied) else b.seen.value)
      && (b.failed <==> b.seen.Some? && !i.scriptSucceeds)
  {
    assert BuildDepsDir(Gone, i.deps, i.haveKey) == (Some(false), Fresh(i.deps));
  }

  /** Without the key or with an unreadable archive the build fails before the script; at most the directory is gone. */
  lemma {:induction false} NothingRunsWithoutPackages(registry: map<Hash, Files>, inputs: seq<Input>, i: Input)
    requires Legitimate(registry, inputs) && Proper(i.deps) && Registered(registry, i.deps) && !CanInstall(i)
    ensures var dir := RunBuilds(inputs);
      Build(dir, i).seen.None? && Build(dir, i).failed && Build(dir, i).dir in {dir, Gone}
  {
    HistoryIsTidy(registry, inputs, true);
    BuildDepsDirIsSound(registry, RunBuilds(inputs), true, ListsOf(inputs), i.deps, i.haveKey);
    if BuildDepsDir(RunBuilds(inputs), i.deps, i.haveKey).0 == Some(true) {
      CachedDir(registry, RunBuilds(inputs), true, ListsOf(inputs), i.deps);
    }
  }

  // ---- When the order makes no difference ----

  /** Lists of the same packages that are sorted alike are equal. */
  lemma SortedAlike(lt: Less<string>, ds: seq<Dep>, deps: seq<Dep>)
    requires StrictTotal(lt) && StrictlySorted(lt, NamesOf(ds)) && StrictlySorted(lt, NamesOf(deps))
    requires SamePackages(ds, deps) && Proper(deps)
    ensures ds == deps
  {
    NamesOfSame(ds, deps);
    SortedListIsUnique(lt, NamesOf(ds), NamesOf(deps));
    forall k | 0 <= k < |ds| ensures ds[k] == deps[k] {
      assert ds[k] in ds;
      var j :| 0 <= j < |deps| && deps[j] == ds[k];
      assert NamesOf(deps)[j] == NamesOf(deps)[k];
    }
  }

  lemma NamesOfSame(ds: seq<Dep>, deps: seq<Dep>)
    requires SamePackages(ds, deps)
    ensures forall n :: n in NamesOf(ds) <==> n in NamesOf(deps)
  {
    forall n | n in NamesOf(ds) ensures n in NamesOf(deps) { NameMoves(ds, deps, n); }
    forall n | n in NamesOf(deps) ensures n in NamesOf(ds) { NameMoves(deps, ds, n); }
  }

  lemma NameMoves(ds: seq<Dep>, deps: seq<Dep>, n: string)
    requires SamePackages(ds, deps) && n in NamesOf(ds)
    ensures n in NamesOf(deps)
  {
    var i :| 0 <= i < |ds| && NamesOf(ds)[i] == n;
    assert ds[i] in ds;
    var j :| 0 <= j < |deps| && deps[j] == ds[i];
    assert NamesOf(deps)[j] == n;
  }

  /**
   When all lists are sorted by one order on names, as they are as long as no name is written now
   with and now without a prefix, the script sees exactly the fresh install of its current list
   under the same condition.
   */
  lemma {:induction false} SortedListsSeeFreshExactlyWhen(lt: Less<string>, registry: map<Hash, Files>,
                                                          inputs: seq<Input>, i: Input)
    requires StrictTotal(lt) && Legitimate(registry, inputs) && Proper(i.deps) && Registered(registry, i.deps)
    requires StrictlySorted(lt, NamesOf(i.deps))
    requires forall k :: 0 <= k < |inputs| ==> StrictlySorted(lt, NamesOf(inputs[k].deps))
    requires Build(RunBuilds(inputs), i).seen.Some?
    ensures AllReadable(i.deps)
    ensures Build(RunBuilds(inputs), i).seen == Some(Fresh(i.deps))
            <==> i.cleanTarget || !EmptiedFor(RunBuilds(inputs), i.deps)
  {
    HistoryIsTidy(registry, inputs, true);
    BuildIsSound(registry, RunBuilds(inputs), true, ListsOf(inputs), i);
    forall ds | ds in ListsOf(inputs) && SamePackages(ds, i.deps) ensures ds == i.deps {
      SortedAlike(lt, ds, i.deps);
    }
  }

  /** No two packages hold different contents for one path. */
  ghost predicate NoConflict(deps: seq<Dep>)
    requires AllReadable(deps)
  {
    forall d, e, p :: d in deps && e in deps && p in d.archive.value.files && p in e.archive.value.files ==>
      d.archive.value.files[p] == e.archive.value.files[p]
  }

  /** Every installed file comes from some package. */
  lemma {:induction false} InstalledFrom(deps: seq<Dep>, p: string) returns (d: Dep)
    requires AllReadable(deps) && p in InstallAll(deps)
    ensures d in deps && p in d.archive.value.files && InstallAll(deps)[p] == d.archive.value.files[p]
    decreases |deps|
  {
    d := deps[|deps| - 1];
    if p !in d.archive.value.files {
      d := InstalledFrom(deps[..|deps| - 1], p);
    }
  }

  lemma {:induction false} InstallsAllFiles(deps: seq<Dep>, d: Dep, p: string)
    requires AllReadable(deps) && d in deps && p in d.archive.value.files
    ensures p in InstallAll(deps)
    decreases |deps|
  {
    var k := |deps| - 1;
    assert deps == deps[..k] + [deps[k]];
    if d != deps[k] {
      InstallsAllFiles(deps[..k], d, p);
    }
  }

  lemma InstallsTheSame(ds: seq<Dep>, deps: seq<Dep>, p: string)
    requires AllReadable(ds) && AllReadable(deps) && NoConflict(deps) && SamePackages(ds, deps)
    requires p in InstallAll(ds)
    ensures p in InstallAll(deps) && InstallAll(deps)[p] == InstallAll(ds)[p]
  {
    var d := InstalledFrom(ds, p);
    InstallsAllFiles(deps, d, p);
    var e := InstalledFrom(deps, p);
  }

  lemma SameInstall(ds: seq<Dep>, deps: seq<Dep>)
    requires AllReadable(ds) && AllReadable(deps) && NoConflict(ds) && NoConflict(deps) && SamePackages(ds, deps)
    ensures InstallAll(ds) == InstallAll(deps)
  {
    forall p | p in InstallAll(ds) ensures p in InstallAll(deps) && InstallAll(deps)[p] == InstallAll(ds)[p] {
      InstallsTheSame(ds, deps, p);
    }
    forall p | p in InstallAll(deps) ensures p in InstallAll(ds) {
      InstallsTheSame(deps, ds, p);
    }
  }

  /** Without conflicts every order of installing the same packages gives the same sysroot. */
  lemma {:induction false} ConflictFreeInstallIsUnique(dir: Dir, deps: seq<Dep>)
    requires AllReadable(deps) && Proper(deps) && NoConflict(deps) && FreshInstall(dir, deps)
    ensures dir == Fresh(deps)
  {
    var ds :| AllReadable(ds) && Proper(ds) && SamePackages(ds, deps) && dir == Fresh(ds);
    SamePackagesSameTags(ds, deps);
    SameInstall(ds, deps);
  }

  lemma InstallTwo(p: Dep, q: Dep, path: string)
    requires p.archive.Some? && q.archive.Some? && path in q.archive.value.files
    ensures AllReadable([p, q]) && path in InstallAll([p, q])
    ensures InstallAll([p, q])[path] == q.archive.value.files[path]
  {}

  lemma ExchangedIsTheSame(p: Dep, q: Dep)
    requires p.archive.Some? && q.archive.Some? && p.name != q.name && !Hidden(p.name) && !Hidden(q.name)
    ensures Proper([p, q]) && Proper([q, p]) && SamePackages([p, q], [q, p])
    ensures AllReadable([p, q]) && AllReadable([q, p])
  {
    assert NamesOf([p, q]) == [p.name, q.name] && NamesOf([q, p]) == [q.name, p.name];
  }

  /**
   Otherwise the old order can survive: when two packages that hold one path with different
   contents change places in the list, a script run without cleaning sees the old one.
   */
  lemma {:induction false} ExchangedConflictKeepsTheOldOrder(p: Dep, q: Dep, path: string)
    requires p.archive.Some? && q.archive.Some? && p.name != q.name && !Hidden(p.name) && !Hidden(q.name)
    requires path in p.archive.value.files && path in q.archive.value.files
    requires p.archive.value.files[path] != q.archive.value.files[path]
    ensures AllReadable([p, q]) && AllReadable([q, p]) && Fresh([p, q]) != Fresh([q, p])
    ensures var first, second := Input(false, [p, q], true, true, true), Input(false, [q, p], true, true, true);
      Build(RunBuilds([first]), second).seen == Some(Fresh([p, q]))
  {
    var first, second := Input(false, [p, q], true, true, true), Input(false, [q, p], true, true, true);
    InstallTwo(p, q, path);
    InstallTwo(q, p, path);
    assert InstallAll([p, q])[path] != InstallAll([q, p])[path];
    ExchangedIsTheSame(p, q);
    SamePackagesSameTags([p, q], [q, p]);
    assert [first][..0] == [];
    assert RunBuilds([first]) == Fresh([p, q]);
    TaggedIsCached(Fresh([p, q]), [q, p], true);
  }

  /** Switching `clean_target` off after a clean build makes the next script run in an emptied sysroot. */
  lemma {:induction false} TogglingShowsAnEmptiedSysroot(d: Dep)
    requires d.archive.Some?
    ensures var first := Input(true, [d], true, true, true);
      var second := Input(false, [d], true, true, true);
      Build(RunBuilds([first]), second).seen == Some(Tagged(map[d.name := Tag(d.archive.value.hash)], Emptied))
  {
    var first := Input(true, [d], true, true, true);
    assert [first][..0] == [] && [d][..0] == [];
    var tags := map[d.name := Tag(d.archive.value.hash)];
    assert TagsOf([d]) == tags;
    assert Build(Gone, first).dir == Tagged(tags, Emptied);
    assert (set x | x in [d] :: x.name) == {d.name};
    assert CheckTags(tags, []) == Some(true);
    assert CheckTags(tags, [d]) == Some(true);
  }

  // ---- The code ----

  lemma CountDecides(entries: set<string>, expected: set<string>)
    ensures |entries * expected| == |expected| <==> expected <= entries
  {
    assert expected == (entries * expected) + (expected - entries);
    assert |expected| == |entries * expected| + |expected - entries|;
  }

  /** `check_files_present`: count the expected entries, stop at an unexpected visible one. */
  method CheckFilesPresent(entries: set<string>, expected: set<string>) returns (r: bool)
    ensures r <==> PresentExactly(entries, expected)
  {
    var matches := 0;
    ghost var seen: set<string> := {};
    var rest := entries;
    while rest != {}
      invariant seen !! rest && seen + rest == entries
      invariant matches == |seen * expected|
      invariant forall e :: e in seen && e !in expected ==> Hidden(e)
      decreases |rest|
    {
      var e :| e in rest;
      ghost var before := seen;
      seen := seen + {e};
      if e in expected {
        assert seen * expected == (before * expected) + {e};
        matches := matches + 1;
      } else if Hidden(e) {
        assert seen * expected == before * expected;
      } else {
        return false;
      }
      rest := rest - {e};
    }
    assert seen == entries;
    CountDecides(entries, expected);
    r := matches == |expected|;
  }

  class TargetDir {
    var sysroot: Dir

    constructor ()
      ensures sysroot == Gone
    {
      sysroot := Gone;
    }

    method BuildDeps(deps: seq<Dep>, haveKey: bool) returns (r: Option<bool>)
      modifies this
      ensures (r, sysroot) == BuildDepsDir(old(sysroot), deps, haveKey)
    {
      if !haveKey && |deps| > 0 {
        return None;
      }
      match sysroot {
        case Untagged(contents) =>
          if contents.Installed? {
            return None;
          }
        case Gone =>
        case Tagged(tags, _) =>
          var present := CheckFilesPresent(tags.Keys, set d | d in deps :: d.name);
          if present {
            var cached := CompareTags(tags, deps);
            if cached.None? {
              return None;
            }
            if cached.value {
              return cached;
            }
          }
          sysroot := Gone;
      }
      r := Install(deps);
    }

    method CompareTags(tags: Tags, deps: seq<Dep>) returns (r: Option<bool>)
      requires forall d :: d in deps ==> d.name in tags
      ensures r == CheckTags(tags, deps)
    {
      var cached := true;
      var i := 0;
      while i < |deps|
        invariant 0 <= i <= |deps| && CheckTags(tags, deps[..i]) == Some(cached)
      {
        assert deps[i] in deps && deps[..i + 1][..i] == deps[..i];
        if tags[deps[i].name].Garbage? {
          cached := false;
        } else if deps[i].archive.None? {
          CheckTagsStops(tags, deps, i + 1);
          return None;
        } else if tags[deps[i].name].hash != deps[i].archive.value.hash {
          cached := false;
        }
        i := i + 1;
      }
      assert deps[..i] == deps;
      r := Some(cached);
    }

    /** Install into a temporary directory, one package and one tag at a time, then move it in place. */
    method Install(deps: seq<Dep>) returns (r: Option<bool>)
      requires sysroot == Gone || sysroot == Untagged(Emptied)
      modifies this
      ensures (r, sysroot) == InstallOver(old(sysroot), deps)
    {
      var tags: Tags := map[];
      var files: Files := map[];
      var i := 0;
      while i < |deps|
        invariant 0 <= i <= |deps| && AllReadable(deps[..i]) && sysroot == old(sysroot)
        invariant tags == TagsOf(deps[..i]) && files == InstallAll(deps[..i])
      {
        if deps[i].archive.None? {
          assert deps[i] in deps;
          return None;
        }
        InstallOneMore(deps, i);
        files := files + deps[i].archive.value.files;
        tags := tags[deps[i].name := Tag(deps[i].archive.value.hash)];
        i := i + 1;
      }
      assert deps[..i] == deps;
      sysroot := Tagged(tags, Installed(files));
      r := Some(false);
    }

    /** Fails, and changes nothing, where there are no tags to keep. */
    method CleanDeps() returns (ok: bool)
      modifies this
      ensures ok == old(sysroot).Tagged? && sysroot == CleanDepsDir(old(sysroot))
    {
      ok := sysroot.Tagged?;
      if ok {
        sysroot := Tagged(sysroot.tags, Emptied);
      }
    }

    /** The sysroot part of `build`; the result is what the script saw, if it ran. */
    method BuildRecipe(i: Input) returns (seen: Option<Dir>, failed: bool)
      modifies this
      ensures Built(sysroot, seen, failed) == Build(old(sysroot), i)
    {
      var cached := BuildDeps(i.deps, i.haveKey);
      if cached.None? {
        return None, true;
      }
      if cached.value && !i.otherReason {
        return None, false;
      }
      if i.cleanTarget && cached.value {
        sysroot := Gone;
        var again := BuildDeps(i.deps, i.haveKey);
        if again.None? {
          return None, true;
        }
      }
      seen, failed := Some(sysroot), !i.scriptSucceeds;
      if i.scriptSucceeds && i.cleanTarget {
        var cleaned := CleanDeps();
        assert cleaned;
      }
    }
  }

  lemma InstallOneMore(deps: seq<Dep>, i: nat)
    requires i < |deps| && AllReadable(deps[..i]) && deps[i].archive.Some?
    ensures AllReadable(deps[..i + 1])
    ensures InstallAll(deps[..i + 1]) == InstallAll(deps[..i]) + deps[i].archive.value.files
    ensures TagsOf(deps[..i + 1]) == TagsOf(deps[..i])[deps[i].name := Tag(deps[i].archive.value.hash)]
  {
    assert deps[..i + 1][..i] == deps[..i] && deps[..i + 1] == deps[..i] + [deps[i]];
  }

  /** Comparing tags fails exactly on a package that cannot be opened and whose tag can be read. */
  lemma {:induction false} CheckFailsExactlyWhen(tags: Tags, deps: seq<Dep>)
    requires forall d :: d in deps ==> d.name in tags
    ensures CheckTags(tags, deps).None? <==> exists d :: d in deps && d.archive.None? && tags[d.name].Tag?
    decreases |deps|
  {
    if deps != [] {
      var k := |deps| - 1;
      assert deps == deps[..k] + [deps[k]];
      CheckFailsExactlyWhen(tags, deps[..k]);
    }
  }

  lemma {:induction false} CheckTagsStops(tags: Tags, deps: seq<Dep>, k: nat)
    requires (forall d :: d in deps ==> d.name in tags) && k <= |deps| && CheckTags(tags, deps[..k]).None?
    ensures CheckTags(tags, deps).None?
    decreases |deps|
  {
    if k == |deps| {
      assert deps[..k] == deps;
    } else {
      var shorter := deps[..|deps| - 1];
      assert shorter[..k] == deps[..k];
      CheckTagsStops(tags, shorter, k);
    }
  }
}
