/**
 Splitting a finished stage directory into optional packages: every file goes to the stage
 directory of the first glob that matches it, and directories that lose everything are removed.
 */
module StageMove {
  import opened Names

  type Path = seq<string>

  datatype Node = Dir(entries: map<string, Node>) | File(content: string)

  /** A compiled glob and the stage directory it routes to. */
  datatype Route = Route(matches: Path -> bool, stage: string)

  /** Where a file at this relative path goes, if anywhere. */
  type Router = Path -> Option<string>

  function FirstMatch(routes: seq<Route>, path: Path): Option<string> {
    if routes == [] then None
    else if routes[0].matches(path) then Some(routes[0].stage)
    else FirstMatch(routes[1..], path)
  }

  /** The closure handed to `move_dir_all_fn`. */
  method RouteFile(routes: seq<Route>, path: Path) returns (r: Option<string>)
    ensures r == FirstMatch(routes, path)
    ensures r.Some? ==> exists k :: 0 <= k < |routes| && routes[k].matches(path) && r == Some(routes[k].stage)
                                    && forall j :: 0 <= j < k ==> !routes[j].matches(path)
    ensures r.None? ==> forall k :: 0 <= k < |routes| ==> !routes[k].matches(path)
  {
    var i := 0;
    while i < |routes|
      invariant 0 <= i <= |routes| && FirstMatch(routes[i..], path) == FirstMatch(routes, path)
      invariant forall j :: 0 <= j < i ==> !routes[j].matches(path)
    {
      assert routes[i..][1..] == routes[i + 1..];
      if routes[i].matches(path) {
        return Some(routes[i].stage);
      }
      i := i + 1;
    }
    r := None;
  }

  // ---- What is left behind ----

  /** The node at `path` is taken away: a file that is routed, or a directory that had entries and lost them all. */
  predicate Vanishes(node: Node, path: Path, mv: Router)
    decreases node, 1
  {
    match node
    case File(_) => mv(path).Some?
    case Dir(entries) => entries != map[] && Remaining(node, path, mv) == map[]
  }

  /** The entries a directory is left with. */
  function Remaining(node: Node, path: Path, mv: Router): map<string, Node>
    requires node.Dir?
    decreases node, 0
  {
    map n | n in node.entries && !Vanishes(node.entries[n], path + [n], mv) :: After(node.entries[n], path + [n], mv)
  }

  function After(node: Node, path: Path, mv: Router): Node
    decreases node, 1
  {
    match node
    case File(_) => node
    case Dir(_) => Dir(Remaining(node, path, mv))
  }

  /** The node below `node` along `rest`. */
  function At(node: Node, rest: Path): Option<Node>
    decreases |rest|
  {
    if rest == [] then Some(node)
    else if node.Dir? && rest[0] in node.entries then At(node.entries[rest[0]], rest[1..])
    else None
  }

  /** Something below `node` stays: a file no glob matches, or a directory that was empty from the start. */
  ghost predicate KeepsAt(node: Node, path: Path, mv: Router, rest: Path) {
    match At(node, rest)
    case None => false
    case Some(File(_)) => mv(path + rest).None?
    case Some(Dir(entries)) => entries == map[]
  }

  ghost predicate KeepsSomething(node: Node, path: Path, mv: Router) {
    exists rest :: KeepsAt(node, path, mv, rest)
  }

  lemma KeepsBelow(node: Node, path: Path, mv: Router, n: string, rest: Path)
    requires node.Dir? && n in node.entries
    ensures KeepsAt(node, path, mv, [n] + rest) <==> KeepsAt(node.entries[n], path + [n], mv, rest)
  {
    assert ([n] + rest)[1..] == rest;
    assert path + ([n] + rest) == path + [n] + rest;
  }

  /** A node survives exactly when something at or below it does. */
  lemma {:induction false} VanishesExactlyWhen(node: Node, path: Path, mv: Router)
    ensures Vanishes(node, path, mv) <==> !KeepsSomething(node, path, mv)
    decreases node
  {
    match node {
      case File(_) =>
        assert path + [] == path;
        assert KeepsAt(node, path, mv, []) <==> mv(path).None?;
        forall rest | KeepsAt(node, path, mv, rest) ensures rest == [] {}
      case Dir(entries) =>
        if entries == map[] {
          assert KeepsAt(node, path, mv, []);
        }
        forall n | n in entries
          ensures Vanishes(entries[n], path + [n], mv) <==> !KeepsSomething(entries[n], path + [n], mv)
        {
          VanishesExactlyWhen(entries[n], path + [n], mv);
        }
        if n :| n in Remaining(node, path, mv) {
          var rest :| KeepsAt(entries[n], path + [n], mv, rest);
          KeepsBelow(node, path, mv, n, rest);
        }
        if rest :| KeepsAt(node, path, mv, rest) && rest != [] {
          assert rest == [rest[0]] + rest[1..];
          KeepsBelow(node, path, mv, rest[0], rest[1..]);
          assert rest[0] in Remaining(node, path, mv);
        }
    }
  }

  lemma RemainingEntry(node: Node, path: Path, mv: Router, n: string)
    requires node.Dir? && n in node.entries
    ensures After(node, path, mv) == Dir(Remaining(node, path, mv))
    ensures n in Remaining(node, path, mv) <==> !Vanishes(node.entries[n], path + [n], mv)
    ensures n in Remaining(node, path, mv) ==>
              Remaining(node, path, mv)[n] == After(node.entries[n], path + [n], mv)
  {}

  /** What is found at a path afterwards, for every path. */
  lemma {:induction false} WhatStaysWhere(node: Node, path: Path, mv: Router, rest: Path)
    requires node.Dir?
    ensures At(After(node, path, mv), rest)
            == match At(node, rest)
               case None => None
               case Some(found) =>
                 if rest != [] && Vanishes(found, path + rest, mv) then None else Some(After(found, path + rest, mv))
    decreases |rest|
  {
    if rest == [] {
      assert path + [] == path;
    } else if rest[0] in node.entries {
      var child, here := node.entries[rest[0]], path + [rest[0]];
      assert here + rest[1..] == path + rest;
      RemainingEntry(node, path, mv, rest[0]);
      if rest[1..] == [] {
        assert rest == [rest[0]];
      } else if child.Dir? {
        WhatStaysWhere(child, here, mv, rest[1..]);
        if Vanishes(child, here, mv) && At(child, rest[1..]).Some? {
          AllBelowVanishes(child, here, mv, rest[1..]);
        }
      }
    }
  }

  /** If a directory vanishes, so does everything below it. */
  lemma AllBelowVanishes(node: Node, path: Path, mv: Router, rest: Path)
    requires Vanishes(node, path, mv) && At(node, rest).Some?
    ensures Vanishes(At(node, rest).value, path + rest, mv)
  {
    VanishesExactlyWhen(node, path, mv);
    var found := At(node, rest).value;
    VanishesExactlyWhen(found, path + rest, mv);
    forall more | KeepsAt(found, path + rest, mv, more) ensures false {
      AtConcat(node, rest, more);
      assert path + (rest + more) == path + rest + more;
      assert KeepsAt(node, path, mv, rest + more);
    }
  }

  lemma {:induction false} AtConcat(node: Node, rest: Path, more: Path)
    requires At(node, rest).Some?
    ensures At(node, rest + more) == At(At(node, rest).value, more)
    decreases |rest|
  {
    if rest == [] {
      assert rest + more == more;
    } else {
      AtConcat(node.entries[rest[0]], rest[1..], more);
      assert (rest + more)[1..] == rest[1..] + more;
    }
  }

  function FileAt(node: Node, path: Path): Option<string> {
    match At(node, path) case Some(File(content)) => Some(content) case _ => None
  }

  /**
   The stage directory afterwards: a file is still at its path exactly when no glob matches it, and
   a directory other than the root is still there exactly when something at or below it stays: an
   unmatched file, or a directory that was empty from the start.
   */
  lemma {:induction false} StageAfterwards(root: Node, mv: Router, path: Path)
    requires root.Dir?
    ensures FileAt(After(root, [], mv), path) == if mv(path).None? then FileAt(root, path) else None
    ensures var after := At(After(root, [], mv), path);
      (after.Some? && after.value.Dir?)
      <==> At(root, path).Some? && At(root, path).value.Dir?
           && (path == [] || KeepsSomething(At(root, path).value, path, mv))
  {
    assert [] + path == path;
    WhatStaysWhere(root, [], mv, path);
    if At(root, path).Some? {
      VanishesExactlyWhen(At(root, path).value, path, mv);
    }
  }

  // ---- The moves ----

  /** The files in the optional stage directories, by directory and relative path. */
  type Stages = map<(string, Path), string>

  /** The file at `p` lies under `path` in `node` and is routed to `d`. */
  ghost predicate Routed(node: Node, path: Path, mv: Router, d: string, p: Path) {
    |path| <= |p| && p[..|path|] == path && FileAt(node, p[|path|..]).Some? && mv(p) == Some(d)
  }

  /** `after` is `before` with every routed file of `node` added under its own path. */
  ghost predicate Receives(before: Stages, after: Stages, node: Node, path: Path, mv: Router) {
    forall d, p ::
      if Routed(node, path, mv, d, p) then (d, p) in after && after[(d, p)] == FileAt(node, p[|path|..]).value
      else ((d, p) in after <==> (d, p) in before) && ((d, p) in before ==> after[(d, p)] == before[(d, p)])
  }

  lemma RoutedChild(node: Node, path: Path, mv: Router, n: string, d: string, p: Path)
    requires node.Dir? && n in node.entries
    ensures Routed(node.entries[n], path + [n], mv, d, p)
            <==> |path| < |p| && p[|path|] == n && Routed(node, path, mv, d, p)
    ensures Routed(node.entries[n], path + [n], mv, d, p) ==>
              FileAt(node.entries[n], p[|path + [n]|..]) == FileAt(node, p[|path|..])
  {
    if |path| < |p| {
      var rest := p[|path|..];
      assert rest[1..] == p[|path + [n]|..] && rest[0] == p[|path|];
      assert p[..|path| + 1] == p[..|path|] + [p[|path|]];
      if p[|path|] == n && p[..|path|] == path {
        assert p[..|path + [n]|] == path + [n];
      }
      if p[..|path + [n]|] == path + [n] {
        assert p[|path|] == n by {
          assert p[..|path + [n]|][|path|] == n;
        }
        assert p[..|path|] == p[..|path + [n]|][..|path|] == path;
      }
    }
  }

  /** Everything routed below a directory is routed below one of its entries. */
  lemma RoutedSomewhere(node: Node, path: Path, mv: Router, d: string, p: Path)
    requires node.Dir? && Routed(node, path, mv, d, p)
    ensures |path| < |p| && p[|path|] in node.entries
  {
    assert p[|path|..] != [];
  }

  /** What has been staged once the entries in `done` are dealt with. */
  ghost predicate ReceivesFrom(before: Stages, after: Stages, node: Node, path: Path, mv: Router, done: set<string>) {
    forall d, p ::
      if Routed(node, path, mv, d, p) && |path| < |p| && p[|path|] in done
      then (d, p) in after && after[(d, p)] == FileAt(node, p[|path|..]).value
      else ((d, p) in after <==> (d, p) in before) && ((d, p) in before ==> after[(d, p)] == before[(d, p)])
  }

  /** Staging one more entry. */
  lemma ReceiveEntry(before: Stages, mid: Stages, after: Stages, node: Node, path: Path, mv: Router,
                     done: set<string>, n: string)
    requires node.Dir? && n in node.entries && n !in done
    requires ReceivesFrom(before, mid, node, path, mv, done)
    requires Receives(mid, after, node.entries[n], path + [n], mv)
    ensures ReceivesFrom(before, after, node, path, mv, done + {n})
  {
    forall d, p
      ensures if Routed(node, path, mv, d, p) && |path| < |p| && p[|path|] in done + {n}
        then (d, p) in after && after[(d, p)] == FileAt(node, p[|path|..]).value
        else ((d, p) in after <==> (d, p) in before) && ((d, p) in before ==> after[(d, p)] == before[(d, p)])
    {
      RoutedChild(node, path, mv, n, d, p);
    }
  }

  /** An entry that routes nothing stages nothing. */
  lemma NothingToReceive(stages: Stages, content: string, path: Path, mv: Router)
    requires mv(path).None?
    ensures Receives(stages, stages, File(content), path, mv)
  {
    forall d, p ensures !Routed(File(content), path, mv, d, p) {
      if |path| <= |p| && p[..|path|] == path && p[|path|..] == [] {
        assert p == path;
      }
    }
  }

  lemma ReceiveFile(stages: Stages, content: string, path: Path, mv: Router)
    requires mv(path).Some?
    ensures Receives(stages, stages[(mv(path).value, path) := content], File(content), path, mv)
  {
    var after := stages[(mv(path).value, path) := content];
    forall d, p
      ensures Routed(File(content), path, mv, d, p) <==> p == path && mv(path) == Some(d)
    {
      if |path| <= |p| && p[..|path|] == path && p[|path|..] == [] {
        assert p == path;
      }
      assert path[..|path|] == path && path[|path|..] == [];
    }
  }

  // ---- The recursion over directories ----

  /**
   `move_dir_all_inner_fn` on one directory. Entries come in an arbitrary order; subdirectories are
   dealt with as they are met, matched files are noted and moved afterwards, and a directory other
   than the root removes itself if it had entries and none is left.
   */
  method MoveDirAllInner(node: Node, path: Path, mv: Router, before: Stages)
    returns (left: map<string, Node>, removed: bool, stages: Stages)
    requires node.Dir?
    ensures left == Remaining(node, path, mv)
    ensures removed <==> path != [] && Vanishes(node, path, mv)
    ensures Receives(before, stages, node, path, mv)
    decreases node, 3
  {
    var matched: set<string>;
    left, matched, stages := VisitEntries(node, path, mv, before);
    left, stages := MoveMatched(node, path, mv, before, left, matched, stages);
    assert left == Remaining(node, path, mv);
    forall d, p | Routed(node, path, mv, d, p) ensures |path| < |p| && p[|path|] in node.entries {
      RoutedSomewhere(node, path, mv, d, p);
    }
    assert Receives(before, stages, node, path, mv);
    removed := path != [] && node.entries != map[] && left == map[];
  }

  /** The files of `node` that some glob matches. */
  ghost function MatchedFiles(node: Node, path: Path, mv: Router): set<string>
    requires node.Dir?
  {
    set n | n in node.entries && node.entries[n].File? && mv(path + [n]).Some?
  }

  /** What is left while the matched files in `waiting` have not been moved yet. */
  ghost predicate LeftWith(left: map<string, Node>, node: Node, path: Path, mv: Router, visited: set<string>,
                           waiting: set<string>)
    requires node.Dir?
  {
    forall n ::
      if n in node.entries && n in visited && n !in waiting then
        (n in left <==> !Vanishes(node.entries[n], path + [n], mv))
        && (n in left ==> left[n] == After(node.entries[n], path + [n], mv))
      else (n in left <==> n in node.entries) && (n in left ==> left[n] == node.entries[n])
  }

  /** One entry: recurse into a directory, note a matched file, leave any other file alone. */
  method VisitEntry(node: Node, path: Path, mv: Router, n: string, start: map<string, Node>, mid: Stages)
    returns (left: map<string, Node>, isMatched: bool, stages: Stages)
    requires node.Dir? && n in node.entries
    requires n in start && start[n] == node.entries[n]
    ensures isMatched <==> n in MatchedFiles(node, path, mv)
    ensures isMatched ==> left == start && stages == mid
    ensures !isMatched ==> Receives(mid, stages, node.entries[n], path + [n], mv)
    ensures !isMatched ==> left == if Vanishes(node.entries[n], path + [n], mv) then start - {n}
                                   else start[n := After(node.entries[n], path + [n], mv)]
    decreases node, 0
  {
    left, isMatched, stages := start, false, mid;
    match node.entries[n] {
      case Dir(_) =>
        var sub, gone;
        sub, gone, stages := MoveDirAllInner(node.entries[n], path + [n], mv, mid);
        left := if gone then left - {n} else left[n := Dir(sub)];
      case File(content) =>
        if mv(path + [n]).Some? {
          isMatched := true;
        } else {
          NothingToReceive(stages, content, path + [n], mv);
          assert start[n := node.entries[n]] == start;
        }
    }
  }

  lemma LeftStep(start: map<string, Node>, left: map<string, Node>, node: Node, path: Path, mv: Router,
                 visited: set<string>, matched: set<string>, n: string)
    requires node.Dir? && n in node.entries && n !in visited && n !in matched
    requires LeftWith(start, node, path, mv, visited, matched)
    requires left == if Vanishes(node.entries[n], path + [n], mv) then start - {n}
                     else start[n := After(node.entries[n], path + [n], mv)]
    ensures LeftWith(left, node, path, mv, visited + {n}, matched)
  {}

  lemma LeftNoted(left: map<string, Node>, node: Node, path: Path, mv: Router, visited: set<string>,
                  matched: set<string>, n: string)
    requires node.Dir? && n !in visited && LeftWith(left, node, path, mv, visited, matched)
    ensures LeftWith(left, node, path, mv, visited + {n}, matched + {n})
  {}

  /** Where the loop over the entries has got to. */
  ghost predicate Progress(node: Node, path: Path, mv: Router, before: Stages, visited: set<string>,
                           left: map<string, Node>, matched: set<string>, stages: Stages)
    requires node.Dir?
  {
    && matched == MatchedFiles(node, path, mv) * visited
    && LeftWith(left, node, path, mv, visited, matched)
    && ReceivesFrom(before, stages, node, path, mv, visited - matched)
  }

  lemma ProgressMatched(node: Node, path: Path, mv: Router, before: Stages, visited: set<string>,
                        left: map<string, Node>, matched: set<string>, stages: Stages, n: string)
    requires node.Dir? && Progress(node, path, mv, before, visited, left, matched, stages)
    requires n !in visited && n in MatchedFiles(node, path, mv)
    ensures Progress(node, path, mv, before, visited + {n}, left, matched + {n}, stages)
  {
    LeftNoted(left, node, path, mv, visited, matched, n);
    assert (visited + {n}) - (matched + {n}) == visited - matched;
  }

  lemma ProgressOther(node: Node, path: Path, mv: Router, before: Stages, visited: set<string>,
                      left: map<string, Node>, matched: set<string>, stages: Stages, n: string,
                      left': map<string, Node>, stages': Stages)
    requires node.Dir? && Progress(node, path, mv, before, visited, left, matched, stages)
    requires n in node.entries && n !in visited && n !in MatchedFiles(node, path, mv)
    requires Receives(stages, stages', node.entries[n], path + [n], mv)
    requires left' == if Vanishes(node.entries[n], path + [n], mv) then left - {n}
                      else left[n := After(node.entries[n], path + [n], mv)]
    ensures Progress(node, path, mv, before, visited + {n}, left', matched, stages')
  {
    LeftStep(left, left', node, path, mv, visited, matched, n);
    ReceiveEntry(before, stages, stages', node, path, mv, visited - matched, n);
    assert (visited + {n}) - matched == (visited - matched) + {n};
  }

  lemma ProgressAtStart(node: Node, path: Path, mv: Router, before: Stages)
    requires node.Dir?
    ensures Progress(node, path, mv, before, {}, node.entries, {}, before)
  {}

  /** An entry not visited yet is still there. */
  lemma NotYetTouched(node: Node, path: Path, mv: Router, before: Stages, visited: set<string>,
                      left: map<string, Node>, matched: set<string>, stages: Stages, n: string)
    requires node.Dir? && Progress(node, path, mv, before, visited, left, matched, stages)
    requires n in node.entries && n !in visited
    ensures n in left && left[n] == node.entries[n]
  {}

  /** One turn of the loop over the entries. */
  method VisitNext(node: Node, path: Path, mv: Router, ghost before: Stages, ghost visited: set<string>, n: string,
                   start: map<string, Node>, noted: set<string>, mid: Stages)
    returns (left: map<string, Node>, matched: set<string>, stages: Stages)
    requires node.Dir? && Progress(node, path, mv, before, visited, start, noted, mid)
    requires n in node.entries && n !in visited
    ensures Progress(node, path, mv, before, visited + {n}, left, matched, stages)
    decreases node, 1
  {
    NotYetTouched(node, path, mv, before, visited, start, noted, mid, n);
    var isMatched;
    left, isMatched, stages := VisitEntry(node, path, mv, n, start, mid);
    matched := noted;
    if isMatched {
      matched := noted + {n};
      ProgressMatched(node, path, mv, before, visited, start, noted, mid, n);
    } else {
      ProgressOther(node, path, mv, before, visited, start, noted, mid, n, left, stages);
    }
  }

  method VisitEntries(node: Node, path: Path, mv: Router, before: Stages)
    returns (left: map<string, Node>, matched: set<string>, stages: Stages)
    requires node.Dir?
    ensures Progress(node, path, mv, before, node.entries.Keys, left, matched, stages)
    decreases node, 2
  {
    left, matched, stages := node.entries, {}, before;
    ProgressAtStart(node, path, mv, before);
    var rest := node.entries.Keys;
    ghost var visited: set<string> := {};
    while rest != {}
      invariant visited !! rest && visited + rest == node.entries.Keys
      invariant Progress(node, path, mv, before, visited, left, matched, stages)
      decreases |rest|
    {
      var n :| n in rest;
      left, matched, stages := VisitNext(node, path, mv, before, visited, n, left, matched, stages);
      rest := rest - {n};
      visited := visited + {n};
    }
    assert visited == node.entries.Keys;
  }

  method MoveMatched(node: Node, path: Path, mv: Router, ghost before: Stages, start: map<string, Node>,
                     matched: set<string>, staged: Stages)
    returns (left: map<string, Node>, stages: Stages)
    requires node.Dir? && matched == MatchedFiles(node, path, mv)
    requires LeftWith(start, node, path, mv, node.entries.Keys, matched)
    requires ReceivesFrom(before, staged, node, path, mv, node.entries.Keys - matched)
    ensures left == Remaining(node, path, mv)
    ensures ReceivesFrom(before, stages, node, path, mv, node.entries.Keys)
  {
    left, stages := start, staged;
    var rest := matched;
    while rest != {}
      invariant rest <= matched
      invariant LeftWith(left, node, path, mv, node.entries.Keys, rest)
      invariant ReceivesFrom(before, stages, node, path, mv, node.entries.Keys - rest)
      decreases |rest|
    {
      var n :| n in rest;
      ghost var mid, done := stages, node.entries.Keys - rest;
      ReceiveFile(stages, node.entries[n].content, path + [n], mv);
      stages := stages[(mv(path + [n]).value, path + [n]) := node.entries[n].content];
      ReceiveEntry(before, mid, stages, node, path, mv, done, n);
      left := left - {n};
      assert node.entries.Keys - (rest - {n}) == done + {n};
      rest := rest - {n};
    }
    assert node.entries.Keys - {} == node.entries.Keys;
  }

  /**
   `move_dir_all_fn` on freshly created stage directories: nothing is lost and nothing duplicated.
   Every file either stays at its path or is at the same relative path in the directory of the
   first matching glob, never both, and the optional directories hold nothing else.
   */
  method SplitStage(root: Node, routes: seq<Route>) returns (left: Node, stages: Stages)
    requires root.Dir?
    ensures left == After(root, [], p => FirstMatch(routes, p))
    ensures forall p :: FileAt(left, p) == if FirstMatch(routes, p).None? then FileAt(root, p) else None
    ensures forall d, p :: (d, p) in stages <==> FileAt(root, p).Some? && FirstMatch(routes, p) == Some(d)
    ensures forall d, p :: (d, p) in stages ==> FileAt(root, p) == Some(stages[(d, p)])
  {
    var mv := p => FirstMatch(routes, p);
    var entries, removed;
    entries, removed, stages := MoveDirAllInner(root, [], mv, map[]);
    left := Dir(entries);
    forall p ensures FileAt(left, p) == if FirstMatch(routes, p).None? then FileAt(root, p) else None {
      StageAfterwards(root, mv, p);
    }
    forall d, p ensures Routed(root, [], mv, d, p) <==> FileAt(root, p).Some? && FirstMatch(routes, p) == Some(d) {
      assert p[0..] == p && p[..0] == [];
    }
    forall d, p | (d, p) in stages ensures FileAt(root, p) == Some(stages[(d, p)]) {
      assert p[0..] == p;
      assert Routed(root, [], mv, d, p);
    }
  }
}
