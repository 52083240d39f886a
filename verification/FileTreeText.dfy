/**
 The printed file tree: `walk_file_tree` writes it with box-drawing prefixes, and
 `FileIndexBuilder::parse` rebuilds the index from the lines with a path stack.
 */
module FileTreeText {
  import opened Names
  import opened Text
  import opened FileTree

  // ---- Printing ----

  /** The debug form of a link target: quoted, with quotes, backslashes and control characters escaped. */
  function Escape(s: string): string {
    if s == "" then "" else EscapeChar(s[0]) + Escape(s[1..])
  }

  function EscapeChar(c: char): string {
    match c
    case '"' => "\\\""
    case '\\' => "\\\\"
    case '\n' => "\\n"
    case '\r' => "\\r"
    case '\t' => "\\t"
    case '\0' => "\\0"
    case c => [c]
  }

  /** What an escape stands for. */
  function Meaning(c: char): char {
    match c case 'n' => '\n' case 'r' => '\r' case 't' => '\t' case '0' => '\0' case c => c
  }

  function Unescape(s: string): string {
    if s == "" then ""
    else if s[0] == '\\' && |s| > 1 then [Meaning(s[1])] + Unescape(s[2..])
    else [s[0]] + Unescape(s[1..])
  }

  lemma {:induction false} UnescapeOfEscape(s: string)
    ensures Unescape(Escape(s)) == s
    decreases |s|
  {
    if s != "" {
      UnescapeOfEscape(s[1..]);
      UnescapeFirst(s[0], Escape(s[1..]));
      assert [s[0]] + s[1..] == s;
    }
  }

  lemma UnescapeFirst(c: char, rest: string)
    ensures Unescape(EscapeChar(c) + rest) == [c] + Unescape(rest)
  {
    var s := EscapeChar(c) + rest;
    assert s[|EscapeChar(c)|..] == rest;
  }

  function Quote(target: string): string { "\"" + Escape(target) + "\"" }

  function Branch(last: bool): string { if last then "└── " else "├── " }

  function Below(last: bool): string { if last then "    " else "│   " }

  function PrintItem(item: Item, prefix: string, last: bool): seq<string>
    decreases item, 1
  {
    match item.node
    case Dir(items) =>
      var below := PrintItems(items, prefix + Below(last));
      if below == [] then [] else [prefix + Branch(last) + item.name + "/"] + below
    case Symlink(target) => [prefix + Branch(last) + item.name + " -> " + Quote(target)]
    case File(size) => [prefix + Branch(last) + item.name + " (" + size + ")"]
  }

  function PrintItems(items: seq<Item>, prefix: string): seq<string>
    decreases items, 0
  {
    if items == [] then []
    else PrintItem(items[0], prefix, |items| == 1) + PrintItems(items[1..], prefix)
  }

  /** The contents of the `.files` file: all lines and a trailing end of line. */
  function FileText(items: seq<Item>): string { JoinLines(PrintItems(items, "") + [""]) }

  class LineBuffer {
    var lines: seq<string>

    constructor ()
      ensures lines == []
    {
      lines := [];
    }

    method Add(line: string)
      modifies this
      ensures lines == old(lines) + [line]
    {
      lines := lines + [line];
    }

    method Pop()
      requires |lines| > 0
      modifies this
      ensures lines == old(lines)[..|old(lines)| - 1]
    {
      lines := lines[..|lines| - 1];
    }
  }

  /** `walk_file_tree`: print every entry, the last one with its own branch. */
  method WalkFileTree(entries: seq<Item>, prefix: string, buffer: LineBuffer)
    modifies buffer
    ensures buffer.lines == old(buffer.lines) + PrintItems(entries, prefix)
    decreases entries, 0
  {
    var index := 0;
    while index < |entries|
      invariant 0 <= index <= |entries|
      invariant buffer.lines + PrintItems(entries[index..], prefix) == old(buffer.lines) + PrintItems(entries, prefix)
    {
      ghost var before := buffer.lines;
      ghost var rest := PrintItems(entries[index + 1..], prefix);
      assert entries[index..][1..] == entries[index + 1..];
      ghost var printed := PrintItem(entries[index], prefix, index == |entries| - 1);
      assert PrintItems(entries[index..], prefix) == printed + rest;
      WalkEntry(entries[index], prefix, index == |entries| - 1, buffer);
      assert before + (printed + rest) == (before + printed) + rest;
      index := index + 1;
    }
  }

  /** One entry: the header of a directory is taken back when nothing was printed below it. */
  method WalkEntry(entry: Item, prefix: string, isLast: bool, buffer: LineBuffer)
    modifies buffer
    ensures buffer.lines == old(buffer.lines) + PrintItem(entry, prefix, isLast)
    decreases entry, 1
  {
    match entry.node {
      case Dir(items) =>
        buffer.Add(prefix + Branch(isLast) + entry.name + "/");
        var lastLen := |buffer.lines|;
        WalkFileTree(items, prefix + Below(isLast), buffer);
        if |buffer.lines| == lastLen {
          buffer.Pop();
        }
      case Symlink(target) =>
        buffer.Add(prefix + Branch(isLast) + entry.name + " -> " + Quote(target));
      case File(size) =>
        buffer.Add(prefix + Branch(isLast) + entry.name + " (" + size + ")");
    }
  }

  ghost predicate AllStart(lines: seq<string>, lead: string) {
    forall i :: 0 <= i < |lines| ==> lead <= lines[i]
  }

  /** Every line of a list starts with its prefix. */
  lemma {:induction false} LinesAreIndented(items: seq<Item>, prefix: string)
    ensures AllStart(PrintItems(items, prefix), prefix)
    decreases items, 0
  {
    if items != [] {
      ItemIsDrawn(items[0], prefix, |items| == 1);
      LinesAreIndented(items[1..], prefix);
      ItemStarts(items[0], prefix, |items| == 1);
    }
  }

  lemma ItemStarts(item: Item, prefix: string, last: bool)
    requires var lines := PrintItem(item, prefix, last); lines != [] ==> prefix <= lines[0]
    requires var lines := PrintItem(item, prefix, last); lines != [] ==> AllStart(lines[1..], prefix + Below(last))
    ensures AllStart(PrintItem(item, prefix, last), prefix)
  {
    var lines := PrintItem(item, prefix, last);
    forall i | 0 <= i < |lines| ensures prefix <= lines[i] {
      if i > 0 {
        assert prefix + Below(last) <= lines[1..][i - 1];
      }
    }
  }

  /**
   What is drawn for an entry: its branch with its name and what it is, and below it only lines that
   carry on the vertical line of a directory that is not the last of its list.
   */
  lemma {:induction false} ItemIsDrawn(item: Item, prefix: string, last: bool)
    ensures var lines := PrintItem(item, prefix, last);
      lines != [] ==>
        && lines[0] == prefix + (if last then "└── " else "├── ") + item.name
                       + (match item.node
                          case Dir(_) => "/"
                          case Symlink(target) => " -> \"" + Escape(target) + "\""
                          case File(size) => " (" + size + ")")
        && AllStart(lines[1..], prefix + (if last then "    " else "│   "))
    decreases item, 1
  {
    match item.node
    case Dir(items) => LinesAreIndented(items, prefix + Below(last));
    case _ =>
  }

  /** Entries all drawn as having a successor. */
  function Leading(items: seq<Item>, prefix: string): seq<string> {
    if items == [] then [] else PrintItem(items[0], prefix, false) + Leading(items[1..], prefix)
  }

  /** Exactly the last entry of a list is drawn as the last one, whether or not anything is printed for it. */
  lemma {:induction false} OnlyTheLastIsLast(items: seq<Item>, last: Item, prefix: string)
    ensures PrintItems(items + [last], prefix) == Leading(items, prefix) + PrintItem(last, prefix, true)
    decreases |items|
  {
    if items == [] {
      assert PrintItems([], prefix) == [];
    } else {
      OnlyTheLastIsLast(items[1..], last, prefix);
      assert (items + [last])[1..] == items[1..] + [last];
    }
  }

  /** A directory prints nothing exactly when it is hollow. */
  lemma {:induction false} HollowPrintsNothing(items: seq<Item>, prefix: string)
    ensures PrintItems(items, prefix) == [] <==> AllHollow(items)
    decreases items, 0
  {
    if items != [] {
      HollowItemPrintsNothing(items[0], prefix, |items| == 1);
      HollowPrintsNothing(items[1..], prefix);
    }
  }

  lemma {:induction false} HollowItemPrintsNothing(item: Item, prefix: string, last: bool)
    ensures PrintItem(item, prefix, last) == [] <==> Hollow(item.node)
    decreases item, 1
  {
    if item.node.Dir? {
      HollowPrintsNothing(item.node.items, prefix + Below(last));
    }
  }

  // ---- Reading one line ----

  predicate IsBox(c: char) { c == '│' || c == '├' || c == '└' || c == '─' || c == ' ' }

  function BoxCount(line: string): (n: nat)
    ensures n <= |line| && forall k :: 0 <= k < n ==> IsBox(line[k])
    ensures n < |line| ==> !IsBox(line[n])
  {
    if line != "" && IsBox(line[0]) then 1 + BoxCount(line[1..]) else 0
  }

  datatype Parsed = Blank | DirLine(depth: nat, name: string) | FileLine(depth: nat, name: string)

  /** Strip the size of a file or the target of a symlink. */
  function LeafName(remainder: string): string {
    match LastChar(remainder, '(')
    case Some(k) => Trim(remainder[..k])
    case None =>
      match LastArrow(remainder)
      case Some(k) => Trim(remainder[..k])
      case None => remainder
  }

  /** What is left of a line once its lead and the blanks around it are taken away. */
  function ParseBody(body: string, depth: nat): Parsed {
    if body != "" && body[|body| - 1] == '/' then DirLine(depth, DropTrailing(body, '/'))
    else FileLine(depth, LeafName(body))
  }

  /** The level below which a lead of `n` characters puts a line. */
  function Depth(n: nat): nat { if n / 4 == 0 then 0 else n / 4 - 1 }

  function ParseLine(line: string): Parsed {
    var n := BoxCount(line);
    if Trim(line) == "" || n == 0 then Blank
    // a line of box characters only leaves the start of the name at 0
    else ParseBody(Trim(if n < |line| then line[n..] else line), Depth(n))
  }

  // ---- Running over the lines ----

  datatype Progress = Progress(inner: Entries, stack: seq<string>)

  function Truncate(stack: seq<string>, depth: nat): seq<string> {
    if depth < |stack| then stack[..depth] else stack
  }

  function ReadLine(s: Progress, pkg: string, line: string): Progress {
    match ParseLine(line)
    case Blank => s
    case DirLine(depth, name) =>
      var stack := Truncate(s.stack, depth);
      Progress(Insert(s.inner, stack, name, None), stack + [name])
    case FileLine(depth, name) =>
      var stack := Truncate(s.stack, depth);
      Progress(Insert(s.inner, stack, name, Some(pkg)), stack)
  }

  function ReadLines(s: Progress, pkg: string, lines: seq<string>): Progress
    decreases |lines|
  {
    if lines == [] then s else ReadLines(ReadLine(s, pkg, lines[0]), pkg, lines[1..])
  }

  function Parse(inner: Entries, pkg: string, content: string): Entries {
    ReadLines(Progress(inner, []), pkg, Lines(content)).inner
  }

  class FileIndexBuilder {
    var inner: Entries

    constructor ()
      ensures inner == map[]
    {
      inner := map[];
    }

    method InsertNode(pathStack: seq<string>, name: string, package: Option<string>)
      modifies this
      ensures inner == Insert(old(inner), pathStack, name, package)
    {
      // Descend, remembering the directories passed; then put the changed ones back.
      var current := inner;
      var passed: seq<Entries> := [];
      var i := 0;
      while i < |pathStack|
        invariant 0 <= i <= |pathStack| && |passed| == i
        invariant Insert(inner, pathStack, name, package)
                  == Rebuild(passed, pathStack[..i], Insert(current, pathStack[i..], name, package))
      {
        passed := passed + [current];
        assert pathStack[..i + 1][..i] == pathStack[..i];
        assert pathStack[i..][1..] == pathStack[i + 1..];
        assert passed[..i] == passed[..|passed| - 1];
        current := Sub(current, pathStack[i]);
        i := i + 1;
      }
      assert pathStack[..i] == pathStack && pathStack[i..] == [] && passed[..i] == passed;
      current := InsertLeaf(current, name, package);
      while i > 0
        invariant 0 <= i <= |pathStack| && |passed| == |pathStack|
        invariant Insert(inner, pathStack, name, package) == Rebuild(passed[..i], pathStack[..i], current)
      {
        i := i - 1;
        assert passed[..i + 1][..i] == passed[..i] && pathStack[..i + 1][..i] == pathStack[..i];
        current := passed[i][pathStack[i] := FsDir(current)];
      }
      inner := current;
    }

    /** `parse`: one pass over the lines with a path stack. */
    method ParseContent(pkg: string, content: string)
      modifies this
      ensures inner == Parse(old(inner), pkg, content)
    {
      var pathStack: seq<string> := [];
      var lines := Lines(content);
      var i := 0;
      while i < |lines|
        invariant 0 <= i <= |lines|
        invariant ReadLines(Progress(inner, pathStack), pkg, lines[i..]).inner == Parse(old(inner), pkg, content)
      {
        assert lines[i..][1..] == lines[i + 1..];
        var parsed := ScanLine(lines[i]);
        match parsed {
          case Blank =>
          case DirLine(depth, name) =>
            pathStack := Truncate(pathStack, depth);
            InsertNode(pathStack, name, None);
            pathStack := pathStack + [name];
          case FileLine(depth, name) =>
            pathStack := Truncate(pathStack, depth);
            InsertNode(pathStack, name, Some(pkg));
        }
        i := i + 1;
      }
    }
  }

  /** Put changed directories back into the ones they were reached from, innermost first. */
  function Rebuild(passed: seq<Entries>, path: seq<string>, current: Entries): Entries
    requires |passed| == |path|
    decreases |path|
  {
    if path == [] then current
    else
      var k := |path| - 1;
      Rebuild(passed[..k], path[..k], passed[k][path[k] := FsDir(current)])
  }

  /** The character loop of `parse`: count the box characters and find the start of the name. */
  method ScanPrefix(line: string) returns (prefixChars: nat, nameStart: nat)
    ensures prefixChars == BoxCount(line)
    ensures nameStart == if prefixChars < |line| then prefixChars else 0
  {
    prefixChars, nameStart := 0, 0;
    var idx := 0;
    while idx < |line|
      invariant 0 <= idx <= |line| && prefixChars == idx && nameStart == 0
      invariant BoxCount(line) == idx + BoxCount(line[idx..])
    {
      assert line[idx..][1..] == line[idx + 1..];
      if IsBox(line[idx]) {
        prefixChars := prefixChars + 1;
      } else {
        nameStart := idx;
        break;
      }
      idx := idx + 1;
    }
  }

  method ScanLine(line: string) returns (r: Parsed)
    ensures r == ParseLine(line)
  {
    if Trim(line) == "" {
      return Blank;
    }
    var prefixChars, nameStart := ScanPrefix(line);
    if nameStart == 0 && prefixChars == 0 {
      return Blank;
    }
    assert line[0..] == line;
    var depth := if prefixChars / 4 == 0 then 0 else prefixChars / 4 - 1;
    var remainder := Trim(line[nameStart..]);
    if remainder != "" && remainder[|remainder| - 1] == '/' {
      r := DirLine(depth, DropTrailing(remainder, '/'));
    } else {
      r := FileLine(depth, LeafName(remainder));
    }
  }
}
