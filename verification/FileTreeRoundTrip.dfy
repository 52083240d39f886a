/** Reading a printed tree merges exactly that tree into the index. */
module FileTreeRoundTrip {
  import opened Names
  import opened Text
  import opened FileTree
  import opened FileTreeText

  // ---- What the format can carry ----

  /** A directory line carries any nonempty name that starts visibly and does not end in a slash. */
  predicate GoodDirName(n: string) {
    n != "" && !IsWhite(n[0]) && !IsBox(n[0]) && n[|n| - 1] != '/'
  }

  /** A file line carries any nonempty name without whitespace at the ends or a leading box character. */
  predicate GoodFileName(n: string) {
    IsTrimmed(n) && !IsBox(n[0])
  }

  /** The condition on a link line: besides, no parenthesis in name or target and no arrow in the target. */
  predicate GoodLink(n: string, target: string) {
    GoodFileName(n) && '(' !in n && '(' !in target && !HasArrow(target)
  }

  ghost predicate GoodItem(item: Item)
    decreases item, 1
  {
    '\n' !in item.name
    && match item.node
       case Dir(items) => GoodDirName(item.name) && GoodItems(items)
       case Symlink(target) => GoodLink(item.name, target)
       case File(size) => GoodFileName(item.name) && '(' !in size && '\n' !in size
  }

  ghost predicate GoodItems(items: seq<Item>)
    decreases items, 0
  {
    items == [] || (GoodItem(items[0]) && GoodItems(items[1..]))
  }

  // ---- One line ----

  /** A lead of `depth + 1` groups of four box characters. */
  ghost predicate IsLead(lead: string, depth: nat) {
    |lead| == 4 * (depth + 1) && forall k :: 0 <= k < |lead| ==> IsBox(lead[k])
  }

  lemma BoxCountIs(lead: string, body: string)
    requires (forall k :: 0 <= k < |lead| ==> IsBox(lead[k])) && body != "" && !IsBox(body[0])
    ensures BoxCount(lead + body) == |lead|
  {
    assert (lead + body)[|lead|] == body[0];
  }

  lemma VisibleBehindLead(lead: string, body: string)
    requires IsTrimmed(body)
    ensures Trim(lead + body) != ""
  {
    assert (lead + body)[|lead|] == body[0];
    TrimOfVisible(lead + body, |lead|);
  }

  /**
   Behind a lead of box characters the rest of the line decides everything. Every four of them are a
   level, whoever wrote the line; fewer than eight stand for the top level.
   */
  lemma {:induction false} AnyLeadGivesADepth(lead: string, body: string)
    requires (forall k :: 0 <= k < |lead| ==> IsBox(lead[k])) && IsTrimmed(body) && !IsBox(body[0])
    ensures ParseLine(lead + body)
            == if lead == "" then Blank else ParseBody(body, if |lead| < 8 then 0 else |lead| / 4 - 1)
  {
    BoxCountIs(lead, body);
    VisibleBehindLead(lead, body);
    assert (lead + body)[|lead|..] == body;
    assert Trim(body) == body by {
      TrimKeepsTrimmed(body);
    }
  }

  lemma ParseBehindLead(lead: string, body: string, depth: nat)
    requires IsLead(lead, depth) && IsTrimmed(body) && !IsBox(body[0])
    ensures ParseLine(lead + body) == ParseBody(body, depth)
  {
    AnyLeadGivesADepth(lead, body);
  }

  lemma ParseDirLine(lead: string, name: string, depth: nat)
    requires IsLead(lead, depth) && GoodDirName(name)
    ensures ParseLine(lead + name + "/") == DirLine(depth, name)
  {
    var body := name + "/";
    assert lead + name + "/" == lead + body;
    assert body[0] == name[0] && body[|body| - 1] == '/' && body[..|body| - 1] == name;
    ParseBehindLead(lead, body, depth);
    assert DropTrailing(name, '/') == name;
  }

  /** What a line shows up to the blank behind the name is the name. */
  lemma NameThenBlank(body: string, name: string)
    requires IsTrimmed(name) && name + " " <= body
    ensures Trim(body[..|name| + 1]) == name
  {
    assert body[..|name| + 1] == name + " ";
    TrimKeepsTrimmed(name);
  }

  lemma CutAtArrow(body: string, k: nat)
    requires '(' !in body && LastArrow(body) == Some(k)
    ensures k < |body| && LeafName(body) == Trim(body[..k])
  {}

  lemma {:induction false} LeafNameOfFile(name: string, size: string)
    requires IsTrimmed(name) && '(' !in size
    ensures LeafName(name + " (" + size + ")") == name
  {
    var body, k := name + " (" + size + ")", |name| + 1;
    assert body[k] == '(' && body[k + 1..] == size + ")";
    LastCharAt(body, '(', k);
    NameThenBlank(body, name);
  }

  lemma ParseFileLine(lead: string, name: string, size: string, depth: nat)
    requires IsLead(lead, depth) && GoodFileName(name) && '(' !in size
    ensures ParseLine(lead + name + " (" + size + ")") == FileLine(depth, name)
  {
    var body := name + " (" + size + ")";
    assert lead + name + " (" + size + ")" == lead + body;
    assert body[0] == name[0] && body[|body| - 1] == ')';
    ParseBehindLead(lead, body, depth);
    LeafNameOfFile(name, size);
  }

  lemma {:induction false} EscapeIsClean(t: string)
    ensures '\n' !in Escape(t)
    ensures '(' !in t ==> '(' !in Escape(t)
    ensures t != "" ==> Escape(t) != "" && (Escape(t)[0] == t[0] || Escape(t)[0] == '\\')
    decreases |t|
  {
    if t != "" {
      EscapeIsClean(t[1..]);
    }
  }

  /** The arrow of an escaped text comes from an arrow of the text itself. */
  lemma {:induction false} EscapeMakesNoArrow(t: string, k: nat) returns (j: nat)
    requires ArrowAt(Escape(t), k)
    ensures ArrowAt(t, j)
    decreases |t|
  {
    var rest := t[1..];
    var head := |Escape(t)| - |Escape(rest)|;
    assert Escape(t)[head..] == Escape(rest);
    if k >= head {
      var i := EscapeMakesNoArrow(rest, k - head);
      j := i + 1;
    } else {
      EscapeIsClean(rest);
      j := 0;
    }
  }

  lemma LastArrowIs(s: string, limit: nat, k: nat)
    requires k < limit && ArrowAt(s, k) && forall j :: k < j < limit ==> !ArrowAt(s, j)
    ensures LastArrowBelow(s, limit) == Some(k)
  {}

  /** Behind the separator of a link line stands only the quoted target, which has no arrow. */
  lemma NoArrowInQuoted(name: string, target: string, k: nat)
    requires !HasArrow(target) && k > |name| + 1
    ensures !ArrowAt(name + " -> " + Quote(target), k)
  {
    var body := name + " -> " + Quote(target);
    if ArrowAt(body, k) {
      var q := k - (|name| + 5);
      assert 0 <= q && q + 1 < |Escape(target)|;
      assert ArrowAt(Escape(target), q);
      var j := EscapeMakesNoArrow(target, q);
    }
  }

  /** Behind the name of a link line: no parenthesis, and the separator is the last arrow. */
  lemma LinkLineArrow(name: string, target: string)
    requires '(' !in name && '(' !in target && !HasArrow(target)
    ensures '(' !in name + " -> " + Quote(target)
    ensures LastArrow(name + " -> " + Quote(target)) == Some(|name| + 1)
  {
    var body := name + " -> " + Quote(target);
    EscapeIsClean(target);
    forall j | |name| + 1 < j < |body| ensures !ArrowAt(body, j) {
      NoArrowInQuoted(name, target, j);
    }
    assert ArrowAt(body, |name| + 1);
    LastArrowIs(body, |body|, |name| + 1);
  }

  lemma LeafNameOfLink(name: string, target: string)
    requires IsTrimmed(name) && '(' !in name && '(' !in target && !HasArrow(target)
    ensures LeafName(name + " -> " + Quote(target)) == name
  {
    var body := name + " -> " + Quote(target);
    LinkLineArrow(name, target);
    CutAtArrow(body, |name| + 1);
    NameThenBlank(body, name);
  }

  lemma {:induction false} TrimEndKeeps(s: string, k: nat)
    requires k < |s| && !IsWhite(s[k])
    ensures k < |TrimEnd(s)| <= |s|
    decreases |s|
  {
    if IsWhite(s[|s| - 1]) {
      TrimEndKeeps(s[..|s| - 1], k);
    }
  }

  lemma {:induction false} TrimNeverGrows(s: string)
    ensures |TrimStart(s)| <= |s| && |TrimEnd(s)| <= |s|
    decreases |s|
  {
    if s != "" {
      TrimNeverGrows(s[1..]);
      TrimNeverGrows(s[..|s| - 1]);
    }
  }

  /** Cutting anywhere but right after the name gives a text of another length. */
  lemma CutElsewhere(name: string, rest: string, k: nat)
    requires IsTrimmed(name) && k <= |name + " -> " + rest| && (k < |name| || |name| + 2 < k)
    ensures Trim((name + " -> " + rest)[..k]) != name
  {
    var cut := (name + " -> " + rest)[..k];
    TrimNeverGrows(cut);
    TrimNeverGrows(TrimStart(cut));
    if |name| + 2 < k {
      assert cut[|name| + 2] == '>' && cut[0] == name[0];
      TrimEndKeeps(cut, |name| + 2);
    }
  }

  lemma {:induction false} EscapeKeeps(t: string, k: nat)
    requires k < |t|
    ensures t[k] == '(' ==> '(' in Escape(t)
    ensures ArrowAt(t, k) ==> HasArrow(Escape(t))
    decreases |t|
  {
    var rest := t[1..];
    var head := |Escape(t)| - |Escape(rest)|;
    assert Escape(t)[head..] == Escape(rest);
    if k > 0 {
      EscapeKeeps(rest, k - 1);
      if ArrowAt(t, k) {
        var j :| 0 <= j < |Escape(rest)| && ArrowAt(Escape(rest), j);
        assert ArrowAt(Escape(t), head + j);
      }
    } else if ArrowAt(t, 0) {
      assert Escape(rest)[0] == '>';
      assert ArrowAt(Escape(t), 0);
    }
  }

  /** Behind the lead, a trimmed name is read back exactly without parentheses and without an arrow in the target. */
  lemma LinkBodySurvivesExactlyWhen(name: string, target: string)
    requires IsTrimmed(name)
    ensures LeafName(name + " -> " + Quote(target)) == name
            <==> '(' !in name && '(' !in target && !HasArrow(target)
  {
    var body := name + " -> " + Quote(target);
    if '(' !in name && '(' !in target && !HasArrow(target) {
      LeafNameOfLink(name, target);
    } else {
      LinkNameLost(name, target);
    }
  }

  lemma LinkNameLost(name: string, target: string)
    requires IsTrimmed(name) && ('(' in name || '(' in target || HasArrow(target))
    ensures LeafName(name + " -> " + Quote(target)) != name
  {
    var body := name + " -> " + Quote(target);
    if '(' in target {
      var k :| 0 <= k < |target| && target[k] == '(';
      EscapeKeeps(target, k);
    }
    var paren := LastChar(body, '(');
    if paren.Some? {
      assert body[|name|] == ' ' && body[|name| + 1] == '-' && body[|name| + 2] == '>';
      CutElsewhere(name, Quote(target), paren.value);
    } else {
      assert '(' !in name by {
        assert forall i :: 0 <= i < |name| ==> body[i] == name[i];
      }
      assert '(' !in target by {
        assert forall i :: 0 <= i < |Escape(target)| ==> body[|name| + 5 + i] == Escape(target)[i];
      }
      var k :| 0 <= k < |target| && ArrowAt(target, k);
      EscapeKeeps(target, k);
      var j :| 0 <= j < |Escape(target)| && ArrowAt(Escape(target), j);
      assert ArrowAt(body, |name| + 5 + j);
      CutElsewhere(name, Quote(target), LastArrow(body).value);
    }
  }

  lemma ParseLinkLine(lead: string, name: string, target: string, depth: nat)
    requires IsLead(lead, depth) && GoodLink(name, target)
    ensures ParseLine(lead + name + " -> " + Quote(target)) == FileLine(depth, name)
  {
    var body := name + " -> " + Quote(target);
    assert lead + name + " -> " + Quote(target) == lead + body;
    assert body[0] == name[0] && body[|body| - 1] == '"';
    ParseBehindLead(lead, body, depth);
    LeafNameOfLink(name, target);
  }

  // ---- Exactly which lines survive ----

  predicate IsBlank(c: char) { IsBox(c) || IsWhite(c) }

  /** The name read from a line is a piece of the line at `s`, and in front of it is nothing visible. */
  ghost predicate ReadAt(line: string, s: nat, name: string) {
    && BoxCount(line) <= s && s + |name| <= |line| && name == line[s..s + |name|]
    && forall k :: 0 <= k < s ==> IsBlank(line[k])
  }

  /** A leaf name is the remainder cut somewhere and trimmed. */
  lemma LeafNameIsCut(r: string) returns (k: nat)
    requires Trim(r) == r
    ensures k <= |r| && LeafName(r) == Trim(r[..k])
  {
    k := |r|;
    assert r[..|r|] == r;
    var paren := LastChar(r, '(');
    if paren.Some? {
      k := paren.value;
    } else if LastArrow(r).Some? {
      k := LastArrow(r).value;
    }
  }

  lemma SliceOfSlice(line: string, from: nat, piece: string, a: nat, b: nat)
    requires a <= b <= |piece| && from + |piece| <= |line| && piece == line[from..from + |piece|]
    ensures piece[a..b] == line[from + a..from + b]
  {
    forall i | 0 <= i < b - a ensures piece[a..b][i] == line[from + a..from + b][i] {
      assert piece[a + i] == line[from + (a + i)];
    }
  }

  /** What is trimmed out of a piece of the line that starts at `from`, behind blanks only, is read at some place. */
  lemma TrimmedIsReadAt(line: string, from: nat, to: nat) returns (s: nat)
    requires BoxCount(line) <= from <= to <= |line| && forall k :: 0 <= k < from ==> IsBlank(line[k])
    ensures ReadAt(line, s, Trim(line[from..to]))
    ensures Trim(line[from..to]) == "" || IsTrimmed(Trim(line[from..to]))
  {
    var piece := line[from..to];
    var w := TrimIsSlice(piece);
    s := from + w;
    SliceOfSlice(line, from, piece, w, w + |Trim(piece)|);
    assert Trim(piece) == line[s..s + |Trim(piece)|];
    forall k | from <= k < s ensures IsBlank(line[k]) {
      assert line[k] == piece[k - from];
    }
  }

  lemma TrimOfTrimmed(s: string)
    ensures Trim(Trim(s)) == Trim(s)
  {
    var w := TrimIsSlice(s);
    if Trim(s) != "" {
      TrimKeepsTrimmed(Trim(s));
    }
  }

  /** The remainder of a line that is not all box characters. */
  lemma RemainderIsReadAt(line: string) returns (s: nat)
    requires BoxCount(line) < |line|
    ensures ReadAt(line, s, Trim(line[BoxCount(line)..]))
  {
    s := TrimmedIsReadAt(line, BoxCount(line), |line|);
    assert line[BoxCount(line)..|line|] == line[BoxCount(line)..];
  }

  lemma FileNameIsReadAt(line: string, depth: nat, name: string) returns (s: nat)
    requires BoxCount(line) < |line| && ParseLine(line) == FileLine(depth, name) && name != ""
    ensures ReadAt(line, s, name) && IsTrimmed(name)
  {
    var remainder := Trim(line[BoxCount(line)..]);
    var from := RemainderIsReadAt(line);
    TrimOfTrimmed(line[BoxCount(line)..]);
    var k := LeafNameIsCut(remainder);
    s := CutIsReadAt(line, from, remainder, k);
  }

  lemma CutIsReadAt(line: string, from: nat, remainder: string, k: nat) returns (s: nat)
    requires ReadAt(line, from, remainder) && k <= |remainder|
    ensures ReadAt(line, s, Trim(remainder[..k]))
    ensures Trim(remainder[..k]) == "" || IsTrimmed(Trim(remainder[..k]))
  {
    SliceOfSlice(line, from, remainder, 0, k);
    assert remainder[..k] == line[from..from + k];
    s := TrimmedIsReadAt(line, from, from + k);
  }

  lemma {:induction false} DropTrailingIsPrefix(s: string, c: char)
    ensures DropTrailing(s, c) <= s
    ensures DropTrailing(s, c) == "" || DropTrailing(s, c)[|DropTrailing(s, c)| - 1] != c
    decreases |s|
  {
    if s != "" && s[|s| - 1] == c {
      DropTrailingIsPrefix(s[..|s| - 1], c);
    }
  }

  lemma DirNameIsReadAt(line: string, depth: nat, name: string) returns (s: nat)
    requires BoxCount(line) < |line| && ParseLine(line) == DirLine(depth, name) && name != ""
    ensures ReadAt(line, s, name) && !IsWhite(name[0]) && name[|name| - 1] != '/'
  {
    var remainder := Trim(line[BoxCount(line)..]);
    s := RemainderIsReadAt(line);
    DropTrailingIsPrefix(remainder, '/');
    SliceOfSlice(line, s, remainder, 0, |name|);
    assert name == remainder[..|name|];
    TrimStartsVisibly(line[BoxCount(line)..]);
  }

  lemma TrimStartsVisibly(s: string)
    ensures Trim(s) != "" ==> !IsWhite(Trim(s)[0])
  {
    var w := TrimIsSlice(s);
  }

  /** A name found again further on, behind blanks only, is blank all along. */
  lemma {:induction false} ShiftedIsBlank(body: string, name: string, m: nat, j: nat)
    requires m > 0 && name <= body && m + |name| <= |body| && body[m..m + |name|] == name
    requires forall k :: 0 <= k < m ==> IsBlank(body[k])
    requires j < m + |name|
    ensures IsBlank(body[j])
    decreases j
  {
    if j >= m {
      ShiftedIsBlank(body, name, m, j - m);
      assert body[j] == body[m..m + |name|][j - m] == name[j - m];
    }
  }

  /** The place in the line where the name was read, counted from the end of the lead. */
  lemma ReadBehindLead(lead: string, body: string, depth: nat, s: nat, name: string) returns (m: nat)
    requires IsLead(lead, depth) && name != "" && name <= body && ReadAt(lead + body, s, name)
    ensures s == |lead| + m && m + |name| <= |body| && body[m..m + |name|] == name
    ensures forall k :: 0 <= k < m ==> IsBlank(body[k])
    ensures m == 0 ==> !IsBox(body[0])
  {
    var line := lead + body;
    m := s - |lead|;
    assert body == line[|lead|..|lead| + |body|];
    SliceOfSlice(line, |lead|, body, m, m + |name|);
    assert |lead| + m == s;
    forall k | 0 <= k < m ensures IsBlank(body[k]) {
      assert line[|lead| + k] == body[k];
    }
    if m == 0 {
      assert line[|lead|] == body[0];
    }
  }

  /** With a blank and a visible character behind it, a trimmed name can only be read where it stands. */
  lemma LeafReadInPlace(body: string, name: string, m: nat)
    requires IsTrimmed(name) && |name| + 1 < |body| && name <= body
    requires body[|name|] == ' ' && !IsBlank(body[|name| + 1])
    requires m + |name| <= |body| && body[m..m + |name|] == name && forall k :: 0 <= k < m ==> IsBlank(body[k])
    ensures m == 0
  {
    assert body[m + |name| - 1] == body[m..m + |name|][|name| - 1];
    if m > 1 {
      ShiftedIsBlank(body, name, m, |name| + 1);
    }
  }

  /** With a visible character right behind it, any name can only be read where it stands. */
  lemma DirReadInPlace(body: string, name: string, m: nat)
    requires |name| < |body| && name <= body && !IsBlank(body[|name|])
    requires m + |name| <= |body| && body[m..m + |name|] == name && forall k :: 0 <= k < m ==> IsBlank(body[k])
    ensures m == 0
  {
    if m > 0 {
      ShiftedIsBlank(body, name, m, |name|);
    }
  }

  /** A leaf name that is read back starts visibly right behind the lead. */
  lemma LeafReadBack(lead: string, body: string, depth: nat, name: string)
    requires IsLead(lead, depth) && name != "" && name <= body && |name| + 1 < |body|
    requires body[|name|] == ' ' && !IsBlank(body[|name| + 1])
    requires ParseLine(lead + body) == FileLine(depth, name)
    ensures GoodFileName(name)
  {
    assert (lead + body)[|lead| + |name| + 1] == body[|name| + 1];
    var s := FileNameIsReadAt(lead + body, depth, name);
    var m := ReadBehindLead(lead, body, depth, s, name);
    LeafReadInPlace(body, name, m);
  }

  lemma LinkReadBack(lead: string, name: string, target: string, depth: nat)
    requires IsLead(lead, depth) && name != ""
    requires ParseLine(lead + (name + " -> " + Quote(target))) == FileLine(depth, name)
    ensures GoodLink(name, target)
  {
    var body := name + " -> " + Quote(target);
    assert body[|name|] == ' ' && body[|name| + 1] == '-';
    LeafReadBack(lead, body, depth, name);
    assert body[0] == name[0] && body[|body| - 1] == '"';
    ParseBehindLead(lead, body, depth);
    LinkBodySurvivesExactlyWhen(name, target);
  }

  /**
   The name of a printed symlink is read back, at its depth, if and only if it has no whitespace at
   either end and no leading box character, neither it nor the target has an opening parenthesis,
   and the target has no arrow.
   */
  lemma {:induction false} LinkNameSurvivesExactlyWhen(lead: string, name: string, target: string, depth: nat)
    requires IsLead(lead, depth) && name != ""
    ensures ParseLine(lead + name + " -> " + Quote(target)) == FileLine(depth, name)
            <==> IsTrimmed(name) && !IsBox(name[0]) && '(' !in name && '(' !in target && !HasArrow(target)
  {
    if GoodLink(name, target) {
      ParseLinkLine(lead, name, target, depth);
    } else if ParseLine(lead + name + " -> " + Quote(target)) == FileLine(depth, name) {
      assert lead + name + " -> " + Quote(target) == lead + (name + " -> " + Quote(target));
      LinkReadBack(lead, name, target, depth);
    }
  }

  lemma FileReadBack(lead: string, name: string, size: string, depth: nat)
    requires IsLead(lead, depth) && name != ""
    requires ParseLine(lead + (name + " (" + size + ")")) == FileLine(depth, name)
    ensures GoodFileName(name)
  {
    var body := name + " (" + size + ")";
    assert body[|name|] == ' ' && body[|name| + 1] == '(';
    LeafReadBack(lead, body, depth, name);
  }

  /** A printed file's name is read back if and only if it is trimmed and does not begin with a box character. */
  lemma {:induction false} FileNameSurvivesExactlyWhen(lead: string, name: string, size: string, depth: nat)
    requires IsLead(lead, depth) && name != "" && '(' !in size
    ensures ParseLine(lead + name + " (" + size + ")") == FileLine(depth, name)
            <==> IsTrimmed(name) && !IsBox(name[0])
  {
    if GoodFileName(name) {
      ParseFileLine(lead, name, size, depth);
    } else if ParseLine(lead + name + " (" + size + ")") == FileLine(depth, name) {
      assert lead + name + " (" + size + ")" == lead + (name + " (" + size + ")");
      FileReadBack(lead, name, size, depth);
    }
  }

  /** The name of a printed directory is read back if and only if it starts visibly and does not end in a slash. */
  lemma {:induction false} DirNameSurvivesExactlyWhen(lead: string, name: string, depth: nat)
    requires IsLead(lead, depth) && name != ""
    ensures ParseLine(lead + name + "/") == DirLine(depth, name)
            <==> !IsWhite(name[0]) && !IsBox(name[0]) && name[|name| - 1] != '/'
  {
    var body := name + "/";
    assert lead + name + "/" == lead + body;
    if GoodDirName(name) {
      ParseDirLine(lead, name, depth);
    } else if ParseLine(lead + body) == DirLine(depth, name) {
      assert (lead + body)[|lead| + |name|] == '/' && body[|name|] == '/';
      var s := DirNameIsReadAt(lead + body, depth, name);
      var m := ReadBehindLead(lead, body, depth, s, name);
      DirReadInPlace(body, name, m);
    }
  }

  // ---- A whole tree ----

  lemma {:induction false} ReadLinesConcat(s: Progress, pkg: string, a: seq<string>, b: seq<string>)
    ensures ReadLines(s, pkg, a + b) == ReadLines(ReadLines(s, pkg, a), pkg, b)
    decreases |a|
  {
    if a == [] {
      assert a + b == b;
    } else {
      assert (a + b)[0] == a[0] && (a + b)[1..] == a[1..] + b;
      ReadLinesConcat(ReadLine(s, pkg, a[0]), pkg, a[1..], b);
    }
  }

  lemma ReadOne(s: Progress, pkg: string, line: string)
    ensures ReadLines(s, pkg, [line]) == ReadLine(s, pkg, line)
  {
    assert [line][1..] == [];
  }

  /** The first `|base|` directories of the stack are `base`. */
  ghost predicate StandsIn(s: Progress, base: seq<string>) { base <= s.stack }

  /** The prefix printed inside a directory `|base|` levels deep. */
  ghost predicate PrefixFor(prefix: string, base: seq<string>) {
    |prefix| == 4 * |base| && forall k :: 0 <= k < |prefix| ==> IsBox(prefix[k])
  }

  lemma LeadOf(prefix: string, base: seq<string>, last: bool)
    requires PrefixFor(prefix, base)
    ensures IsLead(prefix + Branch(last), |base|)
  {}

  lemma DeeperPrefix(prefix: string, base: seq<string>, last: bool, name: string)
    requires PrefixFor(prefix, base)
    ensures PrefixFor(prefix + Below(last), base + [name])
  {}

  /** What reading the lines of `items` has done: nothing, or a merge into the directory `base`. */
  ghost predicate Merged(s: Progress, s': Progress, base: seq<string>, items: seq<Item>, pkg: string) {
    && StandsIn(s', base)
    && s'.inner == if AllHollow(items) then s.inner
                   else Graft(s.inner, base, Merge(DirAt(s.inner, base), items, pkg))
  }

  ghost predicate MergedItem(s: Progress, s': Progress, base: seq<string>, item: Item, pkg: string) {
    && StandsIn(s', base)
    && s'.inner == if Hollow(item.node) then s.inner
                   else Graft(s.inner, base, MergeItem(DirAt(s.inner, base), item, pkg))
  }

  lemma ReadLeaf(s: Progress, pkg: string, base: seq<string>, line: string, item: Item)
    requires StandsIn(s, base) && !item.node.Dir? && ParseLine(line) == FileLine(|base|, item.name)
    ensures MergedItem(s, ReadLine(s, pkg, line), base, item, pkg)
  {
    assert Truncate(s.stack, |base|) == base;
    InsertIsGraft(s.inner, base, item.name, Some(pkg));
  }

  lemma ReadHeader(s: Progress, pkg: string, base: seq<string>, line: string, name: string)
    requires StandsIn(s, base) && ParseLine(line) == DirLine(|base|, name)
    ensures ReadLine(s, pkg, line)
            == Progress(Graft(s.inner, base, InsertLeaf(DirAt(s.inner, base), name, None)), base + [name])
  {
    assert Truncate(s.stack, |base|) == base;
    InsertIsGraft(s.inner, base, name, None);
  }

  /** Opening a directory and merging into it is merging the directory. */
  lemma HeaderThenMerge(inner: Entries, base: seq<string>, name: string, items: seq<Item>, pkg: string)
    requires !AllHollow(items)
    ensures var begun := Graft(inner, base, InsertLeaf(DirAt(inner, base), name, None));
      Graft(begun, base + [name], Merge(DirAt(begun, base + [name]), items, pkg))
      == Graft(inner, base, MergeItem(DirAt(inner, base), Item(name, Dir(items)), pkg))
  {
    var d := DirAt(inner, base);
    var leaf := InsertLeaf(d, name, None);
    var begun := Graft(inner, base, leaf);
    GraftThenLook(inner, base, leaf);
    LookBelow(begun, base, name);
    assert Sub(leaf, name) == Sub(d, name);
    var sub := Merge(Sub(d, name), items, pkg);
    GraftBelow(begun, base, name, sub);
    GraftTwice(inner, base, leaf, leaf[name := FsDir(sub)]);
    assert leaf[name := FsDir(sub)] == d[name := FsDir(sub)];
  }

  lemma {:induction false} ReadItem(s: Progress, pkg: string, base: seq<string>, item: Item, prefix: string,
                                    last: bool)
    requires GoodItem(item) && PrefixFor(prefix, base) && StandsIn(s, base)
    ensures MergedItem(s, ReadLines(s, pkg, PrintItem(item, prefix, last)), base, item, pkg)
    decreases item, 1
  {
    var lead := prefix + Branch(last);
    LeadOf(prefix, base, last);
    match item.node {
      case Dir(items) =>
        var below := PrintItems(items, prefix + Below(last));
        HollowPrintsNothing(items, prefix + Below(last));
        if below != [] {
          var header := lead + item.name + "/";
          ParseDirLine(lead, item.name, |base|);
          ReadHeader(s, pkg, base, header, item.name);
          var s1 := ReadLine(s, pkg, header);
          DeeperPrefix(prefix, base, last, item.name);
          ReadItems(s1, pkg, base + [item.name], items, prefix + Below(last));
          ReadLinesConcat(s, pkg, [header], below);
          ReadOne(s, pkg, header);
          HeaderThenMerge(s.inner, base, item.name, items, pkg);
        }
      case Symlink(target) =>
        var line := lead + item.name + " -> " + Quote(target);
        ParseLinkLine(lead, item.name, target, |base|);
        ReadLeaf(s, pkg, base, line, item);
        ReadOne(s, pkg, line);
      case File(size) =>
        var line := lead + item.name + " (" + size + ")";
        ParseFileLine(lead, item.name, size, |base|);
        ReadLeaf(s, pkg, base, line, item);
        ReadOne(s, pkg, line);
    }
  }

  /** Two merges into the same directory, one after the other, are one merge of both. */
  lemma MergeBoth(s: Progress, s1: Progress, s2: Progress, base: seq<string>, items: seq<Item>, pkg: string)
    requires items != []
    requires MergedItem(s, s1, base, items[0], pkg) && Merged(s1, s2, base, items[1..], pkg)
    ensures Merged(s, s2, base, items, pkg)
  {
    var d := DirAt(s.inner, base);
    if !Hollow(items[0].node) {
      var d1 := MergeItem(d, items[0], pkg);
      GraftThenLook(s.inner, base, d1);
      GraftTwice(s.inner, base, d1, Merge(d1, items[1..], pkg));
      if AllHollow(items[1..]) {
        MergeOfHollow(d1, items[1..], pkg);
      }
    }
  }

  lemma {:induction false} ReadItems(s: Progress, pkg: string, base: seq<string>, items: seq<Item>, prefix: string)
    requires GoodItems(items) && PrefixFor(prefix, base) && StandsIn(s, base)
    ensures Merged(s, ReadLines(s, pkg, PrintItems(items, prefix)), base, items, pkg)
    decreases items, 0
  {
    if items != [] {
      var first := PrintItem(items[0], prefix, |items| == 1);
      var rest := PrintItems(items[1..], prefix);
      ReadLinesConcat(s, pkg, first, rest);
      ReadItem(s, pkg, base, items[0], prefix, |items| == 1);
      var s1 := ReadLines(s, pkg, first);
      ReadItems(s1, pkg, base, items[1..], prefix);
      MergeBoth(s, s1, ReadLines(s1, pkg, rest), base, items, pkg);
    }
  }

  // ---- Lines survive the file ----

  lemma {:induction false} PrintedItemIsPlain(item: Item, prefix: string, last: bool)
    requires GoodItem(item) && (forall k :: 0 <= k < |prefix| ==> IsBox(prefix[k]))
    ensures forall l :: l in PrintItem(item, prefix, last) ==> IsPlainLine(l)
    decreases item, 1
  {
    var lead := prefix + Branch(last);
    assert forall k :: 0 <= k < |lead| ==> IsBox(lead[k]);
    match item.node {
      case Dir(items) => PrintedItemsArePlain(items, prefix + Below(last));
      case Symlink(target) => EscapeIsClean(target);
      case File(size) =>
    }
  }

  lemma {:induction false} PrintedItemsArePlain(items: seq<Item>, prefix: string)
    requires GoodItems(items) && (forall k :: 0 <= k < |prefix| ==> IsBox(prefix[k]))
    ensures forall l :: l in PrintItems(items, prefix) ==> IsPlainLine(l)
    decreases items, 0
  {
    if items != [] {
      PrintedItemIsPlain(items[0], prefix, |items| == 1);
      PrintedItemsArePlain(items[1..], prefix);
    }
  }

  /**
   Reading the printed file of any tree the format can carry merges exactly that tree into the
   index, whatever the index already holds.
   */
  lemma {:induction false} ParseOfPrintedTreeMerges(inner: Entries, pkg: string, items: seq<Item>)
    requires GoodItems(items)
    ensures Parse(inner, pkg, FileText(items)) == Merge(inner, items, pkg)
  {
    var lines := PrintItems(items, "");
    JoinWithTrailingEol(lines);
    PrintedItemsArePlain(items, "");
    LinesOfUnlines(lines);
    ReadItems(Progress(inner, []), pkg, [], items, "");
    if AllHollow(items) {
      MergeOfHollow(inner, items, pkg);
    }
  }

  /**
   Round trip: starting from an empty index, the printed file rebuilds exactly the tree with its
   hollow directories removed and every file and symlink labelled with the package.
   */
  lemma {:induction false} ParseOfPrintedTreeIsTheTree(pkg: string, items: seq<Item>)
    requires GoodItems(items) && UniqueNames(items)
    ensures Parse(map[], pkg, FileText(items)) == Indexed(items, pkg)
  {
    ParseOfPrintedTreeMerges(map[], pkg, items);
    MergeIsIndexed(map[], items, pkg);
    assert map[] + Indexed(items, pkg) == Indexed(items, pkg);
  }
}
