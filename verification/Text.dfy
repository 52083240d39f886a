/** The string operations the parsers rely on: trimming, searching from the end, and line splitting. */
module Text {
  import opened Names

  /** The characters of the White_Space property. */
  predicate IsWhite(c: char) {
    ('\t' <= c <= '\r') || c == ' ' || c == '\U{85}' || c == '\U{A0}' || c == '\U{1680}'
    || ('\U{2000}' <= c <= '\U{200A}') || c == '\U{2028}' || c == '\U{2029}' || c == '\U{202F}'
    || c == '\U{205F}' || c == '\U{3000}'
  }

  function TrimStart(s: string): string {
    if s != "" && IsWhite(s[0]) then TrimStart(s[1..]) else s
  }

  function TrimEnd(s: string): string
    decreases |s|
  {
    if s != "" && IsWhite(s[|s| - 1]) then TrimEnd(s[..|s| - 1]) else s
  }

  function Trim(s: string): string { TrimEnd(TrimStart(s)) }

  /** Nonempty, with no whitespace at either end. */
  predicate IsTrimmed(s: string) {
    s != "" && !IsWhite(s[0]) && !IsWhite(s[|s| - 1])
  }

  lemma TrimKeepsTrimmed(s: string)
    requires IsTrimmed(s)
    ensures Trim(s) == s && Trim(s + " ") == s
  {
    assert (s + " ")[0] == s[0];
    assert (s + " ")[..|s + " "| - 1] == s;
  }

  /** Trimming drops whitespace in front and some characters behind; what is left is trimmed or nothing. */
  lemma {:induction false} TrimIsSlice(s: string) returns (w: nat)
    ensures w + |Trim(s)| <= |s| && Trim(s) == s[w..w + |Trim(s)|]
    ensures forall k :: 0 <= k < w ==> IsWhite(s[k])
    ensures Trim(s) == "" || IsTrimmed(Trim(s))
  {
    w := TrimStartIsSuffix(s);
    TrimEndIsPrefix(s[w..]);
  }

  lemma {:induction false} TrimStartIsSuffix(s: string) returns (w: nat)
    ensures w <= |s| && TrimStart(s) == s[w..]
    ensures forall k :: 0 <= k < w ==> IsWhite(s[k])
    ensures w < |s| ==> !IsWhite(s[w])
  {
    w := 0;
    if s != "" && IsWhite(s[0]) {
      var v := TrimStartIsSuffix(s[1..]);
      w := v + 1;
    }
  }

  lemma {:induction false} TrimEndIsPrefix(s: string)
    ensures TrimEnd(s) <= s
    ensures TrimEnd(s) == "" || !IsWhite(TrimEnd(s)[|TrimEnd(s)| - 1])
    decreases |s|
  {
    if s != "" && IsWhite(s[|s| - 1]) {
      TrimEndIsPrefix(s[..|s| - 1]);
    }
  }

  /** Text with some visible character does not trim to nothing. */
  lemma {:induction false} TrimOfVisible(s: string, k: nat)
    requires k < |s| && !IsWhite(s[k])
    ensures Trim(s) != ""
    decreases k
  {
    if k > 0 && IsWhite(s[0]) {
      TrimOfVisible(s[1..], k - 1);
    } else {
      TrimEndOfVisible(s, 0);
    }
  }

  lemma {:induction false} TrimEndOfVisible(s: string, k: nat)
    requires k < |s| && !IsWhite(s[k])
    ensures TrimEnd(s) != ""
    decreases |s|
  {
    if IsWhite(s[|s| - 1]) {
      TrimEndOfVisible(s[..|s| - 1], k);
    }
  }

  /** `trim_end_matches` for one character. */
  function DropTrailing(s: string, c: char): string
    decreases |s|
  {
    if s != "" && s[|s| - 1] == c then DropTrailing(s[..|s| - 1], c) else s
  }

  /** The last position of `c`. */
  function LastChar(s: string, c: char): (r: Option<nat>)
    ensures r.Some? ==> r.value < |s| && s[r.value] == c && c !in s[r.value + 1..]
    ensures r.None? ==> c !in s
    decreases |s|
  {
    if s == "" then None
    else if s[|s| - 1] == c then Some(|s| - 1)
    else
      assert s == s[..|s| - 1] + [s[|s| - 1]];
      var r := LastChar(s[..|s| - 1], c);
      assert r.Some? ==> s[r.value + 1..] == s[..|s| - 1][r.value + 1..] + [s[|s| - 1]];
      r
  }

  lemma LastCharAt(s: string, c: char, k: nat)
    requires k < |s| && s[k] == c && c !in s[k + 1..]
    ensures LastChar(s, c) == Some(k)
  {
    assert LastChar(s, c).Some?;
  }

  /** The arrow `->` stands at position `k`. */
  predicate ArrowAt(s: string, k: nat) {
    k + 1 < |s| && s[k] == '-' && s[k + 1] == '>'
  }

  predicate HasArrow(s: string) { exists k :: 0 <= k < |s| && ArrowAt(s, k) }

  /** The last position of `->`, searching below `limit`. */
  function LastArrowBelow(s: string, limit: nat): (r: Option<nat>)
    ensures r.Some? ==> r.value < limit && ArrowAt(s, r.value) && forall k :: r.value < k < limit ==> !ArrowAt(s, k)
    ensures r.None? ==> forall k :: 0 <= k < limit ==> !ArrowAt(s, k)
  {
    if limit == 0 then None
    else if ArrowAt(s, limit - 1) then Some(limit - 1)
    else LastArrowBelow(s, limit - 1)
  }

  function LastArrow(s: string): Option<nat> { LastArrowBelow(s, |s|) }

  // ---- Lines ----

  /** A line ending is a newline, or a carriage return and a newline. */
  function DropReturn(line: string): string {
    if line != "" && line[|line| - 1] == '\r' then line[..|line| - 1] else line
  }

  /** The lines of a text; text after the last newline is a line only if it is not empty. */
  function Lines(s: string): seq<string>
    decreases |s|
  {
    match IndexOf(s, '\n')
    case None => if s == "" then [] else [s]
    case Some(k) => [DropReturn(s[..k])] + Lines(s[k + 1..])
  }

  /** Every line followed by a newline. */
  function Unlines(lines: seq<string>): string {
    if lines == [] then "" else lines[0] + "\n" + Unlines(lines[1..])
  }

  predicate IsPlainLine(line: string) {
    '\n' !in line && (line != "" ==> line[|line| - 1] != '\r')
  }

  /** Reading back what was written line by line gives the lines, if none contains a line ending. */
  lemma {:induction false} LinesOfUnlines(lines: seq<string>)
    requires forall l :: l in lines ==> IsPlainLine(l)
    ensures Lines(Unlines(lines)) == lines
    decreases |lines|
  {
    if lines != [] {
      assert IsPlainLine(lines[0]);
      LineFirst(lines[0], Unlines(lines[1..]));
      LinesOfUnlines(lines[1..]);
    }
  }

  lemma OneMoreLine(line: string, rest: string, end: string)
    requires IsPlainLine(line)
    ensures Lines(line + "\n" + rest + end) == [line] + Lines(rest + end)
  {
    assert line + "\n" + rest + end == line + "\n" + (rest + end);
    LineFirst(line, rest + end);
  }

  /** Text behind the last newline is one more line, and a carriage return before a newline is dropped with it. */
  lemma {:induction false} LinesOfOpenEnd(lines: seq<string>, end: string)
    requires (forall l :: l in lines ==> IsPlainLine(l)) && '\n' !in end && end != ""
    ensures Lines(Unlines(lines) + end) == lines + [end]
    decreases |lines|
  {
    if lines == [] {
      assert Unlines(lines) + end == end;
    } else {
      assert IsPlainLine(lines[0]);
      LinesOfOpenEnd(lines[1..], end);
      OneMoreLine(lines[0], Unlines(lines[1..]), end);
      assert lines + [end] == [lines[0]] + (lines[1..] + [end]);
    }
  }

  lemma ReturnIsDropped(line: string, rest: string)
    requires '\n' !in line
    ensures Lines(line + "\r\n" + rest) == [line] + Lines(rest)
  {
    var long := line + "\r";
    assert line + "\r\n" + rest == long + "\n" + rest;
    NewlineAfter(long, rest);
    assert (long + "\n" + rest)[..|long|] == long && (long + "\n" + rest)[|long| + 1..] == rest;
  }

  lemma LineFirst(line: string, rest: string)
    requires IsPlainLine(line)
    ensures Lines(line + "\n" + rest) == [line] + Lines(rest)
  {
    var s := line + "\n" + rest;
    NewlineAfter(line, rest);
    assert s[..|line|] == line;
    assert s[|line| + 1..] == rest;
  }

  lemma NewlineAfter(line: string, rest: string)
    requires '\n' !in line
    ensures IndexOf(line + "\n" + rest, '\n') == Some(|line|)
  {
    var s := line + "\n" + rest;
    assert s[|line|] == '\n';
  }

  /** The pieces joined with newlines between them. */
  function JoinLines(lines: seq<string>): string {
    if lines == [] then "" else if |lines| == 1 then lines[0] else lines[0] + "\n" + JoinLines(lines[1..])
  }

  /** A trailing empty piece turns joining into writing every line with its newline. */
  lemma {:induction false} JoinWithTrailingEol(lines: seq<string>)
    ensures JoinLines(lines + [""]) == Unlines(lines)
    decreases |lines|
  {
    if lines != [] {
      JoinWithTrailingEol(lines[1..]);
      assert (lines + [""])[1..] == lines[1..] + [""];
    }
  }
}
