/**
 Interactive shell history: an escaped line format, and any number of sessions that merge their
 entries into one bounded file under a lock.
 */
module History {
  import opened Names
  import opened Text

  // ---- The entry codec ----

  function Encode(entry: string): string {
    if entry == "" then "" else EncodeChar(entry[0]) + Encode(entry[1..])
  }

  /** The character an escape letter stands for. */
  function Unescape(c: char): Option<char> {
    match c
    case '\\' => Some('\\')
    case 'n' => Some('\n')
    case 'r' => Some('\r')
    case '0' => Some('\0')
    case _ => None
  }

  function Prepend(c: char, rest: Option<string>): Option<string> {
    match rest case None => None case Some(s) => Some([c] + s)
  }

  /** Nothing for an unknown or unterminated escape. */
  function Decode(line: string): Option<string> {
    if line == "" then Some("")
    else if line[0] != '\\' then Prepend(line[0], Decode(line[1..]))
    else if |line| == 1 then None
    else
      match Unescape(line[1])
      case None => None
      case Some(c) => Prepend(c, Decode(line[2..]))
  }

  /** No line ending and no NUL. */
  predicate IsFlat(s: string) { '\n' !in s && '\r' !in s && '\0' !in s }

  /** The encoding of one character. */
  function EncodeChar(c: char): string {
    match c
    case '\\' => "\\\\"
    case '\n' => "\\n"
    case '\r' => "\\r"
    case '\0' => "\\0"
    case c => [c]
  }

  lemma DecodeFirst(c: char, rest: string)
    ensures Decode(EncodeChar(c) + rest) == Prepend(c, Decode(rest))
    ensures IsFlat(EncodeChar(c))
  {
    var s := EncodeChar(c) + rest;
    assert s[|EncodeChar(c)|..] == rest;
  }

  lemma {:induction false} DecodeOfEncode(entry: string)
    ensures Decode(Encode(entry)) == Some(entry)
    ensures IsFlat(Encode(entry))
    decreases |entry|
  {
    if entry != "" {
      DecodeOfEncode(entry[1..]);
      DecodeFirst(entry[0], Encode(entry[1..]));
      assert [entry[0]] + entry[1..] == entry;
    }
  }

  /** The first `n` characters of a line stand for one character. */
  lemma EncodeOneMore(line: string, n: nat, rest: string)
    requires IsFlat(line) && Decode(line).Some? && line != "" && n == if line[0] != '\\' then 1 else 2
    requires n <= |line| && Decode(line[n..]) == Some(rest) && Encode(rest) == line[n..]
    ensures Encode(Decode(line).value) == line
  {
    var c := if n == 1 then line[0] else Unescape(line[1]).value;
    assert Decode(line) == Prepend(c, Some(rest));
    assert EncodeChar(c) == line[..n];
    EncodeFirst(c, rest);
    assert line == line[..n] + line[n..];
  }

  lemma EncodeFirst(c: char, rest: string)
    ensures Encode([c] + rest) == EncodeChar(c) + Encode(rest)
  {
    assert ([c] + rest)[1..] == rest;
  }

  /** Encoding is the only way to write an entry without raw control characters. */
  lemma {:induction false} EncodeOfDecode(line: string)
    requires IsFlat(line) && Decode(line).Some?
    ensures Encode(Decode(line).value) == line
    decreases |line|
  {
    if line != "" {
      var n := if line[0] != '\\' then 1 else 2;
      assert IsFlat(line[n..]);
      EncodeOfDecode(line[n..]);
      EncodeOneMore(line, n, Decode(line[n..]).value);
    }
  }

  lemma {:induction false} EncodeAppend(entry: string, c: char)
    ensures Encode(entry + [c]) == Encode(entry) + Encode([c])
    decreases |entry|
  {
    if entry != "" {
      EncodeAppend(entry[1..], c);
      assert (entry + [c])[1..] == entry[1..] + [c];
    } else {
      assert [c][1..] == "";
    }
  }

  method EncodeEntry(entry: string) returns (encoded: string)
    ensures encoded == Encode(entry)
  {
    encoded := "";
    for i := 0 to |entry|
      invariant encoded == Encode(entry[..i])
    {
      EncodeAppend(entry[..i], entry[i]);
      assert entry[..i + 1] == entry[..i] + [entry[i]];
      assert [entry[i]][1..] == "";
      match entry[i] {
        case '\\' => encoded := encoded + "\\\\";
        case '\n' => encoded := encoded + "\\n";
        case '\r' => encoded := encoded + "\\r";
        case '\0' => encoded := encoded + "\\0";
        case c => encoded := encoded + [c];
      }
    }
    assert entry[..|entry|] == entry;
  }

  /** `decoded` followed by the decoding of `rest`. */
  function Resume(decoded: string, rest: string): Option<string> {
    match Decode(rest) case None => None case Some(s) => Some(decoded + s)
  }

  lemma ResumeNothing(line: string)
    ensures Resume("", line) == Decode(line)
  {
    assert Decode(line).Some? ==> "" + Decode(line).value == Decode(line).value;
  }

  lemma ResumeOn(decoded: string, c: char, rest: string)
    ensures Resume(decoded + [c], rest)
            == match Prepend(c, Decode(rest)) case None => None case Some(s) => Some(decoded + s)
  {
    if Decode(rest).Some? {
      assert decoded + ([c] + Decode(rest).value) == decoded + [c] + Decode(rest).value;
    }
  }

  method DecodeEntry(line: string) returns (r: Option<string>)
    ensures r == Decode(line)
  {
    var decoded := "";
    var i := 0;
    assert line[0..] == line;
    ResumeNothing(line);
    while i < |line|
      invariant 0 <= i <= |line| && Resume(decoded, line[i..]) == Decode(line)
    {
      var c := line[i];
      assert line[i..][1..] == line[i + 1..];
      if c != '\\' {
        ResumeOn(decoded, c, line[i + 1..]);
        decoded := decoded + [c];
        i := i + 1;
        continue;
      }
      if i + 1 == |line| {
        return None;
      }
      assert line[i..][2..] == line[i + 2..];
      var u := Unescape(line[i + 1]);
      if u.None? {
        return None;
      }
      ResumeOn(decoded, u.value, line[i + 2..]);
      decoded := decoded + [u.value];
      i := i + 2;
    }
    assert line[i..] == "" && decoded + "" == decoded;
    r := Some(decoded);
  }

  // ---- The file ----

  function EncodeAll(entries: seq<string>): seq<string> {
    if entries == [] then [] else [Encode(entries[0])] + EncodeAll(entries[1..])
  }

  function DecodeAll(lines: seq<string>): Option<seq<string>> {
    if lines == [] then Some([])
    else
      match (Decode(lines[0]), DecodeAll(lines[1..]))
      case (Some(e), Some(es)) => Some([e] + es)
      case _ => None
  }

  /** What `sync` writes, and what it reads. */
  function Serialize(entries: seq<string>): string { Unlines(EncodeAll(entries)) }

  function Load(text: string): Option<seq<string>> { DecodeAll(Lines(text)) }

  /** Some line holds an unknown or unterminated escape. */
  predicate Undecodable(lines: seq<string>) { exists i :: 0 <= i < |lines| && Decode(lines[i]).None? }

  /** The file is refused exactly when some line of it does not decode. */
  lemma {:induction false} LoadFailsExactlyWhen(text: string)
    ensures Load(text).None? <==> Undecodable(Lines(text))
  {
    DecodeAllFailsExactlyWhen(Lines(text));
  }

  lemma {:induction false} DecodeAllFailsExactlyWhen(lines: seq<string>)
    ensures DecodeAll(lines).None? <==> Undecodable(lines)
    decreases |lines|
  {
    if lines != [] {
      DecodeAllFailsExactlyWhen(lines[1..]);
      if i :| 0 <= i < |lines| && Decode(lines[i]).None? {
        assert i == 0 || lines[1..][i - 1] == lines[i];
      }
    }
  }

  lemma {:induction false} EncodedLines(entries: seq<string>)
    ensures DecodeAll(EncodeAll(entries)) == Some(entries)
    ensures forall l :: l in EncodeAll(entries) ==> IsPlainLine(l)
    decreases |entries|
  {
    if entries != [] {
      DecodeOfEncode(entries[0]);
      EncodedLines(entries[1..]);
      assert EncodeAll(entries)[1..] == EncodeAll(entries[1..]);
      assert [entries[0]] + entries[1..] == entries;
    }
  }

  /** Any list of strings, with any characters in them, survives being written and read back. */
  lemma {:induction false} LoadOfSerialize(entries: seq<string>)
    ensures Load(Serialize(entries)) == Some(entries)
  {
    EncodedLines(entries);
    LinesOfUnlines(EncodeAll(entries));
  }

  // ---- Merging ----

  /** Append entries one by one, dropping each that repeats the one before. */
  function Absorb(list: seq<string>, more: seq<string>): seq<string>
    decreases |more|
  {
    if more == [] then list
    else
      var before := Absorb(list, more[..|more| - 1]);
      var last := more[|more| - 1];
      if before != [] && before[|before| - 1] == last then before else before + [last]
  }

  function Dedup(list: seq<string>): seq<string> { Absorb([], list) }

  function LastOf(list: seq<string>, capacity: nat): seq<string> {
    if |list| <= capacity then list else list[|list| - capacity..]
  }

  /** The entries a sync writes, from the ones it read and the ones it brings. */
  function Merged(found: seq<string>, pending: seq<string>, capacity: nat): seq<string> {
    LastOf(Dedup(found + pending), capacity)
  }

  ghost predicate NoRepeats(list: seq<string>) {
    forall i, j :: 0 <= i && j == i + 1 && j < |list| ==> list[i] != list[j]
  }

  lemma {:induction false} AbsorbConcat(list: seq<string>, a: seq<string>, b: seq<string>)
    ensures Absorb(list, a + b) == Absorb(Absorb(list, a), b)
    decreases |b|
  {
    if b == [] {
      assert a + b == a;
    } else {
      AbsorbConcat(list, a, b[..|b| - 1]);
      assert (a + b)[..|a + b| - 1] == a + b[..|b| - 1];
    }
  }

  lemma {:induction false} AbsorbHasNoRepeats(list: seq<string>, more: seq<string>)
    requires NoRepeats(list)
    ensures NoRepeats(Absorb(list, more))
    decreases |more|
  {
    if more != [] {
      AbsorbHasNoRepeats(list, more[..|more| - 1]);
    }
  }

  lemma {:induction false} AbsorbKeepsNoRepeats(list: seq<string>)
    requires NoRepeats(list)
    ensures Dedup(list) == list
    decreases |list|
  {
    if list != [] {
      var k := |list| - 1;
      AbsorbKeepsNoRepeats(list[..k]);
      assert k > 0 ==> list[k - 1] != list[k];
      assert list == list[..k] + [list[k]];
    }
  }

  /** What is absorbed depends only on the last entry, so a forgotten beginning does not matter. */
  lemma {:induction false} AbsorbBehind(front: seq<string>, list: seq<string>, more: seq<string>)
    requires list == [] ==> front == []
    ensures Absorb(front + list, more) == front + Absorb(list, more)
    ensures |Absorb(list, more)| >= |list|
    decreases |more|
  {
    if more != [] {
      AbsorbBehind(front, list, more[..|more| - 1]);
    }
  }

  /** Absorbing into the last entries only, and keeping the last entries, loses nothing. */
  lemma AbsorbIntoLast(whole: seq<string>, pending: seq<string>, capacity: nat)
    ensures LastOf(Absorb(LastOf(whole, capacity), pending), capacity) == LastOf(Absorb(whole, pending), capacity)
  {
    var kept := LastOf(whole, capacity);
    var front := whole[..|whole| - |kept|];
    assert whole == front + kept;
    if capacity > 0 {
      AbsorbBehind(front, kept, pending);
    }
  }

  /** Merging into a file that was already bounded and deduplicated is merging into the whole past. */
  lemma {:induction false} MergeForgetsNothing(past: seq<string>, pending: seq<string>, capacity: nat)
    ensures Merged(LastOf(Dedup(past), capacity), pending, capacity) == LastOf(Dedup(past + pending), capacity)
  {
    var whole := Dedup(past);
    var kept := LastOf(whole, capacity);
    AbsorbHasNoRepeats([], past);
    AbsorbKeepsNoRepeats(kept);
    AbsorbConcat([], past, pending);
    AbsorbConcat([], kept, pending);
    AbsorbIntoLast(whole, pending, capacity);
  }

  // ---- What deduplication and the bound mean ----

  /** The last entry kept is the last one absorbed. */
  lemma {:induction false} DedupKeepsLast(list: seq<string>)
    requires list != []
    ensures Dedup(list) != [] && Dedup(list)[|Dedup(list)| - 1] == list[|list| - 1]
  {}

  /** Of a list only what equals its own predecessor is dropped. */
  lemma {:induction false} DedupDropsOnlyRepeats(list: seq<string>, x: string)
    ensures Dedup(list + [x]) == if list != [] && list[|list| - 1] == x then Dedup(list) else Dedup(list) + [x]
  {
    assert (list + [x])[..|list|] == list;
    if list != [] {
      DedupKeepsLast(list);
    }
  }

  /** What a sync brings last is newest afterwards. */
  lemma {:induction false} NewestIsLast(found: seq<string>, pending: seq<string>, source: string, capacity: nat)
    requires capacity > 0
    ensures var merged := Merged(found, pending + [source], capacity);
      merged != [] && merged[|merged| - 1] == source
  {
    var all := found + (pending + [source]);
    assert all != [] && all[|all| - 1] == source;
    DedupKeepsLast(all);
    LastOfKeepsLast(Dedup(all), capacity);
  }

  lemma LastOfKeepsLast(list: seq<string>, capacity: nat)
    requires capacity > 0 && list != []
    ensures var kept := LastOf(list, capacity); kept != [] && kept[|kept| - 1] == list[|list| - 1]
  {}

  /** The four escapes of the file format; every other character stands for itself. */
  lemma {:induction false} EscapesAre(c: char)
    ensures Encode("\\") == "\\\\" && Encode("\n") == "\\n" && Encode("\r") == "\\r" && Encode("\0") == "\\0"
    ensures c !in "\\\n\r\0" ==> Encode([c]) == [c]
  {
    assert forall x: char :: Encode([x]) == EncodeChar(x) by {
      forall x: char ensures Encode([x]) == EncodeChar(x) {
        assert Encode([x][1..]) == "";
      }
    }
  }
}
