/** Splitting highlighted tokens at the borders of parser-invalid ranges. */
module Highlight {
  import opened Names
  import opened Ordering

  datatype Kind =
    | Plain | Comment | Keyword | Literal | String | Escape | Expansion | Operator | Delimiter | Invalid

  datatype TokenKind =
    | TWhitespace | TNewline | TIdentifier | TWordText
    | TLineContinuation | TBareEscape | TDoubleEscape
    | TComment | TDocumentationComment
    | TKeyword(isConstant: bool) // true, false and null are constants
    | TNumber
    | TSingleQuoted | TDoubleQuoteStart | TDoubleText | TDoubleQuoteEnd
    | TVariable | TBracedExpansionStart | TCommandSubstitutionStart
    | TOperator | TDelimiter | TInvalid

  function HighlightKind(k: TokenKind): Kind {
    match k
    case TWhitespace | TNewline | TIdentifier | TWordText => Plain
    case TLineContinuation | TBareEscape | TDoubleEscape => Escape
    case TComment | TDocumentationComment => Comment
    case TKeyword(isConstant) => if isConstant then Literal else Keyword
    case TNumber => Literal
    case TSingleQuoted | TDoubleQuoteStart | TDoubleText | TDoubleQuoteEnd => String
    case TVariable | TBracedExpansionStart | TCommandSubstitutionStart => Expansion
    case TOperator => Operator
    case TDelimiter => Delimiter
    case TInvalid => Invalid
  }

  /** Which token kinds share each kind of highlighting. */
  lemma HighlightKindsAre(k: TokenKind)
    ensures HighlightKind(k) == Invalid <==> k == TInvalid
    ensures HighlightKind(k) == Literal <==> k == TNumber || k == TKeyword(true)
    ensures HighlightKind(k) == Keyword <==> k == TKeyword(false)
    ensures HighlightKind(k) == Comment <==> k in {TComment, TDocumentationComment}
    ensures HighlightKind(k) == Escape <==> k in {TLineContinuation, TBareEscape, TDoubleEscape}
    ensures HighlightKind(k) == String <==> k in {TSingleQuoted, TDoubleQuoteStart, TDoubleText, TDoubleQuoteEnd}
    ensures HighlightKind(k) == Expansion <==> k in {TVariable, TBracedExpansionStart, TCommandSubstitutionStart}
    ensures HighlightKind(k) == Operator <==> k == TOperator
    ensures HighlightKind(k) == Delimiter <==> k == TDelimiter
  {}

  datatype Range = Range(start: nat, end: nat)

  datatype Token = Token(start: nat, end: nat, kind: TokenKind)

  datatype Segment = Segment(kind: Kind, text: seq<Byte>)

  // ---- Boundaries ----

  function Before(): Less<nat> { (a, b) => a < b }

  function Max(a: nat, b: nat): nat { if a < b then b else a }

  function Min(a: nat, b: nat): nat { if a < b then a else b }

  predicate Overlaps(r: Range, start: nat, end: nat) { r.start < end && r.end > start }

  /** The ends of the token and of every overlapping range, clipped to the token. */
  function RawBoundaries(t: Token, ranges: seq<Range>): seq<nat>
    decreases |ranges|
  {
    if ranges == [] then [t.start, t.end]
    else
      var r := ranges[|ranges| - 1];
      var before := RawBoundaries(t, ranges[..|ranges| - 1]);
      if Overlaps(r, t.start, t.end) then before + [Max(r.start, t.start), Min(r.end, t.end)] else before
  }

  function Boundaries(t: Token, ranges: seq<Range>): seq<nat> {
    DedupAdjacent(Sort(Before(), RawBoundaries(t, ranges)))
  }

  predicate InSomeRange(ranges: seq<Range>, start: nat, end: nat) {
    exists i :: 0 <= i < |ranges| && Overlaps(ranges[i], start, end)
  }

  function SegmentKind(t: Token, ranges: seq<Range>, start: nat, end: nat): Kind {
    if HighlightKind(t.kind) == Invalid || InSomeRange(ranges, start, end) then Invalid else HighlightKind(t.kind)
  }

  ghost predicate AllUpTo(b: seq<nat>, limit: nat) { forall x :: x in b ==> x <= limit }

  /** One segment between each two neighbouring boundaries. */
  function Cut(source: seq<Byte>, t: Token, ranges: seq<Range>, b: seq<nat>): seq<Segment>
    requires AllUpTo(b, |source|) && StrictlySorted(Before(), b)
    decreases |b|
  {
    if |b| < 2 then []
    else
      assert b[0] in b && b[1] in b && Before()(b[0], b[1]);
      assert forall x :: x in b[1..] ==> x in b;
      [Segment(SegmentKind(t, ranges, b[0], b[1]), source[b[0]..b[1]])] + Cut(source, t, ranges, b[1..])
  }

  // ---- What the boundaries are ----

  lemma {:induction false} RawBoundariesInside(t: Token, ranges: seq<Range>)
    requires t.start < t.end
    ensures t.start in RawBoundaries(t, ranges) && t.end in RawBoundaries(t, ranges)
    ensures forall x :: x in RawBoundaries(t, ranges) ==> t.start <= x <= t.end
    ensures forall i :: 0 <= i < |ranges| && Overlaps(ranges[i], t.start, t.end) ==>
      Max(ranges[i].start, t.start) in RawBoundaries(t, ranges) && Min(ranges[i].end, t.end) in RawBoundaries(t, ranges)
    decreases |ranges|
  {
    if ranges != [] {
      RawBoundariesInside(t, ranges[..|ranges| - 1]);
    }
  }

  /** Strictly increasing, from the token's start to its end, with every clipped range border among them. */
  ghost predicate GoodBoundaries(t: Token, ranges: seq<Range>, b: seq<nat>) {
    && StrictlySorted(Before(), b) && |b| >= 2 && b[0] == t.start && b[|b| - 1] == t.end
    && (forall x :: x in b ==> t.start <= x <= t.end)
    && (forall i :: 0 <= i < |ranges| && Overlaps(ranges[i], t.start, t.end) ==>
          Max(ranges[i].start, t.start) in b && Min(ranges[i].end, t.end) in b)
  }

  lemma FirstIsLeast(b: seq<nat>, i: nat)
    requires StrictlySorted(Before(), b) && i < |b|
    ensures b[0] <= b[i]
  {
    if i > 0 {
      assert Before()(b[0], b[i]);
    }
  }

  lemma LastIsGreatest(b: seq<nat>, i: nat)
    requires StrictlySorted(Before(), b) && i < |b|
    ensures b[i] <= b[|b| - 1]
  {
    if i < |b| - 1 {
      assert Before()(b[i], b[|b| - 1]);
    }
  }

  lemma {:induction false} BoundariesAreGood(t: Token, ranges: seq<Range>)
    requires t.start < t.end
    ensures GoodBoundaries(t, ranges, Boundaries(t, ranges))
  {
    var b := Boundaries(t, ranges);
    RawBoundariesInside(t, ranges);
    SortSorts(Before(), RawBoundaries(t, ranges));
    DedupSorted(Before(), Sort(Before(), RawBoundaries(t, ranges)));
    assert t.start in b && t.end in b;
    var i :| 0 <= i < |b| && b[i] == t.start;
    var j :| 0 <= j < |b| && b[j] == t.end;
    assert b[0] in b && b[|b| - 1] in b;
    FirstIsLeast(b, i);
    LastIsGreatest(b, j);
  }

  /** A border of an overlapping range inside the token, or an end of the token. */
  ghost predicate IsBorder(t: Token, ranges: seq<Range>, x: nat) {
    || x == t.start || x == t.end
    || exists i :: 0 <= i < |ranges| && Overlaps(ranges[i], t.start, t.end)
                   && (x == ranges[i].start || x == ranges[i].end)
  }

  /** There is no needless cut. */
  lemma {:induction false} BoundariesAreBorders(t: Token, ranges: seq<Range>, x: nat)
    requires t.start < t.end && x in Boundaries(t, ranges)
    ensures IsBorder(t, ranges, x)
  {
    SortSorts(Before(), RawBoundaries(t, ranges));
    DedupSorted(Before(), Sort(Before(), RawBoundaries(t, ranges)));
    RawBoundariesAreBorders(t, ranges, x);
  }

  lemma {:induction false} RawBoundariesAreBorders(t: Token, ranges: seq<Range>, x: nat)
    requires x in RawBoundaries(t, ranges)
    ensures IsBorder(t, ranges, x)
    decreases |ranges|
  {
    if ranges != [] {
      var k := |ranges| - 1;
      if x in RawBoundaries(t, ranges[..k]) {
        RawBoundariesAreBorders(t, ranges[..k], x);
      } else {
        assert x == Max(ranges[k].start, t.start) || x == Min(ranges[k].end, t.end);
      }
    }
  }

  // ---- Painting ----

  /** The kind of every byte of the output. */
  function Paint(segments: seq<Segment>): seq<Kind> {
    if segments == [] then []
    else seq(|segments[0].text|, _ => segments[0].kind) + Paint(segments[1..])
  }

  function TextOf(segments: seq<Segment>): seq<Byte> {
    if segments == [] then [] else segments[0].text + TextOf(segments[1..])
  }

  /** Byte `k` lies in some invalid range. */
  predicate Covered(ranges: seq<Range>, k: nat) {
    exists i :: 0 <= i < |ranges| && ranges[i].start <= k < ranges[i].end
  }

  /** The kind byte `k` of token `t` should have. */
  function Mark(t: Token, ranges: seq<Range>, k: nat): Kind {
    if HighlightKind(t.kind) == Invalid || Covered(ranges, k) then Invalid else HighlightKind(t.kind)
  }

  /** Between two neighbouring boundaries a range covers all bytes or none. */
  lemma {:induction false} SegmentIsUniform(t: Token, ranges: seq<Range>, b: seq<nat>, j: nat, k: nat)
    requires GoodBoundaries(t, ranges, b) && j + 1 < |b| && b[j] <= k < b[j + 1]
    ensures InSomeRange(ranges, b[j], b[j + 1]) <==> Covered(ranges, k)
  {
    assert b[j] in b && b[j + 1] in b;
    if InSomeRange(ranges, b[j], b[j + 1]) {
      var i :| 0 <= i < |ranges| && Overlaps(ranges[i], b[j], b[j + 1]);
      assert Overlaps(ranges[i], t.start, t.end);
      var p :| 0 <= p < |b| && b[p] == Max(ranges[i].start, t.start);
      var q :| 0 <= q < |b| && b[q] == Min(ranges[i].end, t.end);
      assert ranges[i].start <= k < ranges[i].end;
    }
    if Covered(ranges, k) {
      var i :| 0 <= i < |ranges| && ranges[i].start <= k < ranges[i].end;
      assert Overlaps(ranges[i], b[j], b[j + 1]);
    }
  }

  /** The segment between boundaries `j` and `j + 1`. */
  function SegmentAt(source: seq<Byte>, t: Token, ranges: seq<Range>, b: seq<nat>, j: nat): Segment
    requires j + 1 < |b| && b[j] <= b[j + 1] <= |source|
  {
    Segment(SegmentKind(t, ranges, b[j], b[j + 1]), source[b[j]..b[j + 1]])
  }

  lemma TailSorted(b: seq<nat>, j: nat, limit: nat)
    requires StrictlySorted(Before(), b) && j <= |b| && AllUpTo(b, limit)
    ensures StrictlySorted(Before(), b[j..]) && AllUpTo(b[j..], limit)
  {
    forall x | x in b[j..] ensures x in b {
      var k :| 0 <= k < |b[j..]| && b[j..][k] == x;
      assert b[j + k] == x;
    }
  }

  lemma CutStep(source: seq<Byte>, t: Token, ranges: seq<Range>, b: seq<nat>, j: nat)
    requires StrictlySorted(Before(), b) && j + 1 < |b| && AllUpTo(b, |source|)
    ensures StrictlySorted(Before(), b[j..]) && StrictlySorted(Before(), b[j + 1..])
    ensures AllUpTo(b[j..], |source|) && AllUpTo(b[j + 1..], |source|)
    ensures b[j] <= b[j + 1] <= |source|
    ensures Cut(source, t, ranges, b[j..]) == [SegmentAt(source, t, ranges, b, j)] + Cut(source, t, ranges, b[j + 1..])
  {
    TailSorted(b, j, |source|);
    TailSorted(b, j + 1, |source|);
    assert b[j + 1] in b && Before()(b[j], b[j + 1]);
    assert b[j..][1..] == b[j + 1..] && b[j..][0] == b[j] && b[j..][1] == b[j + 1];
  }

  /** The output for bytes `from` up to the end of the token. */
  ghost predicate ShowsFrom(out: seq<Segment>, source: seq<Byte>, t: Token, ranges: seq<Range>, from: nat)
    requires from <= t.end <= |source|
  {
    && TextOf(out) == source[from..t.end]
    && |Paint(out)| == t.end - from
    && (forall k :: from <= k < t.end ==> Paint(out)[k - from] == Mark(t, ranges, k))
    && (forall s :: s in out ==> s.text != [])
  }

  lemma PrependSegment(first: Segment, rest: seq<Segment>, source: seq<Byte>, t: Token, ranges: seq<Range>, from: nat,
                       to: nat)
    requires from < to <= t.end <= |source| && ShowsFrom(rest, source, t, ranges, to)
    requires first.text == source[from..to] && forall k :: from <= k < to ==> first.kind == Mark(t, ranges, k)
    ensures ShowsFrom([first] + rest, source, t, ranges, from)
  {
    assert ([first] + rest)[1..] == rest;
    assert source[from..to] + source[to..t.end] == source[from..t.end];
    var paint := Paint([first] + rest);
    assert paint == seq(to - from, _ => first.kind) + Paint(rest);
    forall k | from <= k < t.end ensures paint[k - from] == Mark(t, ranges, k) {
      if k >= to {
        assert paint[k - from] == Paint(rest)[k - to];
      }
    }
  }

  /** What cutting from boundary `j` on yields. */
  lemma {:induction false} CutPaints(source: seq<Byte>, t: Token, ranges: seq<Range>, b: seq<nat>, j: nat)
    requires GoodBoundaries(t, ranges, b) && AllUpTo(b, |source|) && t.end <= |source| && j < |b|
    ensures StrictlySorted(Before(), b[j..]) && AllUpTo(b[j..], |source|) && b[j] <= t.end
    ensures ShowsFrom(Cut(source, t, ranges, b[j..]), source, t, ranges, b[j])
    decreases |b| - j
  {
    assert b[j] in b;
    TailSorted(b, j, |source|);
    if j + 1 < |b| {
      CutPaints(source, t, ranges, b, j + 1);
      CutStep(source, t, ranges, b, j);
      var first := SegmentAt(source, t, ranges, b, j);
      assert Before()(b[j], b[j + 1]);
      forall k | b[j] <= k < b[j + 1] ensures first.kind == Mark(t, ranges, k) {
        SegmentIsUniform(t, ranges, b, j, k);
      }
      PrependSegment(first, Cut(source, t, ranges, b[j + 1..]), source, t, ranges, b[j], b[j + 1]);
    } else {
      assert Cut(source, t, ranges, b[j..]) == [];
    }
  }

  // ---- A whole buffer ----

  /** The tokens are nonempty and tile the first `length` bytes. */
  ghost predicate Tiles(tokens: seq<Token>, length: nat) {
    && (tokens == [] ==> length == 0)
    && (tokens != [] ==> tokens[0].start == 0 && tokens[|tokens| - 1].end == length)
    && (forall i :: 0 <= i < |tokens| ==> tokens[i].start < tokens[i].end)
    && (forall i, j :: 0 <= i && j == i + 1 && j < |tokens| ==> tokens[i].end == tokens[j].start)
  }

  lemma {:induction false} ConcatOutput(a: seq<Segment>, b: seq<Segment>)
    ensures TextOf(a + b) == TextOf(a) + TextOf(b) && Paint(a + b) == Paint(a) + Paint(b)
    decreases |a|
  {
    if a == [] {
      assert a + b == b;
    } else {
      ConcatOutput(a[1..], b);
      FirstOutput(a);
      FirstOutput(a + b);
      assert (a + b)[1..] == a[1..] + b;
      var paint := seq(|a[0].text|, _ => a[0].kind);
      assert paint + (Paint(a[1..]) + Paint(b)) == paint + Paint(a[1..]) + Paint(b);
      assert a[0].text + (TextOf(a[1..]) + TextOf(b)) == a[0].text + TextOf(a[1..]) + TextOf(b);
    }
  }

  lemma FirstOutput(a: seq<Segment>)
    requires a != []
    ensures TextOf(a) == a[0].text + TextOf(a[1..])
    ensures Paint(a) == seq(|a[0].text|, _ => a[0].kind) + Paint(a[1..])
  {}

  /** The loop over the invalid ranges. */
  method CollectBoundaries(t: Token, ranges: seq<Range>) returns (boundaries: seq<nat>)
    ensures boundaries == RawBoundaries(t, ranges)
  {
    boundaries := [t.start, t.end];
    for i := 0 to |ranges|
      invariant boundaries == RawBoundaries(t, ranges[..i])
    {
      assert ranges[..i + 1][..i] == ranges[..i];
      if ranges[i].start < t.end && ranges[i].end > t.start {
        boundaries := boundaries + [Max(ranges[i].start, t.start), Min(ranges[i].end, t.end)];
      }
    }
    assert ranges[..|ranges|] == ranges;
  }

  lemma CutShowsToken(source: seq<Byte>, t: Token, ranges: seq<Range>, b: seq<nat>)
    requires t.start < t.end <= |source| && GoodBoundaries(t, ranges, b)
    ensures AllUpTo(b, |source|) && ShowsFrom(Cut(source, t, ranges, b), source, t, ranges, t.start)
  {
    CutPaints(source, t, ranges, b, 0);
    assert b[0..] == b;
  }

  /** The segments of one token: one between each two neighbouring boundaries. */
  function TokenCut(source: seq<Byte>, t: Token, ranges: seq<Range>): seq<Segment>
    requires t.start < t.end <= |source|
  {
    BoundariesAreGood(t, ranges);
    CutShowsToken(source, t, ranges, Boundaries(t, ranges));
    Cut(source, t, ranges, Boundaries(t, ranges))
  }

  /** The segments of the first `n` tokens, token by token. */
  function OutputOf(source: seq<Byte>, tokens: seq<Token>, ranges: seq<Range>, n: nat): seq<Segment>
    requires n <= |tokens| && forall i :: 0 <= i < n ==> tokens[i].start < tokens[i].end <= |source|
  {
    if n == 0 then [] else OutputOf(source, tokens, ranges, n - 1) + TokenCut(source, tokens[n - 1], ranges)
  }

  /** `append_token_segments`: what it appends to the output. */
  method TokenSegments(source: seq<Byte>, t: Token, ranges: seq<Range>) returns (cut: seq<Segment>)
    requires t.start < t.end <= |source|
    ensures cut == TokenCut(source, t, ranges)
    ensures ShowsFrom(cut, source, t, ranges, t.start)
  {
    var raw := CollectBoundaries(t, ranges);
    var boundaries := DedupAdjacent(Sort(Before(), raw));
    BoundariesAreGood(t, ranges);
    CutShowsToken(source, t, ranges, boundaries);
    cut := CutAll(source, t, ranges, boundaries);
  }

  /** The loop over windows of two boundaries. */
  method CutAll(source: seq<Byte>, t: Token, ranges: seq<Range>, b: seq<nat>) returns (cut: seq<Segment>)
    requires AllUpTo(b, |source|) && StrictlySorted(Before(), b) && |b| >= 2
    ensures cut == Cut(source, t, ranges, b)
  {
    cut := [];
    var j := 0;
    assert b[0..] == b;
    while j + 1 < |b|
      invariant 0 <= j < |b| && StrictlySorted(Before(), b[j..]) && AllUpTo(b[j..], |source|)
      invariant cut + Cut(source, t, ranges, b[j..]) == Cut(source, t, ranges, b)
    {
      CutStep(source, t, ranges, b, j);
      ghost var rest := Cut(source, t, ranges, b[j + 1..]);
      var segment := SegmentAt(source, t, ranges, b, j);
      assert cut + ([segment] + rest) == cut + [segment] + rest;
      cut := cut + [segment];
      j := j + 1;
    }
  }

  /** The output after the first `n` tokens. */
  ghost predicate ShowsTokens(out: seq<Segment>, source: seq<Byte>, tokens: seq<Token>, ranges: seq<Range>, n: nat,
                              done: nat)
    requires n <= |tokens| && done <= |source|
  {
    && TextOf(out) == source[..done]
    && |Paint(out)| == done
    && (forall s :: s in out ==> s.text != [])
    && (forall i :: 0 <= i < n ==> tokens[i].end <= done)
    && (forall i, k :: 0 <= i < n && tokens[i].start <= k < tokens[i].end ==>
          Paint(out)[k] == Mark(tokens[i], ranges, k))
  }

  lemma ShowOneMore(out: seq<Segment>, cut: seq<Segment>, source: seq<Byte>, tokens: seq<Token>, ranges: seq<Range>,
                    n: nat)
    requires n < |tokens| && tokens[n].start < tokens[n].end <= |source|
    requires ShowsTokens(out, source, tokens, ranges, n, tokens[n].start)
    requires ShowsFrom(cut, source, tokens[n], ranges, tokens[n].start)
    ensures ShowsTokens(out + cut, source, tokens, ranges, n + 1, tokens[n].end)
  {
    ConcatOutput(out, cut);
    var t := tokens[n];
    assert source[..t.start] + source[t.start..t.end] == source[..t.end];
    PaintOneMore(Paint(out), Paint(cut), tokens, ranges, n);
  }

  lemma PaintOneMore(before: seq<Kind>, more: seq<Kind>, tokens: seq<Token>, ranges: seq<Range>, n: nat)
    requires n < |tokens| && |before| == tokens[n].start < tokens[n].end && |more| == tokens[n].end - tokens[n].start
    requires forall i :: 0 <= i < n ==> tokens[i].end <= |before|
    requires forall i, k :: 0 <= i < n && tokens[i].start <= k < tokens[i].end ==>
      before[k] == Mark(tokens[i], ranges, k)
    requires forall k :: tokens[n].start <= k < tokens[n].end ==>
      more[k - tokens[n].start] == Mark(tokens[n], ranges, k)
    ensures forall i :: 0 <= i < n + 1 ==> tokens[i].end <= |before + more|
    ensures forall i, k :: 0 <= i < n + 1 && tokens[i].start <= k < tokens[i].end ==>
      (before + more)[k] == Mark(tokens[i], ranges, k)
  {
    forall i, k | 0 <= i < n + 1 && tokens[i].start <= k < tokens[i].end
      ensures (before + more)[k] == Mark(tokens[i], ranges, k)
    {
      if i < n {
        assert before[k] == Mark(tokens[i], ranges, k);
      } else {
        assert more[k - tokens[n].start] == Mark(tokens[n], ranges, k);
      }
    }
  }

  /**
   `highlight`, for tokens that tile the source: the segments are nonempty and concatenate to the
   source, and every byte is Invalid exactly when its token is invalid or it lies in an invalid
   range; otherwise it has its token's kind.
   */
  method HighlightBuffer(source: seq<Byte>, tokens: seq<Token>, ranges: seq<Range>) returns (segments: seq<Segment>)
    requires Tiles(tokens, |source|)
    ensures TextOf(segments) == source && |Paint(segments)| == |source|
    ensures forall s :: s in segments ==> s.text != []
    ensures forall i, k :: 0 <= i < |tokens| && tokens[i].start <= k < tokens[i].end && k < |source| ==>
      Paint(segments)[k] == Mark(tokens[i], ranges, k)
    ensures (forall i :: 0 <= i < |tokens| ==> tokens[i].start < tokens[i].end <= |source|)
            && segments == OutputOf(source, tokens, ranges, |tokens|)
  {
    forall i | 0 <= i < |tokens| ensures tokens[i].end <= |source| {
      EndsInside(tokens, |source|, i);
    }
    segments := [];
    ghost var done: nat := 0;
    for n := 0 to |tokens|
      invariant done == (if n == 0 then 0 else tokens[n - 1].end) <= |source|
      invariant n < |tokens| ==> tokens[n].start == done
      invariant ShowsTokens(segments, source, tokens, ranges, n, done)
      invariant segments == OutputOf(source, tokens, ranges, n)
    {
      var cut := TokenSegments(source, tokens[n], ranges);
      ShowOneMore(segments, cut, source, tokens, ranges, n);
      segments := segments + cut;
      assert n + 1 < |tokens| ==> tokens[n].end == tokens[n + 1].start;
      done := tokens[n].end;
    }
    assert source[..|source|] == source;
  }

  lemma {:induction false} EndsInside(tokens: seq<Token>, length: nat, n: nat)
    requires Tiles(tokens, length) && n < |tokens|
    ensures tokens[n].end <= length
    decreases |tokens| - n
  {
    if n + 1 < |tokens| {
      EndsInside(tokens, length, n + 1);
      assert tokens[n].end == tokens[n + 1].start;
    }
  }
}
