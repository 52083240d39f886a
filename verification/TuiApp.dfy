/** The UI object: its status list, its failure prompt and the incremental log splitter. */
module Tui {
  import opened Names
  import opened CookPipeline

  // ---- Splitting a byte stream into lines ----

  const NEWLINE: Byte := 10

  /** The log of one recipe: finished lines as shown, and the bytes of the unfinished one. */
  datatype Log = Log(lines: seq<string>, buffer: seq<Byte>)

  const EMPTY_LOG: Log := Log([], [])

  /** What follows the last newline of `bytes`. */
  function Rest(bytes: seq<Byte>): seq<Byte>
    decreases |bytes|
  {
    if bytes == [] || bytes[|bytes| - 1] == NEWLINE then [] else Rest(bytes[..|bytes| - 1]) + [bytes[|bytes| - 1]]
  }

  /** The complete lines of `bytes`, each with its newline. */
  function Complete(bytes: seq<Byte>): seq<seq<Byte>>
    decreases |bytes|
  {
    if bytes == [] then []
    else
      var before := bytes[..|bytes| - 1];
      if bytes[|bytes| - 1] == NEWLINE then Complete(before) + [Rest(before) + [NEWLINE]] else Complete(before)
  }

  function Flatten(lines: seq<seq<Byte>>): seq<Byte>
    decreases |lines|
  {
    if lines == [] then [] else Flatten(lines[..|lines| - 1]) + lines[|lines| - 1]
  }

  predicate IsLine(line: seq<Byte>) {
    |line| > 0 && line[|line| - 1] == NEWLINE && NEWLINE !in line[..|line| - 1]
  }

  ghost predicate AllLines(lines: seq<seq<Byte>>) { forall i :: 0 <= i < |lines| ==> IsLine(lines[i]) }

  lemma SplitSnoc(bytes: seq<Byte>, b: Byte)
    ensures Rest(bytes + [b]) == if b == NEWLINE then [] else Rest(bytes) + [b]
    ensures Complete(bytes + [b]) == if b == NEWLINE then Complete(bytes) + [Rest(bytes) + [b]] else Complete(bytes)
  {
    assert (bytes + [b])[..|bytes|] == bytes;
  }

  lemma PiecesSnoc(before: seq<Byte>, b: Byte)
    requires Flatten(Complete(before)) + Rest(before) == before
    ensures Flatten(Complete(before + [b])) + Rest(before + [b]) == before + [b]
  {
    SplitSnoc(before, b);
    PieceSnoc(Complete(before), Rest(before), before, b);
  }

  lemma {:induction false} PiecesConcatenate(bytes: seq<Byte>)
    ensures Flatten(Complete(bytes)) + Rest(bytes) == bytes
    decreases |bytes|
  {
    if bytes != [] {
      var before, b := bytes[..|bytes| - 1], bytes[|bytes| - 1];
      assert bytes == before + [b];
      PiecesConcatenate(before);
      PiecesSnoc(before, b);
    }
  }

  lemma PieceSnoc(lines: seq<seq<Byte>>, rest: seq<Byte>, before: seq<Byte>, b: Byte)
    requires Flatten(lines) + rest == before
    ensures Flatten(lines + [rest + [b]]) == before + [b]
    ensures Flatten(lines) + (rest + [b]) == before + [b]
  {}

  lemma LineSnoc(lines: seq<seq<Byte>>, rest: seq<Byte>)
    requires AllLines(lines) && NEWLINE !in rest
    ensures AllLines(lines + [rest + [NEWLINE]])
  {
    assert (rest + [NEWLINE])[..|rest|] == rest;
  }

  lemma {:induction false} PiecesAreLines(bytes: seq<Byte>)
    ensures AllLines(Complete(bytes)) && NEWLINE !in Rest(bytes)
    decreases |bytes|
  {
    if bytes != [] {
      var before := bytes[..|bytes| - 1];
      PiecesAreLines(before);
      LineSnoc(Complete(before), Rest(before));
    }
  }

  /** Splitting loses nothing: lines and rest concatenate to the input, and only lines hold newlines. */
  lemma {:induction false} SplitIsFaithful(bytes: seq<Byte>)
    ensures Flatten(Complete(bytes)) + Rest(bytes) == bytes
    ensures AllLines(Complete(bytes)) && NEWLINE !in Rest(bytes)
  {
    PiecesConcatenate(bytes);
    PiecesAreLines(bytes);
  }

  /** Bytes without a newline make no line. */
  lemma {:induction false} NoNewlineNoLine(bytes: seq<Byte>)
    requires NEWLINE !in bytes
    ensures Complete(bytes) == [] && Rest(bytes) == bytes
    decreases |bytes|
  {
    if bytes != [] {
      var before, b := bytes[..|bytes| - 1], bytes[|bytes| - 1];
      NoNewlineNoLine(before);
      SplitSnoc(before, b);
      assert bytes == before + [b];
    }
  }

  lemma {:induction false} RestOfConcatenation(a: seq<Byte>, b: seq<Byte>)
    ensures Rest(a + b) == Rest(Rest(a) + b)
    decreases |b|
  {
    if b == [] {
      RestOfRest(a);
      assert a + b == a && Rest(a) + b == Rest(a);
    } else {
      var before, last := b[..|b| - 1], b[|b| - 1];
      RestOfConcatenation(a, before);
      assert b == before + [last];
      RestSnoc(a + before, last);
      RestSnoc(Rest(a) + before, last);
      Regroup(a, before, last);
      Regroup(Rest(a), before, last);
    }
  }

  lemma Regroup(a: seq<Byte>, b: seq<Byte>, last: Byte)
    ensures a + (b + [last]) == a + b + [last]
  {}

  lemma RestSnoc(bytes: seq<Byte>, b: Byte)
    ensures Rest(bytes + [b]) == if b == NEWLINE then [] else Rest(bytes) + [b]
  {
    SplitSnoc(bytes, b);
  }

  lemma RestOfRest(a: seq<Byte>)
    ensures Rest(Rest(a)) == Rest(a) && Complete(Rest(a)) == []
  {
    PiecesAreLines(a);
    NoNewlineNoLine(Rest(a));
  }

  lemma SameNextLine(lines: seq<seq<Byte>>, whole: seq<Byte>, part: seq<Byte>, last: Byte)
    requires Complete(whole) == lines + Complete(part) && Rest(whole) == Rest(part)
    ensures Complete(whole + [last]) == lines + Complete(part + [last])
  {
    SplitSnoc(whole, last);
    SplitSnoc(part, last);
  }

  lemma {:induction false} LinesOfConcatenation(a: seq<Byte>, b: seq<Byte>)
    ensures Complete(a + b) == Complete(a) + Complete(Rest(a) + b)
    decreases |b|
  {
    if b == [] {
      RestOfRest(a);
      assert a + b == a && Rest(a) + b == Rest(a);
    } else {
      var before, last := b[..|b| - 1], b[|b| - 1];
      LinesOfConcatenation(a, before);
      assert b == before + [last];
      RestOfConcatenation(a, before);
      SameNextLine(Complete(a), a + before, Rest(a) + before, last);
      Regroup(a, before, last);
      Regroup(Rest(a), before, last);
    }
  }

  /** Splitting a stream in one go or in two goes gives the same lines and the same rest. */
  lemma {:induction false} SplitConcatenation(a: seq<Byte>, b: seq<Byte>)
    ensures Complete(a + b) == Complete(a) + Complete(Rest(a) + b)
    ensures Rest(a + b) == Rest(Rest(a) + b)
  {
    LinesOfConcatenation(a, b);
    RestOfConcatenation(a, b);
  }

  /** Cutting off the first line. */
  lemma FirstLine(line: seq<Byte>, tail: seq<Byte>)
    requires IsLine(line)
    ensures Complete(line + tail) == [line] + Complete(tail)
    ensures Rest(line + tail) == Rest(tail)
  {
    var before := line[..|line| - 1];
    NoNewlineNoLine(before);
    SplitSnoc(before, NEWLINE);
    assert line == before + [NEWLINE];
    SplitConcatenation(line, tail);
    assert [] + tail == tail;
  }

  /** Lossy decoding, trailing-blank trimming and carriage-return handling of one line. */
  type Renderer = seq<Byte> -> string

  function Rendered(render: Renderer, lines: seq<seq<Byte>>): (r: seq<string>)
    ensures |r| == |lines| && forall k :: 0 <= k < |lines| ==> r[k] == render(lines[k])
  {
    seq(|lines|, k requires 0 <= k < |lines| => render(lines[k]))
  }

  function Push(render: Renderer, log: Log, chunk: seq<Byte>): Log {
    var all := log.buffer + chunk;
    Log(log.lines + Rendered(render, Complete(all)), Rest(all))
  }

  function PushAll(render: Renderer, log: Log, chunks: seq<seq<Byte>>): Log
    decreases |chunks|
  {
    if chunks == [] then log
    else Push(render, PushAll(render, log, chunks[..|chunks| - 1]), chunks[|chunks| - 1])
  }

  lemma RenderedConcat(render: Renderer, a: seq<seq<Byte>>, b: seq<seq<Byte>>)
    ensures Rendered(render, a + b) == Rendered(render, a) + Rendered(render, b)
  {}

  lemma RenderFirst(render: Renderer, lines: seq<string>, line: seq<Byte>, tail: seq<seq<Byte>>)
    ensures lines + Rendered(render, [line] + tail) == lines + [render(line)] + Rendered(render, tail)
  {
    assert Rendered(render, [line] + tail) == [render(line)] + Rendered(render, tail);
  }

  lemma PushTwice(render: Renderer, log: Log, a: seq<Byte>, b: seq<Byte>)
    ensures Push(render, Push(render, log, a), b) == Push(render, log, a + b)
  {
    var all := log.buffer + a;
    assert log.buffer + (a + b) == all + b;
    SplitConcatenation(all, b);
    LinesConcat(render, log.lines, Complete(all), Complete(Rest(all) + b));
  }

  lemma LinesConcat(render: Renderer, lines: seq<string>, a: seq<seq<Byte>>, b: seq<seq<Byte>>)
    ensures lines + Rendered(render, a) + Rendered(render, b) == lines + Rendered(render, a + b)
  {
    RenderedConcat(render, a, b);
  }

  /**
   Log splitting does not depend on chunking: any cutting of a byte stream into chunks leaves the
   lines and the buffer that pushing the whole stream at once leaves, and no newline is buffered.
   */
  lemma {:induction false} ChunkingIsInvisible(render: Renderer, log: Log, chunks: seq<seq<Byte>>)
    requires NEWLINE !in log.buffer
    ensures PushAll(render, log, chunks) == Push(render, log, Flatten(chunks))
    ensures NEWLINE !in PushAll(render, log, chunks).buffer
    decreases |chunks|
  {
    if chunks == [] {
      assert log.buffer + [] == log.buffer && log.lines + [] == log.lines;
      NoNewlineNoLine(log.buffer);
    } else {
      var k := |chunks| - 1;
      ChunkingIsInvisible(render, log, chunks[..k]);
      PushTwice(render, log, Flatten(chunks[..k]), chunks[k]);
    }
    SplitIsFaithful(log.buffer + Flatten(chunks));
  }

  // ---- The application object ----

  function LogOf(logs: map<PackageName, Log>, name: PackageName): Log {
    if name in logs then logs[name] else EMPTY_LOG
  }

  /** What a message does to the logs: a new attempt clears them, a chunk is split. */
  function LogsAfter(render: Renderer, logs: map<PackageName, Log>, m: Msg): map<PackageName, Log> {
    match m
    case StartFetch(name) => logs[name := EMPTY_LOG]
    case StartCook(name) => logs[name := EMPTY_LOG]
    case PushLog(name, chunk) => logs[name := Push(render, LogOf(logs, name), chunk)]
    case _ => logs
  }

  /** The chunks logged for `name` since its latest attempt to fetch or to cook began. */
  function ChunksSince(msgs: seq<Msg>, name: PackageName): seq<seq<Byte>>
    decreases |msgs|
  {
    if msgs == [] then [] else ChunksAfter(ChunksSince(msgs[..|msgs| - 1], name), msgs[|msgs| - 1], name)
  }

  function ChunksAfter(before: seq<seq<Byte>>, m: Msg, name: PackageName): seq<seq<Byte>> {
    if (m.StartFetch? || m.StartCook?) && m.name == name then []
    else if m.PushLog? && m.name == name then before + [m.chunk]
    else before
  }

  function LogsOf(render: Renderer, msgs: seq<Msg>): map<PackageName, Log>
    decreases |msgs|
  {
    if msgs == [] then map[] else LogsAfter(render, LogsOf(render, msgs[..|msgs| - 1]), msgs[|msgs| - 1])
  }

  /** A log holding `bytes`: their lines rendered, their rest buffered. */
  function Holding(render: Renderer, bytes: seq<Byte>): Log {
    Log(Rendered(render, Complete(bytes)), Rest(bytes))
  }

  lemma PushOnto(render: Renderer, bytes: seq<Byte>, chunk: seq<Byte>)
    ensures Push(render, Holding(render, bytes), chunk) == Holding(render, bytes + chunk)
  {
    SplitConcatenation(bytes, chunk);
    RenderedConcat(render, Complete(bytes), Complete(Rest(bytes) + chunk));
  }

  lemma HoldingNothing(render: Renderer)
    ensures Holding(render, Flatten([])) == EMPTY_LOG
  {}

  lemma PushNext(render: Renderer, chunks: seq<seq<Byte>>, chunk: seq<Byte>)
    ensures Push(render, Holding(render, Flatten(chunks)), chunk) == Holding(render, Flatten(chunks + [chunk]))
  {
    assert Flatten(chunks + [chunk]) == Flatten(chunks) + chunk;
    PushOnto(render, Flatten(chunks), chunk);
  }

  /** What one message does to the log of `name`. */
  lemma OneLog(render: Renderer, logs: map<PackageName, Log>, m: Msg, name: PackageName)
    ensures LogOf(LogsAfter(render, logs, m), name)
            == if (m.StartFetch? || m.StartCook?) && m.name == name then EMPTY_LOG
               else if m.PushLog? && m.name == name then Push(render, LogOf(logs, name), m.chunk)
               else LogOf(logs, name)
  {}

  lemma NextLog(render: Renderer, logs: map<PackageName, Log>, chunks: seq<seq<Byte>>, m: Msg, name: PackageName)
    requires LogOf(logs, name) == Holding(render, Flatten(chunks))
    ensures LogOf(LogsAfter(render, logs, m), name) == Holding(render, Flatten(ChunksAfter(chunks, m, name)))
  {
    OneLog(render, logs, m, name);
    HoldingNothing(render);
    if m.PushLog? && m.name == name {
      PushNext(render, chunks, m.chunk);
    }
  }

  /**
   Whatever the messages, and however the logs of several recipes are interleaved, the log of a
   recipe holds the bytes logged for it since its latest attempt began.
   */
  lemma {:induction false} LogShowsTheLatestAttempt(render: Renderer, msgs: seq<Msg>, name: PackageName)
    ensures LogOf(LogsOf(render, msgs), name) == Holding(render, Flatten(ChunksSince(msgs, name)))
    decreases |msgs|
  {
    if msgs == [] {
      HoldingNothing(render);
    } else {
      var before, m := msgs[..|msgs| - 1], msgs[|msgs| - 1];
      LogShowsTheLatestAttempt(render, before, name);
      NextLog(render, LogsOf(render, before), ChunksSince(before, name), m, name);
    }
  }

  class TuiApp {
    const names: seq<PackageName>
    const render: Renderer
    var status: seq<Status>
    var activeFetch: Option<PackageName>
    var activeCook: Option<PackageName>
    var logs: map<PackageName, Log>
    var prompt: Option<PromptOption>
    var isInspecting: bool
    var fetchComplete: bool
    var cookComplete: bool

    constructor (names: seq<PackageName>, render: Renderer)
      ensures this.names == names && this.render == render
      ensures View(true) == Init(Config(names, false)).ui && logs == map[]
    {
      this.names, this.render := names, render;
      status := seq(|names|, _ => Pending);
      activeFetch, activeCook, prompt := None, None, None;
      logs := map[];
      isInspecting, fetchComplete, cookComplete := false, false, false;
    }

    ghost predicate Valid()
      reads this
    {
      |status| == |names|
    }

    /** The state the transition system keeps for the UI; the `running` cell lives outside the object. */
    ghost function View(running: bool): Ui
      reads this
    {
      Ui(status, prompt, isInspecting, fetchComplete, cookComplete, running)
    }

    /** `update_status`: one message from a worker thread. */
    method UpdateStatus(m: Msg)
      requires Valid()
      modifies this
      ensures Valid()
      ensures forall running :: View(running) == CookPipeline.UpdateStatus(names, old(View(running)), m)
      ensures logs == LogsAfter(render, old(logs), m)
      ensures activeFetch == if m.StartFetch? then Some(m.name) else old(activeFetch)
      ensures activeCook == if m.StartCook? then Some(m.name)
                            else if m.Cooked? && old(activeCook) == Some(m.name) then None
                            else old(activeCook)
    {
      match m {
        case PushLog(name, chunk) =>
          var log := SplitChunk(LogOf(logs, name), chunk);
          logs := logs[name := log];
        case FlushLog(_) =>
        case FetchThreadFinished => fetchComplete := true;
        case CookThreadFinished => cookComplete := true;
        case _ =>
          Announce(m);
          SetStatus(m.name, m.NewStatus());
      }
    }

    /** What a status message changes besides the status itself. */
    method Announce(m: Msg)
      requires m.IsStatus()
      modifies this`activeFetch, this`activeCook, this`logs, this`prompt
      ensures prompt == if m.FailFetch? || m.FailCook? then Some(Exit) else old(prompt)
      ensures logs == LogsAfter(render, old(logs), m)
      ensures activeFetch == if m.StartFetch? then Some(m.name) else old(activeFetch)
      ensures activeCook == if m.StartCook? then Some(m.name)
                            else if m.Cooked? && old(activeCook) == Some(m.name) then None
                            else old(activeCook)
    {
      match m
      case StartFetch(name) =>
        activeFetch := Some(name);
        logs := logs[name := EMPTY_LOG];
      case StartCook(name) =>
        activeCook := Some(name);
        logs := logs[name := EMPTY_LOG];
      case FailFetch(_, _) => prompt := Some(Exit);
      case FailCook(_, _) => prompt := Some(Exit);
      case Cooked(name, _) =>
        if activeCook == Some(name) {
          activeCook := None;
        }
      case FetchedOk(_) =>
    }

    /** The search loop: assign to the first recipe with this name, if any. */
    method SetStatus(name: PackageName, st: Status)
      requires Valid()
      modifies this`status
      ensures status == match IndexOf(names, name)
                        case Some(k) => old(status)[k := st]
                        case None => old(status)
    {
      var k := 0;
      while k < |names|
        invariant 0 <= k <= |names| && name !in names[..k] && status == old(status)
      {
        if names[k] == name {
          assert IndexOf(names, name) == Some(k);
          status := status[k := st];
          return;
        }
        assert names[..k + 1] == names[..k] + [names[k]];
        k := k + 1;
      }
      assert names[..k] == names;
    }

    /** The drain loop of `PushLog`: cut off one line at a time while a newline is buffered. */
    method SplitChunk(log: Log, chunk: seq<Byte>) returns (r: Log)
      ensures r == Push(render, log, chunk)
    {
      var buffer := log.buffer + chunk;
      var lines := log.lines;
      var pos := IndexOf(buffer, NEWLINE);
      while pos.Some?
        invariant pos == IndexOf(buffer, NEWLINE)
        invariant lines + Rendered(render, Complete(buffer))
                  == log.lines + Rendered(render, Complete(log.buffer + chunk))
        invariant Rest(buffer) == Rest(log.buffer + chunk)
        decreases |buffer|
      {
        var line, tail := buffer[..pos.value + 1], buffer[pos.value + 1..];
        assert buffer == line + tail && line[..pos.value] == buffer[..pos.value];
        FirstLine(line, tail);
        RenderFirst(render, lines, line, Complete(tail));
        lines := lines + [render(line)];
        buffer := tail;
        pos := IndexOf(buffer, NEWLINE);
      }
      NoNewlineNoLine(buffer);
      r := Log(lines, buffer);
    }

    /** `handle_prompt_input` and the assignment the UI loop makes with its answer. */
    method HandlePromptInput(key: Key) returns (answer: Option<PromptOption>)
      modifies this`prompt, this`isInspecting
      ensures forall running :: (View(running), answer) == PressKey(old(View(running)), key)
    {
      answer := None;
      if prompt.Some? && !isInspecting {
        match key {
          case Quit => prompt, answer := None, Some(Exit);
          case Left => prompt := Some(prompt.value.Prev());
          case Right => prompt := Some(prompt.value.Next());
          case Enter =>
            if prompt.value == Inspect {
              isInspecting := true;
            } else {
              answer := prompt;
              prompt := None;
            }
          case OtherKey =>
        }
      }
    }
  }
}
