/** History sessions: the objects that record and sync, and what any number of them do to one file. */
module HistorySessions {
  import opened Names
  import opened Text
  import opened History

  /** The capacity of a persistent history. */
  const DEFAULT_HISTORY_CAPACITY: nat := 1000

  /** The part of a session that changes. */
  datatype Session = Session(entries: seq<string>, pending: seq<string>)

  /** A sync that holds the lock: the new file and session, or nothing if the file cannot be decoded. */
  function SyncHolding(text: string, s: Session, capacity: nat): Option<(string, Session)> {
    match Load(text)
    case None => None
    case Some(found) =>
      var merged := Merged(found, s.pending, capacity);
      Some((Serialize(merged), Session(merged, [])))
  }

  /** `record` ignores empty input, a repeat of the session's newest entry, and disabled history. */
  predicate Ignores(s: Session, source: string, capacity: nat) {
    capacity == 0 || source == "" || (s.entries != [] && s.entries[|s.entries| - 1] == source)
  }

  // ---- The loops of `sync` ----

  method ReadEntries(text: string) returns (r: Option<seq<string>>)
    ensures r == Load(text)
  {
    var lines := Lines(text);
    var found: seq<string> := [];
    var i := 0;
    assert lines[0..] == lines;
    assert DecodeAll(lines).Some? ==> [] + DecodeAll(lines).value == DecodeAll(lines).value;
    while i < |lines|
      invariant 0 <= i <= |lines|
      invariant DecodeAll(lines)
                == match DecodeAll(lines[i..]) case None => None case Some(rest) => Some(found + rest)
    {
      assert lines[i..][1..] == lines[i + 1..];
      var e := DecodeEntry(lines[i]);
      if e.None? {
        return None;
      }
      assert DecodeAll(lines[i + 1..]).Some? ==>
          found + ([e.value] + DecodeAll(lines[i + 1..]).value) == found + [e.value] + DecodeAll(lines[i + 1..]).value;
      found := found + [e.value];
      i := i + 1;
    }
    assert found + [] == found;
    r := Some(found);
  }

  method Deduplicate(merged: seq<string>) returns (deduplicated: seq<string>)
    ensures deduplicated == Dedup(merged)
  {
    deduplicated := [];
    for i := 0 to |merged|
      invariant deduplicated == Dedup(merged[..i])
    {
      assert merged[..i + 1][..i] == merged[..i];
      if deduplicated == [] || deduplicated[|deduplicated| - 1] != merged[i] {
        deduplicated := deduplicated + [merged[i]];
      }
    }
    assert merged[..|merged|] == merged;
  }

  method DropOldest(list: seq<string>, capacity: nat) returns (kept: seq<string>)
    ensures kept == LastOf(list, capacity)
  {
    kept := list;
    while |kept| > capacity
      invariant LastOf(kept, capacity) == LastOf(list, capacity)
    {
      kept := kept[1..];
    }
  }

  method WriteEntries(entries: seq<string>) returns (text: string)
    ensures text == Serialize(entries)
  {
    text := "";
    var i := 0;
    assert entries[0..] == entries && "" + Serialize(entries) == Serialize(entries);
    while i < |entries|
      invariant 0 <= i <= |entries| && text + Serialize(entries[i..]) == Serialize(entries)
    {
      var line := EncodeEntry(entries[i]);
      var rest := entries[i + 1..];
      assert entries[i..][1..] == rest;
      assert EncodeAll(entries[i..])[1..] == EncodeAll(rest);
      assert text + (line + "\n" + Serialize(rest)) == text + line + "\n" + Serialize(rest);
      text := text + line + "\n";
      i := i + 1;
    }
    assert text + "" == text;
  }

  // ---- The session object ----

  class HistoryFile {
    var text: string

    constructor (text: string)
      ensures this.text == text
    {
      this.text := text;
    }
  }

  class EditorHistory {
    var entries: seq<string>
    var pending: seq<string>
    const capacity: nat
    const file: HistoryFile?

    ghost function View(): Session
      reads this
    {
      Session(entries, pending)
    }

    /** `open`: disabled history touches no file; persistent history starts with a sync. */
    constructor Disabled()
      ensures View() == Session([], []) && capacity == 0 && file == null
    {
      entries, pending, capacity, file := [], [], 0, null;
    }

    constructor Persistent(file: HistoryFile)
      ensures View() == Session([], []) && capacity == DEFAULT_HISTORY_CAPACITY && this.file == file
    {
      entries, pending, capacity, this.file := [], [], DEFAULT_HISTORY_CAPACITY, file;
    }

    /** `sync`: `available` says whether the file can be opened and locked this time. */
    method Sync(available: bool) returns (ok: bool)
      modifies this`entries, this`pending
      modifies if file == null then {} else {file}
      ensures ok <==> file == null || (available && SyncHolding(old(file.text), old(View()), capacity).Some?)
      ensures ok && file != null ==>
                (file.text, View()) == SyncHolding(old(file.text), old(View()), capacity).value
      ensures !ok || file == null ==> View() == old(View())
      ensures !ok && file != null ==> file.text == old(file.text)
    {
      if file == null {
        return true;
      }
      if !available {
        return false;
      }
      var found := ReadEntries(file.text);
      if found.None? {
        return false;
      }
      var merged := Deduplicate(found.value + pending);
      merged := DropOldest(merged, capacity);
      var written := WriteEntries(merged);
      file.text := written;
      entries := merged;
      pending := [];
      ok := true;
    }

    /** `record`: nothing when ignored, otherwise the outcome of the sync. */
    method Record(source: string, available: bool) returns (r: Option<bool>)
      modifies this`entries, this`pending
      modifies if file == null then {} else {file}
      ensures r.None? <==> capacity == 0 || source == ""
                           || (old(entries) != [] && old(entries)[|old(entries)| - 1] == source)
      ensures r == Some(true) && file != null ==>
                pending == [] && entries != [] && entries[|entries| - 1] == source
      ensures r == Some(false) ==> pending == old(pending) + [source] && entries == old(entries)
      ensures file == null && r.Some? ==> r == Some(true) && View() == Session(old(entries), old(pending) + [source])
      ensures Ignores(old(View()), source, capacity) ==>
                r.None? && View() == old(View()) && (file != null ==> file.text == old(file.text))
      ensures !Ignores(old(View()), source, capacity) && file != null ==>
                var waiting := Session(old(entries), old(pending) + [source]);
                var result := if available then SyncHolding(old(file.text), waiting, capacity) else None;
                && r == Some(result.Some?)
                && (result.Some? ==> (file.text, View()) == result.value)
                && (result.None? ==> file.text == old(file.text) && View() == waiting)
    {
      if capacity == 0 || source == "" || (entries != [] && entries[|entries| - 1] == source) {
        return None;
      }
      ghost var found := if file == null then None else Load(file.text);
      if found.Some? {
        NewestIsLast(found.value, pending, source, capacity);
      }
      pending := pending + [source];
      var ok := Sync(available);
      r := Some(ok);
    }
  }

  // ---- Many sessions, one file ----

  /** Sessions are numbered; all of them use the same file and the same capacity. */
  datatype World = World(text: string, sessions: seq<Session>)

  /** In lock order: session `who` records an entry, or just syncs. */
  datatype Op = Record(who: nat, source: string, available: bool) | Sync(who: nat, available: bool)

  /** An entry and the session that submitted it. */
  datatype Logged = Logged(who: nat, entry: string)

  /** The session after `record` has queued its entry, before it syncs. */
  function Queued(s: Session, op: Op, capacity: nat): Session {
    if op.Record? && !Ignores(s, op.source, capacity) then Session(s.entries, s.pending + [op.source]) else s
  }

  predicate TriesToSync(s: Session, op: Op, capacity: nat) {
    op.available && (op.Sync? || !Ignores(s, op.source, capacity))
  }

  function Step(w: World, op: Op, capacity: nat): World {
    if op.who >= |w.sessions| then w
    else
      var s := w.sessions[op.who];
      var waiting := Queued(s, op, capacity);
      if !TriesToSync(s, op, capacity) then w.(sessions := w.sessions[op.who := waiting])
      else
        match SyncHolding(w.text, waiting, capacity)
        case None => w.(sessions := w.sessions[op.who := waiting])
        case Some((text, synced)) => World(text, w.sessions[op.who := synced])
  }

  function Run(w: World, ops: seq<Op>, capacity: nat): World
    decreases |ops|
  {
    if ops == [] then w else Step(Run(w, ops[..|ops| - 1], capacity), ops[|ops| - 1], capacity)
  }

  function Tag(who: nat, entries: seq<string>): (r: seq<Logged>)
    ensures |r| == |entries| && forall i :: 0 <= i < |r| ==> r[i] == Logged(who, entries[i])
  {
    seq(|entries|, i requires 0 <= i < |entries| => Logged(who, entries[i]))
  }

  /** Did this step write the file? */
  predicate Writes(w: World, op: Op, capacity: nat) {
    op.who < |w.sessions| && TriesToSync(w.sessions[op.who], op, capacity) && Load(w.text).Some?
  }

  /** What a step hands over to the file. */
  function Hands(w: World, op: Op, capacity: nat): seq<Logged> {
    if Writes(w, op, capacity) then Tag(op.who, Queued(w.sessions[op.who], op, capacity).pending) else []
  }

  /** What a step's `record` accepts. */
  function Takes(w: World, op: Op, capacity: nat): seq<Logged> {
    if op.Record? && op.who < |w.sessions| && !Ignores(w.sessions[op.who], op.source, capacity)
    then [Logged(op.who, op.source)] else []
  }

  /** Everything handed over by syncs that wrote the file, in lock order. */
  function HandedOver(w: World, ops: seq<Op>, capacity: nat): seq<Logged>
    decreases |ops|
  {
    if ops == [] then []
    else
      HandedOver(w, ops[..|ops| - 1], capacity)
      + Hands(Run(w, ops[..|ops| - 1], capacity), ops[|ops| - 1], capacity)
  }

  /** Everything `record` accepted, in order. */
  function Accepted(w: World, ops: seq<Op>, capacity: nat): seq<Logged>
    decreases |ops|
  {
    if ops == [] then []
    else
      Accepted(w, ops[..|ops| - 1], capacity)
      + Takes(Run(w, ops[..|ops| - 1], capacity), ops[|ops| - 1], capacity)
  }

  function EntriesOf(log: seq<Logged>): (r: seq<string>)
    ensures |r| == |log| && forall i :: 0 <= i < |r| ==> r[i] == log[i].entry
  {
    seq(|log|, i requires 0 <= i < |log| => log[i].entry)
  }

  /** Some sync has written the file. */
  predicate HasWritten(w: World, ops: seq<Op>, capacity: nat)
    decreases |ops|
  {
    ops != []
    && (HasWritten(w, ops[..|ops| - 1], capacity)
        || Writes(Run(w, ops[..|ops| - 1], capacity), ops[|ops| - 1], capacity))
  }

  lemma {:induction false} RunKeepsSessionCount(w: World, ops: seq<Op>, capacity: nat)
    ensures |Run(w, ops, capacity).sessions| == |w.sessions|
    decreases |ops|
  {
    if ops != [] {
      RunKeepsSessionCount(w, ops[..|ops| - 1], capacity);
    }
  }

  /** A writing step merges exactly the session's pending entries into what the file held. */
  lemma WritingStep(w: World, op: Op, capacity: nat)
    requires Writes(w, op, capacity)
    ensures var merged := Merged(Load(w.text).value, Queued(w.sessions[op.who], op, capacity).pending, capacity);
      && Step(w, op, capacity).text == Serialize(merged) && Load(Step(w, op, capacity).text) == Some(merged)
      && Step(w, op, capacity).sessions[op.who] == Session(merged, [])
  {
    LoadOfSerialize(Merged(Load(w.text).value, Queued(w.sessions[op.who], op, capacity).pending, capacity));
  }

  /** The file is what writing the bounded, deduplicated form of `past` gives. */
  ghost predicate Holds(text: string, past: seq<string>, capacity: nat) {
    text == Serialize(LastOf(Dedup(past), capacity))
  }

  lemma WritingExtendsPast(w: World, op: Op, capacity: nat, past: seq<string>)
    requires Writes(w, op, capacity) && (Load(w.text) == Some(past) || Holds(w.text, past, capacity))
    ensures Holds(Step(w, op, capacity).text, past + EntriesOf(Hands(w, op, capacity)), capacity)
  {
    var pending := Queued(w.sessions[op.who], op, capacity).pending;
    WritingStep(w, op, capacity);
    LoadOfSerialize(LastOf(Dedup(past), capacity));
    assert EntriesOf(Tag(op.who, pending)) == pending;
    MergeForgetsNothing(past, pending, capacity);
  }

  /**
   Where the file stands: untouched until something is written, from then on the bounded form of
   the initial entries and everything handed over.
   */
  ghost predicate Account(text: string, untouched: string, initial: seq<string>, handed: seq<Logged>, written: bool,
                          capacity: nat)
  {
    if written then Holds(text, initial + EntriesOf(handed), capacity) else text == untouched && handed == []
  }

  lemma AccountStep(w: World, op: Op, capacity: nat, untouched: string, initial: seq<string>, handed: seq<Logged>,
                    written: bool)
    requires Load(untouched) == Some(initial)
    requires Account(w.text, untouched, initial, handed, written, capacity)
    ensures Account(Step(w, op, capacity).text, untouched, initial, handed + Hands(w, op, capacity),
                    written || Writes(w, op, capacity), capacity)
  {
    if Writes(w, op, capacity) {
      PastFound(w.text, untouched, initial, handed, written, capacity);
      WritingExtendsPast(w, op, capacity, initial + EntriesOf(handed));
      PastGrows(initial, handed, Hands(w, op, capacity));
    } else {
      QuietStep(w, op, capacity);
      assert handed + [] == handed;
    }
  }

  /** Before the first write nothing was handed over, so the past is the initial contents. */
  lemma PastFound(text: string, untouched: string, initial: seq<string>, handed: seq<Logged>, written: bool,
                  capacity: nat)
    requires Load(untouched) == Some(initial) && Account(text, untouched, initial, handed, written, capacity)
    ensures Load(text) == Some(initial + EntriesOf(handed)) || Holds(text, initial + EntriesOf(handed), capacity)
  {
    if !written {
      assert initial + EntriesOf(handed) == initial;
    }
  }

  lemma PastGrows(initial: seq<string>, handed: seq<Logged>, hands: seq<Logged>)
    ensures initial + EntriesOf(handed) + EntriesOf(hands) == initial + EntriesOf(handed + hands)
  {}

  lemma QuietStep(w: World, op: Op, capacity: nat)
    requires !Writes(w, op, capacity)
    ensures Step(w, op, capacity).text == w.text && Hands(w, op, capacity) == []
  {}

  lemma {:induction false} RunKeepsAccount(w: World, ops: seq<Op>, capacity: nat, initial: seq<string>)
    requires Load(w.text) == Some(initial)
    ensures Account(Run(w, ops, capacity).text, w.text, initial, HandedOver(w, ops, capacity),
                    HasWritten(w, ops, capacity), capacity)
    decreases |ops|
  {
    if ops != [] {
      var before := ops[..|ops| - 1];
      RunKeepsAccount(w, before, capacity, initial);
      AccountStep(Run(w, before, capacity), ops[|ops| - 1], capacity, w.text, initial,
                  HandedOver(w, before, capacity), HasWritten(w, before, capacity));
    }
  }

  /**
   For any number of sessions and any lock order: once some sync has written, the file is the
   encoding of the last `capacity` entries of the adjacent-deduplicated concatenation of its initial contents and
   everything handed over since, in lock order; until then it is untouched.
   */
  lemma {:induction false} FileIsTheBoundedPast(w: World, ops: seq<Op>, capacity: nat, initial: seq<string>)
    requires Load(w.text) == Some(initial)
    ensures if HasWritten(w, ops, capacity) then
        var kept := LastOf(Dedup(initial + EntriesOf(HandedOver(w, ops, capacity))), capacity);
        Run(w, ops, capacity).text == Serialize(kept) && Load(Run(w, ops, capacity).text) == Some(kept)
      else Run(w, ops, capacity).text == w.text && HandedOver(w, ops, capacity) == []
  {
    RunKeepsAccount(w, ops, capacity, initial);
    LoadOfSerialize(LastOf(Dedup(initial + EntriesOf(HandedOver(w, ops, capacity))), capacity));
  }

  /** The session that just synced successfully shows exactly what the file holds, and has nothing pending. */
  lemma {:induction false} SyncedSessionShowsTheFile(w: World, op: Op, capacity: nat)
    requires Writes(w, op, capacity)
    ensures var w' := Step(w, op, capacity);
      && Load(w'.text) == Some(w'.sessions[op.who].entries)
      && w'.sessions[op.who].pending == []
  {
    WritingStep(w, op, capacity);
  }

  // ---- Nothing is lost ----

  /** The entries of one session in a log, in order. */
  function By(who: nat, log: seq<Logged>): seq<string>
    decreases |log|
  {
    if log == [] then []
    else
      By(who, log[..|log| - 1]) + (if log[|log| - 1].who == who then [log[|log| - 1].entry] else [])
  }

  lemma {:induction false} ByConcat(who: nat, a: seq<Logged>, b: seq<Logged>)
    ensures By(who, a + b) == By(who, a) + By(who, b)
    decreases |b|
  {
    if b == [] {
      assert a + b == a;
    } else {
      ByConcat(who, a, b[..|b| - 1]);
      assert (a + b)[..|a + b| - 1] == a + b[..|b| - 1];
    }
  }

  lemma {:induction false} ByTag(who: nat, other: nat, entries: seq<string>)
    ensures By(who, Tag(other, entries)) == if who == other then entries else []
    decreases |entries|
  {
    if entries != [] {
      var k := |entries| - 1;
      ByTag(who, other, entries[..k]);
      assert Tag(other, entries)[..k] == Tag(other, entries[..k]);
      assert entries == entries[..k] + [entries[k]];
    }
  }

  /**
   Conservation: for every session, what it handed over followed by what it still has pending is
   what it had pending at first followed by what `record` accepted, in order, whatever syncs failed.
   */
  lemma {:induction false} NothingIsLost(w: World, ops: seq<Op>, capacity: nat, who: nat)
    requires who < |w.sessions|
    ensures |Run(w, ops, capacity).sessions| == |w.sessions|
    ensures By(who, HandedOver(w, ops, capacity)) + Run(w, ops, capacity).sessions[who].pending
            == w.sessions[who].pending + By(who, Accepted(w, ops, capacity))
    decreases |ops|
  {
    RunKeepsSessionCount(w, ops, capacity);
    if ops == [] {
      assert [] + w.sessions[who].pending == w.sessions[who].pending + [];
    } else {
      var before, op := ops[..|ops| - 1], ops[|ops| - 1];
      NothingIsLost(w, before, capacity, who);
      var mid := Run(w, before, capacity);
      var handed, hands := HandedOver(w, before, capacity), Hands(mid, op, capacity);
      var accepted, takes := Accepted(w, before, capacity), Takes(mid, op, capacity);
      PendingMoves(mid, op, capacity, who);
      ByConcat(who, handed, hands);
      ByConcat(who, accepted, takes);
      Regroup(By(who, handed), By(who, hands), Step(mid, op, capacity).sessions[who].pending,
              mid.sessions[who].pending, w.sessions[who].pending, By(who, accepted), By(who, takes));
    }
  }

  lemma Regroup<T>(a: seq<T>, b: seq<T>, c: seq<T>, mid: seq<T>, first: seq<T>, x: seq<T>, y: seq<T>)
    requires b + c == mid + y && a + mid == first + x
    ensures a + b + c == first + (x + y)
  {
    calc {
      a + b + c;
      a + (b + c);
      a + mid + y;
      first + x + y;
      first + (x + y);
    }
  }

  /** One step moves entries from accepted to pending to handed over, and nothing else. */
  lemma PendingMoves(w: World, op: Op, capacity: nat, who: nat)
    requires who < |w.sessions|
    ensures |Step(w, op, capacity).sessions| == |w.sessions|
    ensures By(who, Hands(w, op, capacity)) + Step(w, op, capacity).sessions[who].pending
            == w.sessions[who].pending + By(who, Takes(w, op, capacity))
  {
    TakesOne(w, op, capacity, who);
    var next := Step(w, op, capacity).sessions;
    if Writes(w, op, capacity) {
      var pending := Queued(w.sessions[op.who], op, capacity).pending;
      ByTag(who, op.who, pending);
      WritingStep(w, op, capacity);
      if who == op.who {
        assert pending + [] == pending;
      } else {
        OthersUntouched(w, op, capacity, who);
      }
    }
  }

  lemma OthersUntouched(w: World, op: Op, capacity: nat, who: nat)
    requires who < |w.sessions| && who != op.who
    ensures |Step(w, op, capacity).sessions| == |w.sessions|
    ensures Step(w, op, capacity).sessions[who] == w.sessions[who]
  {}

  lemma TakesOne(w: World, op: Op, capacity: nat, who: nat)
    requires who < |w.sessions|
    ensures (if who == op.who then Queued(w.sessions[who], op, capacity).pending else w.sessions[who].pending)
            == w.sessions[who].pending + By(who, Takes(w, op, capacity))
  {
    var takes := Takes(w, op, capacity);
    if takes != [] {
      assert takes[..0] == [];
    }
  }

  // ---- Every submitted entry counts ----

  /** A submission that must not be lost: history is on, there is something, and it is not the newest entry. */
  predicate WorthKeeping(s: Session, source: string, capacity: nat) {
    capacity > 0 && source != "" && (s.entries == [] || s.entries[|s.entries| - 1] != source)
  }

  /** All such submissions of one session, in order. */
  function Submitted(w: World, ops: seq<Op>, capacity: nat, who: nat): seq<string>
    decreases |ops|
  {
    if ops == [] then []
    else
      var before, op := Run(w, ops[..|ops| - 1], capacity), ops[|ops| - 1];
      Submitted(w, ops[..|ops| - 1], capacity, who)
      + if op.Record? && op.who == who < |before.sessions| && WorthKeeping(before.sessions[who], op.source, capacity)
        then [op.source] else []
  }

  lemma TakesWhatIsWorthKeeping(w: World, op: Op, capacity: nat, who: nat)
    requires who < |w.sessions|
    ensures By(who, Takes(w, op, capacity))
         == if op.Record? && op.who == who && WorthKeeping(w.sessions[who], op.source, capacity)
            then [op.source] else []
  {
    if Takes(w, op, capacity) != [] {
      assert Takes(w, op, capacity)[..0] == [];
    }
  }

  lemma {:induction false} AcceptedIsSubmitted(w: World, ops: seq<Op>, capacity: nat, who: nat)
    requires who < |w.sessions|
    ensures By(who, Accepted(w, ops, capacity)) == Submitted(w, ops, capacity, who)
    decreases |ops|
  {
    if ops != [] {
      var before, op := ops[..|ops| - 1], ops[|ops| - 1];
      AcceptedIsSubmitted(w, before, capacity, who);
      RunKeepsSessionCount(w, before, capacity);
      TakesWhatIsWorthKeeping(Run(w, before, capacity), op, capacity, who);
      ByConcat(who, Accepted(w, before, capacity), Takes(Run(w, before, capacity), op, capacity));
    }
  }

  /**
   For every session, what it handed over to the file followed by what it still has pending is what
   it had pending at first followed by everything it submitted that was not empty and not a repeat
   of its newest entry.
   */
  lemma {:induction false} NoSubmissionIsLost(w: World, ops: seq<Op>, capacity: nat, who: nat)
    requires who < |w.sessions|
    ensures |Run(w, ops, capacity).sessions| == |w.sessions|
    ensures By(who, HandedOver(w, ops, capacity)) + Run(w, ops, capacity).sessions[who].pending
            == w.sessions[who].pending + Submitted(w, ops, capacity, who)
  {
    NothingIsLost(w, ops, capacity, who);
    AcceptedIsSubmitted(w, ops, capacity, who);
  }

  /**
   One submission: if it is worth keeping it becomes the session's newest entry when the file can be
   had and decoded, and is pending otherwise; if not, nothing changes at all.
   */
  lemma {:induction false} SubmissionIsNewestOrPending(w: World, op: Op, capacity: nat)
    requires op.Record? && op.who < |w.sessions|
    ensures var s, w' := w.sessions[op.who], Step(w, op, capacity);
      |w'.sessions| == |w.sessions|
      && var t := w'.sessions[op.who];
         if !WorthKeeping(s, op.source, capacity) then w' == w
         else if op.available && Load(w.text).Some? then
           t.pending == [] && t.entries != [] && t.entries[|t.entries| - 1] == op.source
           && Load(w'.text) == Some(t.entries)
         else t == Session(s.entries, s.pending + [op.source]) && w'.text == w.text
  {
    var s := w.sessions[op.who];
    if WorthKeeping(s, op.source, capacity) && op.available && Load(w.text).Some? {
      WritingStep(w, op, capacity);
      NewestIsLast(Load(w.text).value, s.pending, op.source, capacity);
    } else if !WorthKeeping(s, op.source, capacity) {
      assert w.sessions[op.who := s] == w.sessions;
    }
  }
}
