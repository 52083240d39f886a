/** What the answers to a failure prompt do, over every run of the pipeline. */
module PromptLaws {
  import opened Names
  import opened CookPipeline
  import opened PipelineSafety

  // ---- Without a Retry answer everything is tried once ----

  /** The prompt cell never held a Retry answer. */
  ghost predicate NeverRetried(c: Config, events: seq<Event>) {
    forall k :: 0 <= k <= |events| ==> Exec(c, events[..k]).prompting != Retry.Code()
  }

  predicate AtWait(w: Worker) { w.AwaitFree? || w.Claiming? || w.AwaitAnswer? || w.Answered? }

  /** A worker that prompts only when not in nonstop mode, and never holds a Retry answer. */
  predicate Unretried(c: Config, w: Worker) {
    (c.nonstop ==> !AtWait(w)) && (w.Answered? ==> w.answer != Retry.Code())
  }

  /** Every start so far was the first of its recipe, and a worker about to start is on its first try. */
  ghost predicate FirstTries(c: Config, s: State) {
    && Unretried(c, s.fetcher) && Unretried(c, s.cooker)
    && (forall p, i :: 0 <= p < |s.sent| && 0 <= i < |c.names| && s.sent[p] == StartFetch(c.names[i]) ==>
          PhaseOf(c.names, s.sent[..p], i).NotStarted?)
    && (forall p, i :: 0 <= p < |s.sent| && 0 <= i < |c.names| && s.sent[p] == StartCook(c.names[i]) ==>
          PhaseOf(c.names, s.sent[..p], i).FetchDone?)
    && (forall i :: 0 <= i < |c.names| && s.fetcher == Starting(i) ==> PhaseOf(c.names, s.sent, i).NotStarted?)
    && (forall i :: 0 <= i < |c.names| && s.cooker == Starting(i) ==> PhaseOf(c.names, s.sent, i).FetchDone?)
  }

  lemma WorkersUnretried(c: Config, s: State, e: Event)
    requires Unretried(c, s.fetcher) && Unretried(c, s.cooker) && PromptSafe(s)
    requires c.nonstop || s.prompting != Retry.Code()
    ensures Unretried(c, Step(c, s, e).fetcher) && Unretried(c, Step(c, s, e).cooker)
  {}

  /** A worker that starts on a recipe without a Retry answer has just taken it. */
  lemma StartsFresh(c: Config, s: State, e: Event)
    requires Unretried(c, s.fetcher) && Unretried(c, s.cooker) && Aligned(c, s)
    ensures var s' := Step(c, s, e);
      && (s'.fetcher.Starting? && s'.fetcher != s.fetcher ==> s'.fetcher.i == s.next && s'.sent == s.sent)
      && (s'.cooker.Starting? && s'.cooker != s.cooker ==>
            s.taken < |s.work| && s'.cooker.i == s.work[s.taken] && s'.sent == s.sent)
  {}

  /** A start message comes from the worker that was about to start. */
  lemma StartIsSentBy(c: Config, s: State, e: Event)
    requires |Step(c, s, e).sent| == |s.sent| + 1
    ensures var m := Step(c, s, e).sent[|s.sent|];
      && (m.StartFetch? ==> s.fetcher.Starting? && s.fetcher.i < |c.names| && m == StartFetch(c.names[s.fetcher.i]))
      && (m.StartCook? ==> s.cooker.Starting? && s.cooker.i < |c.names| && m == StartCook(c.names[s.cooker.i]))
  {}

  lemma SentStaysFirst(c: Config, s: State, e: Event, p: nat, i: nat)
    requires Distinct(c.names) && Aligned(c, s) && FirstTries(c, s) && i < |c.names| && p < |Step(c, s, e).sent|
    ensures var sent := Step(c, s, e).sent;
      && (sent[p] == StartFetch(c.names[i]) ==> PhaseOf(c.names, sent[..p], i).NotStarted?)
      && (sent[p] == StartCook(c.names[i]) ==> PhaseOf(c.names, sent[..p], i).FetchDone?)
  {
    StepExtendsLog(c, s, e);
    var sent := Step(c, s, e).sent;
    assert p <= |s.sent| && sent[..p] == s.sent[..p];
    if p < |s.sent| {
      assert sent[p] == sent[..|s.sent|][p] == s.sent[p];
    } else {
      StartIsSentBy(c, s, e);
      assert s.sent[..p] == s.sent;
    }
  }

  /** A message that is not about the recipe a worker is to start leaves that recipe's phase. */
  lemma StartingKeepsPhase(c: Config, s: State, e: Event, i: nat)
    requires Distinct(c.names) && Inv(c, s) && i < |c.names|
    requires (s.fetcher == Starting(i) && Step(c, s, e).fetcher == Starting(i))
             || (s.cooker == Starting(i) && Step(c, s, e).cooker == Starting(i))
    ensures PhaseOf(c.names, Step(c, s, e).sent, i) == PhaseOf(c.names, s.sent, i)
  {
    assert Fits(s, i, PhaseOf(c.names, s.sent, i));
    match e {
      case FetcherRuns(o) => FetcherPhases(c, s, o, i);
      case CookerRuns(o) => CookerPhases(c, s, o, i);
      case LogArrives(n, chunk) => PhaseOfAppend(c.names, s.sent, PushLog(n, chunk), i);
      case LogFlushes(n) => PhaseOfAppend(c.names, s.sent, FlushLog(n), i);
      case _ => UiStepKeepsWorkers(c, s, e);
    }
  }

  /** The recipe a worker is to start next is in the phase of a first try. */
  lemma StartingIsFirst(c: Config, s: State, e: Event, i: nat)
    requires Distinct(c.names) && Inv(c, s) && FirstTries(c, s) && i < |c.names|
    ensures Step(c, s, e).fetcher == Starting(i) ==> PhaseOf(c.names, Step(c, s, e).sent, i).NotStarted?
    ensures Step(c, s, e).cooker == Starting(i) ==> PhaseOf(c.names, Step(c, s, e).sent, i).FetchDone?
  {
    StartsFresh(c, s, e);
    assert Fits(s, i, PhaseOf(c.names, s.sent, i));
    if (s.fetcher == Starting(i) && Step(c, s, e).fetcher == Starting(i))
       || (s.cooker == Starting(i) && Step(c, s, e).cooker == Starting(i)) {
      StartingKeepsPhase(c, s, e, i);
    }
    if Step(c, s, e).cooker == Starting(i) && s.cooker != Step(c, s, e).cooker {
      assert i == s.work[s.taken..][0];
    }
  }

  lemma StepKeepsFirstTries(c: Config, s: State, e: Event)
    requires Distinct(c.names) && Inv(c, s) && FirstTries(c, s)
    requires c.nonstop || s.prompting != Retry.Code()
    ensures FirstTries(c, Step(c, s, e))
  {
    WorkersUnretried(c, s, e);
    forall p, i | 0 <= p < |Step(c, s, e).sent| && 0 <= i < |c.names|
      ensures var sent := Step(c, s, e).sent;
        && (sent[p] == StartFetch(c.names[i]) ==> PhaseOf(c.names, sent[..p], i).NotStarted?)
        && (sent[p] == StartCook(c.names[i]) ==> PhaseOf(c.names, sent[..p], i).FetchDone?)
    {
      SentStaysFirst(c, s, e, p, i);
    }
    forall i | 0 <= i < |c.names|
      ensures Step(c, s, e).fetcher == Starting(i) ==> PhaseOf(c.names, Step(c, s, e).sent, i).NotStarted?
      ensures Step(c, s, e).cooker == Starting(i) ==> PhaseOf(c.names, Step(c, s, e).sent, i).FetchDone?
    {
      StartingIsFirst(c, s, e, i);
    }
  }

  lemma {:induction false} RunFirstTries(c: Config, events: seq<Event>)
    requires Distinct(c.names) && (c.nonstop || NeverRetried(c, events))
    ensures FirstTries(c, Exec(c, events))
    decreases |events|
  {
    if events != [] {
      var before := events[..|events| - 1];
      if !c.nonstop {
        forall k | 0 <= k <= |before| ensures Exec(c, before[..k]).prompting != Retry.Code() {
          assert before[..k] == events[..k];
        }
      }
      assert before[..|before|] == before;
      RunFirstTries(c, before);
      RunInv(c, before);
      StepKeepsFirstTries(c, Exec(c, before), events[|events| - 1]);
    }
  }

  /** On a legal log a second start of the same kind cannot find the recipe where the first one did. */
  lemma NotTwice(names: seq<PackageName>, log: seq<Msg>, p: nat, q: nat, i: nat)
    requires i < |names| && p < q < |log| && PhaseOf(names, log[..q], i) != Illegal
    requires log[p] == StartFetch(names[i]) || log[p] == StartCook(names[i])
    requires PhaseOf(names, log[..p], i).NotStarted? || PhaseOf(names, log[..p], i).FetchDone?
    ensures PhaseOf(names, log[..q], i) != PhaseOf(names, log[..p], i)
  {
    var upto := log[..q];
    assert upto[..p + 1] == log[..p] + [log[p]] && upto[..p] == log[..p];
    PhaseOfAppend(names, log[..p], log[p], i);
    RankNeverDrops(names, upto, p + 1, i);
    IllegalIsForever(names, upto, p + 1, i);
    assert Rank(PhaseOf(names, upto[..p + 1], i)) <= Rank(PhaseOf(names, upto, i));
  }

  /**
   In nonstop mode, and in any run in which no prompt is ever answered with Retry, no recipe is
   fetched twice and none is cooked twice.
   */
  lemma {:induction false} WithoutRetryOneAttempt(c: Config, events: seq<Event>, p: nat, q: nat, i: nat)
    requires Distinct(c.names) && (c.nonstop || NeverRetried(c, events)) && i < |c.names|
    requires p < q < |Exec(c, events).sent|
    ensures var sent := Exec(c, events).sent;
      && !(sent[p] == StartFetch(c.names[i]) && sent[q] == StartFetch(c.names[i]))
      && !(sent[p] == StartCook(c.names[i]) && sent[q] == StartCook(c.names[i]))
  {
    RunFirstTries(c, events);
    StatusesFollowThePath(c, events, i, q);
    var sent := Exec(c, events).sent;
    if sent[p] == sent[q] && (sent[p] == StartFetch(c.names[i]) || sent[p] == StartCook(c.names[i])) {
      NotTwice(c.names, sent, p, q, i);
    }
  }

  // ---- What a worker does with the answer it reads ----

  ghost predicate NoFetcherSteps(events: seq<Event>) { forall e :: e in events ==> !e.FetcherRuns? }

  ghost predicate NoCookerSteps(events: seq<Event>) { forall e :: e in events ==> !e.CookerRuns? }

  lemma ExecSnoc(c: Config, events: seq<Event>, e: Event)
    ensures Exec(c, events + [e]) == Step(c, Exec(c, events), e)
  {
    assert (events + [e])[..|events|] == events;
  }

  lemma OtherStepLeavesFetcher(c: Config, s: State, e: Event)
    requires !e.FetcherRuns?
    ensures var t := Step(c, s, e); t.fetcher == s.fetcher && t.next == s.next && t.work == s.work
  {}

  lemma OtherStepLeavesCooker(c: Config, s: State, e: Event)
    requires !e.CookerRuns?
    ensures var t := Step(c, s, e); t.cooker == s.cooker && t.taken == s.taken && s.work <= t.work
  {}

  /** However the others interleave, a worker that takes no step stays where it is. */
  lemma {:induction false} FetcherWaits(c: Config, run: seq<Event>, start: nat)
    requires start <= |run| && NoFetcherSteps(run[start..])
    ensures var s, t := Exec(c, run[..start]), Exec(c, run);
      t.fetcher == s.fetcher && t.next == s.next && t.work == s.work
    decreases |run|
  {
    if start == |run| {
      assert run[..start] == run;
    } else {
      var before, e := run[..|run| - 1], run[|run| - 1];
      assert before[..start] == run[..start] && run[start..] == before[start..] + [e];
      FetcherWaits(c, before, start);
      OtherStepLeavesFetcher(c, Exec(c, before), e);
    }
  }

  lemma {:induction false} CookerWaits(c: Config, run: seq<Event>, start: nat)
    requires start <= |run| && NoCookerSteps(run[start..])
    ensures var s, t := Exec(c, run[..start]), Exec(c, run);
      t.cooker == s.cooker && t.taken == s.taken && s.work <= t.work
    decreases |run|
  {
    if start == |run| {
      assert run[..start] == run;
    } else {
      var before, e := run[..|run| - 1], run[|run| - 1];
      assert before[..start] == run[..start] && run[start..] == before[start..] + [e];
      CookerWaits(c, before, start);
      OtherStepLeavesCooker(c, Exec(c, before), e);
    }
  }

  lemma OthersLeaveFetcher(c: Config, events: seq<Event>, more: seq<Event>)
    requires NoFetcherSteps(more)
    ensures var s, t := Exec(c, events), Exec(c, events + more);
      t.fetcher == s.fetcher && t.next == s.next && t.work == s.work
  {
    assert (events + more)[..|events|] == events && (events + more)[|events|..] == more;
    FetcherWaits(c, events + more, |events|);
  }

  lemma OthersLeaveCooker(c: Config, events: seq<Event>, more: seq<Event>)
    requires NoCookerSteps(more)
    ensures var s, t := Exec(c, events), Exec(c, events + more);
      t.cooker == s.cooker && t.taken == s.taken && s.work <= t.work
  {
    assert (events + more)[..|events|] == events && (events + more)[|events|..] == more;
    CookerWaits(c, events + more, |events|);
  }

  /** The fetcher reads an answer, and later, whatever happened in between, acts on it. */
  function FetcherReadsAndActs(o1: Outcome, between: seq<Event>, o2: Outcome): seq<Event> {
    [FetcherRuns(o1)] + between + [FetcherRuns(o2)]
  }

  function CookerReadsAndActs(o1: Outcome, between: seq<Event>, o2: Outcome): seq<Event> {
    [CookerRuns(o1)] + between + [CookerRuns(o2)]
  }

  /** Where an answer leads a worker that holds recipe `i`. */
  predicate Follows(answer: nat, i: nat, w: Worker) {
    && (answer == Retry.Code() ==> w == Starting(i))
    && (answer == Skip.Code() ==> w.Idle?)
    && (answer == Exit.Code() ==> w.Leaving?)
  }

  lemma LastStep(c: Config, events: seq<Event>, first: Event, between: seq<Event>, last: Event)
    ensures Exec(c, events + ([first] + between + [last])) == Step(c, Exec(c, events + [first] + between), last)
  {
    assert events + ([first] + between + [last]) == events + [first] + between + [last];
    ExecSnoc(c, events + [first] + between, last);
  }

  /** The worker has read the answer that stood in the cell of `s`. */
  predicate FetcherHasRead(s: State, t: State) {
    s.fetcher.AwaitAnswer? && t.fetcher == Answered(s.fetcher.i, s.prompting) && t.next == s.next && t.work == s.work
  }

  /** ... and has acted on it. */
  predicate FetcherHasActed(s: State, t: State) {
    s.fetcher.AwaitAnswer? && Follows(s.prompting, s.fetcher.i, t.fetcher)
    && t.prompting == 0 && t.next == s.next && t.work == s.work
  }

  predicate IsAnswer(p: nat) { p in {Retry.Code(), Skip.Code(), Exit.Code()} }

  lemma FetcherReads(c: Config, s: State, o: Outcome)
    requires s.fetcher.AwaitAnswer? && IsAnswer(s.prompting)
    ensures FetcherHasRead(s, Step(c, s, FetcherRuns(o)))
  {}

  lemma FetcherStillHasRead(s: State, read: State, t: State)
    requires FetcherHasRead(s, read)
    requires t.fetcher == read.fetcher && t.next == read.next && t.work == read.work
    ensures FetcherHasRead(s, t)
  {}

  lemma FetcherFollows(c: Config, s: State, read: State, o: Outcome)
    requires FetcherHasRead(s, read) && IsAnswer(s.prompting)
    ensures FetcherHasActed(s, Step(c, read, FetcherRuns(o)))
  {}

  lemma FetcherReadsIt(c: Config, events: seq<Event>, o: Outcome, between: seq<Event>)
    requires NoFetcherSteps(between) && Exec(c, events).fetcher.AwaitAnswer? && IsAnswer(Exec(c, events).prompting)
    ensures FetcherHasRead(Exec(c, events), Exec(c, events + [FetcherRuns(o)] + between))
  {
    ExecSnoc(c, events, FetcherRuns(o));
    FetcherReads(c, Exec(c, events), o);
    OthersLeaveFetcher(c, events + [FetcherRuns(o)], between);
    FetcherStillHasRead(Exec(c, events), Exec(c, events + [FetcherRuns(o)]),
                        Exec(c, events + [FetcherRuns(o)] + between));
  }

  lemma FetcherActs(c: Config, events: seq<Event>, o1: Outcome, between: seq<Event>, o2: Outcome)
    requires NoFetcherSteps(between) && Exec(c, events).fetcher.AwaitAnswer? && IsAnswer(Exec(c, events).prompting)
    ensures FetcherHasActed(Exec(c, events), Exec(c, events + FetcherReadsAndActs(o1, between, o2)))
  {
    var read := Exec(c, events + [FetcherRuns(o1)] + between);
    LastStep(c, events, FetcherRuns(o1), between, FetcherRuns(o2));
    FetcherReadsIt(c, events, o1, between);
    FetcherFollows(c, Exec(c, events), read, o2);
  }

  /** The worker has read the answer that stood in the cell of `s`. */
  predicate CookerHasRead(s: State, t: State) {
    s.cooker.AwaitAnswer? && t.cooker == Answered(s.cooker.i, s.prompting) && t.taken == s.taken && s.work <= t.work
  }

  /** ... and has acted on it. */
  predicate CookerHasActed(s: State, t: State) {
    s.cooker.AwaitAnswer? && Follows(s.prompting, s.cooker.i, t.cooker)
    && t.prompting == 0 && t.taken == s.taken && s.work <= t.work
  }

  lemma CookerReads(c: Config, s: State, o: Outcome)
    requires s.cooker.AwaitAnswer? && IsAnswer(s.prompting)
    ensures CookerHasRead(s, Step(c, s, CookerRuns(o)))
  {}

  lemma CookerStillHasRead(s: State, read: State, t: State)
    requires CookerHasRead(s, read)
    requires t.cooker == read.cooker && t.taken == read.taken && read.work <= t.work
    ensures CookerHasRead(s, t)
  {}

  lemma CookerFollows(c: Config, s: State, read: State, o: Outcome)
    requires CookerHasRead(s, read) && IsAnswer(s.prompting)
    ensures CookerHasActed(s, Step(c, read, CookerRuns(o)))
  {}

  lemma CookerReadsIt(c: Config, events: seq<Event>, o: Outcome, between: seq<Event>)
    requires NoCookerSteps(between) && Exec(c, events).cooker.AwaitAnswer? && IsAnswer(Exec(c, events).prompting)
    ensures CookerHasRead(Exec(c, events), Exec(c, events + [CookerRuns(o)] + between))
  {
    ExecSnoc(c, events, CookerRuns(o));
    CookerReads(c, Exec(c, events), o);
    OthersLeaveCooker(c, events + [CookerRuns(o)], between);
    CookerStillHasRead(Exec(c, events), Exec(c, events + [CookerRuns(o)]), Exec(c, events + [CookerRuns(o)] + between));
  }

  lemma CookerActs(c: Config, events: seq<Event>, o1: Outcome, between: seq<Event>, o2: Outcome)
    requires NoCookerSteps(between) && Exec(c, events).cooker.AwaitAnswer? && IsAnswer(Exec(c, events).prompting)
    ensures CookerHasActed(Exec(c, events), Exec(c, events + CookerReadsAndActs(o1, between, o2)))
  {
    var read := Exec(c, events + [CookerRuns(o1)] + between);
    LastStep(c, events, CookerRuns(o1), between, CookerRuns(o2));
    CookerReadsIt(c, events, o1, between);
    CookerFollows(c, Exec(c, events), read, o2);
  }

  /**
   A Retry answer is honoured: once the fetcher has read it, the next thing the fetcher sends,
   whatever the others do meanwhile, is that it fetches the same recipe again.
   */
  lemma {:induction false} RetryFetchesAgain(c: Config, events: seq<Event>, o1: Outcome, between: seq<Event>,
                                             o2: Outcome, later: seq<Event>, o3: Outcome)
    requires Distinct(c.names) && NoFetcherSteps(between) && NoFetcherSteps(later)
    requires Exec(c, events).fetcher.AwaitAnswer? && Exec(c, events).prompting == Retry.Code()
    ensures var run := events + FetcherReadsAndActs(o1, between, o2) + later;
      var i := Exec(c, events).fetcher.i;
      i < |c.names| && Exec(c, run + [FetcherRuns(o3)]).sent == Exec(c, run).sent + [StartFetch(c.names[i])]
  {
    RunAligned(c, events);
    FetcherActs(c, events, o1, between, o2);
    var acted := events + FetcherReadsAndActs(o1, between, o2);
    OthersLeaveFetcher(c, acted, later);
    ExecSnoc(c, acted + later, FetcherRuns(o3));
  }

  /** The same for the cooker. */
  lemma {:induction false} RetryCooksAgain(c: Config, events: seq<Event>, o1: Outcome, between: seq<Event>,
                                           o2: Outcome, later: seq<Event>, o3: Outcome)
    requires Distinct(c.names) && NoCookerSteps(between) && NoCookerSteps(later)
    requires Exec(c, events).cooker.AwaitAnswer? && Exec(c, events).prompting == Retry.Code()
    ensures var run := events + CookerReadsAndActs(o1, between, o2) + later;
      var i := Exec(c, events).cooker.i;
      i < |c.names| && Exec(c, run + [CookerRuns(o3)]).sent == Exec(c, run).sent + [StartCook(c.names[i])]
  {
    RunAligned(c, events);
    CookerActs(c, events, o1, between, o2);
    var acted := events + CookerReadsAndActs(o1, between, o2);
    OthersLeaveCooker(c, acted, later);
    ExecSnoc(c, acted + later, CookerRuns(o3));
  }

  // ---- Skip ----

  /** No worker holds recipe `i` and it is not waiting in the channel. */
  ghost predicate LetGo(s: State, i: nat)
    requires s.taken <= |s.work|
  {
    i < s.next && !InFetcher(s, i) && i !in s.work[s.taken..] && !(s.cooker.Busy() && s.cooker.i == i)
  }

  /** Nobody takes up again, or sends anything about, a recipe that was let go. */
  lemma LetGoStays(c: Config, s: State, e: Event, i: nat)
    requires Distinct(c.names) && Inv(c, s) && LetGo(s, i) && i < |c.names|
    ensures Aligned(c, Step(c, s, e)) && LetGo(Step(c, s, e), i)
    ensures forall q :: |s.sent| <= q < |Step(c, s, e).sent| ==> !About(c.names, Step(c, s, e).sent[q], i)
  {
    StepKeepsInv(c, s, e);
    match e {
      case FetcherRuns(o) => FetcherLeavesLetGo(c, s, o, i);
      case CookerRuns(o) => CookerLeavesLetGo(c, s, o, i);
      case LogArrives(_, _) =>
      case LogFlushes(_) =>
      case _ => UiStepKeepsWorkers(c, s, e);
    }
  }

  lemma FetcherLeavesLetGo(c: Config, s: State, o: Outcome, i: nat)
    requires Distinct(c.names) && Inv(c, s) && LetGo(s, i) && i < |c.names|
    ensures LetGo(FetcherStep(c, s, o), i)
    ensures forall q :: |s.sent| <= q < |FetcherStep(c, s, o).sent| ==> !About(c.names, FetcherStep(c, s, o).sent[q], i)
  {
    FetcherKeepsAligned(c, s, o);
    if s.fetcher.Succeeded? && !s.cooker.HungUp() {
      assert FetcherStep(c, s, o).work[s.taken..] == s.work[s.taken..] + [s.fetcher.i];
    }
  }

  lemma CookerLeavesLetGo(c: Config, s: State, o: Outcome, i: nat)
    requires Distinct(c.names) && Inv(c, s) && LetGo(s, i) && i < |c.names|
    ensures LetGo(CookerStep(c, s, o), i)
    ensures forall q :: |s.sent| <= q < |CookerStep(c, s, o).sent| ==> !About(c.names, CookerStep(c, s, o).sent[q], i)
  {
    if s.cooker.Idle? && s.taken < |s.work| {
      assert s.work[s.taken..] == [s.work[s.taken]] + s.work[s.taken + 1..];
    }
  }

  /** Nothing sent from position `from` on is about recipe `i`. */
  ghost predicate QuietAbout(c: Config, log: seq<Msg>, from: nat, i: nat)
    requires i < |c.names|
  {
    forall q :: from <= q < |log| ==> !About(c.names, log[q], i)
  }

  lemma QuietStep(c: Config, s: State, e: Event, from: nat, i: nat)
    requires Distinct(c.names) && Inv(c, s) && LetGo(s, i) && i < |c.names| && QuietAbout(c, s.sent, from, i)
    ensures Step(c, s, e).taken <= |Step(c, s, e).work| && LetGo(Step(c, s, e), i)
    ensures QuietAbout(c, Step(c, s, e).sent, from, i)
  {
    LetGoStays(c, s, e, i);
    StepExtendsLog(c, s, e);
    var log := Step(c, s, e).sent;
    forall q | from <= q < |log| ensures !About(c.names, log[q], i) {
      if q < |s.sent| {
        assert log[q] == log[..|s.sent|][q];
      }
    }
  }

  lemma {:induction false} LetGoForGood(c: Config, run: seq<Event>, start: nat, i: nat)
    requires Distinct(c.names) && i < |c.names| && start <= |run|
    requires var s := Exec(c, run[..start]); s.taken <= |s.work| && LetGo(s, i)
    ensures var t := Exec(c, run); t.taken <= |t.work| && LetGo(t, i)
    ensures QuietAbout(c, Exec(c, run).sent, |Exec(c, run[..start]).sent|, i)
    decreases |run|
  {
    if start == |run| {
      assert run[..start] == run;
    } else {
      var before := run[..|run| - 1];
      assert before[..start] == run[..start];
      LetGoForGood(c, before, start, i);
      RunInv(c, before);
      QuietStep(c, Exec(c, before), run[|run| - 1], |Exec(c, run[..start]).sent|, i);
    }
  }

  lemma RunAligned(c: Config, run: seq<Event>)
    requires Distinct(c.names)
    ensures Aligned(c, Exec(c, run))
  {
    RunInv(c, run);
  }

  /** A Skip answer gives the recipe up: after it nothing is ever sent about the recipe again. */
  lemma {:induction false} SkippedFetchIsOver(c: Config, events: seq<Event>, o1: Outcome, between: seq<Event>,
                                              o2: Outcome, more: seq<Event>, q: nat)
    requires Distinct(c.names) && NoFetcherSteps(between)
    requires Exec(c, events).fetcher.AwaitAnswer? && Exec(c, events).prompting == Skip.Code()
    ensures var i := Exec(c, events).fetcher.i;
      var acted := events + FetcherReadsAndActs(o1, between, o2);
      i < |c.names|
      && (|Exec(c, acted).sent| <= q < |Exec(c, acted + more).sent| ==>
            !About(c.names, Exec(c, acted + more).sent[q], i))
  {
    var i := Exec(c, events).fetcher.i;
    var acted := events + FetcherReadsAndActs(o1, between, o2);
    RunAligned(c, events);
    FetcherActs(c, events, o1, between, o2);
    RunAligned(c, acted);
    assert (acted + more)[..|acted|] == acted;
    LetGoForGood(c, acted + more, |acted|, i);
  }

  lemma {:induction false} SkippedCookIsOver(c: Config, events: seq<Event>, o1: Outcome, between: seq<Event>,
                                             o2: Outcome, more: seq<Event>, q: nat)
    requires Distinct(c.names) && NoCookerSteps(between)
    requires Exec(c, events).cooker.AwaitAnswer? && Exec(c, events).prompting == Skip.Code()
    ensures var i := Exec(c, events).cooker.i;
      var acted := events + CookerReadsAndActs(o1, between, o2);
      i < |c.names|
      && (|Exec(c, acted).sent| <= q < |Exec(c, acted + more).sent| ==>
            !About(c.names, Exec(c, acted + more).sent[q], i))
  {
    var i := Exec(c, events).cooker.i;
    var acted := events + CookerReadsAndActs(o1, between, o2);
    RunAligned(c, events);
    CookerActs(c, events, o1, between, o2);
    RunAligned(c, acted);
    TakenIsLetGo(c, Exec(c, acted), i);
    assert (acted + more)[..|acted|] == acted;
    LetGoForGood(c, acted + more, |acted|, i);
  }

  /** The recipe the cooker took last is let go once the cooker is idle. */
  lemma TakenIsLetGo(c: Config, s: State, i: nat)
    requires Aligned(c, s) && s.cooker.Idle? && s.taken > 0 && i == s.work[s.taken - 1]
    ensures LetGo(s, i)
  {
    assert i in s.work;
  }

  // ---- Exit ----

  ghost predicate NoFetchFrom(log: seq<Msg>, from: nat) { forall q :: from <= q < |log| ==> !log[q].StartFetch? }

  ghost predicate NoCookFrom(log: seq<Msg>, from: nat) { forall q :: from <= q < |log| ==> !log[q].StartCook? }

  lemma FetcherGoneStays(c: Config, s: State, e: Event, from: nat)
    requires s.fetcher.Gone() && NoFetchFrom(s.sent, from)
    ensures Step(c, s, e).fetcher.Gone() && NoFetchFrom(Step(c, s, e).sent, from)
  {}

  lemma CookerGoneStays(c: Config, s: State, e: Event, from: nat)
    requires s.cooker.Gone() && NoCookFrom(s.sent, from)
    ensures Step(c, s, e).cooker.Gone() && NoCookFrom(Step(c, s, e).sent, from)
  {}

  lemma {:induction false} FetcherGoneForGood(c: Config, run: seq<Event>, start: nat)
    requires start <= |run| && Exec(c, run[..start]).fetcher.Gone()
    ensures Exec(c, run).fetcher.Gone() && NoFetchFrom(Exec(c, run).sent, |Exec(c, run[..start]).sent|)
    decreases |run|
  {
    if start == |run| {
      assert run[..start] == run;
    } else {
      var before := run[..|run| - 1];
      assert before[..start] == run[..start];
      FetcherGoneForGood(c, before, start);
      FetcherGoneStays(c, Exec(c, before), run[|run| - 1], |Exec(c, run[..start]).sent|);
    }
  }

  lemma {:induction false} CookerGoneForGood(c: Config, run: seq<Event>, start: nat)
    requires start <= |run| && Exec(c, run[..start]).cooker.Gone()
    ensures Exec(c, run).cooker.Gone() && NoCookFrom(Exec(c, run).sent, |Exec(c, run[..start]).sent|)
    decreases |run|
  {
    if start == |run| {
      assert run[..start] == run;
    } else {
      var before := run[..|run| - 1];
      assert before[..start] == run[..start];
      CookerGoneForGood(c, before, start);
      CookerGoneStays(c, Exec(c, before), run[|run| - 1], |Exec(c, run[..start]).sent|);
    }
  }

  /** An Exit answer ends the worker that reads it: it starts nothing more. */
  lemma {:induction false} ExitEndsFetching(c: Config, events: seq<Event>, o1: Outcome, between: seq<Event>,
                                            o2: Outcome, more: seq<Event>, q: nat)
    requires Distinct(c.names) && NoFetcherSteps(between)
    requires Exec(c, events).fetcher.AwaitAnswer? && Exec(c, events).prompting == Exit.Code()
    ensures var acted := events + FetcherReadsAndActs(o1, between, o2);
      |Exec(c, acted).sent| <= q < |Exec(c, acted + more).sent| ==> !Exec(c, acted + more).sent[q].StartFetch?
  {
    var acted := events + FetcherReadsAndActs(o1, between, o2);
    FetcherActs(c, events, o1, between, o2);
    assert (acted + more)[..|acted|] == acted;
    FetcherGoneForGood(c, acted + more, |acted|);
  }

  lemma {:induction false} ExitEndsCooking(c: Config, events: seq<Event>, o1: Outcome, between: seq<Event>,
                                           o2: Outcome, more: seq<Event>, q: nat)
    requires Distinct(c.names) && NoCookerSteps(between)
    requires Exec(c, events).cooker.AwaitAnswer? && Exec(c, events).prompting == Exit.Code()
    ensures var acted := events + CookerReadsAndActs(o1, between, o2);
      |Exec(c, acted).sent| <= q < |Exec(c, acted + more).sent| ==> !Exec(c, acted + more).sent[q].StartCook?
  {
    var acted := events + CookerReadsAndActs(o1, between, o2);
    CookerActs(c, events, o1, between, o2);
    assert (acted + more)[..|acted|] == acted;
    CookerGoneForGood(c, acted + more, |acted|);
  }

  // ---- Exit in nonstop mode ----

  /** The cell holds Exit all along. */
  ghost predicate ExitHolds(c: Config, events: seq<Event>, more: seq<Event>) {
    forall k :: 0 <= k <= |more| ==> Exec(c, events + more[..k]).prompting == Exit.Code()
  }

  /** How many more recipes a worker can start before it comes to test the cell. */
  function StartsLeft(w: Worker): nat { if w.Idle? || w.Starting? then 1 else 0 }

  function FetchStarts(log: seq<Msg>): nat {
    if log == [] then 0 else FetchStarts(log[..|log| - 1]) + if log[|log| - 1].StartFetch? then 1 else 0
  }

  function CookStarts(log: seq<Msg>): nat {
    if log == [] then 0 else CookStarts(log[..|log| - 1]) + if log[|log| - 1].StartCook? then 1 else 0
  }

  lemma StartsAppend(log: seq<Msg>, m: Msg)
    ensures FetchStarts(log + [m]) == FetchStarts(log) + if m.StartFetch? then 1 else 0
    ensures CookStarts(log + [m]) == CookStarts(log) + if m.StartCook? then 1 else 0
  {
    assert (log + [m])[..|log|] == log;
  }

  lemma SentUsesStarts(c: Config, s: State, e: Event)
    ensures var s' := Step(c, s, e);
      && FetchStarts(s'.sent) == FetchStarts(s.sent)
         + (if |s'.sent| > |s.sent| && s'.sent[|s.sent|].StartFetch? then 1 else 0)
      && CookStarts(s'.sent) == CookStarts(s.sent)
         + (if |s'.sent| > |s.sent| && s'.sent[|s.sent|].StartCook? then 1 else 0)
  {
    StepExtendsLog(c, s, e);
    var s' := Step(c, s, e);
    if |s'.sent| > |s.sent| {
      assert s'.sent == s.sent + [s'.sent[|s.sent|]];
      StartsAppend(s.sent, s'.sent[|s.sent|]);
    } else {
      assert s'.sent == s.sent;
    }
  }

  lemma WorkerUsesStarts(c: Config, s: State, e: Event)
    requires c.nonstop && s.prompting == Exit.Code() && !AtWait(s.fetcher) && !AtWait(s.cooker)
    ensures var s' := Step(c, s, e);
      && (|s'.sent| > |s.sent| && s'.sent[|s.sent|].StartFetch? ==>
            StartsLeft(s.fetcher) == 1 && StartsLeft(s'.fetcher) == 0)
      && (|s'.sent| > |s.sent| && s'.sent[|s.sent|].StartCook? ==>
            StartsLeft(s.cooker) == 1 && StartsLeft(s'.cooker) == 0)
      && StartsLeft(s'.fetcher) <= StartsLeft(s.fetcher) && StartsLeft(s'.cooker) <= StartsLeft(s.cooker)
  {}

  lemma StepUsesStarts(c: Config, s: State, e: Event)
    requires c.nonstop && s.prompting == Exit.Code() && !AtWait(s.fetcher) && !AtWait(s.cooker)
    ensures var s' := Step(c, s, e);
      && FetchStarts(s'.sent) + StartsLeft(s'.fetcher) <= FetchStarts(s.sent) + StartsLeft(s.fetcher)
      && CookStarts(s'.sent) + StartsLeft(s'.cooker) <= CookStarts(s.sent) + StartsLeft(s.cooker)
  {
    SentUsesStarts(c, s, e);
    WorkerUsesStarts(c, s, e);
  }

  lemma NonstopNeverWaits(c: Config, events: seq<Event>)
    requires Distinct(c.names) && c.nonstop
    ensures !AtWait(Exec(c, events).fetcher) && !AtWait(Exec(c, events).cooker)
  {
    RunFirstTries(c, events);
  }

  lemma {:induction false} RunUsesStarts(c: Config, run: seq<Event>, start: nat)
    requires Distinct(c.names) && c.nonstop && start <= |run|
    requires forall k :: start <= k <= |run| ==> Exec(c, run[..k]).prompting == Exit.Code()
    ensures var s, t := Exec(c, run[..start]), Exec(c, run);
      && FetchStarts(t.sent) + StartsLeft(t.fetcher) <= FetchStarts(s.sent) + StartsLeft(s.fetcher)
      && CookStarts(t.sent) + StartsLeft(t.cooker) <= CookStarts(s.sent) + StartsLeft(s.cooker)
    decreases |run|
  {
    if start == |run| {
      assert run[..start] == run;
    } else {
      var before := run[..|run| - 1];
      forall k | start <= k <= |before| ensures Exec(c, before[..k]).prompting == Exit.Code() {
        assert before[..k] == run[..k];
      }
      assert before[..start] == run[..start] && before[..|before|] == before;
      RunUsesStarts(c, before, start);
      NonstopNeverWaits(c, before);
      StepUsesStarts(c, Exec(c, before), run[|run| - 1]);
    }
  }

  /** In nonstop mode, while the cell holds Exit, each worker starts at most one more recipe. */
  lemma {:induction false} NonstopExitEndsSoon(c: Config, events: seq<Event>, more: seq<Event>)
    requires Distinct(c.names) && c.nonstop && ExitHolds(c, events, more)
    ensures FetchStarts(Exec(c, events + more).sent) <= FetchStarts(Exec(c, events).sent) + 1
    ensures CookStarts(Exec(c, events + more).sent) <= CookStarts(Exec(c, events).sent) + 1
  {
    var run := events + more;
    forall k | |events| <= k <= |run| ensures Exec(c, run[..k]).prompting == Exit.Code() {
      assert run[..k] == events + more[..k - |events|];
    }
    assert run[..|events|] == events;
    RunUsesStarts(c, run, |events|);
  }

  // ---- From the key to the worker ----

  lemma ExecThree(c: Config, events: seq<Event>, e: Event)
    ensures Exec(c, events + [e]) == Step(c, Exec(c, events), e)
    ensures Exec(c, events + [e, e]) == Step(c, Exec(c, events + [e]), e)
    ensures Exec(c, events + [e, e, e]) == Step(c, Exec(c, events + [e, e]), e)
  {
    assert events + [e, e] == events + [e] + [e] && events + [e, e, e] == events + [e, e] + [e];
    ExecSnoc(c, events, e);
    ExecSnoc(c, events + [e], e);
    ExecSnoc(c, events + [e, e], e);
  }

  lemma FetcherAsks(c: Config, s: State, o: Outcome)
    requires !c.nonstop && s.fetcher.FailedAt? && s.prompting == 0
    ensures var e := FetcherRuns(o);
      Step(c, Step(c, Step(c, s, e), e), e) == s.(fetcher := AwaitAnswer(s.fetcher.i), prompting := 1)
  {
    var e := FetcherRuns(o);
    assert Step(c, s, e) == s.(fetcher := AwaitFree(s.fetcher.i));
    assert Step(c, Step(c, s, e), e) == s.(fetcher := Claiming(s.fetcher.i));
  }

  lemma CookerAsks(c: Config, s: State, o: Outcome)
    requires !c.nonstop && s.cooker.FailedAt? && s.prompting == 0
    ensures var e := CookerRuns(o);
      Step(c, Step(c, Step(c, s, e), e), e) == s.(cooker := AwaitAnswer(s.cooker.i), prompting := 1)
  {
    var e := CookerRuns(o);
    assert Step(c, s, e) == s.(cooker := AwaitFree(s.cooker.i));
    assert Step(c, Step(c, s, e), e) == s.(cooker := Claiming(s.cooker.i));
  }

  lemma Confirmed(c: Config, s: State, choice: PromptOption)
    requires choice != Inspect && s.frame.ReadingKeys? && s.ui.prompt == Some(choice) && !s.ui.inspecting
    ensures var u := Step(c, s, Press(Enter));
      && u.fetcher == s.fetcher && u.cooker == s.cooker && u.prompting == choice.Code() && u.ui.prompt == None
      && (choice == Exit ==> !u.ui.running)
  {}

  /**
   From the failure to the answer: outside nonstop mode a worker whose fetch failed, with the cell
   free, asks; the option the user confirms is what the cell then holds while the worker waits.
   */
  lemma {:induction false} FailedFetchGetsItsAnswer(c: Config, events: seq<Event>, o: Outcome, choice: PromptOption)
    requires !c.nonstop && choice != Inspect
    requires var s := Exec(c, events);
      && s.fetcher.FailedAt? && s.prompting == 0
      && s.frame.ReadingKeys? && s.ui.prompt == Some(choice) && !s.ui.inspecting
    ensures var asks := [FetcherRuns(o), FetcherRuns(o), FetcherRuns(o)];
      var t, u := Exec(c, events + asks), Exec(c, events + asks + [Press(Enter)]);
      && t.fetcher == AwaitAnswer(Exec(c, events).fetcher.i) && t.prompting == 1 && t.sent == Exec(c, events).sent
      && u.fetcher == t.fetcher && u.prompting == choice.Code() && u.ui.prompt == None
      && (choice == Exit ==> !u.ui.running)
  {
    var e := FetcherRuns(o);
    ExecThree(c, events, e);
    FetcherAsks(c, Exec(c, events), o);
    Confirmed(c, Exec(c, events + [e, e, e]), choice);
    ExecSnoc(c, events + [e, e, e], Press(Enter));
  }

  lemma {:induction false} FailedCookGetsItsAnswer(c: Config, events: seq<Event>, o: Outcome, choice: PromptOption)
    requires !c.nonstop && choice != Inspect
    requires var s := Exec(c, events);
      && s.cooker.FailedAt? && s.prompting == 0
      && s.frame.ReadingKeys? && s.ui.prompt == Some(choice) && !s.ui.inspecting
    ensures var asks := [CookerRuns(o), CookerRuns(o), CookerRuns(o)];
      var t, u := Exec(c, events + asks), Exec(c, events + asks + [Press(Enter)]);
      && t.cooker == AwaitAnswer(Exec(c, events).cooker.i) && t.prompting == 1 && t.sent == Exec(c, events).sent
      && u.cooker == t.cooker && u.prompting == choice.Code() && u.ui.prompt == None
      && (choice == Exit ==> !u.ui.running)
  {
    var e := CookerRuns(o);
    ExecThree(c, events, e);
    CookerAsks(c, Exec(c, events), o);
    Confirmed(c, Exec(c, events + [e, e, e]), choice);
    ExecSnoc(c, events + [e, e, e], Press(Enter));
  }
}
