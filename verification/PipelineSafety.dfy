/** Safety of the cook pipeline over every run. */
module PipelineSafety {
  import opened Names
  import opened CookPipeline

  // ---- The invariant ----

  /** Recipe `i` is in the fetcher's hands and has not been handed over. */
  predicate InFetcher(s: State, i: nat) {
    s.fetcher.Busy() && !s.fetcher.HandedOver? && s.fetcher.i == i
  }

  ghost predicate FetchPhase(w: Worker, p: Phase)
    requires w.Busy()
  {
    if w.Starting? then p.NotStarted? || p.FetchFailed?
    else if w.Running? then p.InFetch?
    else if w.Succeeded? then p.FetchDone?
    else p.FetchFailed?
  }

  ghost predicate CookPhase(w: Worker, p: Phase)
    requires w.Busy()
  {
    if w.Starting? then p.FetchDone? || p.CookFailed?
    else if w.Running? then p.InCook?
    else if w.HandedOver? then p.Settled?
    else p.CookFailed?
  }

  /** What the program counters say about the phase recipe `i` is in. */
  ghost predicate Fits(s: State, i: nat, p: Phase)
    requires s.taken <= |s.work|
  {
    if i >= s.next then p.NotStarted?
    else if InFetcher(s, i) then FetchPhase(s.fetcher, p)
    else if i !in s.work then p.FetchFailed? || (p.FetchDone? && s.fetcher.Gone() && s.cooker.Gone())
    else if i in s.work[s.taken..] then p.FetchDone?
    else if s.cooker.Busy() && s.cooker.i == i then CookPhase(s.cooker, p)
    else p.Settled? || p.CookFailed?
  }

  /** How the iterator, the work channel and the two workers line up. */
  ghost predicate Aligned(c: Config, s: State) {
    && s.next <= |c.names| && s.taken <= |s.work|
    && (forall a, b :: 0 <= a < b < |s.work| ==> s.work[a] < s.work[b])
    && (forall a :: 0 <= a < |s.work| ==> s.work[a] < s.next)
    && (s.fetcher.Busy() ==> s.fetcher.i + 1 == s.next)
    && (s.fetcher.Busy() && !s.fetcher.HandedOver? ==> s.fetcher.i !in s.work)
    && (s.fetcher.HandedOver? ==> s.fetcher.i in s.work)
    && (s.cooker.Busy() ==> s.taken > 0 && s.cooker.i == s.work[s.taken - 1])
    && !s.cooker.Succeeded?
  }

  ghost predicate PromptSafe(s: State) {
    && s.prompting <= 4
    && !s.fetcher.Panicked? && !s.cooker.Panicked?
    && (s.fetcher.Answered? ==> 2 <= s.fetcher.answer <= 4)
    && (s.cooker.Answered? ==> 2 <= s.cooker.answer <= 4)
  }

  ghost predicate UiAgrees(c: Config, s: State) {
    && s.received <= |s.sent|
    && |s.ui.status| == |c.names|
    && (s.frame.Stopped? ==> !s.ui.running)
    && forall i :: 0 <= i < |c.names| ==> PhaseOf(c.names, s.sent[..s.received], i).Shows(s.ui.status[i])
  }

  ghost predicate Inv(c: Config, s: State) {
    && Aligned(c, s)
    && PromptSafe(s)
    && (forall i :: 0 <= i < |c.names| ==> Fits(s, i, PhaseOf(c.names, s.sent, i)))
  }

  // ---- Worker steps keep the invariant ----

  /** The worker is at a step that concerns the prompt cell. */
  predicate AtPrompt(w: Worker) {
    w.HandedOver? || w.FailedAt? || w.AwaitFree? || w.Claiming? || w.AwaitAnswer? || w.Answered?
  }

  /** A worker at the prompt cell holds its recipe, goes for it again, or lets it go. */
  lemma PromptShape(nonstop: bool, w: Worker, p: nat)
    requires AtPrompt(w)
    requires p <= 4 && (w.Answered? ==> 2 <= w.answer <= 4)
    ensures var (w', p') := PromptStep(nonstop, w, p);
      && p' <= 4
      && (w'.Answered? ==> 2 <= w'.answer <= 4)
      && (w'.Idle? || w'.Leaving?
          || (!w.HandedOver? && w'.Busy() && w'.i == w.i && !w'.Running? && !w'.Succeeded? && !w'.HandedOver?))
  {}

  /** The prompt cell stays within 0..4 and the fetcher never reaches its `unreachable!()` arm. */
  lemma {:induction false} FetcherKeepsPromptSafe(c: Config, s: State, o: Outcome)
    requires PromptSafe(s)
    ensures PromptSafe(FetcherStep(c, s, o))
  {
    if AtPrompt(s.fetcher) {
      PromptShape(c.nonstop, s.fetcher, s.prompting);
    }
  }

  lemma {:induction false} CookerKeepsPromptSafe(c: Config, s: State, o: Outcome)
    requires PromptSafe(s)
    ensures PromptSafe(CookerStep(c, s, o))
  {
    if AtPrompt(s.cooker) {
      PromptShape(c.nonstop, s.cooker, s.prompting);
    }
  }

  lemma FetcherPromptAligned(c: Config, s: State, o: Outcome)
    requires Aligned(c, s) && PromptSafe(s) && AtPrompt(s.fetcher)
    ensures Aligned(c, FetcherStep(c, s, o))
  {
    PromptShape(c.nonstop, s.fetcher, s.prompting);
    var (w, p) := PromptStep(c.nonstop, s.fetcher, s.prompting);
    assert FetcherStep(c, s, o) == s.(fetcher := w, prompting := p);
  }

  lemma FetcherJobAligned(c: Config, s: State, o: Outcome)
    requires Aligned(c, s) && PromptSafe(s) && !AtPrompt(s.fetcher)
    ensures Aligned(c, FetcherStep(c, s, o))
  {}

  lemma FetcherKeepsAligned(c: Config, s: State, o: Outcome)
    requires Aligned(c, s) && PromptSafe(s)
    ensures Aligned(c, FetcherStep(c, s, o))
  {
    if AtPrompt(s.fetcher) {
      FetcherPromptAligned(c, s, o);
    } else {
      FetcherJobAligned(c, s, o);
    }
  }

  lemma CookerPromptAligned(c: Config, s: State, o: Outcome)
    requires Aligned(c, s) && PromptSafe(s) && AtPrompt(s.cooker)
    ensures Aligned(c, CookerStep(c, s, o))
  {
    PromptShape(c.nonstop, s.cooker, s.prompting);
    var (w, p) := PromptStep(c.nonstop, s.cooker, s.prompting);
    assert CookerStep(c, s, o) == s.(cooker := w, prompting := p);
  }

  lemma CookerJobAligned(c: Config, s: State, o: Outcome)
    requires Aligned(c, s) && PromptSafe(s) && !AtPrompt(s.cooker)
    ensures Aligned(c, CookerStep(c, s, o))
  {}

  lemma CookerKeepsAligned(c: Config, s: State, o: Outcome)
    requires Aligned(c, s) && PromptSafe(s)
    ensures Aligned(c, CookerStep(c, s, o))
  {
    if AtPrompt(s.cooker) {
      CookerPromptAligned(c, s, o);
    } else {
      CookerJobAligned(c, s, o);
    }
  }

  /** The phase of recipe `i` after a fetcher step, given its phase before. */
  ghost function FetcherMoves(c: Config, s: State, o: Outcome, i: nat, p: Phase): Phase
    requires i < |c.names|
  {
    if s.fetcher.Starting? && s.fetcher.i == i then p.After(StartFetch(c.names[i]))
    else if s.fetcher.Running? && s.fetcher.i == i then
      p.After(if o.Success? then FetchedOk(c.names[i]) else FailFetch(c.names[i], o.error))
    else p
  }

  ghost function CookerMoves(c: Config, s: State, o: Outcome, i: nat, p: Phase): Phase
    requires i < |c.names|
  {
    if s.cooker.Starting? && s.cooker.i == i then p.After(StartCook(c.names[i]))
    else if s.cooker.Running? && s.cooker.i == i then
      p.After(if o.Success? then Cooked(c.names[i], o.cached) else FailCook(c.names[i], o.error))
    else p
  }

  /** The message a worker step sends, if any, is about the recipe the worker holds. */
  lemma FetcherPhases(c: Config, s: State, o: Outcome, i: nat)
    requires Distinct(c.names) && Aligned(c, s) && i < |c.names|
    ensures PhaseOf(c.names, FetcherStep(c, s, o).sent, i)
            == FetcherMoves(c, s, o, i, PhaseOf(c.names, s.sent, i))
  {
    match s.fetcher {
      case Starting(j) => PhaseOfAppend(c.names, s.sent, StartFetch(c.names[j]), i);
      case Running(j) =>
        PhaseOfAppend(c.names, s.sent, if o.Success? then FetchedOk(c.names[j]) else FailFetch(c.names[j], o.error), i);
      case Leaving => PhaseOfAppend(c.names, s.sent, FetchThreadFinished, i);
      case _ =>
    }
  }

  lemma CookerPhases(c: Config, s: State, o: Outcome, i: nat)
    requires Distinct(c.names) && Aligned(c, s) && i < |c.names|
    ensures PhaseOf(c.names, CookerStep(c, s, o).sent, i)
            == CookerMoves(c, s, o, i, PhaseOf(c.names, s.sent, i))
  {
    match s.cooker {
      case Starting(j) => PhaseOfAppend(c.names, s.sent, StartCook(c.names[j]), i);
      case Running(j) =>
        var m := if o.Success? then Cooked(c.names[j], o.cached) else FailCook(c.names[j], o.error);
        PhaseOfAppend(c.names, s.sent, m, i);
      case Closed => PhaseOfAppend(c.names, s.sent, CookThreadFinished, i);
      case _ =>
    }
  }

  lemma FetcherJobFits(c: Config, s: State, o: Outcome, i: nat, p: Phase)
    requires Aligned(c, s) && i < |c.names| && Fits(s, i, p)
    requires s.fetcher.Starting? || s.fetcher.Running?
    ensures Fits(FetcherStep(c, s, o), i, FetcherMoves(c, s, o, i, p))
  {}

  lemma FetcherEndFits(c: Config, s: State, o: Outcome, i: nat, p: Phase)
    requires Aligned(c, s) && i < |c.names| && Fits(s, i, p)
    requires s.fetcher.Gone()
    ensures Fits(FetcherStep(c, s, o), i, p)
  {
    var s' := FetcherStep(c, s, o);
    assert s' == s.(fetcher := s'.fetcher, sent := s'.sent) && s'.fetcher.Gone();
  }

  lemma FetcherTakeFits(c: Config, s: State, o: Outcome, i: nat, p: Phase)
    requires Aligned(c, s) && i < |c.names| && Fits(s, i, p)
    requires s.fetcher.Idle?
    ensures Fits(FetcherStep(c, s, o), i, p)
  {}

  lemma FetcherHandOverFits(c: Config, s: State, o: Outcome, i: nat, p: Phase)
    requires Aligned(c, s) && i < |c.names| && Fits(s, i, p)
    requires s.fetcher.Succeeded?
    ensures Fits(FetcherStep(c, s, o), i, p)
  {
    if !s.cooker.HungUp() {
      assert (s.work + [s.fetcher.i])[s.taken..] == s.work[s.taken..] + [s.fetcher.i];
    }
  }

  lemma FetcherPromptFits(c: Config, s: State, o: Outcome, i: nat, p: Phase)
    requires Aligned(c, s) && PromptSafe(s) && i < |c.names| && Fits(s, i, p)
    requires s.fetcher.Busy() && !s.fetcher.Starting? && !s.fetcher.Running? && !s.fetcher.Succeeded?
    ensures Fits(FetcherStep(c, s, o), i, p)
  {
    PromptShape(c.nonstop, s.fetcher, s.prompting);
    var (w, q) := PromptStep(c.nonstop, s.fetcher, s.prompting);
    assert FetcherStep(c, s, o) == s.(fetcher := w, prompting := q);
  }

  lemma {:induction false} FetcherKeepsInv(c: Config, s: State, o: Outcome)
    requires Distinct(c.names) && Inv(c, s)
    ensures Inv(c, FetcherStep(c, s, o))
  {
    FetcherKeepsPromptSafe(c, s, o);
    FetcherKeepsAligned(c, s, o);
    var s' := FetcherStep(c, s, o);
    forall i | 0 <= i < |c.names|
      ensures Fits(s', i, PhaseOf(c.names, s'.sent, i))
    {
      FetcherPhases(c, s, o, i);
      var p := PhaseOf(c.names, s.sent, i);
      if s.fetcher.Succeeded? {
        FetcherHandOverFits(c, s, o, i, p);
      } else if s.fetcher.Busy() && !s.fetcher.Starting? && !s.fetcher.Running? {
        FetcherPromptFits(c, s, o, i, p);
      } else if s.fetcher.Idle? {
        FetcherTakeFits(c, s, o, i, p);
      } else if s.fetcher.Gone() {
        FetcherEndFits(c, s, o, i, p);
      } else {
        FetcherJobFits(c, s, o, i, p);
      }
    }
  }

  lemma CookerTakeFits(c: Config, s: State, o: Outcome, i: nat, p: Phase)
    requires Aligned(c, s) && i < |c.names| && Fits(s, i, p)
    requires s.cooker.Idle?
    ensures Fits(CookerStep(c, s, o), i, p)
  {
    if s.taken < |s.work| {
      assert s.work[s.taken..] == [s.work[s.taken]] + s.work[s.taken + 1..];
    }
  }

  lemma CookerJobFits(c: Config, s: State, o: Outcome, i: nat, p: Phase)
    requires Aligned(c, s) && i < |c.names| && Fits(s, i, p)
    requires s.cooker.Starting? || s.cooker.Running?
    ensures Fits(CookerStep(c, s, o), i, CookerMoves(c, s, o, i, p))
  {}

  lemma CookerEndFits(c: Config, s: State, o: Outcome, i: nat, p: Phase)
    requires Aligned(c, s) && i < |c.names| && Fits(s, i, p)
    requires s.cooker.Gone()
    ensures Fits(CookerStep(c, s, o), i, p)
  {
    var s' := CookerStep(c, s, o);
    assert s' == s.(cooker := s'.cooker, sent := s'.sent) && s'.cooker.Gone();
  }

  /** A cooker that acts on the prompt cell holds its recipe or lets it go; neither moves a phase. */
  lemma CookerAtPromptFits(s: State, w: Worker, q: nat, i: nat, p: Phase)
    requires s.taken <= |s.work| && Fits(s, i, p)
    requires s.cooker.Busy() && !s.cooker.Starting? && !s.cooker.Running?
    requires || w.Idle? || w.Leaving?
             || (!s.cooker.HandedOver? && w.Busy() && w.i == s.cooker.i
                 && !w.Running? && !w.Succeeded? && !w.HandedOver?)
    ensures Fits(s.(cooker := w, prompting := q), i, p)
  {}

  lemma CookerPromptFits(c: Config, s: State, o: Outcome, i: nat, p: Phase)
    requires Aligned(c, s) && PromptSafe(s) && i < |c.names| && Fits(s, i, p)
    requires s.cooker.Busy() && !s.cooker.Starting? && !s.cooker.Running?
    ensures Fits(CookerStep(c, s, o), i, p)
  {
    PromptShape(c.nonstop, s.cooker, s.prompting);
    var (w, q) := PromptStep(c.nonstop, s.cooker, s.prompting);
    CookerAtPromptFits(s, w, q, i, p);
    assert CookerStep(c, s, o) == s.(cooker := w, prompting := q);
  }

  lemma {:induction false} CookerKeepsInv(c: Config, s: State, o: Outcome)
    requires Distinct(c.names) && Inv(c, s)
    ensures Inv(c, CookerStep(c, s, o))
  {
    CookerKeepsPromptSafe(c, s, o);
    CookerKeepsAligned(c, s, o);
    var s' := CookerStep(c, s, o);
    forall i | 0 <= i < |c.names|
      ensures Fits(s', i, PhaseOf(c.names, s'.sent, i))
    {
      CookerPhases(c, s, o, i);
      var p := PhaseOf(c.names, s.sent, i);
      if s.cooker.Idle? {
        CookerTakeFits(c, s, o, i, p);
      } else if s.cooker.Busy() && !s.cooker.Starting? && !s.cooker.Running? {
        CookerPromptFits(c, s, o, i, p);
      } else if s.cooker.Gone() {
        CookerEndFits(c, s, o, i, p);
      } else {
        CookerJobFits(c, s, o, i, p);
      }
    }
  }

  // ---- UI steps ----

  /** A UI step touches neither worker and neither channel's contents. */
  lemma UiStepKeepsWorkers(c: Config, s: State, e: Event)
    requires !e.FetcherRuns? && !e.CookerRuns? && !e.LogArrives? && !e.LogFlushes?
    ensures var s' := UiStep(c, s, e);
      && s' == s.(received := s'.received, ui := s'.ui, prompting := s'.prompting, frame := s'.frame)
      && (s'.prompting == s.prompting || 2 <= s'.prompting <= 4)
  {}

  /** Only a delivered message changes the statuses. */
  lemma UiStepDelivers(c: Config, s: State, e: Event)
    requires !e.FetcherRuns? && !e.CookerRuns? && !e.LogArrives? && !e.LogFlushes?
    ensures var s' := UiStep(c, s, e);
      if e.Deliver? && s.frame.Draining? && s.received < |s.sent| then
        s' == s.(received := s.received + 1, ui := UpdateStatus(c.names, s.ui, s.sent[s.received]))
      else s'.received == s.received && s'.ui.status == s.ui.status && s'.ui.cookComplete == s.ui.cookComplete
    ensures (s.frame.Stopped? ==> !s.ui.running) ==> (UiStep(c, s, e).frame.Stopped? ==> !UiStep(c, s, e).ui.running)
  {}

  lemma {:induction false} UiKeepsInv(c: Config, s: State, e: Event)
    requires Inv(c, s)
    requires !e.FetcherRuns? && !e.CookerRuns? && !e.LogArrives? && !e.LogFlushes?
    ensures Inv(c, UiStep(c, s, e))
  {
    var s' := UiStep(c, s, e);
    UiStepKeepsWorkers(c, s, e);
    forall i | 0 <= i < |c.names|
      ensures Fits(s', i, PhaseOf(c.names, s'.sent, i))
    {
      assert Fits(s, i, PhaseOf(c.names, s.sent, i));
    }
  }

  lemma StepKeepsInv(c: Config, s: State, e: Event)
    requires Distinct(c.names) && Inv(c, s)
    ensures Inv(c, Step(c, s, e))
  {
    match e {
      case FetcherRuns(o) => FetcherKeepsInv(c, s, o);
      case CookerRuns(o) => CookerKeepsInv(c, s, o);
      case LogArrives(n, chunk) => LogKeepsInv(c, s, PushLog(n, chunk));
      case LogFlushes(n) => LogKeepsInv(c, s, FlushLog(n));
      case _ => UiKeepsInv(c, s, e);
    }
  }

  lemma LogKeepsInv(c: Config, s: State, m: Msg)
    requires Inv(c, s) && !m.IsStatus()
    ensures Inv(c, s.(sent := s.sent + [m]))
  {
    var s' := s.(sent := s.sent + [m]);
    forall i | 0 <= i < |c.names|
      ensures Fits(s', i, PhaseOf(c.names, s'.sent, i))
    {
      PhaseOfAppend(c.names, s.sent, m, i);
      assert Fits(s, i, PhaseOf(c.names, s.sent, i));
    }
  }

  /** Every step only ever appends to the status log and to the work channel. */
  lemma StepExtendsLog(c: Config, s: State, e: Event)
    ensures |s.sent| <= |Step(c, s, e).sent| <= |s.sent| + 1
    ensures s.sent == Step(c, s, e).sent[..|s.sent|]
    ensures s.received <= Step(c, s, e).received <= s.received + 1
  {}

  /** Delivering one legal message updates exactly the recipe it is about. */
  lemma DeliverShows(c: Config, ui: Ui, log: seq<Msg>, m: Msg)
    requires Distinct(c.names) && |ui.status| == |c.names|
    requires forall i :: 0 <= i < |c.names| ==> PhaseOf(c.names, log, i).Shows(ui.status[i])
    requires forall i :: 0 <= i < |c.names| ==> PhaseOf(c.names, log + [m], i) != Illegal
    ensures var ui' := UpdateStatus(c.names, ui, m);
      |ui'.status| == |c.names|
      && forall i :: 0 <= i < |c.names| ==> PhaseOf(c.names, log + [m], i).Shows(ui'.status[i])
  {
    var ui' := UpdateStatus(c.names, ui, m);
    forall i | 0 <= i < |c.names|
      ensures PhaseOf(c.names, log + [m], i).Shows(ui'.status[i])
    {
      PhaseOfAppend(c.names, log, m, i);
      assert PhaseOf(c.names, log + [m], i) != Illegal;
      if m.IsStatus() && m.name == c.names[i] {
        var k := IndexOf(c.names, m.name);
        assert k == Some(i);
      }
    }
  }

  lemma {:induction false} StepKeepsUi(c: Config, s: State, e: Event)
    requires Distinct(c.names) && Inv(c, s) && UiAgrees(c, s)
    ensures UiAgrees(c, Step(c, s, e))
  {
    var s' := Step(c, s, e);
    StepExtendsLog(c, s, e);
    assert s'.sent[..s.received] == s.sent[..s.received];
    if !e.FetcherRuns? && !e.CookerRuns? && !e.LogArrives? && !e.LogFlushes? {
      UiStepKeepsWorkers(c, s, e);
      UiStepDelivers(c, s, e);
      if s'.received > s.received {
        DeliveredShows(c, s);
      }
    }
  }

  lemma DeliveredShows(c: Config, s: State)
    requires Distinct(c.names) && Inv(c, s) && UiAgrees(c, s) && s.received < |s.sent|
    ensures UiAgrees(c, s.(received := s.received + 1, ui := UpdateStatus(c.names, s.ui, s.sent[s.received])))
  {
    var m := s.sent[s.received];
    assert s.sent[..s.received + 1] == s.sent[..s.received] + [m];
    forall i | 0 <= i < |c.names|
      ensures PhaseOf(c.names, s.sent[..s.received] + [m], i) != Illegal
    {
      assert Fits(s, i, PhaseOf(c.names, s.sent, i));
      IllegalIsForever(c.names, s.sent, s.received + 1, i);
    }
    DeliverShows(c, s.ui, s.sent[..s.received], m);
  }

  // ---- Main results over every run ----

  lemma {:induction false} RunInv(c: Config, events: seq<Event>)
    requires Distinct(c.names)
    ensures Inv(c, Exec(c, events)) && UiAgrees(c, Exec(c, events))
    decreases |events|
  {
    if events != [] {
      var before := events[..|events| - 1];
      RunInv(c, before);
      StepKeepsInv(c, Exec(c, before), events[|events| - 1]);
      StepKeepsUi(c, Exec(c, before), events[|events| - 1]);
    }
  }

  /**
   With any answers at all, in every interleaving: the prompt cell holds 0..4 and neither worker
   takes the `unreachable!()` arm of its wait loop.
   */
  lemma {:induction false} NoWorkerPanics(c: Config, events: seq<Event>)
    ensures Exec(c, events).prompting <= 4
    ensures !Exec(c, events).fetcher.Panicked? && !Exec(c, events).cooker.Panicked?
  {
    RunPromptSafe(c, events);
  }

  lemma {:induction false} RunPromptSafe(c: Config, events: seq<Event>)
    ensures PromptSafe(Exec(c, events))
    decreases |events|
  {
    if events != [] {
      var before := events[..|events| - 1];
      RunPromptSafe(c, before);
      var e := events[|events| - 1];
      if e.FetcherRuns? {
        FetcherKeepsPromptSafe(c, Exec(c, before), e.outcome);
      } else if e.CookerRuns? {
        CookerKeepsPromptSafe(c, Exec(c, before), e.outcome);
      }
    }
  }

  /**
   In every interleaving each recipe's shown status is where the legal path has got to, and every
   message delivered or still queued continues that path.
   */
  lemma {:induction false} StatusesFollowThePath(c: Config, events: seq<Event>, i: nat, k: nat)
    requires Distinct(c.names) && i < |c.names|
    requires k <= |Exec(c, events).sent|
    ensures PhaseOf(c.names, Exec(c, events).sent[..k], i) != Illegal
    ensures var s := Exec(c, events);
      s.received <= |s.sent| && |s.ui.status| == |c.names|
      && PhaseOf(c.names, s.sent[..s.received], i).Shows(s.ui.status[i])
  {
    RunInv(c, events);
    var s := Exec(c, events);
    assert Fits(s, i, PhaseOf(c.names, s.sent, i));
    IllegalIsForever(c.names, s.sent, k, i);
  }

  // ---- No way back ----

  /** How far along its path a phase is; a retry keeps the rank. */
  function Rank(p: Phase): nat {
    match p
    case NotStarted => 0
    case InFetch => 1
    case FetchFailed(_) => 1
    case FetchDone => 2
    case InCook => 3
    case CookFailed(_) => 3
    case Settled(_) => 4
    case Illegal => 5
  }

  lemma {:induction false} RankNeverDrops(names: seq<PackageName>, log: seq<Msg>, k: nat, i: nat)
    requires i < |names| && k <= |log|
    requires PhaseOf(names, log, i) != Illegal
    ensures Rank(PhaseOf(names, log[..k], i)) <= Rank(PhaseOf(names, log, i))
    ensures PhaseOf(names, log[..k], i).Settled? ==> PhaseOf(names, log, i) == PhaseOf(names, log[..k], i)
    decreases |log|
  {
    if k == |log| {
      assert log[..k] == log;
    } else {
      var shorter := log[..|log| - 1];
      RankNeverDrops(names, shorter, k, i);
      assert shorter[..k] == log[..k];
    }
  }

  lemma {:induction false} LongerRunLongerLog(c: Config, events: seq<Event>, more: seq<Event>)
    ensures var s, t := Exec(c, events), Exec(c, events + more);
      |s.sent| <= |t.sent| && s.sent == t.sent[..|s.sent|] && s.received <= t.received
    decreases |more|
  {
    if more == [] {
      assert events + more == events;
    } else {
      var last := |more| - 1;
      LongerRunLongerLog(c, events, more[..last]);
      assert (events + more)[..|events + more| - 1] == events + more[..last];
      StepExtendsLog(c, Exec(c, events + more[..last]), more[last]);
      var s, m, t := Exec(c, events), Exec(c, events + more[..last]), Exec(c, events + more);
      assert t.sent[..|s.sent|] == t.sent[..|m.sent|][..|s.sent|];
    }
  }

  /**
   However a run continues, a recipe shown as fetched or later never shows Pending or Fetching
   again, and a cached or built recipe keeps that status for good.
   */
  lemma {:induction false} StatusNeverGoesBack(c: Config, events: seq<Event>, more: seq<Event>, i: nat)
    requires Distinct(c.names) && i < |c.names|
    ensures |Exec(c, events).ui.status| == |Exec(c, events + more).ui.status| == |c.names|
    ensures var a, b := Exec(c, events).ui.status[i], Exec(c, events + more).ui.status[i];
      && (a.Fetched? || a.Cooking? || a.Cached? || a.Done? ==> !b.Pending? && !b.Fetching?)
      && (a.Cached? || a.Done? ==> b == a)
      && (!a.Pending? ==> !b.Pending?)
  {
    RunInv(c, events);
    RunInv(c, events + more);
    LongerRunLongerLog(c, events, more);
    var s, t := Exec(c, events), Exec(c, events + more);
    var shown := t.sent[..t.received];
    assert shown[..s.received] == s.sent[..s.received];
    StatusesFollowThePath(c, events + more, i, t.received);
    StatusesFollowThePath(c, events, i, s.received);
    RankNeverDrops(c.names, shown, s.received, i);
  }

  // ---- Every recipe is accounted for when the cooker is done ----

  /** Nothing has been abandoned: the threads only end by running out of work. */
  ghost predicate Orderly(c: Config, s: State) {
    && s.prompting != 4
    && (s.fetcher.Answered? ==> s.fetcher.answer != 4)
    && (s.cooker.Answered? ==> s.cooker.answer != 4)
    && (s.fetcher.Gone() ==> s.next == |c.names|)
    && (s.cooker.Gone() ==> s.fetcher.Finished? && s.taken == |s.work|)
    && s.received <= |s.sent|
    && (!s.ui.running ==> s.ui.cookComplete)
    && (s.ui.cookComplete ==> exists k :: 0 <= k < s.received && s.sent[k].CookThreadFinished?)
    && (forall k :: 0 <= k < |s.sent| && s.sent[k].CookThreadFinished? ==>
          s.cooker.Finished? && forall q :: k <= q < |s.sent| ==> !s.sent[q].IsStatus())
  }

  /** A fetched recipe is on the work channel or still in the fetcher's hands. */
  ghost predicate NothingDropped(c: Config, s: State) {
    forall i :: 0 <= i < |c.names| && i !in s.work && PhaseOf(c.names, s.sent, i).FetchDone? ==>
      s.fetcher.Succeeded? && s.fetcher.i == i
  }

  lemma {:induction false} StepKeepsNothingDropped(c: Config, s: State, e: Event)
    requires Distinct(c.names) && Inv(c, s) && Orderly(c, s) && NothingDropped(c, s)
    ensures NothingDropped(c, Step(c, s, e))
  {
    var s' := Step(c, s, e);
    forall i | 0 <= i < |c.names| && i !in s'.work && PhaseOf(c.names, s'.sent, i).FetchDone?
      ensures s'.fetcher.Succeeded? && s'.fetcher.i == i
    {
      match e {
        case FetcherRuns(o) => FetcherDropsNothing(c, s, o, i);
        case CookerRuns(o) => CookerPhases(c, s, o, i);
        case LogArrives(n, chunk) => PhaseOfAppend(c.names, s.sent, PushLog(n, chunk), i);
        case LogFlushes(n) => PhaseOfAppend(c.names, s.sent, FlushLog(n), i);
        case _ => UiStepKeepsWorkers(c, s, e);
      }
    }
  }

  lemma FetcherDropsNothing(c: Config, s: State, o: Outcome, i: nat)
    requires Distinct(c.names) && Inv(c, s) && Orderly(c, s) && NothingDropped(c, s) && i < |c.names|
    requires i !in FetcherStep(c, s, o).work && PhaseOf(c.names, FetcherStep(c, s, o).sent, i).FetchDone?
    ensures FetcherStep(c, s, o).fetcher.Succeeded? && FetcherStep(c, s, o).fetcher.i == i
  {
    FetcherPhases(c, s, o, i);
    assert i !in s.work;
  }

  lemma FetcherKeepsOrderly(c: Config, s: State, o: Outcome)
    requires Inv(c, s) && Orderly(c, s)
    ensures Orderly(c, FetcherStep(c, s, o))
  {}

  lemma CookerKeepsOrderly(c: Config, s: State, o: Outcome)
    requires Inv(c, s) && Orderly(c, s)
    ensures Orderly(c, CookerStep(c, s, o))
  {}

  /** The UI loop stops only after the end message, or an Exit answer. */
  lemma UiStopsInOrder(c: Config, s: State, e: Event)
    requires !e.FetcherRuns? && !e.CookerRuns? && !e.LogArrives? && !e.LogFlushes?
    requires (!s.ui.running ==> s.ui.cookComplete) && UiStep(c, s, e).prompting != 4
    ensures !UiStep(c, s, e).ui.running ==> UiStep(c, s, e).ui.cookComplete
  {}

  lemma UiKeepsOrderly(c: Config, s: State, e: Event)
    requires Inv(c, s) && Orderly(c, s)
    requires !e.FetcherRuns? && !e.CookerRuns? && !e.LogArrives? && !e.LogFlushes?
    requires UiStep(c, s, e).prompting != 4
    ensures Orderly(c, UiStep(c, s, e))
  {
    var s' := UiStep(c, s, e);
    UiStepKeepsWorkers(c, s, e);
    UiStepDelivers(c, s, e);
    UiStopsInOrder(c, s, e);
    if s.ui.cookComplete {
      var k :| 0 <= k < s.received && s.sent[k].CookThreadFinished?;
      assert s'.sent[k].CookThreadFinished?;
    } else if s'.ui.cookComplete {
      assert s'.sent[s.received].CookThreadFinished?;
    }
  }

  lemma LogKeepsOrderly(c: Config, s: State, m: Msg)
    requires Orderly(c, s) && (m.PushLog? || m.FlushLog?)
    ensures Orderly(c, s.(sent := s.sent + [m]))
  {
    var s' := s.(sent := s.sent + [m]);
    if s.ui.cookComplete {
      var k :| 0 <= k < s.received && s.sent[k].CookThreadFinished?;
      assert s'.sent[k].CookThreadFinished?;
    }
  }

  lemma {:induction false} RunOrderly(c: Config, events: seq<Event>)
    requires Distinct(c.names) && NoExit(c, events)
    ensures Orderly(c, Exec(c, events)) && NothingDropped(c, Exec(c, events))
    decreases |events|
  {
    if events != [] {
      var before := events[..|events| - 1];
      forall k | 0 <= k <= |before| ensures Exec(c, before[..k]).prompting != 4 {
        assert before[..k] == events[..k];
      }
      RunOrderly(c, before);
      RunInv(c, before);
      assert events[..|events|] == events;
      var e := events[|events| - 1];
      StepKeepsNothingDropped(c, Exec(c, before), e);
      if e.FetcherRuns? {
        FetcherKeepsOrderly(c, Exec(c, before), e.outcome);
      } else if e.CookerRuns? {
        CookerKeepsOrderly(c, Exec(c, before), e.outcome);
      } else if e.LogArrives? {
        LogKeepsOrderly(c, Exec(c, before), PushLog(e.name, e.chunk));
      } else if e.LogFlushes? {
        LogKeepsOrderly(c, Exec(c, before), FlushLog(e.name));
      } else {
        UiKeepsOrderly(c, Exec(c, before), e);
      }
    }
  }

  lemma CompleteMeansOver(c: Config, s: State, i: nat)
    requires Inv(c, s) && Orderly(c, s) && NothingDropped(c, s) && UiAgrees(c, s)
    requires s.ui.cookComplete && i < |c.names|
    ensures s.ui.status[i].Cached? || s.ui.status[i].Done? || s.ui.status[i].Failed?
  {
    var k :| 0 <= k < s.received && s.sent[k].CookThreadFinished?;
    PhaseOfQuietTail(c.names, s.sent, s.received, i);
    var p := PhaseOf(c.names, s.sent, i);
    assert Fits(s, i, p);
    assert p == PhaseOf(c.names, s.sent[..s.received], i) && p.Over();
  }

  /**
   In every interleaving without an Exit answer: once the UI has received `CookThreadFinished`,
   and in particular once its loop has stopped, every recipe shows Cached, Done or Failed, so
   the summary's `unreachable!()` arm is never taken.
   */
  lemma {:induction false} FinishedRunsAreComplete(c: Config, events: seq<Event>)
    requires Distinct(c.names) && NoExit(c, events)
    ensures Exec(c, events).frame.Stopped? ==> !Exec(c, events).ui.running
    ensures var ui := Exec(c, events).ui;
      && (!ui.running ==> ui.cookComplete)
      && |ui.status| == |c.names|
      && (ui.cookComplete ==>
            forall i :: 0 <= i < |c.names| ==> ui.status[i].Cached? || ui.status[i].Done? || ui.status[i].Failed?)
  {
    RunOrderly(c, events);
    RunInv(c, events);
    if Exec(c, events).ui.cookComplete {
      forall i | 0 <= i < |c.names| {
        CompleteMeansOver(c, Exec(c, events), i);
      }
    }
  }

  // ---- Recipes are cooked in list order ----

  /**
   Everything before recipe `i` in the list is over at position `p` of the log: its last status
   message came earlier and was a success, a given-up cook or a given-up fetch.
   */
  ghost predicate EarlierAreOver(c: Config, log: seq<Msg>, p: nat, i: nat)
    requires p <= |log| && i < |c.names|
  {
    forall j :: 0 <= j < i ==>
      PhaseOf(c.names, log[..p], j).Over() && forall q :: p <= q < |log| ==> !About(c.names, log[q], j)
  }

  ghost predicate InOrder(c: Config, s: State) {
    s.taken <= |s.work|
    && forall p, i :: 0 <= p < |s.sent| && 0 <= i < |c.names| && s.sent[p] == StartCook(c.names[i]) ==>
         EarlierAreOver(c, s.sent, p, i) && i in s.work[..s.taken]
  }

  /** Just before the cooker announces recipe `i`, every earlier recipe is over. */
  lemma StartFindsEarlierOver(c: Config, s: State, j: nat)
    requires Inv(c, s) && s.cooker.Starting? && j < s.cooker.i < |c.names|
    ensures PhaseOf(c.names, s.sent, j).Over()
  {
    assert Fits(s, j, PhaseOf(c.names, s.sent, j));
  }

  /** A status message sent by a step is about a recipe no earlier than anything started. */
  lemma SentIsNotEarlier(c: Config, s: State, e: Event, i: nat, j: nat)
    requires Distinct(c.names) && Inv(c, s) && i in s.work[..s.taken] && j < i < |c.names|
    requires |Step(c, s, e).sent| == |s.sent| + 1
    ensures !About(c.names, Step(c, s, e).sent[|s.sent|], j)
  {
    var a :| 0 <= a < s.taken && s.work[a] == i;
    if e.CookerRuns? && s.cooker.Busy() {
      assert a < s.taken - 1 ==> s.work[a] < s.work[s.taken - 1];
    }
  }

  lemma OldStartsStay(c: Config, s: State, e: Event, p: nat, i: nat)
    requires Distinct(c.names) && Inv(c, s) && i < |c.names| && p < |s.sent|
    requires EarlierAreOver(c, s.sent, p, i) && i in s.work[..s.taken]
    requires p <= |Step(c, s, e).sent|
    ensures EarlierAreOver(c, Step(c, s, e).sent, p, i)
  {
    StepExtendsLog(c, s, e);
    var log' := Step(c, s, e).sent;
    assert log'[..p] == s.sent[..p];
    forall j, q | 0 <= j < i && p <= q < |log'| ensures !About(c.names, log'[q], j) {
      if q < |s.sent| {
        assert PhaseOf(c.names, s.sent[..p], j).Over();
        assert log'[q] == s.sent[q];
      } else {
        assert q == |s.sent|;
        SentIsNotEarlier(c, s, e, i, j);
      }
    }
  }

  lemma NewStartFollows(c: Config, s: State)
    requires Distinct(c.names) && Inv(c, s) && s.cooker.Starting? && s.cooker.i < |c.names|
    ensures EarlierAreOver(c, s.sent + [StartCook(c.names[s.cooker.i])], |s.sent|, s.cooker.i)
  {
    var log' := s.sent + [StartCook(c.names[s.cooker.i])];
    assert log'[..|s.sent|] == s.sent;
    forall j | 0 <= j < s.cooker.i ensures PhaseOf(c.names, s.sent, j).Over() {
      StartFindsEarlierOver(c, s, j);
    }
  }

  lemma TakenOnlyGrows(c: Config, s: State, e: Event, i: nat)
    requires s.taken <= |s.work| && i in s.work[..s.taken]
    ensures var s' := Step(c, s, e); s'.taken <= |s'.work| && i in s'.work[..s'.taken]
  {
    var s' := Step(c, s, e);
    var a :| 0 <= a < s.taken && s.work[a] == i;
    assert s'.work[..s'.taken][a] == i;
  }

  /** Only the cooker announces the start of a cook. */
  lemma StartIsSentByCooker(c: Config, s: State, e: Event, i: nat)
    requires Distinct(c.names) && Inv(c, s) && i < |c.names|
    requires |Step(c, s, e).sent| == |s.sent| + 1 && Step(c, s, e).sent[|s.sent|] == StartCook(c.names[i])
    ensures e.CookerRuns? && s.cooker.Starting? && s.cooker.i == i
    ensures Step(c, s, e).sent == s.sent + [StartCook(c.names[i])]
  {}

  lemma NewStartIsInOrder(c: Config, s: State, e: Event, i: nat)
    requires Distinct(c.names) && Inv(c, s) && i < |c.names|
    requires |Step(c, s, e).sent| == |s.sent| + 1 && Step(c, s, e).sent[|s.sent|] == StartCook(c.names[i])
    ensures EarlierAreOver(c, Step(c, s, e).sent, |s.sent|, i) && i in s.work[..s.taken]
  {
    StartIsSentByCooker(c, s, e, i);
    NewStartFollows(c, s);
    assert s.work[..s.taken][s.taken - 1] == i;
  }

  lemma StartIsInOrder(c: Config, s: State, e: Event, p: nat, i: nat)
    requires Distinct(c.names) && Inv(c, s) && InOrder(c, s)
    requires p < |Step(c, s, e).sent| && i < |c.names| && Step(c, s, e).sent[p] == StartCook(c.names[i])
    ensures var s' := Step(c, s, e);
      EarlierAreOver(c, s'.sent, p, i) && s'.taken <= |s'.work| && i in s'.work[..s'.taken]
  {
    StepExtendsLog(c, s, e);
    if p < |s.sent| {
      assert s.sent[p] == Step(c, s, e).sent[..|s.sent|][p];
      OldStartsStay(c, s, e, p, i);
    } else {
      NewStartIsInOrder(c, s, e, i);
    }
    TakenOnlyGrows(c, s, e, i);
  }

  lemma StepKeepsOrder(c: Config, s: State, e: Event)
    requires Distinct(c.names) && Inv(c, s) && InOrder(c, s)
    ensures InOrder(c, Step(c, s, e))
  {
    StepKeepsInv(c, s, e);
    var s' := Step(c, s, e);
    forall p, i | 0 <= p < |s'.sent| && 0 <= i < |c.names| && s'.sent[p] == StartCook(c.names[i])
      ensures EarlierAreOver(c, s'.sent, p, i) && i in s'.work[..s'.taken]
    {
      StartIsInOrder(c, s, e, p, i);
    }
  }

  lemma {:induction false} RunInOrder(c: Config, events: seq<Event>)
    requires Distinct(c.names)
    ensures InOrder(c, Exec(c, events))
    decreases |events|
  {
    if events != [] {
      var before := events[..|events| - 1];
      RunInOrder(c, before);
      RunInv(c, before);
      StepKeepsOrder(c, Exec(c, before), events[|events| - 1]);
    }
  }

  /**
   In every interleaving, with any answers: when the cooker starts recipe `i`, every recipe
   before it in the list is cooked, given up on or dropped at fetch, and no worker ever touches
   it again.
   */
  lemma {:induction false} CookingFollowsListOrder(c: Config, events: seq<Event>, p: nat, i: nat)
    requires Distinct(c.names) && i < |c.names|
    requires p < |Exec(c, events).sent| && Exec(c, events).sent[p] == StartCook(c.names[i])
    ensures EarlierAreOver(c, Exec(c, events).sent, p, i)
  {
    RunInOrder(c, events);
  }
}
