/**
 The terminal cook pipeline: a fetcher thread, a cooker thread and the UI loop. The threads
 share a work channel, a status channel and one atomic `prompting` cell.

 A channel is the log of everything ever sent on it together with the number of messages
 already received, so the queue is the part of the log after the cursor. A run is a list of
 events; each event lets one participant take one atomic step, so quantifying over event
 lists quantifies over every interleaving. An event whose participant is blocked does nothing.
 */
module CookPipeline {
  import opened Names

  // ---- Messages and statuses ----

  datatype Status = Pending | Fetching | Fetched | Cooking | Cached | Done | Failed(error: string)

  datatype Msg =
    | StartFetch(name: PackageName)
    | FetchedOk(name: PackageName)
    | FailFetch(name: PackageName, error: string)
    | StartCook(name: PackageName)
    | Cooked(name: PackageName, cached: bool)
    | FailCook(name: PackageName, error: string)
    | PushLog(name: PackageName, chunk: seq<Byte>)
    | FlushLog(name: PackageName)
    | FetchThreadFinished
    | CookThreadFinished
  {
    predicate IsStatus() {
      StartFetch? || FetchedOk? || FailFetch? || StartCook? || Cooked? || FailCook?
    }

    /** The status a recipe shows once this message has been received. */
    function NewStatus(): Status
      requires IsStatus()
    {
      match this
      case StartFetch(_) => Fetching
      case FetchedOk(_) => Fetched
      case FailFetch(_, e) => Failed(e)
      case StartCook(_) => Cooking
      case Cooked(_, cached) => if cached then Cached else Done
      case FailCook(_, e) => Failed(e)
    }
  }

  // ---- The failure prompt ----

  datatype PromptOption = Retry | Skip | Exit | Inspect
  {
    /** The discriminant stored in the `prompting` cell. */
    function Code(): nat {
      match this case Retry => 2 case Skip => 3 case Exit => 4 case Inspect => 5
    }

    function Next(): PromptOption {
      match this case Retry => Skip case Skip => Inspect case Inspect => Exit case Exit => Retry
    }

    function Prev(): PromptOption {
      match this case Retry => Exit case Skip => Retry case Inspect => Skip case Exit => Inspect
    }
  }

  datatype Key = Quit | Left | Right | Enter | OtherKey

  // ---- State ----

  /** Where a worker thread is. The index is the recipe it is handling. */
  datatype Worker =
    | Idle                            // at the head of the outer loop
    | Starting(i: nat)                // about to announce the job
    | Running(i: nat)                 // inside the handler
    | Succeeded(i: nat)               // fetcher only: about to hand the recipe to the cooker
    | HandedOver(i: nat)              // about to test for a nonstop exit
    | FailedAt(i: nat)                // failure announced
    | AwaitFree(i: nat)               // spinning until the prompt cell reads 0
    | Claiming(i: nat)                // read 0, about to swap in 1
    | AwaitAnswer(i: nat)             // spinning on the answer
    | Answered(i: nat, answer: nat)   // read an answer, about to swap in 0
    | Leaving                         // out of the loop
    | Closed                          // cooker only: has dropped the work channel, about to announce the end
    | Finished
    | Panicked                        // the `unreachable!()` arm
  {
    predicate Busy() {
      Starting? || Running? || Succeeded? || HandedOver? || FailedAt? || AwaitFree? || Claiming?
      || AwaitAnswer? || Answered?
    }

    predicate Gone() { Leaving? || HungUp() }

    /** Nothing can be sent to this worker any more. */
    predicate HungUp() { Closed? || Finished? || Panicked? }
  }

  /** Where the UI loop is in its frame: drawing, handling keys, draining the status channel, or past the loop. */
  datatype Frame = Drawing | ReadingKeys | Draining | Stopped

  datatype Ui = Ui(status: seq<Status>, prompt: Option<PromptOption>, inspecting: bool,
                   fetchComplete: bool, cookComplete: bool, running: bool)

  datatype Config = Config(names: seq<PackageName>, nonstop: bool)

  datatype State = State(
    fetcher: Worker, next: nat,             // `next` is the fetcher's iterator over the list
    cooker: Worker,
    work: seq<nat>, taken: nat,             // work channel
    sent: seq<Msg>, received: nat,          // status channel
    prompting: nat,
    ui: Ui, frame: Frame)

  function Init(c: Config): State {
    State(Idle, 0, Idle, [], 0, [], 0, 0,
          Ui(seq(|c.names|, _ => Pending), None, false, false, false, true), Drawing)
  }

  // ---- Steps ----

  /** How a fetch or cook handler ended. */
  datatype Outcome = Success(cached: bool) | Failure(error: string)

  datatype Event =
    | FetcherRuns(outcome: Outcome)
    | CookerRuns(outcome: Outcome)
    | LogArrives(name: PackageName, chunk: seq<Byte>)
    | LogFlushes(name: PackageName)
    | Redraw
    | Press(key: Key)
    | LeaveInspect
    | KeysRead
    | Deliver
    | CheckComplete

  /** The part of both worker loops that reads or swaps the prompt cell. */
  function PromptStep(nonstop: bool, w: Worker, p: nat): (Worker, nat)
    requires w.HandedOver? || w.FailedAt? || w.AwaitFree? || w.Claiming? || w.AwaitAnswer? || w.Answered?
  {
    match w
    case HandedOver(_) => (if nonstop && p == 4 then Leaving else Idle, p)
    case FailedAt(i) => (if nonstop then (if p == 4 then Leaving else Idle) else AwaitFree(i), p)
    case AwaitFree(i) => (if p == 0 then Claiming(i) else w, p)
    case Claiming(i) => (AwaitAnswer(i), 1)
    case AwaitAnswer(i) =>
      (if p == 0 then Idle
       else if p == 1 then w
       else if p == 2 || p == 3 || p == 4 then Answered(i, p)
       else Panicked, p)
    case Answered(i, answer) =>
      (if answer == 2 then Starting(i) else if answer == 3 then Idle else Leaving, 0)
  }

  function FetcherStep(c: Config, s: State, o: Outcome): State {
    match s.fetcher
    case Idle =>
      if s.next < |c.names| then s.(fetcher := Starting(s.next), next := s.next + 1)
      else s.(fetcher := Leaving)
    case Starting(i) =>
      if i < |c.names| then s.(fetcher := Running(i), sent := s.sent + [StartFetch(c.names[i])]) else s
    case Running(i) =>
      if i < |c.names| then
        match o
        case Success(_) => s.(fetcher := Succeeded(i), sent := s.sent + [FetchedOk(c.names[i])])
        case Failure(e) => s.(fetcher := FailedAt(i), sent := s.sent + [FailFetch(c.names[i], e)])
      else s
    case Succeeded(i) =>
      if s.cooker.HungUp() then s.(fetcher := Leaving)
      else s.(fetcher := HandedOver(i), work := s.work + [i])
    case Leaving => s.(fetcher := Finished, sent := s.sent + [FetchThreadFinished])
    case Closed => s
    case Finished => s
    case Panicked => s
    case _ => var (w, p) := PromptStep(c.nonstop, s.fetcher, s.prompting); s.(fetcher := w, prompting := p)
  }

  function CookerStep(c: Config, s: State, o: Outcome): State {
    match s.cooker
    case Idle =>
      if s.taken < |s.work| then s.(cooker := Starting(s.work[s.taken]), taken := s.taken + 1)
      else if s.fetcher.Finished? || s.fetcher.Panicked? then s.(cooker := Leaving) // senders are gone
      else s
    case Starting(i) =>
      if i < |c.names| then s.(cooker := Running(i), sent := s.sent + [StartCook(c.names[i])]) else s
    case Running(i) =>
      if i < |c.names| then
        match o
        case Success(cached) => s.(cooker := HandedOver(i), sent := s.sent + [Cooked(c.names[i], cached)])
        case Failure(e) => s.(cooker := FailedAt(i), sent := s.sent + [FailCook(c.names[i], e)])
      else s
    case Leaving => s.(cooker := Closed)
    case Closed => s.(cooker := Finished, sent := s.sent + [CookThreadFinished])
    case Succeeded(_) => s
    case Finished => s
    case Panicked => s
    case _ => var (w, p) := PromptStep(c.nonstop, s.cooker, s.prompting); s.(cooker := w, prompting := p)
  }

  /** `TuiApp::update_status`, without the log buffers. */
  function UpdateStatus(names: seq<PackageName>, ui: Ui, m: Msg): Ui {
    if m.IsStatus() then
      var shown := match IndexOf(names, m.name)
                   case Some(k) => if k < |ui.status| then ui.status[k := m.NewStatus()] else ui.status
                   case None => ui.status;
      ui.(status := shown, prompt := if m.FailFetch? || m.FailCook? then Some(Exit) else ui.prompt)
    else
      match m
      case FetchThreadFinished => ui.(fetchComplete := true)
      case CookThreadFinished => ui.(cookComplete := true)
      case _ => ui
  }

  /** One key press: `handle_prompt_input` and what the UI loop does with its answer. */
  function PressKey(ui: Ui, key: Key): (Ui, Option<PromptOption>) {
    if ui.prompt.None? || ui.inspecting then (ui, None)
    else
      match key
      case Quit => (ui.(prompt := None), Some(Exit))
      case Left => (ui.(prompt := Some(ui.prompt.value.Prev())), None)
      case Right => (ui.(prompt := Some(ui.prompt.value.Next())), None)
      case Enter =>
        if ui.prompt.value == Inspect then (ui.(inspecting := true), None)
        else (ui.(prompt := None), ui.prompt)
      case OtherKey => (ui, None)
  }

  /**
   A step of the UI loop. Each frame draws, handles the waiting keys, drains the status channel and
   tests whether the cooker is done; an Exit answer ends the loop only at the end of its frame.
   */
  function UiStep(c: Config, s: State, e: Event): State
    requires !e.FetcherRuns? && !e.CookerRuns? && !e.LogArrives? && !e.LogFlushes?
  {
    match s.frame
    case Drawing =>
      if e.Redraw? then
        var skipping := c.nonstop && s.ui.prompt == Some(Retry);
        s.(ui := if skipping then s.ui.(prompt := Some(Skip)) else s.ui, frame := ReadingKeys)
      else s
    case ReadingKeys =>
      (match e
       case Press(key) =>
         var (ui, answer) := PressKey(s.ui, key);
         if answer.None? then s.(ui := ui)
         else s.(ui := if answer.value == Exit then ui.(running := false) else ui, prompting := answer.value.Code())
       case LeaveInspect => s.(ui := s.ui.(inspecting := false))
       case KeysRead => s.(frame := Draining)
       case _ => s)
    case Draining =>
      if e.Deliver? && s.received < |s.sent| then
        s.(received := s.received + 1, ui := UpdateStatus(c.names, s.ui, s.sent[s.received]))
      else if e.CheckComplete? && s.received == |s.sent| then
        var running := s.ui.running && !s.ui.cookComplete;
        s.(ui := s.ui.(running := running), frame := if running then Drawing else Stopped)
      else s
    case Stopped => s
  }

  /** One atomic step. */
  function Step(c: Config, s: State, e: Event): State {
    match e
    case FetcherRuns(o) => FetcherStep(c, s, o)
    case CookerRuns(o) => CookerStep(c, s, o)
    case LogArrives(n, chunk) => s.(sent := s.sent + [PushLog(n, chunk)])
    case LogFlushes(n) => s.(sent := s.sent + [FlushLog(n)])
    case _ => UiStep(c, s, e)
  }

  /** The state after a run. */
  function Exec(c: Config, events: seq<Event>): State {
    if events == [] then Init(c)
    else Step(c, Exec(c, events[..|events| - 1]), events[|events| - 1])
  }

  /** No failure prompt was ever answered with Exit. */
  ghost predicate NoExit(c: Config, events: seq<Event>) {
    forall k :: 0 <= k <= |events| ==> Exec(c, events[..k]).prompting != 4
  }

  // ---- The life cycle of one recipe ----

  /**
   The automaton of the intended status path
   Pending, Fetching, (Failed, Fetching)*, Fetched, Cooking, (Failed, Cooking)*, Cached | Done.
   A failed fetch and a failed cook show the same status but are different phases; `Illegal`
   is where every other status change ends up.
   */
  datatype Phase =
    | NotStarted | InFetch | FetchFailed(error: string) | FetchDone
    | InCook | CookFailed(error: string) | Settled(cached: bool) | Illegal
  {
    function After(m: Msg): Phase
      requires m.IsStatus()
    {
      match m
      case StartFetch(_) => if NotStarted? || FetchFailed? then InFetch else Illegal
      case FetchedOk(_) => if InFetch? then FetchDone else Illegal
      case FailFetch(_, e) => if InFetch? then FetchFailed(e) else Illegal
      case StartCook(_) => if FetchDone? || CookFailed? then InCook else Illegal
      case Cooked(_, cached) => if InCook? then Settled(cached) else Illegal
      case FailCook(_, e) => if InCook? then CookFailed(e) else Illegal
    }

    predicate Shows(st: Status) {
      match this
      case NotStarted => st == Pending
      case InFetch => st == Fetching
      case FetchFailed(e) => st == Failed(e)
      case FetchDone => st == Fetched
      case InCook => st == Cooking
      case CookFailed(e) => st == Failed(e)
      case Settled(cached) => st == if cached then Cached else Done
      case Illegal => false
    }

    /** Cooked, given up on, or dropped at fetch. */
    predicate Over() { FetchFailed? || CookFailed? || Settled? }
  }

  predicate About(names: seq<PackageName>, m: Msg, i: nat)
    requires i < |names|
  {
    m.IsStatus() && m.name == names[i]
  }

  /** The phase recipe `i` is in after the messages in `log`. */
  function PhaseOf(names: seq<PackageName>, log: seq<Msg>, i: nat): Phase
    requires i < |names|
    decreases |log|
  {
    if log == [] then NotStarted
    else
      var before := PhaseOf(names, log[..|log| - 1], i);
      var m := log[|log| - 1];
      if About(names, m, i) then before.After(m) else before
  }

  lemma PhaseOfAppend(names: seq<PackageName>, log: seq<Msg>, m: Msg, i: nat)
    requires i < |names|
    ensures PhaseOf(names, log + [m], i)
            == if About(names, m, i) then PhaseOf(names, log, i).After(m) else PhaseOf(names, log, i)
  {
    assert (log + [m])[..|log|] == log;
  }

  /** Messages that are not about recipe `i` leave its phase alone. */
  lemma PhaseOfQuietTail(names: seq<PackageName>, log: seq<Msg>, k: nat, i: nat)
    requires i < |names| && k <= |log|
    requires forall q :: k <= q < |log| ==> !About(names, log[q], i)
    ensures PhaseOf(names, log, i) == PhaseOf(names, log[..k], i)
    decreases |log|
  {
    if k == |log| {
      assert log[..k] == log;
    } else {
      var shorter := log[..|log| - 1];
      PhaseOfQuietTail(names, shorter, k, i);
      assert shorter[..k] == log[..k];
    }
  }

  /** A path that ever was illegal stays illegal, so a legal log has only legal prefixes. */
  lemma {:induction false} IllegalIsForever(names: seq<PackageName>, log: seq<Msg>, k: nat, i: nat)
    requires i < |names| && k <= |log|
    requires PhaseOf(names, log, i) != Illegal
    ensures PhaseOf(names, log[..k], i) != Illegal
    decreases |log|
  {
    if k == |log| {
      assert log[..k] == log;
    } else {
      var shorter := log[..|log| - 1];
      IllegalIsForever(names, shorter, k, i);
      assert shorter[..k] == log[..k];
    }
  }
}
