/** What the keys do to a failure prompt, when a worker asks or leaves, how logs arrive, and when the UI loop ends. */
module UiLaws {
  import opened Names
  import opened CookPipeline
  import PromptLaws

  // ---- The keys ----

  /** What the arrow keys do: each undoes the other, and four presses come round. */
  lemma ArrowsUndoEachOther(o: PromptOption)
    ensures o.Next().Prev() == o && o.Prev().Next() == o
    ensures o.Next().Next().Next().Next() == o
    ensures Exit.Next() == Retry && Retry.Next() == Skip && Skip.Next() == Inspect
  {}

  /** The prompt after some presses of a key that only moves the selection. */
  function Moved(ui: Ui, n: nat): Ui {
    if n == 0 then ui else PressKey(Moved(ui, n - 1), Right).0
  }

  /**
   A new failure prompts with Exit selected. One press of the right arrow and Enter answer Retry,
   two Skip, none Exit; three open the log instead, and Quit always answers Exit.
   */
  lemma {:induction false} KeysChooseTheAnswer(names: seq<PackageName>, ui: Ui, m: Msg)
    requires (m.FailFetch? || m.FailCook?) && !ui.inspecting
    ensures var asked := UpdateStatus(names, ui, m);
      && PressKey(asked, Enter).1 == Some(Exit) && PressKey(asked, Quit).1 == Some(Exit)
      && PressKey(Moved(asked, 1), Enter).1 == Some(Retry)
      && PressKey(Moved(asked, 2), Enter).1 == Some(Skip)
      && PressKey(Moved(asked, 3), Enter).1 == None && PressKey(Moved(asked, 3), Enter).0.inspecting
      && PressKey(Moved(asked, 3), Quit).1 == Some(Exit)
  {
    var asked := UpdateStatus(names, ui, m);
    assert asked.prompt == Some(Exit) && !asked.inspecting;
    assert Moved(asked, 1).prompt == Some(Retry) && !Moved(asked, 1).inspecting;
    assert Moved(asked, 2).prompt == Some(Skip) && !Moved(asked, 2).inspecting;
    assert Moved(asked, 3).prompt == Some(Inspect) && !Moved(asked, 3).inspecting;
  }

  /**
   A key answers only while a prompt is shown and its log is not inspected, and only Quit and Enter
   answer; the answer is what was selected, or Exit for Quit, and takes the prompt away. A key never
   touches what the UI shows of the recipes.
   */
  lemma OnlyPromptsAreAnswered(ui: Ui, key: Key)
    ensures var (after, answer) := PressKey(ui, key);
      && (answer.Some? ==> ui.prompt.Some? && !ui.inspecting && after.prompt == None)
      && (answer.Some? ==> (key == Quit && answer == Some(Exit)) || (key == Enter && answer == ui.prompt))
      && (ui.prompt.None? || ui.inspecting || key == OtherKey ==> after == ui)
      && (key == Left && ui.prompt.Some? && !ui.inspecting ==> PressKey(after, Right).0 == ui)
      && (answer == None ==> after.prompt.Some? == ui.prompt.Some?)
      && after == ui.(prompt := after.prompt, inspecting := after.inspecting)
      && (after.inspecting == (ui.inspecting || (key == Enter && ui.prompt == Some(Inspect))))
  {}

  /** Opening the log of a failure and leaving it again brings the same prompt back. */
  lemma InspectingComesBack(c: Config, s: State)
    requires s.frame.ReadingKeys? && s.ui.prompt == Some(Inspect) && !s.ui.inspecting
    ensures Step(c, s, Press(Enter)) == s.(ui := s.ui.(inspecting := true))
    ensures Step(c, Step(c, s, Press(Enter)), LeaveInspect) == s
  {}

  /** Drawing takes the Retry option away in nonstop mode and otherwise changes nothing about the prompt. */
  lemma NonstopOffersNoRetry(c: Config, s: State)
    requires s.frame.Drawing?
    ensures var drawn := Step(c, s, Redraw);
      && (c.nonstop && s.ui.prompt == Some(Retry) ==> drawn.ui == s.ui.(prompt := Some(Skip)))
      && (!c.nonstop || s.ui.prompt != Some(Retry) ==> drawn.ui == s.ui)
      && (c.nonstop && Step(c, drawn, Press(Enter)).prompting == Retry.Code() ==> s.prompting == Retry.Code())
  {}

  // ---- Asking and leaving ----

  /**
   While the cell is taken no worker begins to claim it, and what is in it changes only when a worker
   acts on the answer it has read or the user answers.
   */
  lemma TakenCellIsNotClaimed(c: Config, s: State, e: Event)
    requires s.prompting != 0 && !s.fetcher.Claiming? && !s.cooker.Claiming?
    ensures var t := Step(c, s, e);
      && !t.fetcher.Claiming? && !t.cooker.Claiming?
      && (t.prompting == s.prompting
          || (t.prompting == 0 && ((e.FetcherRuns? && s.fetcher.Answered?) || (e.CookerRuns? && s.cooker.Answered?)))
          || (e.Press? && s.frame.ReadingKeys?
              && exists o :: PressKey(s.ui, e.key).1 == Some(o) && t.prompting == o.Code()))
  {}

  /**
   When the fetcher leaves its loop: the list is used up, the cooker is gone, it acts on Exit, or in
   nonstop mode the cell holds Exit at the end of a recipe.
   */
  lemma FetcherLeavesExactlyWhen(c: Config, s: State, o: Outcome)
    requires !s.fetcher.Gone() && (s.fetcher.Answered? ==> 2 <= s.fetcher.answer <= 4)
    ensures FetcherStep(c, s, o).fetcher.Leaving?
            <==> || (s.fetcher.Idle? && s.next >= |c.names|)
                 || (s.fetcher.Succeeded? && s.cooker.HungUp())
                 || (s.fetcher.Answered? && s.fetcher.answer == Exit.Code())
                 || (c.nonstop && s.prompting == Exit.Code() && (s.fetcher.HandedOver? || s.fetcher.FailedAt?))
  {}

  /** The cooker leaves when the fetcher has ended and nothing is left, and on Exit as the fetcher does. */
  lemma CookerLeavesExactlyWhen(c: Config, s: State, o: Outcome)
    requires !s.cooker.Gone() && (s.cooker.Answered? ==> 2 <= s.cooker.answer <= 4)
    ensures CookerStep(c, s, o).cooker.Leaving?
            <==> || (s.cooker.Idle? && s.taken >= |s.work| && (s.fetcher.Finished? || s.fetcher.Panicked?))
                 || (s.cooker.Answered? && s.cooker.answer == Exit.Code())
                 || (c.nonstop && s.prompting == Exit.Code() && (s.cooker.HandedOver? || s.cooker.FailedAt?))
  {}

  // ---- The logs on their way to the UI ----

  /** The chunks a run logs for `name`, in order. */
  function LoggedBy(events: seq<Event>, name: PackageName): seq<seq<Byte>>
    decreases |events|
  {
    if events == [] then []
    else
      var e := events[|events| - 1];
      LoggedBy(events[..|events| - 1], name) + if e.LogArrives? && e.name == name then [e.chunk] else []
  }

  /** The chunks for `name` on the status channel. */
  function ChunksIn(sent: seq<Msg>, name: PackageName): seq<seq<Byte>>
    decreases |sent|
  {
    if sent == [] then []
    else
      var m := sent[|sent| - 1];
      ChunksIn(sent[..|sent| - 1], name) + if m.PushLog? && m.name == name then [m.chunk] else []
  }

  lemma ChunksInSnoc(sent: seq<Msg>, m: Msg, name: PackageName)
    ensures ChunksIn(sent + [m], name)
            == ChunksIn(sent, name) + if m.PushLog? && m.name == name then [m.chunk] else []
  {
    assert (sent + [m])[..|sent|] == sent;
  }

  lemma StepLogs(c: Config, s: State, e: Event)
    ensures var t := Step(c, s, e);
      && (e.LogArrives? ==> t.sent == s.sent + [PushLog(e.name, e.chunk)])
      && (!e.LogArrives? ==> t.sent == s.sent
                             || (|t.sent| == |s.sent| + 1 && t.sent == s.sent + [t.sent[|s.sent|]]
                                 && !t.sent[|s.sent|].PushLog?))
  {}

  /** Whatever a run logs arrives on the status channel, chunk by chunk in order, and nothing else does. */
  lemma {:induction false} LogsAreForwarded(c: Config, events: seq<Event>, name: PackageName)
    ensures ChunksIn(Exec(c, events).sent, name) == LoggedBy(events, name)
    decreases |events|
  {
    if events != [] {
      var before, e := events[..|events| - 1], events[|events| - 1];
      LogsAreForwarded(c, before, name);
      var s, t := Exec(c, before), Exec(c, events);
      StepLogs(c, s, e);
      if t.sent != s.sent {
        ChunksInSnoc(s.sent, t.sent[|s.sent|], name);
      }
    }
  }

  // ---- The end of the UI loop ----

  /** This event answers a prompt with Exit. */
  predicate ChoosesExit(s: State, e: Event) {
    s.frame.ReadingKeys? && e.Press? && PressKey(s.ui, e.key).1 == Some(Exit)
  }

  ghost predicate ExitChosen(c: Config, events: seq<Event>) {
    exists k :: 0 <= k < |events| && ChoosesExit(Exec(c, events[..k]), events[k])
  }

  /** The cooker's last message is among the first `n`. */
  predicate EndIn(sent: seq<Msg>, n: nat)
    requires n <= |sent|
  {
    exists k :: 0 <= k < n && sent[k].CookThreadFinished?
  }

  ghost predicate EndSeen(s: State) {
    s.received <= |s.sent| && (s.ui.cookComplete <==> EndIn(s.sent, s.received))
  }

  lemma LongerEnd(sent: seq<Msg>, m: Msg, n: nat)
    requires n <= |sent|
    ensures EndIn(sent + [m], n) == EndIn(sent, n)
  {
    if EndIn(sent, n) {
      var k :| 0 <= k < n && sent[k].CookThreadFinished?;
      assert (sent + [m])[k].CookThreadFinished?;
    }
    if EndIn(sent + [m], n) {
      var k :| 0 <= k < n && (sent + [m])[k].CookThreadFinished?;
      assert sent[k].CookThreadFinished?;
    }
  }

  lemma OneMoreReceived(sent: seq<Msg>, n: nat)
    requires n < |sent|
    ensures EndIn(sent, n + 1) == (EndIn(sent, n) || sent[n].CookThreadFinished?)
  {
    if EndIn(sent, n) {
      var k :| 0 <= k < n && sent[k].CookThreadFinished?;
      assert sent[k].CookThreadFinished?;
    }
  }

  /** A step sends at most one message, and only a delivery touches what the UI has received. */
  lemma StepSends(c: Config, s: State, e: Event)
    ensures var t := Step(c, s, e);
      && (t.sent == s.sent || (|t.sent| == |s.sent| + 1 && t.sent == s.sent + [t.sent[|s.sent|]]
                               && t.received == s.received && t.ui == s.ui))
      && (t.received == s.received ==> t.ui.cookComplete == s.ui.cookComplete)
      && (t.received != s.received ==>
            && s.received < |s.sent| && t.received == s.received + 1 && t.sent == s.sent
            && t.ui.cookComplete == (s.ui.cookComplete || s.sent[s.received].CookThreadFinished?))
  {}

  lemma StepKeepsEndSeen(c: Config, s: State, e: Event)
    requires EndSeen(s)
    ensures EndSeen(Step(c, s, e))
  {
    StepSends(c, s, e);
    var t := Step(c, s, e);
    if t.received != s.received {
      OneMoreReceived(s.sent, s.received);
    } else if t.sent != s.sent {
      LongerEnd(s.sent, t.sent[|s.sent|], s.received);
    }
  }

  lemma {:induction false} RunSeesEnd(c: Config, events: seq<Event>)
    ensures EndSeen(Exec(c, events))
    decreases |events|
  {
    if events != [] {
      RunSeesEnd(c, events[..|events| - 1]);
      StepKeepsEndSeen(c, Exec(c, events[..|events| - 1]), events[|events| - 1]);
    }
  }

  /** Within the loop only an Exit answer stops the UI. */
  lemma StepStopsUi(c: Config, s: State, e: Event)
    requires !Step(c, s, e).frame.Stopped?
    ensures !s.frame.Stopped?
    ensures Step(c, s, e).ui.running <==> s.ui.running && !ChoosesExit(s, e)
  {}

  lemma ExitChosenSnoc(c: Config, events: seq<Event>, e: Event)
    ensures ExitChosen(c, events + [e]) <==> ExitChosen(c, events) || ChoosesExit(Exec(c, events), e)
  {
    var more := events + [e];
    assert more[..|events|] == events;
    forall k | 0 <= k < |events| ensures more[..k] == events[..k] && more[k] == events[k] {}
    if ExitChosen(c, events) {
      var k :| 0 <= k < |events| && ChoosesExit(Exec(c, events[..k]), events[k]);
      assert ChoosesExit(Exec(c, more[..k]), more[k]);
    }
    if ChoosesExit(Exec(c, events), e) {
      assert ChoosesExit(Exec(c, more[..|events|]), more[|events|]);
    }
  }

  lemma {:induction false} RunningUntilExit(c: Config, events: seq<Event>)
    requires !Exec(c, events).frame.Stopped?
    ensures Exec(c, events).ui.running <==> !ExitChosen(c, events)
    decreases |events|
  {
    if events != [] {
      var before, e := events[..|events| - 1], events[|events| - 1];
      assert events == before + [e];
      StepStopsUi(c, Exec(c, before), e);
      RunningUntilExit(c, before);
      ExitChosenSnoc(c, before, e);
    }
  }

  /**
   The UI loop ends at the check at the end of a frame and nowhere else: exactly when every message
   sent so far has been received and either the user has answered Exit or the cooker has ended.
   Otherwise that check starts the next frame; once ended, the loop stays ended.
   */
  lemma {:induction false} LoopEndsExactlyWhen(c: Config, events: seq<Event>, e: Event)
    ensures var s, t := Exec(c, events), Exec(c, events + [e]);
      var checked := e.CheckComplete? && s.frame.Draining? && s.received == |s.sent|;
      && (s.frame.Stopped? ==> t.frame.Stopped?)
      && (!s.frame.Stopped? ==>
            (t.frame.Stopped? <==> checked && (ExitChosen(c, events) || EndIn(s.sent, |s.sent|)))
            && (checked && !t.frame.Stopped? ==> t.frame.Drawing?))
  {
    var s := Exec(c, events);
    PromptLaws.ExecSnoc(c, events, e);
    if !s.frame.Stopped? {
      RunningUntilExit(c, events);
      RunSeesEnd(c, events);
      FrameEnds(c, s, e);
    }
  }

  lemma FrameEnds(c: Config, s: State, e: Event)
    requires !s.frame.Stopped?
    ensures var t := Step(c, s, e);
      var checked := e.CheckComplete? && s.frame.Draining? && s.received == |s.sent|;
      && (t.frame.Stopped? <==> checked && (!s.ui.running || s.ui.cookComplete))
      && (checked && !t.frame.Stopped? ==> t.frame.Drawing?)
  {}
}
