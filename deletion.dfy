/** handleDeleteEmails: build the search query, then delete page after page of
    matching emails, keeping a running total, a page counter and a count of
    consecutive failed deletes. What the page shows at each step is an input. */
module Deletion {
  import opened Query
  import opened Dom

  // ---------------------------------------------------------------------------
  // What one iteration reads from the page.

  /** The select-all checkbox: absent, or present with aria-checked == "true" or not. */
  datatype SelectAllBox = Missing | Shown(checked: bool)

  /** Everything one loop iteration reads from the page, in the order it reads it. */
  datatype PageObservation = PageObservation(
    rowsBefore: Snapshot,                    // countEmails before selecting
    afterShortcut: Snapshot,                 // countSelectedEmails after the "*a" shortcut
    uncheckedBoxes: seq<bool>,               // the three checkbox queries: aria-checked == "true"
                                             //   (the first query only finds unchecked boxes, so its
                                             //   entries are false on a real page)
    spanBoxes: seq<bool>,                    //   for each element found
    ozBoxes: seq<bool>,
    afterCheckboxes: Snapshot,               // countSelectedEmails after clicking checkboxes
    selectAll: SelectAllBox,
    afterSelectAll: Snapshot,                // countSelectedEmails after the select-all click
    buttonProbes: seq<seq<Option<Button>>>,  // findDeleteButton's candidates, per attempt
    undoNotice: bool,                        // an alert mentioning "conversation" appeared
    afterDelete: Snapshot,                   // countSelectedEmails after the delete click
    undoAfterShortcut: bool,                 // the alert appeared after the "#" shortcut
    rowsAfter: Snapshot)                     // countEmails after the delete

  /** A page with nothing on it. */
  const EmptyPage: PageObservation :=
    PageObservation(map[], map[], [], [], [], map[], Missing, map[], [], false, map[], false, map[])

  /** What iteration k reads; past the end of the observations the page is empty. */
  function ObsAt(obs: seq<PageObservation>, k: nat): PageObservation {
    if k < |obs| then obs[k] else EmptyPage
  }

  /** The checkboxes the second selection method clicks: the first of the three
      queries that finds anything (the last one when none does). */
  function CheckboxList(o: PageObservation): seq<bool> {
    if |o.uncheckedBoxes| > 0 then o.uncheckedBoxes
    else if |o.spanBoxes| > 0 then o.spanBoxes
    else o.ozBoxes
  }

  /** Whether the select-all fallback clicks: fewer than two selected and the
      box is present and not already checked. */
  predicate ClicksSelectAll(o: PageObservation, selected: nat) {
    selected < 2 && o.selectAll.Shown? && !o.selectAll.checked
  }

  /** The count after the first two selection methods: the shortcut, then the
      checkboxes when the shortcut selected fewer than the rows on the page. */
  function ShortcutOrBoxes(o: PageObservation): nat {
    var s1 := SelectedCount(o.afterShortcut);
    if s1 < EmailCount(o.rowsBefore) then SelectedCount(o.afterCheckboxes) else s1
  }

  /** The selection count the three selection methods end with. */
  function Selection(o: PageObservation): nat {
    if ClicksSelectAll(o, ShortcutOrBoxes(o)) then SelectedCount(o.afterSelectAll) else ShortcutOrBoxes(o)
  }

  /** How a delete attempt was judged: the undo notice appeared, nothing is still
      selected, the "#" shortcut brought up the undo notice, or none of these. */
  datatype DeleteOutcome = Undo | NoneSelected | HashWorked | Failed

  function Judge(o: PageObservation): DeleteOutcome {
    if o.undoNotice then Undo
    else if SelectedCount(o.afterDelete) == 0 then NoneSelected
    else if o.undoAfterShortcut then HashWorked
    else Failed
  }

  /** What an iteration's probes come to: the rows before, the final selection,
      the button the wait ends with, how the delete was judged, the rows after. */
  datatype PageVerdict = PageVerdict(
    emailCount: nat, selected: nat, button: Option<Button>, outcome: DeleteOutcome, newEmailCount: nat)

  function Verdict(o: PageObservation): PageVerdict {
    PageVerdict(EmailCount(o.rowsBefore), Selection(o), ButtonWait(o.buttonProbes).button, Judge(o),
      EmailCount(o.rowsAfter))
  }

  /** The verdicts of the observed pages, page by page. */
  function Verdicts(obs: seq<PageObservation>): (vs: seq<PageVerdict>)
    ensures |vs| == |obs| && forall k | 0 <= k < |obs| :: vs[k] == Verdict(obs[k])
  {
    seq(|obs|, k requires 0 <= k < |obs| => Verdict(obs[k]))
  }

  /** The verdict of an empty page. */
  const EmptyVerdict: PageVerdict := PageVerdict(0, 0, None, NoneSelected, 0)

  lemma EmptyPageVerdict()
    ensures Verdict(EmptyPage) == EmptyVerdict
  {
    var m: Snapshot := map[];
    assert forall i | 0 <= i < |RowSelectors| :: Matches(m, RowSelectors[i]) == 0;
    assert forall i | 0 <= i < |SelectedSelectors| :: Matches(m, SelectedSelectors[i]) == 0;
    assert Matches(m, CheckedBoxSelector) == 0;
    ButtonWaitSpec([]);
  }

  /** The verdict iteration k sees; past the end of the pages an empty page's. */
  function VerdictAt(vs: seq<PageVerdict>, k: nat): PageVerdict {
    if k < |vs| then vs[k] else EmptyVerdict
  }

  lemma VerdictAtPage(obs: seq<PageObservation>, k: nat)
    ensures VerdictAt(Verdicts(obs), k) == Verdict(ObsAt(obs, k))
  {
    if k >= |obs| {
      EmptyPageVerdict();
    }
  }

  // ---------------------------------------------------------------------------
  // The loop over iterations.

  /** One iteration, as it ends: stopped by the failure cap, by an empty page, by
      an empty selection, aborted for want of a delete button, or run to the end. */
  datatype Entry =
    | CapReached
    | PageEmpty
    | SelectFailed
    | NoButton
    | Processed(outcome: DeleteOutcome, selected: nat, moreEmails: bool)

  const FailureCap: nat := 3

  /** The iteration on a page with verdict v after `failures` consecutive failed deletes. */
  function Classify(v: PageVerdict, failures: nat): Entry {
    if failures >= FailureCap then CapReached
    else if v.emailCount == 0 then PageEmpty
    else if v.selected == 0 then SelectFailed
    else if v.button.None? then NoButton
    else Processed(v.outcome, v.selected, v.newEmailCount != 0)
  }

  /** The loop's counters. */
  datatype LoopState = LoopState(totalDeleted: nat, currentPage: nat, hasMorePages: bool, consecutiveFailures: nat)

  const Initial: LoopState := LoopState(0, 0, true, 0)

  /** The loop condition; maxPages == 0 means no page limit. */
  predicate LoopGuard(maxPages: int, s: LoopState) {
    s.hasMorePages && (maxPages == 0 || s.currentPage < maxPages)
  }

  /** The counters after an iteration. */
  function Advance(s: LoopState, e: Entry): LoopState {
    match e
    case Processed(outcome, selected, more) =>
      if outcome != Failed then LoopState(s.totalDeleted + selected, s.currentPage + 1, more, 0)
      else LoopState(s.totalDeleted, s.currentPage + 1, more, s.consecutiveFailures + 1)
    case _ => s.(currentPage := s.currentPage + 1)
  }

  /** The counters after a sequence of iterations. */
  function Replay(s: LoopState, log: seq<Entry>): LoopState
    decreases |log|
  {
    if log == [] then s else Advance(Replay(s, log[..|log| - 1]), log[|log| - 1])
  }

  lemma ReplaySnoc(s: LoopState, log: seq<Entry>, e: Entry)
    ensures Replay(s, log + [e]) == Advance(Replay(s, log), e)
  {
    assert (log + [e])[..|log|] == log;
  }

  /** The iteration the loop runs from state s: the verdict of page s.currentPage
      under the failure count of s. */
  function NextEntry(vs: seq<PageVerdict>, s: LoopState): Entry {
    Classify(VerdictAt(vs, s.currentPage), s.consecutiveFailures)
  }

  /** Past the last observed page the loop stops. */
  lemma EmptyVerdictStops(vs: seq<PageVerdict>, s: LoopState)
    requires s.currentPage >= |vs|
    ensures !NextEntry(vs, s).Processed?
  {
  }

  /** The iterations the loop runs from state s, in order. */
  function Run(maxPages: int, vs: seq<PageVerdict>, s: LoopState): seq<Entry>
    decreases if s.currentPage < |vs| then |vs| - s.currentPage else 0
  {
    if !LoopGuard(maxPages, s) then []
    else
      var e := NextEntry(vs, s);
      if e.Processed? then [e] + Run(maxPages, vs, Advance(s, e))
      else [e]
  }

  /** The iterations of a whole run. */
  function Trace(maxPages: int, vs: seq<PageVerdict>): seq<Entry> {
    Run(maxPages, vs, Initial)
  }

  /** Where a run ends: the counters it stops with, or an abort. */
  datatype LoopEnd = Finished(state: LoopState) | AbortedRun

  /** The loop from state s, by its states: it stops when its condition fails,
      aborts when no delete button is found, breaks out after the other entries
      that are not processed pages, and goes on after a processed page. */
  function LoopFrom(maxPages: int, vs: seq<PageVerdict>, s: LoopState): LoopEnd
    decreases if s.currentPage < |vs| then |vs| - s.currentPage else 0
  {
    if !LoopGuard(maxPages, s) then Finished(s)
    else
      var e := NextEntry(vs, s);
      if e == NoButton then AbortedRun
      else if e.Processed? then LoopFrom(maxPages, vs, Advance(s, e))
      else Finished(Advance(s, e))
  }

  /** The run aborted with an exception. */
  predicate Aborted(log: seq<Entry>) {
    log != [] && log[|log| - 1] == NoButton
  }

  const SelectTimeoutMessage: string := "Timeout waiting for element: [data-tooltip=\"Select\"]"
  const NoButtonMessage: string := "Delete button not found. Make sure you are in Gmail inbox view."

  /** What handleDeleteEmails resolves to. */
  datatype Response =
    | Success(deleted: nat, pages: nat, searchQuery: string, trashQuery: string)
    | Failure(error: string)

  /** handleDeleteEmails as a function of the configuration, whether the
      select-all checkbox appeared before the 10-second timeout, and the pages. */
  function HandleDelete(cfg: Config, selectAppeared: bool, obs: seq<PageObservation>): Response {
    if !selectAppeared then Failure(SelectTimeoutMessage)
    else
      match LoopFrom(cfg.maxPages, Verdicts(obs), Initial)
      case AbortedRun => Failure(NoButtonMessage)
      case Finished(s) => Success(s.totalDeleted, s.currentPage, SearchQuery(cfg), TrashQuery(SearchQuery(cfg)))
  }

  // ---------------------------------------------------------------------------
  // The method.

  /** One iteration of Run, unfolded. */
  lemma RunStep(maxPages: int, vs: seq<PageVerdict>, s: LoopState)
    requires LoopGuard(maxPages, s)
    ensures var e := NextEntry(vs, s);
      Run(maxPages, vs, s) == if e.Processed? then [e] + Run(maxPages, vs, Advance(s, e)) else [e]
  {
  }

  /** The three ways the loop tries to select every email on the page: the "*a"
      shortcut, clicking each unchecked row checkbox, the select-all checkbox. */
  method SelectEmails(o: PageObservation, emailCountBefore: nat) returns (selectedCount: nat, clicked: nat)
    requires emailCountBefore == EmailCount(o.rowsBefore)
    ensures selectedCount == Selection(o)
    ensures clicked == if SelectedCount(o.afterShortcut) < emailCountBefore then Unchecked(CheckboxList(o)) else 0
  {
    // Method 1: the "*a" shortcut.
    selectedCount := CountSelectedEmails(o.afterShortcut);
    clicked := 0;
    // Method 2: click the individual checkboxes.
    if selectedCount < emailCountBefore {
      var checkboxes := o.uncheckedBoxes;
      if |checkboxes| == 0 {
        checkboxes := o.spanBoxes;
      }
      if |checkboxes| == 0 {
        checkboxes := o.ozBoxes;
      }
      clicked := ClickUnchecked(checkboxes);
      selectedCount := CountSelectedEmails(o.afterCheckboxes);
    }
    // Method 3: the select-all checkbox.
    if selectedCount < 2 {
      if o.selectAll.Shown? {
        if !o.selectAll.checked {
          selectedCount := CountSelectedEmails(o.afterSelectAll);
        }
      }
    }
  }

  /** After the delete click: decide from the undo notice, the remaining selection
      and the "#" shortcut whether the delete worked, and update the running total
      and the failure count to match. */
  method ConfirmDeletion(o: PageObservation, selectedCount: nat, deletedBefore: nat, failuresBefore: nat)
    returns (outcome: DeleteOutcome, totalDeleted: nat, consecutiveFailures: nat)
    ensures outcome == Judge(o)
    ensures outcome != Failed ==> totalDeleted == deletedBefore + selectedCount && consecutiveFailures == 0
    ensures outcome == Failed ==> totalDeleted == deletedBefore && consecutiveFailures == failuresBefore + 1
  {
    totalDeleted, consecutiveFailures := deletedBefore, failuresBefore;
    if o.undoNotice {
      totalDeleted := totalDeleted + selectedCount;
      consecutiveFailures := 0;
      outcome := Undo;
    } else {
      var stillSelected := CountSelectedEmails(o.afterDelete);
      if stillSelected == 0 {
        totalDeleted := totalDeleted + selectedCount;
        consecutiveFailures := 0;
        outcome := NoneSelected;
      } else {
        consecutiveFailures := consecutiveFailures + 1;
        if o.undoAfterShortcut {
          totalDeleted := totalDeleted + selectedCount;
          consecutiveFailures := 0;
          outcome := HashWorked;
        } else {
          outcome := Failed;
        }
      }
    }
  }

  /** The iteration the loop runs from state s is the classification of the page
      it reads: past the observed pages that is an empty page, which stops the loop. */
  lemma EntryOfPage(obs: seq<PageObservation>, s: LoopState)
    ensures NextEntry(Verdicts(obs), s) == Classify(Verdict(ObsAt(obs, s.currentPage)), s.consecutiveFailures)
    ensures s.currentPage >= |obs| ==> !NextEntry(Verdicts(obs), s).Processed?
  {
    VerdictAtPage(obs, s.currentPage);
    if s.currentPage >= |obs| {
      EmptyVerdictStops(Verdicts(obs), s);
    }
  }

  /** One pass of the loop body on page o, once the page counter has moved on: the
      failure cap, the email count, the selection, the button wait, the delete and
      its judgement, the new email count. The iteration it returns is the one the
      page's verdict classifies, and the counters move as Advance says. */
  method ProcessPage(o: PageObservation, deletedBefore: nat, failuresBefore: nat)
    returns (entry: Entry, totalDeleted: nat, consecutiveFailures: nat)
    ensures entry == Classify(Verdict(o), failuresBefore)
    ensures !entry.Processed? ==> totalDeleted == deletedBefore && consecutiveFailures == failuresBefore
    ensures entry.Processed? && entry.outcome != Failed ==>
      totalDeleted == deletedBefore + entry.selected && consecutiveFailures == 0
    ensures entry.Processed? && entry.outcome == Failed ==>
      totalDeleted == deletedBefore && consecutiveFailures == failuresBefore + 1
  {
    totalDeleted, consecutiveFailures := deletedBefore, failuresBefore;
    // Safety check: stop after three failed deletes in a row.
    if consecutiveFailures >= FailureCap {
      return CapReached, totalDeleted, consecutiveFailures;
    }

    var emailCountBefore := CountEmails(o.rowsBefore);
    if emailCountBefore == 0 {
      return PageEmpty, totalDeleted, consecutiveFailures;
    }

    var selectedCount, clicked := SelectEmails(o, emailCountBefore);
    if selectedCount == 0 {
      return SelectFailed, totalDeleted, consecutiveFailures;
    }

    var deleteButton, isEnabled, attempts := WaitForDeleteButton(o.buttonProbes);
    if deleteButton.None? {
      return NoButton, totalDeleted, consecutiveFailures;
    }

    var outcome;
    outcome, totalDeleted, consecutiveFailures := ConfirmDeletion(o, selectedCount, totalDeleted, consecutiveFailures);
    var newEmailCount := CountEmails(o.rowsAfter);
    entry := Processed(outcome, selectedCount, newEmailCount != 0);
  }

  /** LoopFrom unfolded once, for the iteration NextEntry picks and the counters it leaves. */
  lemma LoopFromStep(maxPages: int, vs: seq<PageVerdict>, s: LoopState, entry: Entry, total: nat, failures: nat)
    requires LoopGuard(maxPages, s) && entry == NextEntry(vs, s)
    requires !entry.Processed? ==> total == s.totalDeleted && failures == s.consecutiveFailures
    requires entry.Processed? && entry.outcome != Failed ==> total == s.totalDeleted + entry.selected && failures == 0
    requires entry.Processed? && entry.outcome == Failed ==> total == s.totalDeleted && failures == s.consecutiveFailures + 1
    ensures entry == NoButton ==> LoopFrom(maxPages, vs, s) == AbortedRun
    ensures !entry.Processed? && entry != NoButton ==>
      LoopFrom(maxPages, vs, s) == Finished(LoopState(total, s.currentPage + 1, s.hasMorePages, failures))
    ensures entry.Processed? ==>
      LoopFrom(maxPages, vs, s) == LoopFrom(maxPages, vs, LoopState(total, s.currentPage + 1, entry.moreEmails, failures))
  {
  }

  /** One pass of the loop from state s, given the iteration that page s.currentPage
      yields and the counters it leaves: an abort, a break with the page counted,
      or the loop going on from the new counters (only ever from an observed page). */
  lemma LoopStep(maxPages: int, obs: seq<PageObservation>, s: LoopState, o: PageObservation,
                 entry: Entry, total: nat, failures: nat)
    requires LoopGuard(maxPages, s)
    requires o == ObsAt(obs, s.currentPage) && entry == Classify(Verdict(o), s.consecutiveFailures)
    requires !entry.Processed? ==> total == s.totalDeleted && failures == s.consecutiveFailures
    requires entry.Processed? && entry.outcome != Failed ==> total == s.totalDeleted + entry.selected && failures == 0
    requires entry.Processed? && entry.outcome == Failed ==> total == s.totalDeleted && failures == s.consecutiveFailures + 1
    ensures entry.Processed? ==> s.currentPage < |obs|
    ensures entry == NoButton ==> LoopFrom(maxPages, Verdicts(obs), s) == AbortedRun
    ensures !entry.Processed? && entry != NoButton ==>
      LoopFrom(maxPages, Verdicts(obs), s) == Finished(LoopState(total, s.currentPage + 1, s.hasMorePages, failures))
    ensures entry.Processed? ==>
      LoopFrom(maxPages, Verdicts(obs), s)
        == LoopFrom(maxPages, Verdicts(obs), LoopState(total, s.currentPage + 1, entry.moreEmails, failures))
  {
    EntryOfPage(obs, s);
    LoopFromStep(maxPages, Verdicts(obs), s, entry, total, failures);
  }

  /** The loop over pages: it breaks out after an iteration that is not a
      processed page, and aborts when no delete button was found. */
  method DeletePages(maxPages: int, obs: seq<PageObservation>) returns (end: LoopEnd)
    ensures end == LoopFrom(maxPages, Verdicts(obs), Initial)
  {
    var totalDeleted: nat := 0;
    var currentPage: nat := 0;
    var hasMorePages := true;
    var consecutiveFailures: nat := 0;
    ghost var vs := Verdicts(obs);

    while hasMorePages && (maxPages == 0 || currentPage < maxPages)
      invariant LoopFrom(maxPages, vs, LoopState(totalDeleted, currentPage, hasMorePages, consecutiveFailures))
        == LoopFrom(maxPages, vs, Initial)
      invariant currentPage <= |obs|
      decreases |obs| - currentPage
    {
      ghost var s := LoopState(totalDeleted, currentPage, hasMorePages, consecutiveFailures);
      var o := ObsAt(obs, currentPage);
      currentPage := currentPage + 1;

      var entry;
      entry, totalDeleted, consecutiveFailures := ProcessPage(o, totalDeleted, consecutiveFailures);
      LoopStep(maxPages, obs, s, o, entry, totalDeleted, consecutiveFailures);
      if entry == NoButton {
        return AbortedRun;
      }
      if !entry.Processed? {
        break;
      }
      hasMorePages := entry.moreEmails;
    }
    return Finished(LoopState(totalDeleted, currentPage, hasMorePages, consecutiveFailures));
  }

  /** handleDeleteEmails from the search query on: build the query, wait for the
      list, run the loop, and answer with the counters and both queries, or with
      the message of the error that aborted the run. */
  method HandleDeleteEmails(cfg: Config, selectAppeared: bool, obs: seq<PageObservation>)
    returns (result: Response)
    ensures result == HandleDelete(cfg, selectAppeared, obs)
  {
    var searchQuery := BuildSearchQuery(cfg);
    if !selectAppeared {
      return Failure(SelectTimeoutMessage);
    }
    var end := DeletePages(cfg.maxPages, obs);
    if end.AbortedRun? {
      return Failure(NoButtonMessage);
    }
    var trashQuery := TrashQuery(searchQuery);
    return Success(end.state.totalDeleted, end.state.currentPage, searchQuery, trashQuery);
  }

  // ---------------------------------------------------------------------------
  // What a run does, stated over its iterations.

  /** Sum of the selection counts of the iterations whose delete was judged to work. */
  function Credited(log: seq<Entry>): nat
    decreases |log|
  {
    if log == [] then 0
    else
      var e := log[|log| - 1];
      Credited(log[..|log| - 1]) + (if e.Processed? && e.outcome != Failed then e.selected else 0)
  }

  /** Number of failed deletes since the last delete that worked. */
  function Streak(log: seq<Entry>): nat
    decreases |log|
  {
    if log == [] then 0
    else
      var e := log[|log| - 1];
      if !e.Processed? then Streak(log[..|log| - 1])
      else if e.outcome == Failed then Streak(log[..|log| - 1]) + 1
      else 0
  }

  /** After any run of iterations from the start, the page counter counts the
      iterations, the total is the credited sum and the failure counter the streak. */
  lemma {:induction false} ReplayCounters(log: seq<Entry>)
    ensures Replay(Initial, log).currentPage == |log|
    ensures Replay(Initial, log).totalDeleted == Credited(log)
    ensures Replay(Initial, log).consecutiveFailures == Streak(log)
    decreases |log|
  {
    if log != [] {
      ReplayCounters(log[..|log| - 1]);
    }
  }

  /** How iteration k moves the counters: the page counter always goes up by
      one; a processed page whose delete worked adds its selection to the total
      and resets the failure counter, one whose delete failed leaves the total
      and adds exactly one failure; an iteration that breaks out changes neither. */
  lemma CounterStep(log: seq<Entry>, k: nat)
    requires k < |log|
    ensures var before, after := Replay(Initial, log[..k]), Replay(Initial, log[..k + 1]);
      && after.currentPage == before.currentPage + 1
      && (log[k].Processed? && log[k].outcome != Failed ==>
            after.totalDeleted == before.totalDeleted + log[k].selected && after.consecutiveFailures == 0)
      && (log[k].Processed? && log[k].outcome == Failed ==>
            after.totalDeleted == before.totalDeleted && after.consecutiveFailures == before.consecutiveFailures + 1)
      && (!log[k].Processed? ==>
            after.totalDeleted == before.totalDeleted && after.consecutiveFailures == before.consecutiveFailures)
  {
    assert log[..k + 1] == log[..k] + [log[k]];
    ReplaySnoc(Initial, log[..k], log[k]);
  }

  /** The running total never goes down. */
  lemma {:induction false} CreditedMonotone(log: seq<Entry>, i: nat, j: nat)
    requires i <= j <= |log|
    ensures Credited(log[..i]) <= Credited(log[..j])
    decreases j - i
  {
    if i < j {
      assert log[..j][..j - 1] == log[..j - 1];
      CreditedMonotone(log, i, j - 1);
    }
  }

  lemma {:induction false} ReplayCons(s: LoopState, e: Entry, rest: seq<Entry>)
    ensures Replay(s, [e] + rest) == Replay(Advance(s, e), rest)
    decreases |rest|
  {
    if rest == [] {
      assert ([e] + rest)[..0] == [];
    } else {
      var init := rest[..|rest| - 1];
      assert ([e] + rest)[..|rest|] == [e] + init;
      ReplayCons(s, e, init);
    }
  }

  /** The entry of iteration k > 0 of a run is iteration k - 1 of the run that
      starts after the first iteration. */
  lemma {:induction false} RunTail(maxPages: int, vs: seq<PageVerdict>, s: LoopState, k: nat)
    requires LoopGuard(maxPages, s)
    requires NextEntry(vs, s).Processed?
    requires 1 <= k < |Run(maxPages, vs, s)|
    ensures var rest := Run(maxPages, vs, Advance(s, NextEntry(vs, s)));
      && k - 1 < |rest|
      && Run(maxPages, vs, s)[k] == rest[k - 1]
      && Replay(s, Run(maxPages, vs, s)[..k]) == Replay(Advance(s, NextEntry(vs, s)), rest[..k - 1])
  {
    var e := NextEntry(vs, s);
    var rest := Run(maxPages, vs, Advance(s, e));
    RunStep(maxPages, vs, s);
    assert Run(maxPages, vs, s)[..k] == [e] + rest[..k - 1];
    ReplayCons(s, e, rest[..k - 1]);
  }

  /** Each iteration of a run starts with the loop condition true, and is the
      iteration NextEntry picks for the state it starts in. */
  lemma {:induction false} RunEntries(maxPages: int, vs: seq<PageVerdict>, s: LoopState)
    ensures var log := Run(maxPages, vs, s);
      forall k | 0 <= k < |log| ::
        && LoopGuard(maxPages, Replay(s, log[..k]))
        && log[k] == NextEntry(vs, Replay(s, log[..k]))
    decreases if s.currentPage < |vs| then |vs| - s.currentPage else 0
  {
    var log := Run(maxPages, vs, s);
    if LoopGuard(maxPages, s) {
      RunStep(maxPages, vs, s);
      assert log[..0] == [];
      var e := NextEntry(vs, s);
      if e.Processed? {
        RunEntries(maxPages, vs, Advance(s, e));
        forall k | 1 <= k < |log|
          ensures LoopGuard(maxPages, Replay(s, log[..k]))
          ensures log[k] == NextEntry(vs, Replay(s, log[..k]))
        {
          RunTail(maxPages, vs, s, k);
        }
      }
    }
  }

  /** Every iteration of a run but the last runs to the end, and after the last
      the loop stops: it broke out, or its condition no longer holds. */
  lemma {:induction false} RunStops(maxPages: int, vs: seq<PageVerdict>, s: LoopState)
    ensures var log := Run(maxPages, vs, s);
      && (log == [] <==> !LoopGuard(maxPages, s))
      && (forall k | 0 <= k < |log| - 1 :: log[k].Processed?)
      && (log != [] ==> !log[|log| - 1].Processed? || !LoopGuard(maxPages, Replay(s, log)))
    decreases if s.currentPage < |vs| then |vs| - s.currentPage else 0
  {
    var log := Run(maxPages, vs, s);
    if LoopGuard(maxPages, s) {
      RunStep(maxPages, vs, s);
      var e := NextEntry(vs, s);
      if e.Processed? {
        var t := Advance(s, e);
        var rest := Run(maxPages, vs, t);
        RunStops(maxPages, vs, t);
        assert log == [e] + rest;
        ReplayCons(s, e, rest);
        if rest != [] {
          assert log[|log| - 1] == rest[|rest| - 1];
          forall k | 0 <= k < |log| - 1 ensures log[k].Processed? {
            if k > 0 {
              assert log[k] == rest[k - 1];
            }
          }
        }
      }
    }
  }

  /** How one iteration ends, condition by condition: the failure cap is checked
      first, then an empty page, then an empty selection; the run aborts exactly
      when no attempt of the button wait saw an enabled button and the twentieth
      saw none at all; otherwise the delete goes ahead (with a disabled button if
      that is all there is) and is judged. */
  lemma ClassifyPage(o: PageObservation, failures: nat)
    ensures Classify(Verdict(o), failures) == CapReached <==> failures >= FailureCap
    ensures Classify(Verdict(o), failures) == PageEmpty <==>
      failures < FailureCap && EmailCount(o.rowsBefore) == 0
    ensures Classify(Verdict(o), failures) == SelectFailed <==>
      failures < FailureCap && EmailCount(o.rowsBefore) > 0 && Selection(o) == 0
    ensures Classify(Verdict(o), failures) == NoButton <==>
      && failures < FailureCap && EmailCount(o.rowsBefore) > 0 && Selection(o) > 0
      && (forall k | 0 <= k < MaxAttempts :: !EnabledAt(o.buttonProbes, k))
      && (forall c | c in ProbeAt(o.buttonProbes, MaxAttempts - 1) :: c.None?)
    ensures Classify(Verdict(o), failures).Processed? ==>
      Classify(Verdict(o), failures) == Processed(Judge(o), Selection(o), EmailCount(o.rowsAfter) != 0)
  {
    NoButtonIff(o.buttonProbes);
  }

  /** The streak of failed deletes before any iteration is at most the cap. */
  lemma {:induction false} StreakCapped(vs: seq<PageVerdict>, log: seq<Entry>, k: nat)
    requires forall j | 0 <= j < |log| :: log[j] == Classify(VerdictAt(vs, j), Streak(log[..j]))
    requires k <= |log|
    ensures Streak(log[..k]) <= FailureCap
    decreases k
  {
    if k > 0 {
      assert log[..k][..k - 1] == log[..k - 1];
      assert log[..k][k - 1] == log[k - 1];
      StreakCapped(vs, log, k - 1);
    }
  }

  /** NextEntry, read through the counters of the iterations before. */
  lemma {:induction false} EntriesByStreak(maxPages: int, vs: seq<PageVerdict>, log: seq<Entry>)
    requires forall k | 0 <= k < |log| ::
      LoopGuard(maxPages, Replay(Initial, log[..k])) && log[k] == NextEntry(vs, Replay(Initial, log[..k]))
    ensures forall k | 0 <= k < |log| :: log[k] == Classify(VerdictAt(vs, k), Streak(log[..k]))
  {
    forall k | 0 <= k < |log| ensures log[k] == Classify(VerdictAt(vs, k), Streak(log[..k])) {
      var r := Replay(Initial, log[..k]);
      ReplayCounters(log[..k]);
      assert log[k] == NextEntry(vs, r);
    }
  }

  /** Iteration k of a whole run reads page k and is classified under the
      streak of failures before it. */
  lemma {:induction false} TraceIterations(maxPages: int, vs: seq<PageVerdict>)
    ensures var log := Trace(maxPages, vs);
      forall k | 0 <= k < |log| :: log[k] == Classify(VerdictAt(vs, k), Streak(log[..k]))
  {
    RunEntries(maxPages, vs, Initial);
    RunStops(maxPages, vs, Initial);
    EntriesByStreak(maxPages, vs, Trace(maxPages, vs));
  }

  /** The loop condition, read through the counters of the iterations before. */
  lemma {:induction false} ContinuesByGuard(maxPages: int, log: seq<Entry>)
    requires forall k | 0 <= k < |log| :: LoopGuard(maxPages, Replay(Initial, log[..k]))
    requires forall k | 0 <= k < |log| - 1 :: log[k].Processed?
    ensures forall k | 0 <= k < |log| - 1 ::
      log[k].Processed? && log[k].moreEmails && (maxPages == 0 || k + 1 < maxPages)
  {
    forall k | 0 <= k < |log| - 1
      ensures log[k].moreEmails && (maxPages == 0 || k + 1 < maxPages)
    {
      assert log[..k + 1] == log[..k] + [log[k]];
      ReplaySnoc(Initial, log[..k], log[k]);
      ReplayCounters(log[..k + 1]);
      assert LoopGuard(maxPages, Replay(Initial, log[..k + 1]));
    }
  }

  /** Every iteration of a whole run but the last ran to the end, saw more emails
      and left the page limit unreached. */
  lemma {:induction false} TraceContinues(maxPages: int, vs: seq<PageVerdict>)
    ensures var log := Trace(maxPages, vs);
      forall k | 0 <= k < |log| - 1 ::
        log[k].Processed? && log[k].moreEmails && (maxPages == 0 || k + 1 < maxPages)
  {
    RunEntries(maxPages, vs, Initial);
    RunStops(maxPages, vs, Initial);
    ContinuesByGuard(maxPages, Trace(maxPages, vs));
  }

  /** The state after the last iteration, read through that iteration. */
  lemma {:induction false} StopsByGuard(maxPages: int, log: seq<Entry>)
    requires log != []
    requires !log[|log| - 1].Processed? || !LoopGuard(maxPages, Replay(Initial, log))
    ensures var e := log[|log| - 1];
      !e.Processed? || !e.moreEmails || (maxPages != 0 && |log| >= maxPages)
  {
    assert log == log[..|log| - 1] + [log[|log| - 1]];
    ReplaySnoc(Initial, log[..|log| - 1], log[|log| - 1]);
    ReplayCounters(log);
  }

  /** The loop runs no iteration at all exactly when maxPages is negative; after
      the last iteration it stops because that iteration broke out or aborted,
      found no more emails, or reached the page limit. */
  lemma {:induction false} TraceEnd(maxPages: int, vs: seq<PageVerdict>)
    ensures var log := Trace(maxPages, vs);
      && (log == [] <==> maxPages < 0)
      && (log != [] ==>
            var e := log[|log| - 1];
            !e.Processed? || !e.moreEmails || (maxPages != 0 && |log| >= maxPages))
  {
    RunStops(maxPages, vs, Initial);
    if Trace(maxPages, vs) != [] {
      StopsByGuard(maxPages, Trace(maxPages, vs));
    }
  }

  /** Page bounds of a log whose iterations each started with the loop condition
      true and whose iterations but the last were processed. */
  lemma {:induction false} PagesByGuard(maxPages: int, vs: seq<PageVerdict>, log: seq<Entry>)
    requires forall k | 0 <= k < |log| ::
      LoopGuard(maxPages, Replay(Initial, log[..k])) && log[k] == NextEntry(vs, Replay(Initial, log[..k]))
    requires forall k | 0 <= k < |log| - 1 :: log[k].Processed?
    ensures maxPages > 0 ==> |log| <= maxPages
    ensures |log| <= |vs| + 1
  {
    if log != [] {
      ReplayCounters(log[..|log| - 1]);
      assert LoopGuard(maxPages, Replay(Initial, log[..|log| - 1]));
    }
    if |log| >= 2 {
      var k := |log| - 2;
      ReplayCounters(log[..k]);
      if k >= |vs| {
        EmptyVerdictStops(vs, Replay(Initial, log[..k]));
      }
    }
  }

  /** Every iteration is counted as a page, a positive maxPages bounds the pages,
      and the loop never reads past the page after the last observed one. */
  lemma {:induction false} TracePageBound(maxPages: int, vs: seq<PageVerdict>)
    ensures var log := Trace(maxPages, vs);
      && Replay(Initial, log).currentPage == |log|
      && (maxPages > 0 ==> |log| <= maxPages)
      && |log| <= |vs| + 1
  {
    ReplayCounters(Trace(maxPages, vs));
    RunEntries(maxPages, vs, Initial);
    RunStops(maxPages, vs, Initial);
    PagesByGuard(maxPages, vs, Trace(maxPages, vs));
  }

  /** The failure counter never exceeds 3, and an iteration stops at the cap
      exactly when 3 failures in a row came before it. */
  lemma {:induction false} TraceStreak(maxPages: int, vs: seq<PageVerdict>)
    ensures var log := Trace(maxPages, vs);
      && Replay(Initial, log).consecutiveFailures == Streak(log) <= FailureCap
      && (forall k | 0 <= k < |log| :: (log[k] == CapReached <==> Streak(log[..k]) >= FailureCap))
  {
    var log := Trace(maxPages, vs);
    TraceIterations(maxPages, vs);
    ReplayCounters(log);
    StreakCapped(vs, log, |log|);
    assert log[..|log|] == log;
    forall k | 0 <= k < |log| ensures log[k] == CapReached <==> Streak(log[..k]) >= FailureCap {
      CapIff(VerdictAt(vs, k), Streak(log[..k]));
    }
  }

  /** Only the failure cap stops an iteration with CapReached. */
  lemma CapIff(v: PageVerdict, failures: nat)
    ensures Classify(v, failures) == CapReached <==> failures >= FailureCap
  {
  }

  /** A run aborts only in its last iteration, and exactly when some iteration
      found no delete button. */
  lemma {:induction false} TraceAbort(maxPages: int, vs: seq<PageVerdict>)
    ensures var log := Trace(maxPages, vs);
      Aborted(log) <==> exists k | 0 <= k < |log| :: log[k] == NoButton
  {
    TraceContinues(maxPages, vs);
  }

  /** The end of the loop read off its iterations: it aborts exactly when the
      last iteration found no delete button, and otherwise stops with the
      counters the iterations leave. */
  lemma {:induction false} LoopFromRun(maxPages: int, vs: seq<PageVerdict>, s: LoopState)
    ensures var log := Run(maxPages, vs, s);
      LoopFrom(maxPages, vs, s) == if Aborted(log) then AbortedRun else Finished(Replay(s, log))
    decreases if s.currentPage < |vs| then |vs| - s.currentPage else 0
  {
    if LoopGuard(maxPages, s) {
      var e := NextEntry(vs, s);
      RunStep(maxPages, vs, s);
      if e.Processed? {
        var t := Advance(s, e);
        var rest := Run(maxPages, vs, t);
        LoopFromRun(maxPages, vs, t);
        ReplayCons(s, e, rest);
        assert Aborted([e] + rest) == Aborted(rest);
      } else {
        ReplaySnoc(s, [], e);
      }
    }
  }

  /** The response: a failure exactly when the select-all checkbox never appeared
      or an iteration found no delete button, with the matching message; otherwise
      the credited total, one page per iteration (at most maxPages when that is
      positive), the search query, and a trash query that starts with in:trash
      and keeps no category: term. */
  lemma {:induction false} HandleDeleteResult(cfg: Config, selectAppeared: bool, obs: seq<PageObservation>)
    ensures var r := HandleDelete(cfg, selectAppeared, obs);
      var log := Trace(cfg.maxPages, Verdicts(obs));
      && (r.Failure? <==> !selectAppeared || exists k | 0 <= k < |log| :: log[k] == NoButton)
      && (r.Failure? ==> r.error == if selectAppeared then NoButtonMessage else SelectTimeoutMessage)
      && (r.Success? ==>
            && r.deleted == Credited(log)
            && r.pages == |log|
            && (cfg.maxPages > 0 ==> r.pages <= cfg.maxPages)
            && r.searchQuery == SearchQuery(cfg)
            && r.trashQuery == TrashQuery(r.searchQuery)
            && |r.trashQuery| >= 8 && r.trashQuery[..8] == "in:trash"
            && NoToken(r.trashQuery))
  {
    var vs := Verdicts(obs);
    var log := Trace(cfg.maxPages, vs);
    var r := HandleDelete(cfg, selectAppeared, obs);
    LoopFromRun(cfg.maxPages, vs, Initial);
    TraceAbort(cfg.maxPages, vs);
    if !selectAppeared {
      assert r == Failure(SelectTimeoutMessage);
    } else if Aborted(log) {
      assert r == Failure(NoButtonMessage);
    } else {
      var q := SearchQuery(cfg);
      TracePageBound(cfg.maxPages, vs);
      ReplayCounters(log);
      assert r == Success(Credited(log), |log|, q, TrashQuery(q));
    }
  }
}
