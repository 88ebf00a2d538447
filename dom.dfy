/** The page probes of the content script, with the page itself as an input:
    a snapshot says how many elements each CSS selector matches, a delete-button
    probe lists the candidate elements findDeleteButton looks at. */
module Dom {

  datatype Option<T> = None | Some(value: T)

  /** What querySelectorAll reports at one moment: selector |-> number of matches
      (a selector missing from the map matches nothing). */
  type Snapshot = map<string, nat>

  function Matches(d: Snapshot, selector: string): nat {
    if selector in d then d[selector] else 0
  }

  /** The row selectors countEmails tries, in order. */
  const RowSelectors: seq<string> :=
    ["tr.zA", "tr[role=\"row\"]", "div[role=\"main\"] tr", ".ae4.aDM"]

  /** The selected-row selectors countSelectedEmails tries, in order. */
  const SelectedSelectors: seq<string> :=
    ["tr.x7", "tr.btb", "tr[aria-checked=\"true\"]", "tr.zA[class*=\"x7\"]"]

  /** The checked-checkbox selector countSelectedEmails falls back to. */
  const CheckedBoxSelector: string := "div[role=\"checkbox\"][aria-checked=\"true\"]"

  /** Count of the first selector that matches anything, or 0 when none does. */
  function FirstMatch(d: Snapshot, selectors: seq<string>): nat {
    if selectors == [] then 0
    else if Matches(d, selectors[0]) > 0 then Matches(d, selectors[0])
    else FirstMatch(d, selectors[1..])
  }

  /** The count is 0 exactly when no selector matches; otherwise it is the count
      of a selector that matches and follows only selectors that do not. */
  lemma {:induction false} FirstMatchSpec(d: Snapshot, selectors: seq<string>)
    ensures var r := FirstMatch(d, selectors);
      && (r == 0 <==> forall i | 0 <= i < |selectors| :: Matches(d, selectors[i]) == 0)
      && (r != 0 ==> exists i | 0 <= i < |selectors| ::
            Matches(d, selectors[i]) == r && forall j | 0 <= j < i :: Matches(d, selectors[j]) == 0)
  {
    if selectors != [] && Matches(d, selectors[0]) == 0 {
      FirstMatchSpec(d, selectors[1..]);
      assert forall i | 1 <= i < |selectors| :: selectors[i] == selectors[1..][i - 1];
      var r := FirstMatch(d, selectors);
      if r != 0 {
        var i :| 0 <= i < |selectors[1..]| && Matches(d, selectors[1..][i]) == r
          && forall j | 0 <= j < i :: Matches(d, selectors[1..][j]) == 0;
        assert Matches(d, selectors[i + 1]) == r;
        assert forall j | 0 <= j < i + 1 :: Matches(d, selectors[j]) == 0;
      }
    } else if selectors != [] {
      assert Matches(d, selectors[0]) == FirstMatch(d, selectors);
    }
  }

  /** The first selector that matches decides the count. */
  lemma {:induction false} FirstMatchAt(d: Snapshot, selectors: seq<string>, i: nat)
    requires i < |selectors| && Matches(d, selectors[i]) > 0
    requires forall j | 0 <= j < i :: Matches(d, selectors[j]) == 0
    ensures FirstMatch(d, selectors) == Matches(d, selectors[i])
  {
    if i > 0 {
      assert selectors[1..][i - 1] == selectors[i];
      FirstMatchAt(d, selectors[1..], i - 1);
    }
  }

  /** countEmails: the number of rows of the first row selector that matches. */
  function EmailCount(d: Snapshot): nat {
    FirstMatch(d, RowSelectors)
  }

  /** countSelectedEmails: the first selected-row selector that matches decides;
      failing that, the checked checkboxes minus the select-all box when there is
      more than one; failing that, 0. */
  function SelectedCount(d: Snapshot): nat {
    var n := FirstMatch(d, SelectedSelectors);
    if n > 0 then n
    else
      var boxes := Matches(d, CheckedBoxSelector);
      if boxes > 1 then boxes - 1 else 0
  }

  lemma SelectedCountCases(d: Snapshot)
    ensures forall i | 0 <= i < |SelectedSelectors| ::
      Matches(d, SelectedSelectors[i]) > 0 &&
      (forall j | 0 <= j < i :: Matches(d, SelectedSelectors[j]) == 0) ==>
      SelectedCount(d) == Matches(d, SelectedSelectors[i])
    ensures (forall i | 0 <= i < |SelectedSelectors| :: Matches(d, SelectedSelectors[i]) == 0) ==>
      SelectedCount(d) == (if Matches(d, CheckedBoxSelector) > 1 then Matches(d, CheckedBoxSelector) - 1 else 0)
    ensures SelectedCount(d) == 0 <==>
      (forall i | 0 <= i < |SelectedSelectors| :: Matches(d, SelectedSelectors[i]) == 0) &&
      Matches(d, CheckedBoxSelector) <= 1
  {
    forall i | 0 <= i < |SelectedSelectors| &&
      Matches(d, SelectedSelectors[i]) > 0 &&
      (forall j | 0 <= j < i :: Matches(d, SelectedSelectors[j]) == 0)
      ensures SelectedCount(d) == Matches(d, SelectedSelectors[i])
    {
      FirstMatchAt(d, SelectedSelectors, i);
    }
    FirstMatchSpec(d, SelectedSelectors);
  }

  /** The selector loop shared by countEmails and countSelectedEmails: try each
      selector in turn and return the first non-zero count. */
  method FirstNonZero(d: Snapshot, selectors: seq<string>) returns (n: nat)
    ensures n == FirstMatch(d, selectors)
  {
    for i := 0 to |selectors|
      invariant FirstMatch(d, selectors) == FirstMatch(d, selectors[i..])
    {
      assert selectors[i..][1..] == selectors[i + 1..];
      var count := Matches(d, selectors[i]);
      if count > 0 {
        return count;
      }
    }
    return 0;
  }

  method CountEmails(d: Snapshot) returns (n: nat)
    ensures n == EmailCount(d)
  {
    n := FirstNonZero(d, RowSelectors);
  }

  method CountSelectedEmails(d: Snapshot) returns (n: nat)
    ensures n == SelectedCount(d)
  {
    n := FirstNonZero(d, SelectedSelectors);
    if n > 0 {
      return;
    }
    var checkedBoxes := Matches(d, CheckedBoxSelector);
    if checkedBoxes > 1 {
      return checkedBoxes - 1;
    }
    return 0;
  }

  /** Number of boxes whose aria-checked is not "true". */
  function Unchecked(boxes: seq<bool>): nat {
    multiset(boxes)[false]
  }

  /** The checkbox loop: click every box not already checked and count the clicks
      (each entry is true when the box's aria-checked is "true"). */
  method ClickUnchecked(boxes: seq<bool>) returns (clicked: nat)
    ensures clicked == Unchecked(boxes)
    ensures clicked <= |boxes|
  {
    clicked := 0;
    for i := 0 to |boxes|
      invariant clicked == multiset(boxes[..i])[false]
    {
      assert boxes[..i + 1] == boxes[..i] + [boxes[i]];
      if !boxes[i] {
        clicked := clicked + 1;
      }
    }
    assert boxes[..|boxes|] == boxes;
  }

  /** A button element, seen through its class list. */
  datatype Button = Button(classes: seq<string>)

  const DisabledClass: string := "T-I-JW"

  /** Gmail marks a disabled toolbar button with the class T-I-JW. */
  predicate IsEnabled(b: Button) {
    DisabledClass !in b.classes
  }

  /** findDeleteButton: the first non-null element among the candidates (the
      data-tooltip match, the aria-label match, then every role=button whose
      label mentions delete), or none. */
  function FindDeleteButton(candidates: seq<Option<Button>>): (r: Option<Button>)
    ensures r.Some? ==> r in candidates
  {
    if candidates == [] then None
    else if candidates[0].Some? then candidates[0]
    else FindDeleteButton(candidates[1..])
  }

  /** findDeleteButton finds nothing exactly when every candidate is null, and
      otherwise the first candidate that is not. */
  lemma {:induction false} FindDeleteButtonSpec(candidates: seq<Option<Button>>)
    ensures var r := FindDeleteButton(candidates);
      && (r.None? <==> forall i | 0 <= i < |candidates| :: candidates[i].None?)
      && (r.Some? ==> exists i | 0 <= i < |candidates| ::
            candidates[i] == r && forall j | 0 <= j < i :: candidates[j].None?)
  {
    if candidates != [] && candidates[0].None? {
      FindDeleteButtonSpec(candidates[1..]);
      assert forall i | 1 <= i < |candidates| :: candidates[i] == candidates[1..][i - 1];
      var r := FindDeleteButton(candidates);
      if r.Some? {
        var i :| 0 <= i < |candidates[1..]| && candidates[1..][i] == r
          && forall j | 0 <= j < i :: candidates[1..][j].None?;
        assert candidates[i + 1] == r;
        assert forall j | 0 <= j < i + 1 :: candidates[j].None?;
      }
    } else if candidates != [] {
      assert candidates[0] == FindDeleteButton(candidates);
      assert candidates[0].Some?;
    }
  }

  /** The wait gives up after this many attempts. */
  const MaxAttempts: nat := 20

  /** What findDeleteButton sees on a given attempt; attempts past the end of the
      probe sequence see no candidates. */
  function ProbeAt(probes: seq<seq<Option<Button>>>, k: nat): seq<Option<Button>> {
    if k < |probes| then probes[k] else []
  }

  /** The attempt finds a button that is enabled. */
  predicate EnabledAt(probes: seq<seq<Option<Button>>>, k: nat) {
    var b := FindDeleteButton(ProbeAt(probes, k));
    b.Some? && IsEnabled(b.value)
  }

  /** The state the wait loop ends in: the button of the last attempt, whether it
      is enabled, and the attempt counter. */
  datatype WaitResult = WaitResult(button: Option<Button>, enabled: bool, attempts: nat)

  function WaitFrom(probes: seq<seq<Option<Button>>>, attempts: nat, last: Option<Button>): WaitResult
    decreases MaxAttempts - attempts
  {
    if attempts >= MaxAttempts then WaitResult(last, false, attempts)
    else
      var b := FindDeleteButton(ProbeAt(probes, attempts));
      if b.Some? && IsEnabled(b.value) then WaitResult(b, true, attempts)
      else WaitFrom(probes, attempts + 1, b)
  }

  /** The delete-button wait, as a function of what each attempt sees. */
  function ButtonWait(probes: seq<seq<Option<Button>>>): WaitResult {
    WaitFrom(probes, 0, None)
  }

  /** From any attempt on, the wait skips exactly the attempts that see no enabled
      button; it stops at the first that does, or runs out at attempt 20. */
  lemma {:induction false} WaitFromSpec(probes: seq<seq<Option<Button>>>, attempts: nat, last: Option<Button>)
    requires attempts < MaxAttempts
    ensures var w := WaitFrom(probes, attempts, last);
      attempts <= w.attempts <= MaxAttempts && forall k | attempts <= k < w.attempts :: !EnabledAt(probes, k)
    ensures var w := WaitFrom(probes, attempts, last);
      w.enabled ==>
        w.attempts < MaxAttempts && EnabledAt(probes, w.attempts) && w.button == FindDeleteButton(ProbeAt(probes, w.attempts))
    ensures var w := WaitFrom(probes, attempts, last);
      !w.enabled ==> w.attempts == MaxAttempts && w.button == FindDeleteButton(ProbeAt(probes, MaxAttempts - 1))
    decreases MaxAttempts - attempts
  {
    var b := FindDeleteButton(ProbeAt(probes, attempts));
    if EnabledAt(probes, attempts) {
      assert WaitFrom(probes, attempts, last) == WaitResult(b, true, attempts);
    } else if attempts + 1 < MaxAttempts {
      WaitFromSpec(probes, attempts + 1, b);
      assert WaitFrom(probes, attempts, last) == WaitFrom(probes, attempts + 1, b);
    } else {
      assert WaitFrom(probes, attempts, last) == WaitResult(b, false, MaxAttempts);
    }
  }

  /** The wait takes at most 20 attempts; it stops at the first attempt that sees
      an enabled button, and otherwise ends with the button (possibly none, possibly
      disabled) that the twentieth attempt saw. */
  lemma ButtonWaitSpec(probes: seq<seq<Option<Button>>>)
    ensures var w := ButtonWait(probes);
      && w.attempts <= MaxAttempts
      && (w.enabled <==> exists k | 0 <= k < MaxAttempts :: EnabledAt(probes, k))
      && (w.enabled ==>
            && EnabledAt(probes, w.attempts)
            && w.button == FindDeleteButton(ProbeAt(probes, w.attempts))
            && forall k | 0 <= k < w.attempts :: !EnabledAt(probes, k))
      && (!w.enabled ==>
            && w.attempts == MaxAttempts
            && w.button == FindDeleteButton(ProbeAt(probes, MaxAttempts - 1)))
  {
    var w := ButtonWait(probes);
    WaitFromSpec(probes, 0, None);
    if w.enabled {
      assert EnabledAt(probes, w.attempts);
    }
  }

  /** The wait ends without a button exactly when no attempt saw an enabled button
      and the last attempt saw no button at all. */
  lemma NoButtonIff(probes: seq<seq<Option<Button>>>)
    ensures ButtonWait(probes).button.None? <==>
      (forall k | 0 <= k < MaxAttempts :: !EnabledAt(probes, k)) &&
      forall c | c in ProbeAt(probes, MaxAttempts - 1) :: c.None?
  {
    ButtonWaitSpec(probes);
    var last := ProbeAt(probes, MaxAttempts - 1);
    FindDeleteButtonSpec(last);
    if forall c | c in last :: c.None? {
      assert forall i | 0 <= i < |last| :: last[i].None? by {
        forall i | 0 <= i < |last| ensures last[i].None? {
          assert last[i] in last;
        }
      }
    }
  }

  /** The wait loop: re-query the button each attempt, stop as soon as it is
      enabled, give up after 20 attempts. */
  method WaitForDeleteButton(probes: seq<seq<Option<Button>>>)
    returns (deleteButton: Option<Button>, isEnabled: bool, attempts: nat)
    ensures WaitResult(deleteButton, isEnabled, attempts) == ButtonWait(probes)
  {
    attempts := 0;
    deleteButton := None;
    isEnabled := false;
    while !isEnabled && attempts < MaxAttempts
      invariant attempts <= MaxAttempts
      invariant !isEnabled ==> WaitFrom(probes, attempts, deleteButton) == ButtonWait(probes)
      invariant isEnabled ==> WaitResult(deleteButton, true, attempts) == ButtonWait(probes)
      decreases MaxAttempts - attempts, if isEnabled then 0 else 1
    {
      deleteButton := FindDeleteButton(ProbeAt(probes, attempts));
      if deleteButton.None? {
        attempts := attempts + 1;
        continue;
      }
      isEnabled := IsEnabled(deleteButton.value);
      if !isEnabled {
        attempts := attempts + 1;
      }
    }
  }
}
