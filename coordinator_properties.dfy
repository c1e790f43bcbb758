/**
 * What the coordinator promises: the effect of each handler and of each event
 * together with the update it causes, and the invariants every run keeps.
 */
module CoordinatorProperties {
  import opened Wrappers
  import opened DateEnv
  import opened Coordinator

  // ---------------------------------------------------------------------
  // Open and close
  // ---------------------------------------------------------------------

  /**
   * A click, or a keyup of Space or Enter, on the input opens the picker and
   * mounts the surface; any other key changes nothing; `showPicker` opens too.
   */
  lemma OpenPaths(env: Env, s: State, key: string)
    requires s.open ==> s.rendered
    ensures Step(env, s, InputClick).next == s.(open := true, rendered := true)
    ensures Step(env, s, Show).next == s.(open := true, rendered := true)
    ensures IsCommitKey(key) ==> Step(env, s, InputKeyup(key)).next == s.(open := true, rendered := true)
    ensures !IsCommitKey(key) ==> Step(env, s, InputKeyup(key)).next == s
  {
  }

  /** `closePicker` and the surface's `closed` event both close the picker and change nothing else. */
  lemma ClosePaths(env: Env, s: State)
    ensures Step(env, s, Close).next == s.(open := false)
    ensures Step(env, s, SurfaceClosed).next == s.(open := false)
  {
  }

  /** The surface's `opened` event focuses the stored element, if there is one, and changes nothing. */
  lemma OpenedFocusesStoredElement(env: Env, s: State)
    ensures Step(env, s, SurfaceOpened).focus == s.focusElement
    ensures Step(env, s, SurfaceOpened).next == s
  {
  }

  // ---------------------------------------------------------------------
  // The rendered latch
  // ---------------------------------------------------------------------

  /** No handler and no update ever unmounts the surface; an update leaves an open picker mounted. */
  lemma StepKeepsRendered(env: Env, s: State, e: Event, localeChanged: bool, valueChanged: bool)
    ensures Handle(env, s, e).next.rendered == s.rendered
    ensures s.rendered ==> Step(env, s, e).next.rendered
    ensures WillUpdate(env, s, localeChanged, valueChanged).open ==> WillUpdate(env, s, localeChanged, valueChanged).rendered
    ensures s.rendered ==> WillUpdate(env, s, localeChanged, valueChanged).rendered
  {
  }

  /** Once mounted, the surface stays mounted for every run. */
  lemma {:induction false} RunKeepsRendered(env: Env, s: State, trace: seq<Event>)
    requires s.rendered
    ensures Run(env, s, trace).rendered
    decreases |trace|
  {
    if trace != [] {
      StepKeepsRendered(env, s, trace[0], false, false);
      RunKeepsRendered(env, Step(env, s, trace[0]).next, trace[1..]);
    }
  }

  // ---------------------------------------------------------------------
  // Clear, and the date-updated event it swallows
  // ---------------------------------------------------------------------

  /** A clear raises the flag and empties value and text; the open state and the selected date stay. */
  lemma ClearEffect(env: Env, s: State)
    ensures var t := OnClearClick(s);
      t.isClearAction && t.value == "" && t.valueText == "" && t.open == s.open && t.selectedDate == s.selectedDate
    ensures var t := Step(env, s, ClearClick).next;
      t.isClearAction && t.value == "" && t.valueText == "" && t.open == s.open && t.selectedDate == s.selectedDate
  {
  }

  /** A date-updated event while a clear is pending only lowers the flag. */
  lemma DateUpdatedWhileClearing(env: Env, s: State, isKeypress: bool, key: string, d: Date)
    requires s.isClearAction
    ensures Step(env, s, DateUpdated(isKeypress, key, d)).next == s.(isClearAction := false)
    ensures !Step(env, s, DateUpdated(isKeypress, key, d)).closeSurface
  {
  }

  /** Every event but a date-updated or a value assignment keeps a pending clear pending, and its empty fields empty. */
  lemma StepKeepsClearPending(env: Env, s: State, e: Event)
    requires ClearPending(s)
    ensures !e.AssignValue? ==> ClearPending(Step(env, s, e).next)
    ensures Quiet(e) && s.isClearAction ==> Step(env, s, e).next.isClearAction
  {
  }

  /** Over any run without a value assignment, a pending clear keeps value and text empty. */
  lemma {:induction false} RunKeepsClearPending(env: Env, s: State, trace: seq<Event>)
    requires ClearPending(s)
    requires forall i :: 0 <= i < |trace| ==> !trace[i].AssignValue?
    ensures ClearPending(Run(env, s, trace))
    decreases |trace|
  {
    if trace != [] {
      StepKeepsClearPending(env, s, trace[0]);
      RunKeepsClearPending(env, Step(env, s, trace[0]).next, trace[1..]);
    }
  }

  /** Quiet events leave a pending clear pending. */
  lemma {:induction false} QuietRunKeepsFlag(env: Env, s: State, trace: seq<Event>)
    requires ClearPending(s) && s.isClearAction
    requires forall i :: 0 <= i < |trace| ==> Quiet(trace[i])
    ensures ClearPending(Run(env, s, trace)) && Run(env, s, trace).isClearAction
    decreases |trace|
  {
    if trace != [] {
      StepKeepsClearPending(env, s, trace[0]);
      QuietRunKeepsFlag(env, Step(env, s, trace[0]).next, trace[1..]);
    }
  }

  /** Running two traces one after the other is running their concatenation. */
  lemma {:induction false} RunAppend(env: Env, s: State, a: seq<Event>, b: seq<Event>)
    ensures Run(env, s, a + b) == Run(env, Run(env, s, a), b)
    decreases |a|
  {
    if a == [] {
      assert a + b == b;
    } else {
      assert (a + b)[0] == a[0];
      assert (a + b)[1..] == a[1..] + b;
      RunAppend(env, Step(env, s, a[0]).next, a[1..], b);
    }
  }

  /**
   * The clear race: after a clear and any quiet events, the next date-updated
   * event (whatever its key and date) is swallowed: value and text stay
   * empty, the flag is lowered, the selected date is not touched, and no close is requested.
   */
  lemma ClearSwallowsNextDateUpdate(env: Env, s: State, between: seq<Event>, isKeypress: bool, key: string, d: Date)
    requires forall i :: 0 <= i < |between| ==> Quiet(between[i])
    ensures var mid := Run(env, s, [ClearClick] + between);
      var t := Run(env, s, [ClearClick] + between + [DateUpdated(isKeypress, key, d)]);
      && t.value == "" && t.valueText == "" && !t.isClearAction
      && t.selectedDate == mid.selectedDate && t.open == mid.open
      && !Step(env, mid, DateUpdated(isKeypress, key, d)).closeSurface
  {
    var afterClear := Step(env, s, ClearClick).next;
    ClearEffect(env, s);
    assert Run(env, s, [ClearClick]) == afterClear;
    RunAppend(env, s, [ClearClick], between);
    QuietRunKeepsFlag(env, afterClear, between);
    var mid := Run(env, s, [ClearClick] + between);
    RunAppend(env, s, [ClearClick] + between, [DateUpdated(isKeypress, key, d)]);
    DateUpdatedWhileClearing(env, mid, isKeypress, key, d);
  }

  /**
   * The flag is consumed by whichever date-updated event comes next. When the
   * calendar emits none for the clear itself (the field was already empty, or
   * the surface was never mounted), the user's next real pick, pointer or
   * keyboard, is swallowed: the value stays empty and no date is selected.
   */
  lemma ClearWithoutEchoSwallowsNextPick(env: Env, s: State, isKeypress: bool, key: string, d: Date)
    requires Inv(env, s) && !s.isClearAction && s.value == "" && s.selectedDate.None?
    requires IsCommit(isKeypress, key) && FormatWith(env, s.formatter, d) != ""
    ensures Run(env, s, [DateUpdated(isKeypress, key, d)]).value == FormatWith(env, s.formatter, d)
    ensures var t := Run(env, s, [ClearClick, DateUpdated(isKeypress, key, d)]);
      t.value == "" && t.selectedDate.None? && !t.isClearAction
  {
    var c := Step(env, s, ClearClick).next;
    assert Run(env, s, [ClearClick, DateUpdated(isKeypress, key, d)]) == Run(env, c, [DateUpdated(isKeypress, key, d)]);
    assert Run(env, c, [DateUpdated(isKeypress, key, d)]) == Step(env, c, DateUpdated(isKeypress, key, d)).next;
    assert Run(env, s, [DateUpdated(isKeypress, key, d)]) == Step(env, s, DateUpdated(isKeypress, key, d)).next;
  }

  // ---------------------------------------------------------------------
  // Commit versus navigation
  // ---------------------------------------------------------------------

  /** Outside a clear, a date-updated event always selects its date, whatever the key. */
  lemma DateUpdatedSelects(env: Env, s: State, isKeypress: bool, key: string, d: Date)
    requires !s.isClearAction
    ensures Step(env, s, DateUpdated(isKeypress, key, d)).next.selectedDate == Some(d)
    ensures !Step(env, s, DateUpdated(isKeypress, key, d)).next.isClearAction
  {
  }

  /**
   * Outside a clear, the value becomes the formatted date exactly when the
   * selection commits (a pointer pick, or Enter or Space); any other key
   * leaves value and text as they were. The open state never changes here.
   */
  lemma CommitOrNavigate(env: Env, s: State, isKeypress: bool, key: string, d: Date)
    requires !s.isClearAction
    ensures var t := Step(env, s, DateUpdated(isKeypress, key, d)).next;
      t.value == (if IsCommit(isKeypress, key) then FormatWith(env, s.formatter, d) else s.value)
    ensures !IsCommit(isKeypress, key) ==>
      Step(env, s, DateUpdated(isKeypress, key, d)).next.valueText == s.valueText
    ensures Step(env, s, DateUpdated(isKeypress, key, d)).next.open == s.open
  {
  }

  /** The handler asks the surface to close exactly for a keypress of Enter or Space outside a clear. */
  lemma CloseRequestIff(env: Env, s: State, isKeypress: bool, key: string, d: Date)
    ensures Step(env, s, DateUpdated(isKeypress, key, d)).closeSurface
      <==> !s.isClearAction && isKeypress && IsCommitKey(key)
  {
  }

  /**
   * After a commit the text shows the formatted value read back through the
   * resolver; it is the formatted date itself when the resolver reads that
   * text back as the same date.
   */
  lemma CommitDisplay(env: Env, s: State, isKeypress: bool, key: string, d: Date)
    requires Inv(env, s) && !s.isClearAction && IsCommit(isKeypress, key)
    requires env.format(s.locale, d) != ""
    ensures var t := Step(env, s, DateUpdated(isKeypress, key, d)).next;
      t.value == env.format(s.locale, d) && t.valueText == env.format(s.locale, env.resolve(t.value))
    ensures env.resolve(env.format(s.locale, d)) == d ==>
      Step(env, s, DateUpdated(isKeypress, key, d)).next.valueText == env.format(s.locale, d)
  {
  }

  /**
   * A keyboard commit followed by the surface's `closed` event: the close
   * request goes out, the picker ends closed and keeps the committed value.
   */
  lemma KeyCommitThenClosed(env: Env, s: State, d: Date)
    requires !s.isClearAction
    ensures Step(env, s, DateUpdated(true, KeyEnter, d)).closeSurface
    ensures var t := Run(env, s, [DateUpdated(true, KeyEnter, d), SurfaceClosed]);
      !t.open && t.value == FormatWith(env, s.formatter, d) && t.selectedDate == Some(d)
  {
    var t1 := Step(env, s, DateUpdated(true, KeyEnter, d)).next;
    assert Run(env, s, [DateUpdated(true, KeyEnter, d), SurfaceClosed]) == Run(env, t1, [SurfaceClosed]);
    assert Run(env, t1, [SurfaceClosed]) == Step(env, t1, SurfaceClosed).next;
  }

  // ---------------------------------------------------------------------
  // First-updated, locale and value
  // ---------------------------------------------------------------------

  /** The calendar's first update stores its first focusable element, itself and its date. */
  lemma FirstUpdatedStores(env: Env, s: State, p: PickerRef, els: seq<ElementRef>, d: Date)
    ensures var t := Step(env, s, PickerFirstUpdated(p, els, d)).next;
      && t.focusElement == FirstFocusable(els) && t.picker == Some(p) && t.selectedDate == Some(d)
      && t.value == s.value && t.valueText == s.valueText && t.open == s.open && t.isClearAction == s.isClearAction
  {
  }

  /**
   * Assigning a different locale resolves it, rebuilds the formatter and
   * reformats a non-empty value in the new locale; an empty value leaves the
   * text alone. Value and selected date stay.
   */
  lemma LocaleChange(env: Env, s: State, l: string)
    requires l != s.locale
    ensures var t := Step(env, s, AssignLocale(l)).next;
      && t.locale == ResolveLocale(l, env.defaultLocale)
      && t.formatter == ToValueFormatter(t.locale)
      && t.value == s.value && t.selectedDate == s.selectedDate
      && t.valueText == (if s.value != "" then env.format(t.locale, env.resolve(s.value)) else s.valueText)
  {
  }

  /**
   * Assigning a different non-empty value reformats it with the current
   * locale; assigning the empty value leaves the text as it was.
   */
  lemma ValueChange(env: Env, s: State, v: string)
    requires Inv(env, s) && v != s.value
    ensures var t := Step(env, s, AssignValue(v)).next;
      && t.value == v && t.locale == s.locale && t.selectedDate == s.selectedDate
      && t.valueText == (if v != "" then env.format(s.locale, env.resolve(v)) else s.valueText)
  {
  }

  // ---------------------------------------------------------------------
  // The state invariant
  // ---------------------------------------------------------------------

  /** The first update establishes the invariant. */
  lemma InitialSatisfiesInv(env: Env, locale: string, value: string)
    ensures Inv(env, Initial(env, locale, value))
    ensures !Initial(env, locale, value).open && !Initial(env, locale, value).isClearAction
    ensures Initial(env, locale, value).locale == ResolveLocale(locale, env.defaultLocale)
  {
  }

  /** Every event, with the update it causes, keeps the invariant. */
  lemma StepPreservesInv(env: Env, s: State, e: Event)
    requires Inv(env, s)
    ensures Inv(env, Step(env, s, e).next)
  {
  }

  /** The invariant holds after every run from a state that satisfies it. */
  lemma {:induction false} RunPreservesInv(env: Env, s: State, trace: seq<Event>)
    requires Inv(env, s)
    ensures Inv(env, Run(env, s, trace))
    decreases |trace|
  {
    if trace != [] {
      StepPreservesInv(env, s, trace[0]);
      RunPreservesInv(env, Step(env, s, trace[0]).next, trace[1..]);
    }
  }

  /**
   * In every reachable state an open picker is mounted, and a non-empty value
   * is shown formatted in the widget's current locale (never a stale one).
   */
  lemma Reachable(env: Env, locale: string, value: string, trace: seq<Event>)
    ensures var t := Run(env, Initial(env, locale, value), trace);
      && (t.open ==> t.rendered)
      && (t.value != "" ==> t.valueText == env.format(t.locale, env.resolve(t.value)))
      && t.formatter == ToValueFormatter(t.locale)
  {
    InitialSatisfiesInv(env, locale, value);
    RunPreservesInv(env, Initial(env, locale, value), trace);
  }
}
