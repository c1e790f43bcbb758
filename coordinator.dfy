/**
 * The selection/open-state coordinator of `DatePickerInput` as a transition
 * system on values: its state, each event handler as a function of the old
 * state, and the element's update cycle (`willUpdate`), which Lit runs after a
 * handler has changed a reactive property.
 */
module Coordinator {
  import opened Wrappers
  import opened DateEnv

  /**
   * The fields the handlers read and write. `open`, `rendered` and
   * `valueText` are the `@state` fields `_open`, `_rendered`, `_valueText`;
   * `value` and `locale` are public properties; `isClearAction`,
   * `selectedDate`, `focusElement`, `picker` and `formatter` are the private
   * `#` fields (`#valueFormatter` for `formatter`).
   */
  datatype State = State(
    open: bool,
    rendered: bool,
    valueText: string,
    value: string,
    isClearAction: bool,
    selectedDate: Option<Date>,
    locale: string,
    focusElement: Option<ElementRef>,
    picker: Option<PickerRef>,
    formatter: Formatter)

  /** The field initialisers, for a widget created with the given `locale` and `value`. */
  function Fresh(locale: string, value: string): State
  {
    State(false, false, "", value, false, None, locale, None, None, ToValueFormatter(locale))
  }

  // ---------------------------------------------------------------------
  // The handlers, each on its own (no update cycle)
  // ---------------------------------------------------------------------

  /** The input's click listener. */
  function OnInputClick(s: State): State
  {
    s.(open := true)
  }

  /** The input's keyup listener: Space or Enter opens, like a click. */
  function OnInputKeyup(s: State, key: string): State
  {
    if IsCommitKey(key) then OnInputClick(s) else s
  }

  function ShowPicker(s: State): State
  {
    s.(open := true)
  }

  function ClosePicker(s: State): State
  {
    s.(open := false)
  }

  /** The trailing clear icon: raise the flag, then empty `_valueText` and `value`. */
  function OnClearClick(s: State): State
  {
    s.(isClearAction := true, valueText := "", value := "")
  }

  /** The surface's `closed` event. */
  function OnClosed(s: State): State
  {
    s.(open := false)
  }

  /** A calendar selection commits when it is not a keypress, or the key is Enter or Space. */
  predicate IsCommit(isKeypress: bool, key: string)
  {
    !isKeypress || IsCommitKey(key)
  }

  /** The calendar's `date-updated` event. */
  function OnDateUpdated(env: Env, s: State, isKeypress: bool, key: string, valueAsDate: Date): State
  {
    if !s.isClearAction then
      var s1 := s.(selectedDate := Some(valueAsDate));
      if IsCommit(isKeypress, key) then s1.(value := FormatWith(env, s1.formatter, valueAsDate)) else s1
    else
      s.(isClearAction := false)
  }

  /** Whether that event makes the handler ask the surface to close. */
  predicate DateUpdatedClosesSurface(s: State, isKeypress: bool, key: string)
  {
    !s.isClearAction && IsCommit(isKeypress, key) && isKeypress
  }

  /** The calendar's `first-updated` event. */
  function OnDatePickerFirstUpdated(s: State, picker: PickerRef, focusableElements: seq<ElementRef>, valueAsDate: Date): State
  {
    s.(focusElement := FirstFocusable(focusableElements), picker := Some(picker), selectedDate := Some(valueAsDate))
  }

  /** The surface's `opened` event: the element to focus, if one was stored. */
  function OnOpened(s: State): Option<ElementRef>
  {
    s.focusElement
  }

  /**
   * `willUpdate`: a locale change resolves the locale, rebuilds the formatter
   * and reformats a non-empty value; a value change reformats a non-empty
   * value; an open surface is marked rendered.
   */
  function WillUpdate(env: Env, s: State, localeChanged: bool, valueChanged: bool): State
  {
    var s1 :=
      if localeChanged then
        var newLocale := ResolveLocale(s.locale, env.defaultLocale);
        var f := ToValueFormatter(newLocale);
        s.(locale := newLocale, formatter := f,
           valueText := if s.value != "" then FormatWith(env, f, env.resolve(s.value)) else s.valueText)
      else s;
    var s2 :=
      if valueChanged && s1.value != "" then s1.(valueText := FormatWith(env, s1.formatter, env.resolve(s1.value)))
      else s1;
    if !s2.rendered && s2.open then s2.(rendered := true) else s2
  }

  // ---------------------------------------------------------------------
  // Events and the update cycle
  // ---------------------------------------------------------------------

  /**
   * Everything that drives the coordinator: the listeners and public methods
   * above, and a host's assignment to the public `value` or `locale` property.
   */
  datatype Event =
    | InputClick
    | InputKeyup(key: string)
    | Show
    | Close
    | ClearClick
    | SurfaceClosed
    | SurfaceOpened
    | DateUpdated(isKeypress: bool, key: string, valueAsDate: Date)
    | PickerFirstUpdated(picker: PickerRef, focusableElements: seq<ElementRef>, valueAsDate: Date)
    | AssignValue(newValue: string)
    | AssignLocale(newLocale: string)

  /** What one event does: the new state, a close request to the surface, an element to focus. */
  datatype Reaction = Reaction(next: State, closeSurface: bool, focus: Option<ElementRef>)

  /** The handler an event runs, before the update cycle. */
  function Handle(env: Env, s: State, e: Event): Reaction
  {
    match e
    case InputClick => Reaction(OnInputClick(s), false, None)
    case InputKeyup(key) => Reaction(OnInputKeyup(s, key), false, None)
    case Show => Reaction(ShowPicker(s), false, None)
    case Close => Reaction(ClosePicker(s), false, None)
    case ClearClick => Reaction(OnClearClick(s), false, None)
    case SurfaceClosed => Reaction(OnClosed(s), false, None)
    case SurfaceOpened => Reaction(s, false, OnOpened(s))
    case DateUpdated(isKeypress, key, d) =>
      Reaction(OnDateUpdated(env, s, isKeypress, key, d), DateUpdatedClosesSurface(s, isKeypress, key), None)
    case PickerFirstUpdated(p, els, d) => Reaction(OnDatePickerFirstUpdated(s, p, els, d), false, None)
    case AssignValue(v) => Reaction(s.(value := v), false, None)
    case AssignLocale(l) => Reaction(s.(locale := l), false, None)
  }

  /** An update is requested when a reactive property (not a `#` field) changed. */
  predicate ReactiveChanged(before: State, after: State)
  {
    before.open != after.open || before.rendered != after.rendered || before.valueText != after.valueText
    || before.value != after.value || before.locale != after.locale
  }

  /** The update cycle after a handler: `willUpdate`, told which of `locale` and `value` changed. */
  function Settle(env: Env, before: State, after: State): State
  {
    if ReactiveChanged(before, after) then
      WillUpdate(env, after, after.locale != before.locale, after.value != before.value)
    else after
  }

  /** One event followed by the update it causes. */
  function Step(env: Env, s: State, e: Event): Reaction
  {
    var r := Handle(env, s, e);
    r.(next := Settle(env, s, r.next))
  }

  /** A sequence of events. */
  function Run(env: Env, s: State, trace: seq<Event>): State
    decreases |trace|
  {
    if trace == [] then s else Run(env, Step(env, s, trace[0]).next, trace[1..])
  }

  /** The widget after its first update, in which every initialised property counts as changed. */
  function Initial(env: Env, locale: string, value: string): State
  {
    WillUpdate(env, Fresh(locale, value), true, true)
  }

  /** The text the field should show for a non-empty value. */
  function Display(env: Env, s: State): string
  {
    env.format(s.locale, env.resolve(s.value))
  }

  /**
   * The state invariant at rest (between updates): an open surface is
   * mounted, the formatter is the current locale's, a non-empty value is
   * displayed in the current locale, and the locale is resolved.
   */
  ghost predicate Inv(env: Env, s: State)
  {
    && (s.open ==> s.rendered)
    && s.formatter == ToValueFormatter(s.locale)
    && (s.value != "" ==> s.valueText == Display(env, s))
    && (env.defaultLocale != "" ==> s.locale != "")
  }

  /** While a clear is pending, the field and the value are empty. */
  ghost predicate ClearPending(s: State)
  {
    s.isClearAction ==> s.value == "" && s.valueText == ""
  }

  /** An event that neither delivers a calendar date nor assigns `value`. */
  predicate Quiet(e: Event)
  {
    !e.DateUpdated? && !e.AssignValue?
  }
}
