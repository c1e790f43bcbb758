# DatePickerInput selection/open-state coordinator, in Dafny

This project models the coordinator inside the `DatePickerInput` element
(`src/date-picker-input/date-picker-input.ts`) of app-datepicker. The element is a
read-only text field. It opens a floating surface that holds a calendar, and it keeps
these in step:

- the text it shows (`_valueText`) and its `value`;
- the date selected in the calendar (`#selectedDate`);
- whether the picker is open (`_open`) and whether the surface has ever been mounted (`_rendered`);
- the clear-in-progress flag (`#isClearAction`);
- the locale and the value formatter built from it;
- the calendar's first focusable element (`#focusElement`).

Files:

- `wrappers.dfy`: `Option`, for fields the source leaves `undefined`.
- `date_env.dfy`: dates, element references, and the foreign calls. The environment
  `Env` carries three uninterpreted parts:
  - `format(locale, date)`, the `Intl.DateTimeFormat` formatter;
  - `resolve`, which is `toResolvedDate`;
  - the default locale.
  It also holds the key constants and the small pure helpers (`locale || default`,
  the first focusable element).
- `coordinator.dfy`: the state as a datatype. It has each handler as a function of the
  old state, and `willUpdate`. It also has Lit's update cycle: after a handler, an update
  runs only if a reactive property (`_open`, `_rendered`, `_valueText`, `value`,
  `locale`) changed, and `willUpdate` is told that `locale` or `value` changed exactly
  when its new value differs from the old one. The `#` fields are not reactive. `Step`
  is one event followed by its update, and `Run` is a sequence of events.
- `coordinator_properties.dfy`: what the handlers promise, and the invariants every run keeps.
- `date_picker_input.dfy`: the element as a class. Its fields are updated in place by
  methods that are the source's handlers. Each method's new state
  (`Snapshot()`) is stated as the coordinator's function of the old state.

Behaviours of the code worth knowing (each is proved about the model):

- A calendar commit writes the *formatted* date into `value`, not ISO text
  (date-picker-input.ts:236). The update after it sets `_valueText` to
  `format(resolve(value))` (lines 91-92). That equals the formatted date only when the
  resolver reads the text back as the same day (`CommitDisplay`).
- Only a keyboard commit, Enter or Space, asks the surface to close (line 238). A
  pointer commit sends no close request from this handler (`CloseRequestIff`).
- Arrow-key navigation, meaning any other keypress, only moves `#selectedDate`. It leaves
  `value` and `_valueText` unchanged (lines 235-236, `CommitOrNavigate`).
- A clear empties `value` and `_valueText` but keeps `#selectedDate` (lines 204-208, `ClearEffect`).
- Assigning an empty `value` leaves `_valueText` unchanged (line 91, `ValueChange`).
- The clear flag is consumed by whichever `date-updated` event comes next (lines 232, 240-242).
  If the calendar emits none for the clear itself, the user's next real pick is
  swallowed (`ClearWithoutEchoSwallowsNextPick`).

The handler functions of `Coordinator` (`OnInputClick`, `OnDateUpdated`, `WillUpdate`,
`Handle`, `Settle`, …) have no rows of their own. The class methods below are stated
equal to them, and the `CoordinatorProperties` lemmas state what they do, so those rows
stand for them.

## Model

| member | source | states |
|---|---|---|
| DateEnv.ResolveLocale | src/date-picker-input/date-picker-input.ts:79-81 | the new locale is the current one when non-empty, otherwise the environment default; it is non-empty iff either is |
| DateEnv.FirstFocusable | src/date-picker-input/date-picker-input.ts:245-252 | the stored focus element is the first focusable element, and absent exactly when the list is empty |
| CoordinatorProperties.OpenPaths | src/date-picker-input/date-picker-input.ts:58-62 | from a settled state, click, Space/Enter keyup and `showPicker` give exactly the old state opened and mounted; any other key changes nothing |
| CoordinatorProperties.ClosePaths | src/date-picker-input/date-picker-input.ts:139-141 | `closePicker` and the surface's `closed` event give exactly the old state with `_open` false |
| CoordinatorProperties.OpenedFocusesStoredElement | src/date-picker-input/date-picker-input.ts:257-262 | `opened` focuses the stored element if present and changes no state |
| CoordinatorProperties.StepKeepsRendered | src/date-picker-input/date-picker-input.ts:95-97 | no handler changes `_rendered`; `willUpdate`, for every combination of locale/value flags, never clears it and leaves an open picker mounted |
| CoordinatorProperties.RunKeepsRendered | src/date-picker-input/date-picker-input.ts:95-97 | once mounted, the surface stays mounted over every sequence of events |
| CoordinatorProperties.ClearEffect | src/date-picker-input/date-picker-input.ts:204-208 | a clear raises the flag and empties value and text, leaving `_open` and `#selectedDate` unchanged, also after its update |
| CoordinatorProperties.DateUpdatedWhileClearing | src/date-picker-input/date-picker-input.ts:240-242 | a date-updated event during a clear only lowers the flag and requests no close |
| CoordinatorProperties.StepKeepsClearPending | src/date-picker-input/date-picker-input.ts:232-242 | every event but a value assignment keeps "flag raised implies value and text empty"; events other than date-updated keep the flag raised |
| CoordinatorProperties.RunKeepsClearPending | src/date-picker-input/date-picker-input.ts:204-208 | over any run without a value assignment, a pending clear keeps value and text empty |
| CoordinatorProperties.QuietRunKeepsFlag | src/date-picker-input/date-picker-input.ts:221-231 | the flag stays raised, with value and text empty, until the next date-updated event or value assignment |
| CoordinatorProperties.ClearSwallowsNextDateUpdate | src/date-picker-input/date-picker-input.ts:221-242 | clear, then any quiet events, then one date-updated event with any key and date: value and text are empty, the flag is lowered, selection and open state are untouched, no close is requested |
| CoordinatorProperties.ClearWithoutEchoSwallowsNextPick | src/date-picker-input/date-picker-input.ts:232-242 | from an empty settled state a commit sets the value, but a clear followed by the same commit leaves the value empty and no date selected |
| CoordinatorProperties.DateUpdatedSelects | src/date-picker-input/date-picker-input.ts:232-233 | outside a clear, date-updated always selects the event's date, whatever the key |
| CoordinatorProperties.CommitOrNavigate | src/date-picker-input/date-picker-input.ts:235-236 | the value becomes the formatted date exactly for a pointer pick or Enter/Space; other keys leave value and text; `_open` never changes here |
| CoordinatorProperties.CloseRequestIff | src/date-picker-input/date-picker-input.ts:235-238 | a close request goes out iff no clear is pending, it is a keypress, and the key is Enter or Space |
| CoordinatorProperties.CommitDisplay | src/date-picker-input/date-picker-input.ts:91-92 | after a commit the text is the formatted value read back through the resolver, which is the formatted date when the resolver inverts the formatter on it |
| CoordinatorProperties.KeyCommitThenClosed | src/date-picker-input/date-picker-input.ts:238 | an Enter commit requests a close; after the surface's `closed` the picker is closed and keeps the committed value and date |
| CoordinatorProperties.FirstUpdatedStores | src/date-picker-input/date-picker-input.ts:245-255 | first-updated stores the first focusable element, the calendar and its date; value, text, open state and flag stay |
| CoordinatorProperties.LocaleChange | src/date-picker-input/date-picker-input.ts:78-89 | a new locale is resolved, the formatter rebuilt for it, and a non-empty value reformatted in it; an empty value leaves the text; value and selection stay |
| CoordinatorProperties.ValueChange | src/date-picker-input/date-picker-input.ts:91-93 | a new non-empty value is reformatted in the current locale; an empty one leaves the text unchanged |
| CoordinatorProperties.InitialSatisfiesInv | src/date-picker-input/date-picker-input.ts:75-98 | the first update resolves the locale and establishes the invariant, closed and with no clear pending |
| CoordinatorProperties.StepPreservesInv | src/date-picker-input/date-picker-input.ts:75-98 | every event with its update keeps: open implies mounted, formatter matches locale, non-empty value shown in the current locale, locale resolved |
| CoordinatorProperties.RunPreservesInv | src/date-picker-input/date-picker-input.ts:75-98 | the invariant holds after every sequence of events |
| CoordinatorProperties.Reachable | src/date-picker-input/date-picker-input.ts:75-98 | in every reachable state an open picker is mounted and a non-empty value is never shown in a stale locale |
| DatePickerInput.DatePickerInput.constructor | src/date-picker-input/date-picker-input.ts:31-40 | the fields start closed, unmounted, with empty text, no clear pending, no selection, no focus element, and a formatter for the initial locale |
| DatePickerInput.DatePickerInput.OnInputClick | src/date-picker-input/date-picker-input.ts:58 | sets `_open` and nothing else |
| DatePickerInput.DatePickerInput.OnInputKeyup | src/date-picker-input/date-picker-input.ts:59-63 | Space or Enter opens and other keys leave the state unchanged |
| DatePickerInput.DatePickerInput.WillUpdate | src/date-picker-input/date-picker-input.ts:75-98 | the in-place update equals the coordinator's `WillUpdate`; afterwards open implies rendered, and rendered never reverts |
| DatePickerInput.DatePickerInput.ClosePicker | src/date-picker-input/date-picker-input.ts:139-141 | clears `_open` and nothing else |
| DatePickerInput.DatePickerInput.ShowPicker | src/date-picker-input/date-picker-input.ts:143-145 | sets `_open` and nothing else |
| DatePickerInput.DatePickerInput.OnClearClick | src/date-picker-input/date-picker-input.ts:204-208 | raises the flag, empties value and text, and leaves open state and selection |
| DatePickerInput.DatePickerInput.OnClosed | src/date-picker-input/date-picker-input.ts:210-212 | clears `_open` and nothing else |
| DatePickerInput.DatePickerInput.OnDatePickerDateUpdated | src/date-picker-input/date-picker-input.ts:214-243 | swallows the event during a clear; otherwise selects the date, commits the formatted value on a commit, and asks the surface to close exactly on a keypress commit |
| DatePickerInput.DatePickerInput.OnDatePickerFirstUpdated | src/date-picker-input/date-picker-input.ts:245-255 | stores the first focusable element (absent for an empty list), the calendar and its date |
| DatePickerInput.DatePickerInput.OnOpened | src/date-picker-input/date-picker-input.ts:257-262 | the element focused is the stored focus element, if any |

## Left out

- Rendering: `render`, `renderInput`, `renderTrailingIcon` and `slotDatePicker` are markup only.
- Formatting and date resolution are foreign calls, so `Intl.DateTimeFormat` and
  `toResolvedDate` are uninterpreted fields of `Env`. Two consequences:
  - a `RangeError` from an invalid locale is not modelled;
  - `value` is always a string, so the resolver's number, `Date`, `null` and `undefined`
    inputs do not arise.
- `DateEnv.Env`: the resolver is assumed to always return a valid day, and formatting is
  assumed never to throw. In the source, resolving text it cannot read gives an Invalid
  Date, and formatting that throws `RangeError`, so the update fails (lines 87, 92).
  This can happen on the commit path, because line 236 stores locale-formatted text in
  `value` and line 92 resolves it again.
- Events are accepted in any state. In the source, the `closed`, `opened`, `date-updated`
  and `first-updated` listeners exist only while `_rendered` is true (lines 104-131).
  Allowing those events in other states only adds runs, so every invariant proved over
  all runs also holds for the source's runs.
- Asynchrony is not modelled:
  - the `await`s on `$input`, `$inputSurface`, the calendar's and the element's `updateComplete`;
  - attaching and detaching listeners in `firstUpdated` and `disconnectedCallback`. The
    click and keyup listeners are modelled as always attached, that is, `$input` is assumed found.
- The `?.` on `$inputSurface`: the close request is an output of the handler. Whether a
  surface exists to receive it is not modelled.
- The calendar focus call is the focus output of `opened`. The DOM focus itself is not modelled.
- Lit batching: each event is followed by its own update. Several events that Lit would
  batch into one update are not modelled.
- The surface component `src/date-picker-input-surface/date-picker-input-surface.ts` only
  passes properties through. It is not part of this model.
- The pass-through properties (`min`, `max`, `disabledDates`, labels, `startView`, …) are not modelled.
- `src/key-values.js` is not part of this model. `keyEnter` and `keySpace` are taken as
  `"Enter"` and `" "`.
