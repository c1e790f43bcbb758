/**
 * The `DatePickerInput` element: its fields, updated in place by its event
 * handlers, public methods and `willUpdate`. Each method's new state is the
 * one the coordinator's function of the old state gives.
 */
module DatePickerInput {
  import opened Wrappers
  import opened DateEnv
  import Coordinator

  class DatePickerInput {
    /** The foreign calls this element makes (formatter, resolver, default locale). */
    const env: Env

    var open: bool                        // _open
    var rendered: bool                    // _rendered
    var valueText: string                 // _valueText
    var value: string
    var isClearAction: bool               // #isClearAction
    var selectedDate: Option<Date>        // #selectedDate, unset until an event fills it
    var locale: string
    var focusElement: Option<ElementRef>  // #focusElement
    var picker: Option<PickerRef>         // #picker
    var valueFormatter: Formatter         // #valueFormatter

    /** The fields as a coordinator state. */
    ghost function Snapshot(): Coordinator.State
      reads this
    {
      Coordinator.State(open, rendered, valueText, value, isClearAction, selectedDate,
                        locale, focusElement, picker, valueFormatter)
    }

    /** The field initialisers, for an element whose `locale` and `value` start as given. */
    constructor (env: Env, locale: string, value: string)
      ensures this.env == env
      ensures Snapshot() == Coordinator.Fresh(locale, value)
      ensures !open && !rendered && valueText == "" && !isClearAction && selectedDate.None? && focusElement.None?
    {
      this.env := env;
      open := false;
      rendered := false;
      valueText := "";
      this.value := value;
      isClearAction := false;
      selectedDate := None;
      this.locale := locale;
      focusElement := None;
      picker := None;
      valueFormatter := ToValueFormatter(locale);
    }

    /** The input's click listener opens the picker. */
    method OnInputClick()
      modifies this
      ensures Snapshot() == Coordinator.OnInputClick(old(Snapshot()))
      ensures open
    {
      open := true;
    }

    /** The input's keyup listener: Space and Enter act as a click, other keys do nothing. */
    method OnInputKeyup(key: string)
      modifies this
      ensures Snapshot() == Coordinator.OnInputKeyup(old(Snapshot()), key)
      ensures open == (old(open) || IsCommitKey(key))
    {
      if key == KeySpace || key == KeyEnter {
        OnInputClick();
      }
    }

    /** The update cycle's `willUpdate`, given which of `locale` and `value` changed. */
    method WillUpdate(localeChanged: bool, valueChanged: bool)
      modifies this
      ensures Snapshot() == Coordinator.WillUpdate(env, old(Snapshot()), localeChanged, valueChanged)
      ensures open ==> rendered
      ensures old(rendered) ==> rendered
    {
      if localeChanged {
        var newLocale := ResolveLocale(locale, env.defaultLocale);
        locale := newLocale;
        valueFormatter := ToValueFormatter(locale);
        if value != "" {
          valueText := FormatWith(env, valueFormatter, env.resolve(value));
        }
      }
      if valueChanged && value != "" {
        valueText := FormatWith(env, valueFormatter, env.resolve(value));
      }
      if !rendered && open {
        rendered := true;
      }
    }

    method ClosePicker()
      modifies this
      ensures Snapshot() == Coordinator.ClosePicker(old(Snapshot()))
      ensures !open
    {
      open := false;
    }

    method ShowPicker()
      modifies this
      ensures Snapshot() == Coordinator.ShowPicker(old(Snapshot()))
      ensures open
    {
      open := true;
    }

    /** The clear icon: raise the flag, then empty the text and the value. */
    method OnClearClick()
      modifies this
      ensures Snapshot() == Coordinator.OnClearClick(old(Snapshot()))
      ensures isClearAction && value == "" && valueText == ""
      ensures open == old(open) && selectedDate == old(selectedDate)
    {
      isClearAction := true;
      valueText := "";
      value := valueText;
    }

    /** The surface's `closed` event. */
    method OnClosed()
      modifies this
      ensures Snapshot() == Coordinator.OnClosed(old(Snapshot()))
      ensures !open
    {
      open := false;
    }

    /**
     * The calendar's `date-updated` event. Returns whether the surface is
     * asked to close.
     */
    method OnDatePickerDateUpdated(isKeypress: bool, key: string, valueAsDate: Date) returns (closeSurface: bool)
      modifies this
      ensures Snapshot() == Coordinator.OnDateUpdated(env, old(Snapshot()), isKeypress, key, valueAsDate)
      ensures closeSurface == Coordinator.DateUpdatedClosesSurface(old(Snapshot()), isKeypress, key)
      ensures closeSurface <==> !old(isClearAction) && isKeypress && IsCommitKey(key)
      ensures old(isClearAction) ==> !isClearAction && value == old(value) && selectedDate == old(selectedDate)
      ensures !old(isClearAction) ==> selectedDate == Some(valueAsDate)
    {
      closeSurface := false;
      if !isClearAction {
        selectedDate := Some(valueAsDate);
        if !isKeypress || (key == KeyEnter || key == KeySpace) {
          value := FormatWith(env, valueFormatter, valueAsDate);
          closeSurface := isKeypress;
        }
      } else {
        isClearAction := false;
      }
    }

    /** The calendar's `first-updated` event. */
    method OnDatePickerFirstUpdated(currentTarget: PickerRef, focusableElements: seq<ElementRef>, valueAsDate: Date)
      modifies this
      ensures Snapshot() == Coordinator.OnDatePickerFirstUpdated(old(Snapshot()), currentTarget, focusableElements, valueAsDate)
      ensures focusElement == FirstFocusable(focusableElements) && selectedDate == Some(valueAsDate)
    {
      focusElement := if |focusableElements| > 0 then Some(focusableElements[0]) else None;
      picker := Some(currentTarget);
      selectedDate := Some(valueAsDate);
    }

    /** The surface's `opened` event: the element that receives focus, if one is stored. */
    method OnOpened() returns (focus: Option<ElementRef>)
      ensures focus == focusElement
    {
      focus := focusElement;
    }
  }
}
