/**
 * The values the date-picker input exchanges with its collaborators, and the
 * foreign calls it makes (the locale-aware formatter, the date resolver and the
 * environment's default locale), which the model leaves uninterpreted.
 */
module DateEnv {
  import opened Wrappers

  /** A calendar day; the coordinator only stores, formats and forwards it. */
  datatype Date = Date(year: int, month: int, day: int)

  /** An element the calendar reports as focusable (a non-owning reference). */
  datatype ElementRef = ElementRef(id: nat)

  /** The calendar element that fired `first-updated`. */
  datatype PickerRef = PickerRef(id: nat)

  /**
   * The environment: `format(locale, d)` is what a `DateTimeFormat` built for
   * `locale` with the options year 'numeric', month 'short', day 'numeric'
   * returns for `d`; `resolve` is `toResolvedDate`; `defaultLocale` is the
   * locale `DateTimeFormat()` resolves to when none is given.
   */
  datatype Env = Env(
    format: (string, Date) -> string,
    resolve: string -> Date,
    defaultLocale: string)

  /** A value formatter: the locale it was built for (the options are fixed). */
  datatype Formatter = Formatter(locale: string)

  /** `$toValueFormatter`: a formatter for the widget's current locale. */
  function ToValueFormatter(locale: string): Formatter
  {
    Formatter(locale)
  }

  /** `formatter.format(d)`. */
  function FormatWith(env: Env, f: Formatter, d: Date): string
  {
    env.format(f.locale, d)
  }

  /** `locale || defaultLocale`: keeps a non-empty locale, otherwise falls back to the environment's. */
  function ResolveLocale(locale: string, defaultLocale: string): (r: string)
    ensures r == locale || r == defaultLocale
    ensures r != "" <==> (locale != "" || defaultLocale != "")
    ensures locale != "" ==> r == locale
  {
    if locale != "" then locale else defaultLocale
  }

  /** The key values `keyEnter` and `keySpace`. */
  const KeyEnter: string := "Enter"
  const KeySpace: string := " "

  /** A key that commits: Enter or Space. */
  predicate IsCommitKey(key: string)
  {
    key == KeyEnter || key == KeySpace
  }

  /**
   * The destructuring `focusableElements: [focusableElement]`: the first
   * element, or nothing when the list is empty.
   */
  function FirstFocusable(focusableElements: seq<ElementRef>): (r: Option<ElementRef>)
    ensures r.Some? <==> |focusableElements| > 0
    ensures r.Some? ==> r.value == focusableElements[0]
  {
    if |focusableElements| == 0 then None else Some(focusableElements[0])
  }
}
