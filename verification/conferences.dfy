/** The conference record and its validations. */
module Conferences {
  import opened Wrappers
  import opened Times

  type ConferenceId = nat

  /** Dates are day numbers; the default daily hours are wall-clock times. */
  datatype Conference = Conference(
    name: Option<string>,
    startDate: Option<int>,
    endDate: Option<int>,
    hoursStart: Option<MinuteOfDay>,
    hoursEnd: Option<MinuteOfDay>)

  datatype ConferenceError = NameBlank | StartDateBlank | EndDateBlank | EndBeforeStart

  /**
   * The characters `[[:space:]]` matches in a UTF-8 string: the Unicode
   * White_Space set.
   */
  predicate Space(ch: char)
  {
    || ch == ' ' || '\t' <= ch <= '\r'
    || ch == '\U{0085}' || ch == '\U{00A0}' || ch == '\U{1680}'
    || '\U{2000}' <= ch <= '\U{200A}'
    || ch == '\U{2028}' || ch == '\U{2029}' || ch == '\U{202F}' || ch == '\U{205F}' || ch == '\U{3000}'
  }

  /** Rails `blank?` on a string: it matches `\A[[:space:]]*\z`. */
  predicate Blank(s: string)
  {
    forall i :: 0 <= i < |s| ==> Space(s[i])
  }

  predicate Present(s: Option<string>)
  {
    s.Some? && !Blank(s.value)
  }

  /**
   * The presence validations plus the date-order check, which runs only
   * when both dates are present.
   */
  function ConferenceErrors(c: Conference): (errs: set<ConferenceError>)
    ensures NameBlank in errs <==> !Present(c.name)
    ensures StartDateBlank in errs <==> c.startDate.None?
    ensures EndDateBlank in errs <==> c.endDate.None?
    ensures EndBeforeStart in errs <==> c.startDate.Some? && c.endDate.Some? && c.endDate.value < c.startDate.value
  {
    (if Present(c.name) then {} else {NameBlank})
    + (if c.startDate.Some? then {} else {StartDateBlank})
    + (if c.endDate.Some? then {} else {EndDateBlank})
    + (if c.startDate.Some? && c.endDate.Some? && c.endDate.value < c.startDate.value
       then {EndBeforeStart} else {})
  }

  predicate Valid(c: Conference)
  {
    ConferenceErrors(c) == {}
  }

  /** A valid conference has both dates and they are in order; a one-day conference is valid. */
  lemma ValidIffOrdered(c: Conference)
    ensures Valid(c) <==> Present(c.name) && c.startDate.Some? && c.endDate.Some?
                          && c.startDate.value <= c.endDate.value
  {
    if !Valid(c) {
      var errs := ConferenceErrors(c);
      assert NameBlank in errs || StartDateBlank in errs || EndDateBlank in errs || EndBeforeStart in errs;
    }
  }

  /** A name of one no-break space is as blank as an empty one; a name with a letter is present. */
  lemma NoBreakSpaceNameBlank(c: Conference)
    requires c.name == Some("\U{00A0}") || c.name == Some("")
    ensures NameBlank in ConferenceErrors(c)
    ensures NameBlank !in ConferenceErrors(c.(name := Some(" a\U{3000}")))
  {
    var t := " a\U{3000}";
    assert !Space(t[1]);
  }

  /** The number of days in the inclusive range start..end (0 when the range is reversed). */
  function NumDays(c: Conference): (n: nat)
    requires c.startDate.Some? && c.endDate.Some?
    ensures Valid(c) ==> n == c.endDate.value - c.startDate.value + 1 && n >= 1
  {
    if c.endDate.value < c.startDate.value then 0 else c.endDate.value - c.startDate.value + 1
  }
}
