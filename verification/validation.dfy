/** The temporal validator: range checks on either time axis and required-field checks.
    Each check either passes or fails with a `ValidationError` carrying the
    message the Python code raises. */
module Validation {
  import opened Results

  /** An argument as the validator sees it: `None`, a string, or any other
      (non-string) value such as an id, a date or a timestamp. */
  datatype Value = Null | Str(s: string) | Int(i: int)

  /** Lifts an optional id, date or timestamp to a validator argument. */
  function IntValue(o: Option<int>): Value {
    match o
    case None => Null
    case Some(i) => Int(i)
  }

  /** Lifts an optional string to a validator argument. */
  function StrValue(o: Option<string>): Value {
    match o
    case None => Null
    case Some(s) => Str(s)
  }

  /** `validate_date_range`: fails exactly when both bounds are present and
      start lies after end; equal bounds are accepted. */
  function ValidateDateRange(start: Option<int>, end: Option<int>, startName: string, endName: string): (r: Check)
    ensures r.Fail? <==> start.Some? && end.Some? && start.value > end.value
    ensures r.Fail? ==> r.error == ValidationError(startName + " must be less than or equal to " + endName)
  {
    if start.None? || end.None? then
      Pass
    else if start.value > end.value then
      Fail(ValidationError(startName + " must be less than or equal to " + endName))
    else
      Pass
  }

  /** `validate_processing_time_range`: the range check on the processing axis. */
  function ValidateProcessingTimeRange(procStart: Option<int>, procEnd: Option<int>): (r: Check)
    ensures r == ValidateDateRange(procStart, procEnd, "proc_start", "proc_end")
    ensures r.Fail? <==> procStart.Some? && procEnd.Some? && procStart.value > procEnd.value
  {
    ValidateDateRange(procStart, procEnd, "proc_start", "proc_end")
  }

  /** `validate_business_time_range`: the range check on the business axis. */
  function ValidateBusinessTimeRange(resStart: Option<int>, resEnd: Option<int>): (r: Check)
    ensures r == ValidateDateRange(resStart, resEnd, "res_start", "res_end")
    ensures r.Fail? <==> resStart.Some? && resEnd.Some? && resStart.value > resEnd.value
  {
    ValidateDateRange(resStart, resEnd, "res_start", "res_end")
  }

  /** The characters Python's `str.strip()` removes: those for which `str.isspace()` holds. */
  predicate IsSpace(c: char) {
    || ('\t' <= c <= '\r')                  // tab, line feed, vertical tab, form feed, carriage return
    || ('\U{1C}' <= c <= '\U{1F}')          // file, group, record and unit separators
    || c == ' '
    || c == '\U{85}'                        // next line
    || c == '\U{A0}'                        // no-break space
    || c == '\U{1680}'                      // ogham space mark
    || ('\U{2000}' <= c <= '\U{200A}')      // en quad .. hair space
    || c == '\U{2028}' || c == '\U{2029}'   // line and paragraph separators
    || c == '\U{202F}' || c == '\U{205F}' || c == '\U{3000}'
  }

  /** The string consists of whitespace only (the empty string included). */
  predicate IsBlank(s: string) {
    forall i | 0 <= i < |s| :: IsSpace(s[i])
  }

  /** The first index at or after `i` whose character is not whitespace
      (`|s|` when there is none): where `strip()` starts its slice. */
  function SkipSpaceForward(s: string, i: nat): (k: nat)
    requires i <= |s|
    ensures i <= k <= |s|
    ensures forall m | i <= m < k :: IsSpace(s[m])
    ensures k < |s| ==> !IsSpace(s[k])
    decreases |s| - i
  {
    if i < |s| && IsSpace(s[i]) then SkipSpaceForward(s, i + 1) else i
  }

  /** The least index `k` in `lo..j` such that `s[k..j]` is all whitespace:
      where `strip()` ends its slice when it must not pass `lo`. */
  function SkipSpaceBackward(s: string, lo: nat, j: nat): (k: nat)
    requires lo <= j <= |s|
    ensures lo <= k <= j
    ensures forall m | k <= m < j :: IsSpace(s[m])
    ensures k > lo ==> !IsSpace(s[k - 1])
    decreases j
  {
    if j > lo && IsSpace(s[j - 1]) then SkipSpaceBackward(s, lo, j - 1) else j
  }

  /** `s.strip()`: the slice of `s` left after cutting the whitespace at both
      ends.  Everything cut off is whitespace and the slice neither starts nor
      ends with whitespace, which determines the slice. */
  function Strip(s: string): (r: string)
    ensures exists i, j ::
              && 0 <= i <= j <= |s| && r == s[i..j]
              && (forall k | 0 <= k < i :: IsSpace(s[k]))
              && (forall k | j <= k < |s| :: IsSpace(s[k]))
    ensures r == [] || (!IsSpace(r[0]) && !IsSpace(r[|r| - 1]))
  {
    var i := SkipSpaceForward(s, 0);
    var j := SkipSpaceBackward(s, i, |s|);
    assert s[i..j] == [] || (s[i..j][0] == s[i] && s[i..j][j - i - 1] == s[j - 1]);
    s[i..j]
  }

  /** Python's `not s.strip()`: stripping leaves nothing exactly when the
      string is blank, so the required-field check below may test `IsBlank`. */
  lemma StripEmptyIffBlank(s: string)
    ensures Strip(s) == [] <==> IsBlank(s)
  {
  }

  /** `validate_required_field`: fails on `None` and on strings that strip to
      nothing; every other value, including every non-string, passes. */
  function ValidateRequiredField(v: Value, fieldName: string): (r: Check)
    ensures r.Fail? <==> v.Null? || (v.Str? && IsBlank(v.s))
    ensures v.Null? ==> r == Fail(ValidationError("Required field '" + fieldName + "' is missing"))
    ensures v.Str? && IsBlank(v.s) ==> r == Fail(ValidationError("Required field '" + fieldName + "' cannot be empty"))
  {
    if v.Null? then
      Fail(ValidationError("Required field '" + fieldName + "' is missing"))
    else if v.Str? && IsBlank(v.s) then
      Fail(ValidationError("Required field '" + fieldName + "' cannot be empty"))
    else
      Pass
  }
}
