/** The field rules the backend enforces on task data, shared by the data
    layer (packages/backend/src/models/Task.js) and the request validators
    (packages/backend/src/middleware/validation.js). */
module TaskRules {
  import opened JsValues
  import opened Text
  import opened Categories

  /** A string that is not blank and has at most 255 UTF-16 code units
      (`.length`) before trimming. */
  predicate TitleOk(v: Value)
  {
    v.Str? && !IsBlank(v.s) && Utf16Length(v.s) <= 255
  }

  /** A title of 128 emoji is 256 code units long, so it is refused
      although it has only 128 characters. */
  lemma AstralTitleRefused(s: string)
    requires |s| == 128 && forall k :: 0 <= k < |s| ==> s[k] as int >= 0x1_0000
    ensures !TitleOk(Str(s))
  {
    AstralLength(s);
  }

  /** One of the eight category names; `includes` never matches a
      non-string. */
  predicate CategoryOk(v: Value)
  {
    v.Str? && v.s in Names
  }

  /** An integral number in [0, 100]. */
  predicate StatusOk(v: Value)
  {
    v.Num? && IsInteger(v.n) && 0.0 <= v.n <= 100.0
  }

  /** At most 1000 UTF-16 code units when a string is given. */
  predicate DescriptionOk(v: TextValue)
  {
    v.Str? ==> Utf16Length(v.s) <= 1000
  }

  /** A non-empty string must start with a YYYY-MM-DD shape; an empty
      string, null or an absent field is not checked. */
  predicate DueDateOk(v: TextValue)
  {
    v.Str? && |v.s| > 0 ==> HasDatePrefix(v.s)
  }
}
