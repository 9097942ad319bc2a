/**
 * The WTForms behaviour the application's forms rely on: how a field turns the
 * submitted text into its `data` (processing), and what the validators named
 * in the forms accept.  A field whose key is absent from the submission is
 * `None` here; a value the field cannot convert leaves `data` at None.
 */
module Validators {
  import opened Wrappers
  import Text

  // ---------------------------------------------------------------------------
  // processing

  /**
   * IntegerField: an absent key keeps the field's default; otherwise `int(raw)`,
   * with None for a ValueError.
   */
  function IntegerData(raw: Option<string>, default: Option<int>): Option<int> {
    if raw.None? then default else Text.ParseInt(raw.value)
  }

  /** SelectField with the default `str` coerce: an absent key keeps the default. */
  function SelectData(raw: Option<string>, default: Option<string>): Option<string> {
    if raw.None? then default else raw
  }

  /** BooleanField: false when absent or one of its false values ("false", ""). */
  function BooleanData(raw: Option<string>): bool {
    raw.Some? && raw.value != "false" && raw.value != ""
  }

  // ---------------------------------------------------------------------------
  // validators

  /** `DataRequired` on a text field: present and not blank after `strip()`. */
  predicate TextRequired(data: Option<string>) {
    data.Some? && !Text.AllSpace(data.value)
  }

  /** `DataRequired` on a numeric field: present and truthy, so 0 is rejected. */
  predicate NumberRequired(data: Option<int>) {
    data.Some? && data.value != 0
  }

  /** The length `Length` measures: a missing value counts as 0. */
  function DataLength(data: Option<string>): nat {
    if data.Some? then |data.value| else 0
  }

  /** `Length(min, max)`. */
  predicate LengthWithin(data: Option<string>, min: nat, max: nat) {
    min <= DataLength(data) <= max
  }

  /** `Length(max=max)`. */
  predicate LengthAtMost(data: Option<string>, max: nat) {
    DataLength(data) <= max
  }

  /** `NumberRange(min=min)`: a missing value fails. */
  predicate NumberAtLeast(data: Option<int>, min: int) {
    data.Some? && min <= data.value
  }

  /** `NumberRange(min, max)`. */
  predicate NumberWithin(data: Option<int>, min: int, max: int) {
    data.Some? && min <= data.value <= max
  }

  /** SelectField's pre-validation: the data must be one of the choice values. */
  predicate IsChoice<T(==)>(data: Option<T>, choices: set<T>) {
    data.Some? && data.value in choices
  }

  /** `EqualTo(other)`: the two data values are equal. */
  predicate EqualTo(data: Option<string>, other: Option<string>) {
    data == other
  }
}
