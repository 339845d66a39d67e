/**
 * The upload size limit of apps/core/validators.py.
 *
 * A `FileSizeValidator` is built from a size and a unit (KB, MB or GB, in any
 * letter case, binary multiples), optionally with its own message and error
 * code, and rejects a file whose size in bytes exceeds the limit. Validators
 * compare equal field by field and hash consistently with that equality.
 */
module Validators {
  import opened Wrappers
  import opened Text

  const DefaultMessage: string := "The file size must not exceed %(max_size)d %(unit)s."
  const DefaultCode: string := "max_size"

  /** The `units` table: bytes per unit, or None for an unknown unit. */
  function UnitBytes(unit: string): (r: Option<nat>)
    ensures r.Some? <==> unit in {"KB", "MB", "GB"}
  {
    if unit == "KB" then Some(1024)
    else if unit == "MB" then Some(1024 * 1024)
    else if unit == "GB" then Some(1024 * 1024 * 1024)
    else None
  }

  datatype FileSizeValidator = FileSizeValidator(maxSize: int, unit: string, message: string, code: string)
  {
    /** Every validator that construction can produce has a known unit. */
    predicate WellFormed() { UnitBytes(unit).Some? }
  }

  /** The `ValueError` raised by the constructor for an unknown unit. */
  datatype ValueError = InvalidUnit(message: string)

  /** The `ValidationError` raised for an oversized file, with its `params`. */
  datatype ValidationError = ValidationError(message: string, code: string, maxSize: int, unit: string)

  /** `FileSizeValidator.__init__`: the unit is upper-cased before it is checked and stored. */
  function New(maxSize: int, unit: string, message: Option<string>, code: Option<string>): (r: Result<FileSizeValidator, ValueError>)
    ensures r.Success? <==> Upper(unit) in {"KB", "MB", "GB"}
    ensures r.Success? ==> r.value.WellFormed() && r.value.unit == Upper(unit) && r.value.maxSize == maxSize
    ensures r.Success? ==> r.value.message == (if message.Some? then message.value else DefaultMessage)
    ensures r.Success? ==> r.value.code == (if code.Some? then code.value else DefaultCode)
    ensures r.Failure? ==> r.error.message == "Unit '" + Upper(unit) + "' is invalid."
  {
    var u := Upper(unit);
    if UnitBytes(u).None? then Failure(InvalidUnit("Unit '" + u + "' is invalid."))
    else Success(FileSizeValidator(
      maxSize, u,
      if message.Some? then message.value else DefaultMessage,
      if code.Some? then code.value else DefaultCode))
  }

  /** The limit in bytes. */
  function MaxBytes(v: FileSizeValidator): int
    requires v.WellFormed()
  {
    v.maxSize * UnitBytes(v.unit).value
  }

  /** `FileSizeValidator.__call__`: None when the file is accepted, the raised error otherwise. */
  function Validate(v: FileSizeValidator, size: int): (r: Option<ValidationError>)
    requires v.WellFormed()
    ensures r.None? <==> size <= MaxBytes(v)
    ensures r.Some? ==> r.value == ValidationError(v.message, v.code, v.maxSize, v.unit)
  {
    if size > MaxBytes(v) then Some(ValidationError(v.message, v.code, v.maxSize, v.unit)) else None
  }

  /** A file exactly at the limit passes and one byte more fails: for 5 MB the boundary is 5242880 bytes. */
  lemma FiveMegabyteBoundary()
    ensures New(5, "mb", None, None).Success?
    ensures Validate(New(5, "mb", None, None).value, 5242880).None?
    ensures Validate(New(5, "mb", None, None).value, 5242881) == Some(ValidationError(DefaultMessage, DefaultCode, 5, "MB"))
  {
    assert Upper("mb") == "MB";
  }

  /** Any letter case of a known unit is accepted; an unknown unit is refused at construction with its upper-cased name. */
  lemma UnitCaseIsIgnored(maxSize: int)
    ensures New(maxSize, "Gb", None, None).Success? && New(maxSize, "Gb", None, None).value.unit == "GB"
    ensures New(maxSize, "tb", None, None) == Failure(InvalidUnit("Unit 'TB' is invalid."))
  {
    assert Upper("Gb") == "GB";
    assert Upper("tb") == "TB";
    assert "Unit '" + "TB" + "' is invalid." == "Unit 'TB' is invalid.";
  }

  /** Accepting is downward closed: a file no larger than an accepted one is accepted. */
  lemma {:induction false} AcceptanceIsMonotone(v: FileSizeValidator, small: int, large: int)
    requires v.WellFormed() && small <= large
    requires Validate(v, large).None?
    ensures Validate(v, small).None?
  {
  }

  /** Units scale by 1024: the same size in the next larger unit allows 1024 times as many bytes. */
  lemma {:induction false} UnitsScaleBy1024(maxSize: int)
    ensures MaxBytes(New(maxSize, "MB", None, None).value) == 1024 * MaxBytes(New(maxSize, "KB", None, None).value)
    ensures MaxBytes(New(maxSize, "GB", None, None).value) == 1024 * MaxBytes(New(maxSize, "MB", None, None).value)
  {
    assert Upper("MB") == "MB" && Upper("KB") == "KB" && Upper("GB") == "GB";
  }

  /** What `__eq__` may be handed: another validator, or an object of another class. */
  datatype Operand = Validator(v: FileSizeValidator) | OtherObject

  /** `FileSizeValidator.__eq__`. */
  predicate Equals(a: FileSizeValidator, other: Operand)
    ensures Equals(a, other) <==> other == Validator(a)
  {
    && other.Validator?
    && a.maxSize == other.v.maxSize
    && a.unit == other.v.unit
    && a.message == other.v.message
    && a.code == other.v.code
  }

  /**
   * `__eq__` is exactly equality of the four fields, is never true of another
   * class, and agrees with `__hash__`, which hashes the tuple of the four fields.
   */
  lemma EqualsAgreesWithHash(a: FileSizeValidator, b: FileSizeValidator)
    ensures Equals(a, Validator(b)) <==> a == b
    ensures Equals(a, Validator(b)) <==> (a.maxSize, a.unit, a.message, a.code) == (b.maxSize, b.unit, b.message, b.code)
    ensures !Equals(a, OtherObject)
  {
  }
}
