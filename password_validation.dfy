/**
 * The password validators of apps/users/password_validation.py.
 *
 * One validator refuses a password without an uppercase letter, the other
 * a password without a lowercase letter, each with its own error code. The
 * user the password belongs to plays no part. Letter case is the ASCII
 * letter case of module Text.
 */
module PasswordValidation {
  import opened Wrappers
  import opened Text

  /** The `ValidationError` a validator raises: its message and its code. */
  datatype ValidationError = ValidationError(message: string, code: string)

  const NoUpperMessage: string := "This password does not contain an uppercase letter."
  const NoLowerMessage: string := "This password does not contain a lowercase letter."
  const NoUpperCode: string := "password_no_upper"
  const NoLowerCode: string := "password_no_lower"

  /** `any(char.isupper() for char in password)`. */
  function ContainsUpper(password: string): (r: bool)
    ensures r <==> exists i :: 0 <= i < |password| && IsUpper(password[i])
  {
    if password == [] then false
    else IsUpper(password[0]) || ContainsUpper(password[1..])
  }

  /** `any(char.islower() for char in password)`. */
  function ContainsLower(password: string): (r: bool)
    ensures r <==> exists i :: 0 <= i < |password| && IsLower(password[i])
  {
    if password == [] then false
    else IsLower(password[0]) || ContainsLower(password[1..])
  }

  /** `UppercaseValidator.validate`: Pass, or the error it raises. `user` is accepted and ignored. */
  function ValidateUpper(password: string, user: Option<nat>): (r: Outcome<ValidationError>)
    ensures r.Pass? <==> exists i :: 0 <= i < |password| && IsUpper(password[i])
    ensures r.Fail? ==> r.error == ValidationError(NoUpperMessage, NoUpperCode)
  {
    if !ContainsUpper(password) then Fail(ValidationError(NoUpperMessage, NoUpperCode)) else Pass
  }

  /** `LowercaseValidator.validate`: Pass, or the error it raises. `user` is accepted and ignored. */
  function ValidateLower(password: string, user: Option<nat>): (r: Outcome<ValidationError>)
    ensures r.Pass? <==> exists i :: 0 <= i < |password| && IsLower(password[i])
    ensures r.Fail? ==> r.error == ValidationError(NoLowerMessage, NoLowerCode)
  {
    if !ContainsLower(password) then Fail(ValidationError(NoLowerMessage, NoLowerCode)) else Pass
  }

  /** Both validators refuse the empty password. */
  lemma EmptyPasswordFailsBoth(user: Option<nat>)
    ensures ValidateUpper([], user) == Fail(ValidationError(NoUpperMessage, NoUpperCode))
    ensures ValidateLower([], user) == Fail(ValidationError(NoLowerMessage, NoLowerCode))
  {
  }

  /** The outcome depends only on the password. */
  lemma UserIsIgnored(password: string, u1: Option<nat>, u2: Option<nat>)
    ensures ValidateUpper(password, u1) == ValidateUpper(password, u2)
    ensures ValidateLower(password, u1) == ValidateLower(password, u2)
  {
  }

  /** A password both validators pass has at least two characters: no character is both upper- and lowercase. */
  lemma {:induction false} PassingBothNeedsTwoCharacters(password: string, user: Option<nat>)
    requires ValidateUpper(password, user).Pass? && ValidateLower(password, user).Pass?
    ensures |password| >= 2
  {
    var i :| 0 <= i < |password| && IsUpper(password[i]);
    var j :| 0 <= j < |password| && IsLower(password[j]);
    assert i != j;
  }

  /** "Ab" passes both validators; "ab1" fails only the uppercase one, "AB1" only the lowercase one. */
  lemma Examples()
    ensures ValidateUpper("Ab", None).Pass? && ValidateLower("Ab", None).Pass?
    ensures ValidateUpper("ab1", None) == Fail(ValidationError(NoUpperMessage, NoUpperCode)) && ValidateLower("ab1", None).Pass?
    ensures ValidateLower("AB1", None) == Fail(ValidationError(NoLowerMessage, NoLowerCode)) && ValidateUpper("AB1", None).Pass?
  {
    assert IsUpper("Ab"[0]) && IsLower("Ab"[1]);
    assert IsLower("ab1"[0]) && IsUpper("AB1"[0]);
    assert forall i :: 0 <= i < 3 ==> !IsUpper("ab1"[i]) && !IsLower("AB1"[i]);
  }
}
