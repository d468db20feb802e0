/**
 * The input schemas (email, password, workspace name) and the three
 * validator wrappers that turn a failed parse into a 400 VALIDATION_ERROR
 * whose message is every issue message joined by ", ".
 *
 * The email-format check and the profanity filter are library predicates
 * and stay abstract: they are passed in as `isEmail` and `isProfane`.
 */
module Validation {
  import opened Results
  import opened Errors
  import opened Text

  const IssueSeparator := ", "

  // ---------------------------------------------------------------- email

  const EmailRequired := "Email is required"
  const EmailTooLong := "Email must be at most 100 characters"
  const EmailBadFormat := "Invalid email format"

  /** The schema's transforms: trim first, then lower-case. */
  function NormalizeEmail(raw: string): (r: string)
    ensures IsTrimmed(r)
    ensures ToLower(r) == r
  {
    var t := Trim(raw);
    ToLowerKeepsTrimmed(t);
    ToLowerIdempotent(t);
    ToLower(t)
  }

  /**
   * The issues the email schema reports for an already normalised value.
   * The length checks do not stop each other, but the format check sits
   * behind a pipe and only runs when the length checks passed.
   */
  function EmailIssues(email: string, isEmail: string -> bool): (r: seq<string>)
    ensures |r| <= 1
  {
    if |email| < 1 then [EmailRequired]
    else if |email| > 100 then [EmailTooLong]
    else if !isEmail(email) then [EmailBadFormat]
    else []
  }

  /** What the schema accepts, stated as a rule rather than as an issue list. */
  predicate EmailRule(email: string, isEmail: string -> bool) {
    1 <= |email| <= 100 && isEmail(email)
  }

  /** The issue list is empty exactly when the rule holds. */
  lemma EmailIssuesMatchRule(email: string, isEmail: string -> bool)
    ensures EmailIssues(email, isEmail) == [] <==> EmailRule(email, isEmail)
  {
  }

  /** `emailSchema.safeParse`: the normalised email, or the issue messages. */
  function ParseEmail(raw: string, isEmail: string -> bool): (r: Result<string, seq<string>>)
    ensures r.Ok? <==> EmailRule(NormalizeEmail(raw), isEmail)
    ensures r.Ok? ==> r.value == NormalizeEmail(raw)
    ensures r.Err? ==> |r.error| == 1
  {
    var email := NormalizeEmail(raw);
    var issues := EmailIssues(email, isEmail);
    if issues == [] then Ok(email) else Err(issues)
  }

  /** `validateEmail`: the trimmed, lower-cased email, or a 400 VALIDATION_ERROR listing the issues. */
  function ValidateEmail(raw: string, isEmail: string -> bool): (r: Result<string, AppError>)
    ensures r.Ok? <==> EmailRule(NormalizeEmail(raw), isEmail)
    ensures r.Ok? ==> r.value == ToLower(Trim(raw)) && IsTrimmed(r.value) && ToLower(r.value) == r.value
    ensures r.Ok? ==> 1 <= |r.value| <= 100 && isEmail(r.value)
    ensures r.Err? ==> r.error.status == 400 && r.error.code == ValidationError
    ensures r.Err? ==> r.error.message == Join(EmailIssues(NormalizeEmail(raw), isEmail), IssueSeparator)
  {
    match ParseEmail(raw, isEmail)
    case Ok(email) => Ok(email)
    case Err(issues) => Err(AppError(400, ValidationError, Join(issues, IssueSeparator)))
  }

  /** Validating an accepted email again accepts it unchanged. */
  lemma ValidateEmailIdempotent(raw: string, isEmail: string -> bool)
    requires ValidateEmail(raw, isEmail).Ok?
    ensures ValidateEmail(ValidateEmail(raw, isEmail).value, isEmail) == ValidateEmail(raw, isEmail)
  {
    var e := ValidateEmail(raw, isEmail).value;
    TrimOfTrimmed(e);
    assert NormalizeEmail(e) == e;
  }

  // ------------------------------------------------------------- password

  const PasswordTooShort := "Password must be at least 8 characters long"
  const PasswordTooLong := "Password must be at most 100 characters"
  const PasswordNoUpper := "Password must contain at least one uppercase letter"
  const PasswordNoLower := "Password must contain at least one lowercase letter"
  const PasswordNoDigit := "Password must contain at least one number"
  const PasswordNoSpecial := "Password must contain at least one special character"

  /** The password complexity policy: 8 to 100 characters with an upper, a lower, a digit and a special character. */
  predicate PasswordRule(p: string) {
    8 <= |p| <= 100 && HasUpper(p) && HasLower(p) && HasDigit(p) && HasSpecial(p)
  }

  /** The issues the password schema reports, in rule order; no rule stops a later one. */
  function PasswordIssues(p: string): seq<string> {
    (if |p| < 8 then [PasswordTooShort] else [])
    + (if |p| > 100 then [PasswordTooLong] else [])
    + (if !HasUpper(p) then [PasswordNoUpper] else [])
    + (if !HasLower(p) then [PasswordNoLower] else [])
    + (if !HasDigit(p) then [PasswordNoDigit] else [])
    + (if !HasSpecial(p) then [PasswordNoSpecial] else [])
  }

  /** Every broken rule is reported, and only broken rules are. */
  lemma PasswordIssuesListBrokenRules(p: string)
    ensures PasswordTooShort in PasswordIssues(p) <==> |p| < 8
    ensures PasswordTooLong in PasswordIssues(p) <==> |p| > 100
    ensures PasswordNoUpper in PasswordIssues(p) <==> !HasUpper(p)
    ensures PasswordNoLower in PasswordIssues(p) <==> !HasLower(p)
    ensures PasswordNoDigit in PasswordIssues(p) <==> !HasDigit(p)
    ensures PasswordNoSpecial in PasswordIssues(p) <==> !HasSpecial(p)
    ensures PasswordIssues(p) == [] <==> PasswordRule(p)
  {
    PasswordMessagesDistinct();
    var short := if |p| < 8 then [PasswordTooShort] else [];
    var long := if |p| > 100 then [PasswordTooLong] else [];
    var upper := if !HasUpper(p) then [PasswordNoUpper] else [];
    var lower := if !HasLower(p) then [PasswordNoLower] else [];
    var digit := if !HasDigit(p) then [PasswordNoDigit] else [];
    var special := if !HasSpecial(p) then [PasswordNoSpecial] else [];
    assert PasswordIssues(p) == short + long + upper + lower + digit + special;
    assert forall x :: x in PasswordIssues(p) <==>
      x in short || x in long || x in upper || x in lower || x in digit || x in special;
  }

  /** The six messages are pairwise different, so each one identifies its rule. */
  lemma PasswordMessagesDistinct()
    ensures |PasswordTooShort| == 43 && |PasswordTooLong| == 39 && |PasswordNoDigit| == 41 && |PasswordNoSpecial| == 52
    ensures |PasswordNoUpper| == |PasswordNoLower| == 51 && PasswordNoUpper != PasswordNoLower
  {
    assert PasswordNoUpper[35] != PasswordNoLower[35];
  }

  /** `validatePassword`: the password unchanged (never trimmed), or a 400 VALIDATION_ERROR listing every broken rule. */
  function ValidatePassword(p: string): (r: Result<string, AppError>)
    ensures r.Ok? <==> PasswordRule(p)
    ensures r.Ok? ==> r.value == p
    ensures r.Err? ==> r.error.status == 400 && r.error.code == ValidationError
    ensures r.Err? ==> r.error.message == Join(PasswordIssues(p), IssueSeparator)
  {
    var issues := PasswordIssues(p);
    PasswordIssuesListBrokenRules(p);
    if issues == [] then Ok(p) else Err(AppError(400, ValidationError, Join(issues, IssueSeparator)))
  }

  // ------------------------------------------------------- workspace name

  const NameTooShort := "Too small: expected string to have >=2 characters"
  const NameTooLong := "Too big: expected string to have <=50 characters"
  const NameBlocked := "Workspace name contains blocked words"

  /** What the name schema accepts, of an already trimmed name. */
  predicate WorkspaceNameRule(name: string, isProfane: string -> bool) {
    2 <= |name| <= 50 && !isProfane(name)
  }

  /** The issues the name schema reports for a trimmed name; the profanity check runs even after a length issue. */
  function WorkspaceNameIssues(name: string, isProfane: string -> bool): seq<string> {
    (if |name| < 2 then [NameTooShort] else [])
    + (if |name| > 50 then [NameTooLong] else [])
    + (if isProfane(name) then [NameBlocked] else [])
  }

  lemma WorkspaceNameIssuesMatchRule(name: string, isProfane: string -> bool)
    ensures WorkspaceNameIssues(name, isProfane) == [] <==> WorkspaceNameRule(name, isProfane)
    ensures NameBlocked in WorkspaceNameIssues(name, isProfane) <==> isProfane(name)
  {
  }

  /** `validateWorkspaceName`: the trimmed name, or a 400 VALIDATION_ERROR listing the issues. */
  function ValidateWorkspaceName(raw: string, isProfane: string -> bool): (r: Result<string, AppError>)
    ensures r.Ok? <==> WorkspaceNameRule(Trim(raw), isProfane)
    ensures r.Ok? ==> r.value == Trim(raw) && IsTrimmed(r.value) && 2 <= |r.value| <= 50
    ensures r.Err? ==> r.error.status == 400 && r.error.code == ValidationError
    ensures r.Err? ==> r.error.message == Join(WorkspaceNameIssues(Trim(raw), isProfane), IssueSeparator)
  {
    var name := Trim(raw);
    var issues := WorkspaceNameIssues(name, isProfane);
    WorkspaceNameIssuesMatchRule(name, isProfane);
    if issues == [] then Ok(name) else Err(AppError(400, ValidationError, Join(issues, IssueSeparator)))
  }

  /** Validating an accepted name again accepts it unchanged. */
  lemma ValidateWorkspaceNameIdempotent(raw: string, isProfane: string -> bool)
    requires ValidateWorkspaceName(raw, isProfane).Ok?
    ensures ValidateWorkspaceName(ValidateWorkspaceName(raw, isProfane).value, isProfane)
         == ValidateWorkspaceName(raw, isProfane)
  {
    TrimOfTrimmed(Trim(raw));
  }
}
