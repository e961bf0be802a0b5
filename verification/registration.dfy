/**
 * The registration form's submit handler: three checks run in order (no `@` in the
 * username, a password of at least 8 UTF-16 code units, a matching confirmation), the
 * first that fails is reported and nothing is sent; otherwise the form data is posted.
 * Also the "open my mailbox" link, built from the text after the e-mail's `@`.
 */
module Registration {
  import opened Common
  import opened Text

  /** The form state `formData`. */
  datatype Form = Form(
    username: string,
    email: string,
    password: string,
    confirmPassword: string,
    name: string,
    surname: string,
    phoneNumber: string,
    aboutUser: string)

  /** The three refusals, in the order the handler tests them. */
  datatype RegError = UsernameHasAt | PasswordTooShort | PasswordsDiffer

  const MinPasswordLength: nat := 8

  /** `handleSubmit`: the body it posts (the form data itself), or the first failed check. */
  function Submit(form: Form): (r: Result<Form, RegError>)
    ensures r.Ok? ==> r.value == form
    ensures r.Ok? ==> '@' !in form.username && Utf16Length(form.password) >= MinPasswordLength
    ensures r.Ok? ==> form.password == form.confirmPassword
  {
    IncludesChar(form.username, "@", '@');
    if Includes(form.username, "@") then Err(UsernameHasAt)
    else if Utf16Length(form.password) < MinPasswordLength then Err(PasswordTooShort)
    else if form.password != form.confirmPassword then Err(PasswordsDiffer)
    else Ok(form)
  }

  predicate UsernameOk(form: Form)
  {
    '@' !in form.username
  }

  predicate LengthOk(form: Form)
  {
    Utf16Length(form.password) >= MinPasswordLength
  }

  predicate PasswordsMatch(form: Form)
  {
    form.password == form.confirmPassword
  }

  /**
   * The request is sent exactly when all three checks pass, it carries the form unchanged,
   * and each refusal is reported exactly when its check is the first to fail.
   */
  lemma SubmitVerdict(form: Form)
    ensures Submit(form).Ok? <==> UsernameOk(form) && LengthOk(form) && PasswordsMatch(form)
    ensures Submit(form).Ok? ==> Submit(form).value == form
    ensures Submit(form) == Err(UsernameHasAt) <==> !UsernameOk(form)
    ensures Submit(form) == Err(PasswordTooShort) <==> UsernameOk(form) && !LengthOk(form)
    ensures Submit(form) == Err(PasswordsDiffer) <==>
      UsernameOk(form) && LengthOk(form) && !PasswordsMatch(form)
  {
    IncludesChar(form.username, "@", '@');
  }

  /** The username check wins over both password checks. */
  lemma UsernameCheckedFirst(form: Form)
    requires '@' in form.username
    ensures Submit(form) == Err(UsernameHasAt)
  {
    SubmitVerdict(form);
  }

  /** A short password is reported as short even when the confirmation differs too. */
  lemma LengthCheckedBeforeMatch(form: Form)
    requires '@' !in form.username
    requires Utf16Length(form.password) < MinPasswordLength
    ensures Submit(form) == Err(PasswordTooShort)
  {
    SubmitVerdict(form);
  }

  /** A password of exactly eight ordinary (non-astral) characters passes the length check. */
  lemma EightCharactersEnough(form: Form)
    requires '@' !in form.username
    requires |form.password| == 8 && forall i :: 0 <= i < 8 ==> form.password[i] as int < 0x10000
    ensures Submit(form) != Err(PasswordTooShort)
  {
    SubmitVerdict(form);
  }

  /**
   * `.length` counts UTF-16 code units: four characters outside the Basic Multilingual
   * Plane already make a long-enough password.
   */
  lemma AstralPasswordLength(s: string)
    requires |s| == 4 && forall i :: 0 <= i < 4 ==> s[i] as int >= 0x10000
    ensures Utf16Length(s) >= MinPasswordLength
  {
    Utf16LengthAstral(s);
  }

  /** `email.split('@')[1]`: the second piece, or `undefined` when there is no `@`. */
  function EmailDomain(email: string): (r: Option<string>)
    ensures r.None? <==> '@' !in email
  {
    var parts := Split(email, '@');
    if |parts| >= 2 then Some(parts[1]) else None
  }

  /** The domain is the text after the first `@`, up to the next `@` or the end. */
  lemma DomainMeaning(email: string)
    requires '@' in email
    ensures var i := IndexOf(email, '@').value;
            var d := EmailDomain(email).value;
            '@' !in d && StartsWith(email[i + 1..], d) &&
            (i + 1 + |d| == |email| || email[i + 1 + |d|] == '@')
  {
    var i := IndexOf(email, '@').value;
    var rest := email[i + 1..];
    assert EmailDomain(email).value == Split(rest, '@')[0];
    SplitFirst(rest, '@');
  }

  /** For an address with exactly one `@`, the domain is everything after it. */
  lemma SingleAtDomain(local: string, domain: string)
    requires '@' !in local && '@' !in domain
    ensures EmailDomain(local + ['@'] + domain) == Some(domain)
  {
    var email := local + ['@'] + domain;
    assert email[..|local|] == local;
    IndexOfFirst(email, '@', |local|);
    assert email[|local| + 1..] == domain;
    SplitNoSep(domain, '@');
  }

  /** `https://${emailDomain}`, where an undefined domain prints as `undefined`. */
  function RedirectUrl(email: string): (url: string)
    ensures StartsWith(url, "https://")
    ensures '@' !in email ==> url == "https://undefined"
  {
    "https://" + match EmailDomain(email) case Some(d) => d case None => "undefined"
  }

  /** An address with one `@` opens `https://` followed by its domain. */
  lemma RedirectToDomain(local: string, domain: string)
    requires '@' !in local && '@' !in domain
    ensures RedirectUrl(local + ['@'] + domain) == "https://" + domain
  {
    SingleAtDomain(local, domain);
  }
}
