/**
 * The profile screen's two handlers: saving the edited profile, refused while the masked
 * phone field still holds a `_` placeholder, and changing the password, where the length
 * check applies only to a non-empty new password and precedes the confirmation check.
 */
module UserProfile {
  import opened Common
  import opened Text
  import Registration

  datatype Role = Role(id: int, name: string)

  datatype User = User(
    id: int,
    username: string,
    email: string,
    name: string,
    surname: string,
    phoneNumber: string,
    aboutUser: string,
    role: seq<Role>)

  /** What `handleSaveChanges` does: nothing (no profile loaded), the phone error, or the update request. */
  datatype SaveOutcome = NothingToSave | PhoneIncomplete | SendUpdate(user: User)

  /** `handleSaveChanges` on the edited copy of the profile, which is `null` until it has loaded. */
  function SaveChanges(edited: Option<User>): (r: SaveOutcome)
    ensures r.NothingToSave? <==> edited.None?
    ensures r.SendUpdate? <==> edited.Some? && '_' !in edited.value.phoneNumber
    ensures r.SendUpdate? ==> edited == Some(r.user)
  {
    match edited
    case None => NothingToSave
    case Some(u) =>
      IncludesChar(u.phoneNumber, "_", '_');
      if Includes(u.phoneNumber, "_") then PhoneIncomplete else SendUpdate(u)
  }

  /** The update is sent exactly when the phone has no `_` left, and it sends the edited profile unchanged. */
  lemma SaveVerdict(u: User)
    ensures SaveChanges(Some(u)) == PhoneIncomplete <==> '_' in u.phoneNumber
    ensures SaveChanges(Some(u)) == SendUpdate(u) <==> '_' !in u.phoneNumber
  {
    IncludesChar(u.phoneNumber, "_", '_');
  }

  /** An empty phone number has no placeholder, so the profile is saved. */
  lemma EmptyPhoneSaved(u: User)
    requires u.phoneNumber == []
    ensures SaveChanges(Some(u)) == SendUpdate(u)
  {
    SaveVerdict(u);
  }

  datatype PasswordError = TooShort | Mismatch

  /** `handlePasswordChange`: the new password it sends, or the first failed check. */
  function ChangePassword(newPassword: string, confirmPassword: string): (r: Result<string, PasswordError>)
    ensures r.Ok? ==> r.value == newPassword && newPassword == confirmPassword
    ensures r.Ok? ==> newPassword == [] || Utf16Length(newPassword) >= Registration.MinPasswordLength
  {
    if newPassword != [] && Utf16Length(newPassword) < Registration.MinPasswordLength then Err(TooShort)
    else if newPassword != confirmPassword then Err(Mismatch)
    else Ok(newPassword)
  }

  /**
   * The password is sent exactly when it is empty or long enough and equals its
   * confirmation; the length error is reported only for a short non-empty password and
   * the mismatch error only once the length check has passed.
   */
  lemma PasswordVerdict(newPassword: string, confirmPassword: string)
    ensures ChangePassword(newPassword, confirmPassword).Ok? <==>
      (newPassword == [] || Utf16Length(newPassword) >= Registration.MinPasswordLength) && newPassword == confirmPassword
    ensures ChangePassword(newPassword, confirmPassword).Ok? ==>
      ChangePassword(newPassword, confirmPassword).value == newPassword
    ensures ChangePassword(newPassword, confirmPassword) == Err(TooShort) <==>
      newPassword != [] && Utf16Length(newPassword) < Registration.MinPasswordLength
    ensures ChangePassword(newPassword, confirmPassword) == Err(Mismatch) <==>
      (newPassword == [] || Utf16Length(newPassword) >= Registration.MinPasswordLength) && newPassword != confirmPassword
  {
  }

  /** A short password that also differs from its confirmation is reported as short. */
  lemma LengthCheckedBeforeMismatch(newPassword: string, confirmPassword: string)
    requires newPassword != [] && Utf16Length(newPassword) < Registration.MinPasswordLength
    requires newPassword != confirmPassword
    ensures ChangePassword(newPassword, confirmPassword) == Err(TooShort)
  {
    PasswordVerdict(newPassword, confirmPassword);
  }

  /** An empty new password with an empty confirmation passes both checks and is sent. */
  lemma EmptyPasswordSent(newPassword: string, confirmPassword: string)
    requires newPassword == [] && confirmPassword == []
    ensures ChangePassword(newPassword, confirmPassword) == Ok([])
  {
    PasswordVerdict(newPassword, confirmPassword);
  }

  /**
   * The profile's password rules are laxer than registration's: every password and
   * confirmation the registration form accepts would be accepted here, while the empty
   * password is accepted here and never at registration.
   */
  lemma ProfileLaxerThanRegistration(form: Registration.Form)
    ensures Registration.Submit(form).Ok? ==>
      ChangePassword(form.password, form.confirmPassword) == Ok(form.password)
    ensures form.password == [] ==> Registration.Submit(form).Err?
  {
    Registration.SubmitVerdict(form);
    PasswordVerdict(form.password, form.confirmPassword);
  }
}
