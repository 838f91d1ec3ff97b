/** `comparePasswords`: the gate that both copies of a new password are the same. */
module ComparePasswords {
  import opened Wrappers
  import opened Errors

  const PasswordsDoNotMatch: Failure := Http(BadRequest, "Passwords do not match")

  /** `comparePasswords(password1, password2)`: passes exactly when the two are equal. */
  function ComparePasswords(password1: string, password2: string): (r: Result<(), Failure>)
    ensures r.Ok? <==> password1 == password2
    ensures r.Err? ==> r.error == PasswordsDoNotMatch
  {
    if password1 != password2 then Err(PasswordsDoNotMatch) else Ok(())
  }

  /** The outcome does not depend on the order of the two passwords. */
  lemma CompareSymmetric(password1: string, password2: string)
    ensures ComparePasswords(password1, password2) == ComparePasswords(password2, password1)
  {
  }
}
