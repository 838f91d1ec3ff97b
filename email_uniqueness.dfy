/** `checkEmailUniqueness`: refusing an email another user already has. */
module EmailUniqueness {
  import opened Wrappers
  import opened Errors
  import opened Users
  import opened UserTable

  const EmailInUse: Failure := Http(Conflict, "Email already in use")

  /** `checkEmailUniqueness(email, prisma)`: counts the rows whose email is exactly `email`, as given. */
  function CheckEmailUniqueness(users: Table, email: string): (r: Result<(), Failure>)
    ensures r.Err? <==> exists id :: id in users && users[id].email == email
    ensures r.Err? ==> r.error == EmailInUse
  {
    if Count(users, (u: User) => u.email == email) > 0 then Err(EmailInUse) else Ok(())
  }
}
