/** `checkUsernameUniqueness`: refusing a username another user already has. */
module UsernameUniqueness {
  import opened Wrappers
  import opened Errors
  import opened Users
  import opened UserTable

  const UsernameInUse: Failure := Http(Conflict, "Username already in use")

  /** `checkUsernameUniqueness(username, prisma)`: counts the rows whose username is exactly `username`, as given. */
  function CheckUsernameUniqueness(users: Table, username: string): (r: Result<(), Failure>)
    ensures r.Err? <==> exists id :: id in users && users[id].username == username
    ensures r.Err? ==> r.error == UsernameInUse
  {
    if Count(users, (u: User) => u.username == username) > 0 then Err(UsernameInUse) else Ok(())
  }
}
