/**
 * The records kept in the two collections, and the password-free view of a
 * user that every response carrying user data exposes.
 */
module Records {
  import opened Wrappers

  /**
   * A field taken from a request body or query string: absent, or a string.
   * A stored record whose field was absent keeps it absent, because
   * serialising drops an undefined key and reading the file back yields
   * undefined again.
   */
  type Field = Option<string>

  /** JavaScript truthiness of a field: absent and the empty string are falsy. */
  predicate Falsy(f: Field)
  {
    f == None || f == Some("")
  }

  /** A stored user. The password is kept as given (no hashing). */
  datatype User = User(
    id: string,
    email: Field,
    password: Field,
    displayName: Field,
    username: Field,
    avatarColor: string,
    createdAt: string)

  /** A user as sent to clients: every field of `User` except `password`. */
  datatype PublicUser = PublicUser(
    id: string,
    email: Field,
    displayName: Field,
    username: Field,
    avatarColor: string,
    createdAt: string)

  /** A stored message. `from` and `to` are user ids that nothing checks. */
  datatype Message = Message(
    id: string,
    from: Field,
    to: Field,
    text: Field,
    timestamp: string)

  /** `const { password, ...rest } = user`: the record with its password removed. */
  function WithoutPassword(u: User): (p: PublicUser)
    ensures WithPassword(p, u.password) == u
  {
    PublicUser(u.id, u.email, u.displayName, u.username, u.avatarColor, u.createdAt)
  }

  /** Puts a password back into a public view; the inverse of `WithoutPassword`. */
  function WithPassword(p: PublicUser, password: Field): User
  {
    User(p.id, p.email, password, p.displayName, p.username, p.avatarColor, p.createdAt)
  }

  /**
   * Removing the password loses the password and nothing else: the stored
   * record is recovered from its public view and its password, and two
   * records have the same view exactly when they differ at most in password.
   */
  lemma WithoutPasswordDropsOnlyPassword(u: User, v: User)
    ensures WithPassword(WithoutPassword(u), u.password) == u
    ensures WithoutPassword(u) == WithoutPassword(v) <==> u.(password := v.password) == v
  {
  }

  /** `users.map(({ password, ...rest }) => rest)`: the list as clients see it. */
  function PublicUsers(users: seq<User>): (r: seq<PublicUser>)
    ensures |r| == |users|
    ensures forall i :: 0 <= i < |users| ==> r[i] == WithoutPassword(users[i])
  {
    if users == [] then []
    else [WithoutPassword(users[0])] + PublicUsers(users[1..])
  }
}
