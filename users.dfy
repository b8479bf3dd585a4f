/**
 * The user collection: registration (`POST /api/register`) with its two
 * uniqueness checks, and the invariant that those checks keep.
 */
module Users {
  import opened Wrappers
  import opened Records
  import Sequences

  /** The avatar colour given to a user who did not choose one. */
  const DefaultAvatarColor: string := "#8b5cf6"

  /** The fields of a registration request body; any of them may be missing. */
  datatype RegisterRequest = RegisterRequest(
    email: Field,
    password: Field,
    displayName: Field,
    username: Field,
    avatarColor: Field)

  /** The two reasons a registration is refused with status 400. */
  datatype RegisterError = EmailInUse | UsernameInUse

  /** What a registration answers, and the user list it leaves behind. */
  datatype Registration = Registration(response: Result<PublicUser, RegisterError>, users: seq<User>)

  /** `avatarColor || '#8b5cf6'`: the requested colour unless it is absent or empty. */
  function AvatarColorOrDefault(requested: Field): (c: string)
    ensures requested == None ==> c == DefaultAvatarColor
    ensures requested == Some("") ==> c == DefaultAvatarColor
    ensures requested.Some? && requested.value != "" ==> c == requested.value
    ensures !Falsy(Some(c))
  {
    if Falsy(requested) then DefaultAvatarColor else requested.value
  }

  /** `users.find(u => u.email === email)` found someone. */
  function EmailTaken(users: seq<User>, email: Field): (taken: bool)
    ensures taken <==> exists i :: 0 <= i < |users| && users[i].email == email
  {
    Sequences.Find(users, (u: User) => u.email == email).Some?
  }

  /** `users.find(u => u.username === username)` found someone. */
  function UsernameTaken(users: seq<User>, username: Field): (taken: bool)
    ensures taken <==> exists i :: 0 <= i < |users| && users[i].username == username
  {
    Sequences.Find(users, (u: User) => u.username == username).Some?
  }

  /** No two stored users share an email, and no two share a username. */
  ghost predicate NoDuplicates(users: seq<User>)
  {
    forall i, j :: 0 <= i < j < |users| ==>
      users[i].email != users[j].email && users[i].username != users[j].username
  }

  /** The record a successful registration stores. */
  function NewUser(req: RegisterRequest, id: string, createdAt: string): User
  {
    User(id, req.email, req.password, req.displayName, req.username,
         AvatarColorOrDefault(req.avatarColor), createdAt)
  }

  /**
   * The registration handler on the loaded user list. The email check comes
   * first, so a request duplicating both email and username is refused for
   * its email; a refused request changes nothing; an accepted one appends
   * exactly one record, built from the request, and answers with that record
   * minus its password.
   */
  function Register(users: seq<User>, req: RegisterRequest, id: string, createdAt: string): (out: Registration)
    ensures out.response == Failure(EmailInUse) <==> EmailTaken(users, req.email)
    ensures out.response == Failure(UsernameInUse) <==>
      !EmailTaken(users, req.email) && UsernameTaken(users, req.username)
    ensures out.response.Failure? ==> out.users == users
    ensures out.response.Success? ==>
      && |out.users| == |users| + 1
      && out.users[..|users|] == users
      && out.users[|users|].id == id
      && out.users[|users|].email == req.email
      && out.users[|users|].password == req.password
      && out.users[|users|].displayName == req.displayName
      && out.users[|users|].username == req.username
      && out.users[|users|].avatarColor == AvatarColorOrDefault(req.avatarColor)
      && out.users[|users|].createdAt == createdAt
      && out.response.value == WithoutPassword(out.users[|users|])
  {
    if EmailTaken(users, req.email) then Registration(Failure(EmailInUse), users)
    else if UsernameTaken(users, req.username) then Registration(Failure(UsernameInUse), users)
    else
      var u := NewUser(req, id, createdAt);
      Registration(Success(WithoutPassword(u)), users + [u])
  }

  /** Registration keeps emails and usernames unique. */
  lemma RegisterKeepsNoDuplicates(users: seq<User>, req: RegisterRequest, id: string, createdAt: string)
    requires NoDuplicates(users)
    ensures NoDuplicates(Register(users, req, id, createdAt).users)
  {
    var out := Register(users, req, id, createdAt);
    if out.response.Success? {
      var u := out.users[|users|];
      forall i | 0 <= i < |users|
        ensures out.users[i].email != u.email && out.users[i].username != u.username
      {
        assert out.users[i] == users[i];
      }
    }
  }

  /** One registration request together with the id and time it is stamped with. */
  datatype Signup = Signup(request: RegisterRequest, id: string, createdAt: string)

  /** Registration requests handled one after another, each on the list the previous one left. */
  function RegisterAll(users: seq<User>, signups: seq<Signup>): seq<User>
    decreases |signups|
  {
    if signups == [] then users
    else
      var s := signups[0];
      RegisterAll(Register(users, s.request, s.id, s.createdAt).users, signups[1..])
  }

  /** The records that `signups` would create. */
  function NewUsers(signups: seq<Signup>): seq<User>
  {
    if signups == [] then []
    else [NewUser(signups[0].request, signups[0].id, signups[0].createdAt)] + NewUsers(signups[1..])
  }

  /**
   * Requests whose emails and usernames are distinct from each other and
   * from every stored user all succeed: the list afterwards is the old list
   * followed by the new records, in request order.
   */
  lemma {:induction false} RegisterAllDistinct(users: seq<User>, signups: seq<Signup>)
    requires NoDuplicates(users + NewUsers(signups))
    ensures RegisterAll(users, signups) == users + NewUsers(signups)
    decreases |signups|
  {
    if signups != [] {
      var s := signups[0];
      var u := NewUser(s.request, s.id, s.createdAt);
      var all := users + NewUsers(signups);
      assert all == (users + [u]) + NewUsers(signups[1..]);
      assert all[|users|] == u;
      forall i | 0 <= i < |users|
        ensures users[i].email != u.email && users[i].username != u.username
      {
        assert all[i] == users[i];
      }
      var out := Register(users, s.request, s.id, s.createdAt);
      assert out.response.Success?;
      assert out.users == users + [u];
      RegisterAllDistinct(users + [u], signups[1..]);
    }
  }
}
