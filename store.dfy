/**
 * The server's two collections, held in memory, and the four request
 * handlers that read and change them. Each handler's loaded array is a field
 * here; `push` followed by rewriting the file becomes reassigning the field.
 */
module Server {
  import opened Wrappers
  import opened Records
  import Users
  import Messages
  import Sequences

  class Store {
    var users: seq<User>
    var messages: seq<Message>

    /** Emails and usernames are unique among the stored users. */
    ghost predicate Valid()
      reads this`users
    {
      Users.NoDuplicates(users)
    }

    /** Both collections start out as empty arrays. */
    constructor ()
      ensures Valid()
      ensures users == [] && messages == []
    {
      users := [];
      messages := [];
    }

    /**
     * `POST /api/register`: refuse a taken email, then a taken username;
     * otherwise append the new record and answer with it minus its password.
     * The message collection is not touched.
     */
    method Register(req: Users.RegisterRequest, id: string, createdAt: string)
      returns (response: Result<PublicUser, Users.RegisterError>)
      requires Valid()
      modifies this`users
      ensures Valid()
      ensures response == Users.Register(old(users), req, id, createdAt).response
      ensures users == Users.Register(old(users), req, id, createdAt).users
    {
      Users.RegisterKeepsNoDuplicates(users, req, id, createdAt);
      if Users.EmailTaken(users, req.email) {
        return Failure(Users.EmailInUse);
      }
      if Users.UsernameTaken(users, req.username) {
        return Failure(Users.UsernameInUse);
      }
      var newUser := Users.NewUser(req, id, createdAt);
      users := users + [newUser];
      response := Success(WithoutPassword(newUser));
    }

    /** `GET /api/users`: every stored user, in order, with the password removed. */
    method ListUsers() returns (listed: seq<PublicUser>)
      ensures |listed| == |users|
      ensures forall i :: 0 <= i < |users| ==> listed[i] == WithoutPassword(users[i])
    {
      listed := PublicUsers(users);
    }

    /**
     * `POST /api/messages`: append one message carrying the given sender,
     * recipient and text, whether or not those users exist, and answer with it.
     */
    method SendMessage(from: Field, to: Field, text: Field, id: string, timestamp: string)
      returns (sent: Message)
      modifies this`messages
      ensures sent.id == id && sent.from == from && sent.to == to && sent.text == text
      ensures sent.timestamp == timestamp
      ensures messages == old(messages) + [sent]
    {
      sent := Message(id, from, to, text, timestamp);
      messages := messages + [sent];
    }

    /**
     * `GET /api/messages?userId=…`: refuse a missing or empty id before
     * looking at the messages, otherwise answer with those the user sent or
     * receives.
     */
    method GetMessages(userId: Field) returns (r: Result<seq<Message>, Messages.QueryError>)
      ensures r == Messages.MessagesFor(messages, userId)
    {
      if Falsy(userId) {
        return Failure(Messages.MissingUserId);
      }
      var uid := userId.value;
      r := Success(Sequences.Filter(messages, (m: Message) => Messages.Involves(m, uid)));
    }
  }
}
