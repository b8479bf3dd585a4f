# Forevo messenger: the data layer, in Dafny

Forevo's server keeps two collections: registered users and direct messages.
Each one lives in a JSON file holding an array. Each request handler reads
the whole array and then either queries it or checks it, except that a
message query without `userId` is refused before the read. Only a successful
registration and a sent message push one record onto the array and rewrite
the whole file; the two listings never write, and a refused registration
returns before writing. This project models that data logic with the files
replaced by two sequences held in memory. It covers four handlers:

- **register** (`POST /api/register`) refuses an email that is already used.
  Only after that does it refuse a username that is already used. Otherwise
  it appends one record, with the avatar colour defaulting to `#8b5cf6`, and
  answers with that record minus its password.
- **list users** (`GET /api/users`) returns every stored user, in order,
  with the password removed.
- **send message** (`POST /api/messages`) appends one message. It never
  checks that the sender or the recipient exists.
- **messages for a user** (`GET /api/messages?userId=…`) refuses a missing
  or empty `userId`. Otherwise it returns, in stored order, exactly the
  messages that user sent or receives.

Layout:

- `wrappers.dfy`: `Option` and `Result`.
- `sequences.dfy`: `Find` and `Filter`, the models of JavaScript's
  `Array.prototype.find` and `filter`, with the proof that `Filter` is the
  exact, order-preserving selection.
- `records.dfy`: the `User`, `PublicUser` and `Message` records, JavaScript
  falsiness, and the password projection.
- `users.dfy`: registration as a pure function on the user list, the
  uniqueness invariant, and a run of several registrations.
- `messages.dfy`: the message query and how sending changes its answers.
- `store.dfy`: the `Store` class. Its `users` and `messages` fields stand
  for the two files. Its methods are the four handlers, proved against the
  pure functions.

Request fields are modelled as `Field = Option<string>`, so a field can be
absent. JavaScript falsiness of a field means absent or `""`. When a field is
absent, `JSON.stringify` drops it from the stored record, and reading the
file back yields `undefined` again. Comparing two absent fields with `===`
gives true. So a second registration that leaves out `email` is refused as a
duplicate email, and `Option` equality models exactly that.

Three facts about the code shape the model:

- The avatar colour falls back to `#8b5cf6` on `""` as well as when it is
  absent, because the code uses `||`.
- No field of a registration or send request is checked for presence, so
  any of them may be absent.
- Ids come from `Date.now()`, and nothing makes them unique. Here ids are
  parameters, and no uniqueness is claimed.

## Model

| member | source | states |
|---|---|---|
| `Sequences.Find` | deepseek_javascript_20251124_c01ef2.js:35-42 | `find` gives nothing exactly when no element satisfies the predicate; otherwise it gives an element that satisfies it and that no earlier element beats |
| `Sequences.Filter` | deepseek_javascript_20251124_c01ef2.js:130-132 | `filter` keeps only elements that satisfy the predicate and drops none that do; its result is never longer than its input |
| `Sequences.FilterIsExactSubsequence` | deepseek_javascript_20251124_c01ef2.js:130-132 | the filtered list is the subsequence of the input at increasing positions, and those are exactly the positions whose element satisfies the predicate |
| `Sequences.FilterAppend` | deepseek_javascript_20251124_c01ef2.js:130-132 | filtering a concatenation gives the concatenation of the filtered parts |
| `Records.WithoutPassword` | deepseek_javascript_20251124_c01ef2.js:62 | the object-rest copy without `password` loses nothing else: putting the record's own password back restores the stored record |
| `Records.WithoutPasswordDropsOnlyPassword` | deepseek_javascript_20251124_c01ef2.js:77-80 | a stored user can be rebuilt from its public view plus its password; two users have the same public view exactly when they differ at most in password |
| `Records.PublicUsers` | deepseek_javascript_20251124_c01ef2.js:77-80 | the public list has the same length as the stored list, and each element is the stored record at the same position with only the password removed |
| `Users.AvatarColorOrDefault` | deepseek_javascript_20251124_c01ef2.js:51 | the colour is `#8b5cf6` when the requested one is absent or empty (JavaScript-falsy, the definition `Records.Falsy`), and the requested one otherwise; the result is never empty |
| `Users.EmailTaken` | deepseek_javascript_20251124_c01ef2.js:35 | the email check succeeds exactly when some stored user has an equal email, an absent one included |
| `Users.UsernameTaken` | deepseek_javascript_20251124_c01ef2.js:40 | the username check succeeds exactly when some stored user has an equal username |
| `Users.Register` | deepseek_javascript_20251124_c01ef2.js:32-63 | the email error comes exactly when the email is taken; the username error comes exactly when the email is free and the username is taken; a refusal leaves the list unchanged; a success keeps every earlier record, appends one with the given id, email, password, display name, username, defaulted colour and creation time (the record literal of lines 45-53, the definition `Users.NewUser`), and answers with it minus its password |
| `Users.RegisterKeepsNoDuplicates` | deepseek_javascript_20251124_c01ef2.js:35-56 | if no two stored users share an email or a username before a registration, the same holds after it |
| `Users.RegisterAllDistinct` | deepseek_javascript_20251124_c01ef2.js:45-57 | registrations whose emails and usernames differ from each other and from the stored ones all succeed; the list becomes the old list followed by the new records in request order |
| `Messages.MessagesFor` | deepseek_javascript_20251124_c01ef2.js:121-134 | the query is refused exactly when `userId` is absent or empty; otherwise every answered message is stored and involves the user as sender or recipient (the definition `Messages.Involves`, line 131), and every stored message that involves the user is answered; "absent or empty" is `Records.Falsy` |
| `Messages.MessagesForIsExact` | deepseek_javascript_20251124_c01ef2.js:130-132 | the answer is the subsequence of stored messages, in stored order, at exactly the positions whose message has the user as sender or recipient |
| `Messages.MessagesForNoMatch` | deepseek_javascript_20251124_c01ef2.js:130-134 | a user that no message involves gets an empty answer, not an error |
| `Messages.MessagesForAfterSend` | deepseek_javascript_20251124_c01ef2.js:99-108 | after a message is appended, each user's answer is their old answer, plus the new message if it involves them |
| `Server.Store.constructor` | deepseek_javascript_20251124_c01ef2.js:21-22 | a new store holds no users and no messages, and satisfies the uniqueness invariant |
| `Server.Store.Register` | deepseek_javascript_20251124_c01ef2.js:25-63 | the handler answers and leaves the user list exactly as `Users.Register` does; it keeps emails and usernames unique and never touches the messages |
| `Server.Store.ListUsers` | deepseek_javascript_20251124_c01ef2.js:72-82 | the listing has one entry per stored user, in order, each equal to the stored record minus its password |
| `Server.Store.SendMessage` | deepseek_javascript_20251124_c01ef2.js:91-110 | sending always succeeds, whatever the sender and recipient; it appends exactly one message carrying the given id, sender, recipient, text and time, keeps earlier messages, answers with the new message and never touches the users |
| `Server.Store.GetMessages` | deepseek_javascript_20251124_c01ef2.js:119-134 | the handler answers exactly as `Messages.MessagesFor` does on the stored messages, and changes nothing |

## Left out

- Express setup, CORS, JSON body parsing, static files, the `index.html` route and `app.listen` (lines 9-14 and 142-152) are framework glue with no data logic.
- Creating the backing files when they are missing (lines 21-22) is modelled only as the `Store` constructor starting with two empty collections. Keeping existing files untouched when they already exist is a file-system fact and is not modelled.
- `fs.readFileSync`, `fs.writeFileSync`, `JSON.parse` and `JSON.stringify` are replaced by the two sequence fields. The JSON round trip and its formatting are not modelled.
- The `try`/`catch` that turns a read, write or parse failure into a 500 response is not modelled, because an in-memory sequence cannot fail to load. All `console.log` and `console.error` output is left out too.
- `Date.now()` ids and `new Date().toISOString()` timestamps come from the wall clock. They are parameters here. The code does not keep ids unique, and the model does not claim it.
- Request bodies and query strings can carry JSON values that are not strings, such as numbers, booleans, `null` or repeated query keys. The model takes each field as absent or a string.
- A user record written into the file by hand, with extra keys or without the expected ones, is not modelled. The object rest copy in lines 77-80 would pass extra keys through to clients.
- Only one server process is modelled. Each handler runs synchronously from reading its file to writing it, so requests to that process cannot interleave inside a handler. A second process writing the same files could lose updates, and that is not modelled.
- Passwords are stored and compared in plaintext, as in the code. No hashing is modelled because none exists.
