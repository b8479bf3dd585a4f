/**
 * The message collection: the per-user query (`GET /api/messages`) and what
 * sending (`POST /api/messages`) does to it.
 */
module Messages {
  import opened Wrappers
  import opened Records
  import Sequences

  /** The one reason the message query is refused with status 400. */
  datatype QueryError = MissingUserId

  /** `m.from === userId || m.to === userId`: the user sent or receives `m`. */
  predicate Involves(m: Message, userId: string)
  {
    m.from == Some(userId) || m.to == Some(userId)
  }

  /**
   * The message query handler on the loaded message list. A missing or empty
   * `userId` is refused; otherwise the answer holds only messages the user
   * sent or receives, and every such message.
   */
  function MessagesFor(messages: seq<Message>, userId: Field): (r: Result<seq<Message>, QueryError>)
    ensures r.Failure? <==> Falsy(userId)
    ensures r.Success? ==>
      && |r.value| <= |messages|
      && (forall k :: 0 <= k < |r.value| ==> r.value[k] in messages && Involves(r.value[k], userId.value))
      && (forall i :: 0 <= i < |messages| && Involves(messages[i], userId.value) ==> messages[i] in r.value)
  {
    if Falsy(userId) then Failure(MissingUserId)
    else Success(Sequences.Filter(messages, (m: Message) => Involves(m, userId.value)))
  }

  /**
   * The query is exact and keeps stored order: its answer is the subsequence
   * of the stored messages at precisely the positions whose message involves
   * the user.
   */
  lemma MessagesForIsExact(messages: seq<Message>, userId: Field)
    requires !Falsy(userId)
    ensures MessagesFor(messages, userId).Success?
    ensures exists idx ::
              && Sequences.IsSubsequenceAt(MessagesFor(messages, userId).value, messages, idx)
              && forall i :: 0 <= i < |messages| ==> (i in idx <==> Involves(messages[i], userId.value))
  {
    Sequences.FilterIsExactSubsequence(messages, (m: Message) => Involves(m, userId.value));
  }

  /** A user no stored message involves gets an empty answer, not an error. */
  lemma MessagesForNoMatch(messages: seq<Message>, userId: Field)
    requires !Falsy(userId)
    requires forall i :: 0 <= i < |messages| ==> !Involves(messages[i], userId.value)
    ensures MessagesFor(messages, userId) == Success([])
  {
    var r := MessagesFor(messages, userId).value;
    if r != [] {
      assert r[0] in messages;
    }
  }

  /**
   * Sending `m` extends each user's answer by `m` alone, and only for the
   * users `m` involves; earlier answers are kept as they were.
   */
  lemma MessagesForAfterSend(messages: seq<Message>, m: Message, userId: Field)
    requires !Falsy(userId)
    ensures MessagesFor(messages + [m], userId).value ==
      MessagesFor(messages, userId).value + (if Involves(m, userId.value) then [m] else [])
  {
    var p := (x: Message) => Involves(x, userId.value);
    Sequences.FilterAppend(messages, [m], p);
    assert Sequences.Filter([m], p) == Sequences.Filter([], p) + (if p(m) then [m] else []);
  }
}
