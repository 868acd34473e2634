/** The chat window (components/ChatBox.tsx): the draft and its send guard,
    the header's other participant, and which messages are the caller's. */
module ChatBox {
  import opened Values
  import opened Schema
  import opened Text
  import opened Conversations

  /** What `handleSend` passes to `sendMessage`: the trimmed draft, or
      nothing when the draft is empty or white space only. */
  function SendPayload(input: string): (r: Option<string>)
    ensures r.None? <==> AllSpace(input)
    ensures r.Some? ==> r.value == Trim(input) && r.value != []
    ensures r.Some? ==> !IsSpace(r.value[0]) && !IsSpace(r.value[|r.value| - 1])
  {
    var content := Trim(input);
    if content == [] then None else Some(content)
  }

  /** The Send button's `disabled={!input.trim()}`. */
  predicate SendDisabled(input: string)
    ensures SendDisabled(input) <==> AllSpace(input)
  {
    Trim(input) == []
  }

  /** The button is disabled exactly when a click would send nothing. */
  lemma SendDisabledIffNoPayload(input: string)
    ensures SendDisabled(input) <==> SendPayload(input).None?
    ensures SendDisabled(input) <==> AllSpace(input)
  {
  }

  /** The draft: the `input` hook. */
  class Composer {
    var input: string

    constructor ()
      ensures input == []
    {
      input := [];
    }

    method SetInput(s: string)
      modifies this
      ensures input == s
    {
      input := s;
    }

    /** `handleSend`. `sendSucceeds` is the outcome of the awaited
        `sendMessage`: the draft is cleared only after it resolves, so a
        send that throws leaves the draft as it was. */
    method HandleSend(sendSucceeds: bool) returns (sent: Option<string>)
      modifies this
      ensures sent == SendPayload(old(input))
      ensures input == if sent.Some? && sendSucceeds then [] else old(input)
    {
      var content := Trim(input);
      if content == [] {
        return None;
      }
      sent := Some(content);
      if sendSucceeds {
        input := [];
      }
    }
  }

  /** `participants.find(p => p.clerkId !== user?.id)`; with no signed-in
      user every participant differs, so the first one is taken. */
  function OtherUser(participants: seq<Doc<User>>, clerkId: Option<string>): (r: Option<Doc<User>>)
    ensures r.None? <==> forall k :: 0 <= k < |participants| ==>
      clerkId.Some? && participants[k].fields.clerkId == clerkId.value
    ensures r.Some? ==>
      exists k :: 0 <= k < |participants| && r.value == participants[k] &&
        (clerkId.None? || participants[k].fields.clerkId != clerkId.value) &&
        (forall j :: 0 <= j < k ==> clerkId.Some? && participants[j].fields.clerkId == clerkId.value)
  {
    match IndexOf(participants, (p: Doc<User>) => clerkId.None? || p.fields.clerkId != clerkId.value)
    case None => None
    case Some(k) => Some(participants[k])
  }

  /** The header: `otherUser?.name ?? "Chat"`. */
  function HeaderTitle(otherUser: Option<Doc<User>>): (r: string)
    ensures otherUser.None? ==> r == "Chat"
    ensures otherUser.Some? ==> r == otherUser.value.fields.name
  {
    match otherUser
    case None => "Chat"
    case Some(u) => u.fields.name
  }

  /** Of two participants, the one whose clerkId is not the caller's is
      the other user, in either order. */
  lemma OtherOfPair(x: Doc<User>, y: Doc<User>, subject: string)
    requires x.fields.clerkId == subject && y.fields.clerkId != subject
    ensures OtherUser([x, y], Some(subject)) == Some(y)
    ensures OtherUser([y, x], Some(subject)) == Some(y)
  {
    var r := OtherUser([x, y], Some(subject));
    var k :| 0 <= k < 2 && r.value == [x, y][k] && [x, y][k].fields.clerkId != subject;
  }

  /** In a direct conversation whose two participants both resolve, the
      header names the participant who is not the signed-in user. */
  lemma DMHeaderNamesOther(users: seq<User>, a: UserId, b: UserId, subject: string)
    requires UniqueClerkIds(users)
    requires a < |users| && b < |users| && a != b
    requires users[a].clerkId == subject
    ensures OtherUser(ResolveUsers(users, [a, b]), Some(subject)) == Some(Doc(b, users[b]))
    ensures OtherUser(ResolveUsers(users, [b, a]), Some(subject)) == Some(Doc(b, users[b]))
  {
    ResolvedPair(users, a, b);
    ResolvedPair(users, b, a);
    OtherOfPair(Doc(a, users[a]), Doc(b, users[b]), subject);
  }

  lemma ResolvedPair(users: seq<User>, a: UserId, b: UserId)
    requires a < |users| && b < |users|
    ensures ResolveUsers(users, [a, b]) == [Doc(a, users[a]), Doc(b, users[b])]
  {
    ResolveUsersAllResolve(users, [a, b]);
  }

  /** `isOwn`: `msg.senderId === conversation.me?._id`. */
  predicate IsOwn(senderId: UserId, me: Option<Doc<User>>)
    ensures me.None? ==> !IsOwn(senderId, me)
  {
    me.Some? && senderId == me.value.id
  }

  /** A message is shown as the caller's own exactly when its sender is the
      user `sendMessage` would record for the same identity. */
  lemma OwnIffSentByCaller(users: seq<User>, cs: seq<Conversation>, identity: Option<string>,
                           conversationId: ConversationId, senderId: UserId)
    requires UniqueClerkIds(users)
    requires GetConversation(users, cs, identity, conversationId).Some?
    ensures IsOwn(senderId, GetConversation(users, cs, identity, conversationId).value.me) <==>
      CurrentUser(users, identity) == Ok(senderId)
  {
  }
}
