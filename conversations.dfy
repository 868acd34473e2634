/** The conversation registry: `getOrCreateDM` and `getConversation` of
    convex/users_conversations.ts. convex/users-conversations.ts holds a
    second, identical copy of `getOrCreateDM`, which these same members model. */
module Conversations {
  import opened Values
  import opened Schema
  import opened Db

  /** The `find` predicate of `getOrCreateDM`: a non-group conversation with
      two participants, among them both `me` and `other`. */
  predicate IsDMWith(c: Conversation, me: UserId, other: UserId)
  {
    !c.isGroup && |c.participants| == 2 && me in c.participants && other in c.participants
  }

  /** The first existing direct conversation between the two users, if any. */
  function FindDM(cs: seq<Conversation>, me: UserId, other: UserId): (r: Option<ConversationId>)
    ensures r.Some? ==> r.value < |cs| && IsDMWith(cs[r.value], me, other)
    ensures r.Some? ==> forall j :: 0 <= j < r.value ==> !IsDMWith(cs[j], me, other)
    ensures r.None? <==> forall j :: 0 <= j < |cs| ==> !IsDMWith(cs[j], me, other)
  {
    IndexOf(cs, (c: Conversation) => IsDMWith(c, me, other))
  }

  /** The conversation `getOrCreateDM` inserts: no group name, no preview. */
  function NewDM(me: UserId, other: UserId, now: int): (c: Conversation)
    ensures IsDMWith(c, me, other) && IsDMWith(c, other, me)
    ensures c.groupName.None? && c.lastMessagePreview.None? && c.lastMessageTime == Some(now)
  {
    Conversation([me, other], false, None, Some(now), None)
  }

  datatype DMResolved = DMResolved(conversations: seq<Conversation>, id: ConversationId)

  /** The conversations table and returned id of `getOrCreateDM(other)` by `me`. */
  function ResolveDM(cs: seq<Conversation>, me: UserId, other: UserId, now: int): (r: DMResolved)
    // the returned conversation is a DM between the two
    ensures r.id < |r.conversations| && IsDMWith(r.conversations[r.id], me, other)
    // an existing DM is returned and nothing is written
    ensures FindDM(cs, me, other).Some? ==> r.conversations == cs && r.id == FindDM(cs, me, other).value
    // otherwise exactly one conversation [me, other] is appended and its id returned
    ensures FindDM(cs, me, other).None? ==>
      r.conversations == cs + [Conversation([me, other], false, None, Some(now), None)] && r.id == |cs|
  {
    match FindDM(cs, me, other)
    case Some(i) => DMResolved(cs, i)
    case None => DMResolved(cs + [NewDM(me, other, now)], |cs|)
  }

  /** `getOrCreateDM`: throws without identity or user record, else scans
      for an existing DM and inserts one only when there is none. */
  method GetOrCreateDM(db: Database, identity: Option<string>, otherUserId: UserId, now: int)
    returns (r: Result<ConversationId>)
    requires db.Valid()
    modifies db
    ensures db.Valid()
    ensures match CurrentUser(old(db.users), identity)
      case Err(e) => r == Err(e) && db.conversations == old(db.conversations)
      case Ok(me) =>
        var res := ResolveDM(old(db.conversations), me, otherUserId, now);
        r == Ok(res.id) && db.conversations == res.conversations
    ensures old(DMsUnique(db.conversations)) ==> DMsUnique(db.conversations)
    ensures db.users == old(db.users) && db.messages == old(db.messages)
    ensures db.typingIndicators == old(db.typingIndicators) && db.readReceipts == old(db.readReceipts)
  {
    var me := CurrentUser(db.users, identity);
    if me.Err? {
      return Err(me.error);
    }
    var existing := FindDM(db.conversations, me.value, otherUserId);
    if existing.Some? {
      return Ok(existing.value);
    }
    if DMsUnique(db.conversations) {
      ResolveDMKeepsDMsUnique(db.conversations, me.value, otherUserId, now);
    }
    r := Ok(|db.conversations|);
    db.conversations := db.conversations + [NewDM(me.value, otherUserId, now)];
  }

  /** The match uses `includes`, so it does not depend on who opens the DM. */
  lemma FindDMSymmetric(cs: seq<Conversation>, a: UserId, b: UserId)
    ensures FindDM(cs, a, b) == FindDM(cs, b, a)
  {
    IndexOfAgrees(cs, (c: Conversation) => IsDMWith(c, a, b), (c: Conversation) => IsDMWith(c, b, a));
  }

  /** A call after a call for the same pair, in either direction, returns the
      same id and writes nothing: the two calls create at most one DM. */
  lemma RepeatedDMCallsAgree(cs: seq<Conversation>, a: UserId, b: UserId, t1: int, t2: int,
                             x: UserId, y: UserId)
    requires (x == a && y == b) || (x == b && y == a)
    ensures var first := ResolveDM(cs, a, b, t1);
      var second := ResolveDM(first.conversations, x, y, t2);
      && second == DMResolved(first.conversations, first.id)
      && |first.conversations| <= |cs| + 1
  {
    var first := ResolveDM(cs, a, b, t1);
    FindDMSymmetric(first.conversations, a, b);
    if FindDM(cs, a, b).None? {
      var n := first.conversations;
      assert forall j :: 0 <= j < |cs| ==> n[j] == cs[j];
      assert FindDM(n, a, b) == Some(|cs|);
    }
  }

  /** `includes` cannot tell a pair from a self-pair: asked for a DM with
      oneself, the scan returns a DM the caller has with someone else. */
  lemma SelfDMMatchesAnyDM(me: UserId, other: UserId)
    requires me != other
    ensures FindDM([Conversation([me, other], false, None, None, None)], me, me) == Some(0)
  {
    assert IsDMWith(Conversation([me, other], false, None, None, None), me, me);
  }

  /** A DM is a non-group conversation with two participants. */
  predicate IsDM(c: Conversation)
  {
    !c.isGroup && |c.participants| == 2
  }

  /** The DM-uniqueness invariant: no two DMs have the same pair of participants. */
  predicate DMsUnique(cs: seq<Conversation>)
  {
    forall i, j :: 0 <= i < j < |cs| && IsDM(cs[i]) && IsDM(cs[j]) ==>
      {cs[i].participants[0], cs[i].participants[1]} != {cs[j].participants[0], cs[j].participants[1]}
  }

  /** Run one at a time, `getOrCreateDM` keeps the DM-uniqueness invariant. */
  lemma ResolveDMKeepsDMsUnique(cs: seq<Conversation>, me: UserId, other: UserId, now: int)
    requires DMsUnique(cs)
    ensures DMsUnique(ResolveDM(cs, me, other, now).conversations)
  {
    if FindDM(cs, me, other).None? {
      var n := ResolveDM(cs, me, other, now).conversations;
      forall i | 0 <= i < |cs| && IsDM(cs[i])
        ensures {cs[i].participants[0], cs[i].participants[1]} != {me, other}
      {
        assert !IsDMWith(cs[i], me, other);
      }
      assert forall j :: 0 <= j < |cs| ==> n[j] == cs[j];
      assert n[|cs|].participants == [me, other];
    }
  }

  /** A patch that leaves a conversation's kind and participants as they
      were (the summary update of `sendMessage`) keeps the invariant. */
  lemma PatchKeepsDMsUnique(cs: seq<Conversation>, i: ConversationId, c: Conversation)
    requires DMsUnique(cs)
    requires i < |cs| && c.isGroup == cs[i].isGroup && c.participants == cs[i].participants
    ensures DMsUnique(cs[i := c])
  {
    var n := cs[i := c];
    assert forall j :: 0 <= j < |cs| ==> n[j].isGroup == cs[j].isGroup && n[j].participants == cs[j].participants;
  }

  /** What `getConversation` returns: the conversation's fields, its
      participants resolved, and the caller's own record. */
  datatype ConversationView = ConversationView(
    id: ConversationId,
    participants: seq<Doc<User>>,
    isGroup: bool,
    groupName: Option<string>,
    lastMessageTime: Option<int>,
    lastMessagePreview: Option<string>,
    me: Option<Doc<User>>)

  /** `getConversation`: null without identity or for a missing conversation. */
  function GetConversation(users: seq<User>, cs: seq<Conversation>, identity: Option<string>,
                           conversationId: ConversationId): (r: Option<ConversationView>)
    ensures r.None? <==> identity.None? || conversationId >= |cs|
    ensures r.Some? ==>
      var c := cs[conversationId];
      && r.value.id == conversationId
      && r.value.isGroup == c.isGroup && r.value.groupName == c.groupName
      && r.value.lastMessageTime == c.lastMessageTime && r.value.lastMessagePreview == c.lastMessagePreview
      && r.value.participants == ResolveUsers(users, c.participants)
    // `me` is the caller's record, or null when the directory has none
    ensures r.Some? ==>
      (r.value.me.None? <==> forall j :: 0 <= j < |users| ==> users[j].clerkId != identity.value)
    ensures r.Some? && r.value.me.Some? ==>
      r.value.me.value.id < |users| && r.value.me.value.fields == users[r.value.me.value.id] &&
      r.value.me.value.fields.clerkId == identity.value
  {
    match identity
    case None => None
    case Some(subject) =>
      match Get(cs, conversationId)
      case None => None
      case Some(doc) =>
        var c := doc.fields;
        var me := match UserByClerkId(users, subject)
          case None => None
          case Some(i) => Get(users, i);
        Some(ConversationView(conversationId, ResolveUsers(users, c.participants), c.isGroup,
                              c.groupName, c.lastMessageTime, c.lastMessagePreview, me))
  }
}
