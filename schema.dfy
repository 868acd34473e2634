/** The documents of the Convex tables (convex/schema.ts, plus the two
    tables convex/messages.ts uses without declaring them). A document's
    `_id` is its position in its table: users, conversations and messages
    are never deleted, so positions are stable, and an id past the end of
    its table is one that `ctx.db.get` does not resolve. */
module Schema {
  import opened Values

  type UserId = nat
  type ConversationId = nat
  type MessageId = nat

  datatype User = User(
    clerkId: string,
    name: string,
    email: string,
    imageUrl: Option<string>,
    lastSeen: int,
    isOnline: bool)

  datatype Conversation = Conversation(
    participants: seq<UserId>,
    isGroup: bool,
    groupName: Option<string>,
    lastMessageTime: Option<int>,
    lastMessagePreview: Option<string>)

  /** One emoji and the users who reacted with it. */
  datatype Reaction = Reaction(emoji: string, userIds: seq<UserId>)

  /** `reactions` is optional in the schema; an absent list reads as []. */
  datatype Message = Message(
    conversationId: ConversationId,
    senderId: UserId,
    content: string,
    isDeleted: bool,
    reactions: Option<seq<Reaction>>)

  /** A row keyed by (conversation, user) carrying one timestamp: the shape
      of both undeclared tables, where `time` is `lastTyped` in
      `typingIndicators` and `lastReadTime` in `readReceipts`. */
  datatype Stamp = Stamp(conversationId: ConversationId, userId: UserId, time: int)

  /** A document as a query returns it: its `_id` and its fields. */
  datatype Doc<T> = Doc(id: nat, fields: T)

  /** `ctx.db.get(id)`: the document with that id, or null. */
  function Get<T>(table: seq<T>, id: nat): (r: Option<Doc<T>>)
    ensures r.Some? <==> id < |table|
    ensures r.Some? ==> r.value.id == id && r.value.fields == table[id]
  {
    if id < |table| then Some(Doc(id, table[id])) else None
  }

  /** The `by_clerk_id` index holds each key at most once (what `.unique()`
      relies on). */
  predicate UniqueClerkIds(users: seq<User>)
  {
    forall i, j :: 0 <= i < j < |users| ==> users[i].clerkId != users[j].clerkId
  }

  /** A `by_conversation_user` index holds each (conversation, user) key at most once. */
  predicate UniqueKeys(rows: seq<Stamp>)
  {
    forall i, j :: 0 <= i < j < |rows| ==>
      !(rows[i].conversationId == rows[j].conversationId && rows[i].userId == rows[j].userId)
  }

  /** `withIndex("by_clerk_id", q => q.eq("clerkId", clerkId)).unique()`. */
  function UserByClerkId(users: seq<User>, clerkId: string): (r: Option<UserId>)
    ensures r.Some? ==> r.value < |users| && users[r.value].clerkId == clerkId
    ensures r.None? <==> forall j :: 0 <= j < |users| ==> users[j].clerkId != clerkId
    ensures r.Some? && UniqueClerkIds(users) ==>
      forall j :: 0 <= j < |users| && users[j].clerkId == clerkId ==> j == r.value
  {
    IndexOf(users, (u: User) => u.clerkId == clerkId)
  }

  /** The prologue of every mutation: the caller's identity must be present
      ("Not authenticated") and must have a user record ("User not found"). */
  function CurrentUser(users: seq<User>, identity: Option<string>): (r: Result<UserId>)
    ensures r == Err(NotAuthenticated) <==> identity.None?
    ensures r == Err(UserNotFound) <==>
      identity.Some? && forall j :: 0 <= j < |users| ==> users[j].clerkId != identity.value
    ensures r.Ok? ==> identity.Some? && r.value < |users| && users[r.value].clerkId == identity.value
  {
    match identity
    case None => Err(NotAuthenticated)
    case Some(subject) =>
      match UserByClerkId(users, subject)
      case None => Err(UserNotFound)
      case Some(me) => Ok(me)
  }

  /** `ids.map(id => ctx.db.get(id))` followed by `.filter(Boolean)`: the
      records of the ids that resolve, in the order of the ids. */
  function ResolveUsers(users: seq<User>, ids: seq<UserId>): (r: seq<Doc<User>>)
    ensures |r| <= |ids|
  {
    if ids == [] then []
    else
      var rest := ResolveUsers(users, ids[1..]);
      match Get(users, ids[0])
      case None => rest
      case Some(d) => [d] + rest
  }

  /** Every document kept is the record of one of the ids. */
  lemma {:induction false} ResolveUsersSound(users: seq<User>, ids: seq<UserId>)
    ensures |ResolveUsers(users, ids)| <= |ids|
    ensures forall d :: d in ResolveUsers(users, ids) ==> d.id in ids && d.id < |users| && d.fields == users[d.id]
  {
    if ids != [] {
      ResolveUsersSound(users, ids[1..]);
      assert forall id :: id in ids[1..] ==> id in ids;
    }
  }

  /** Every id that resolves is kept. */
  lemma {:induction false} ResolveUsersComplete(users: seq<User>, ids: seq<UserId>)
    ensures forall id :: id in ids && id < |users| ==> Doc(id, users[id]) in ResolveUsers(users, ids)
  {
    if ids != [] {
      ResolveUsersComplete(users, ids[1..]);
      assert forall id :: id in ids && id != ids[0] ==> id in ids[1..];
    }
  }

  /** When every id resolves, the documents follow the ids one for one. */
  lemma {:induction false} ResolveUsersAllResolve(users: seq<User>, ids: seq<UserId>)
    requires forall k :: 0 <= k < |ids| ==> ids[k] < |users|
    ensures |ResolveUsers(users, ids)| == |ids|
    ensures forall k :: 0 <= k < |ids| ==> ResolveUsers(users, ids)[k] == Doc(ids[k], users[ids[k]])
  {
    if ids != [] {
      assert forall k :: 0 <= k < |ids[1..]| ==> ids[1..][k] < |users|;
      ResolveUsersAllResolve(users, ids[1..]);
    }
  }

  /** Resolution keeps the stored order: it distributes over concatenation. */
  lemma {:induction false} ResolveUsersAppend(users: seq<User>, a: seq<UserId>, b: seq<UserId>)
    ensures ResolveUsers(users, a + b) == ResolveUsers(users, a) + ResolveUsers(users, b)
  {
    if a != [] {
      assert (a + b)[1..] == a[1..] + b;
      ResolveUsersAppend(users, a[1..], b);
    } else {
      assert a + b == b;
    }
  }

  /** No id occurs twice. */
  predicate NoDuplicateUsers(ids: seq<UserId>)
  {
    forall i, j :: 0 <= i < j < |ids| ==> ids[i] != ids[j]
  }

  /** `filter(id => id !== me)` on a list of user ids: the `userIds` update
      of `toggleReaction` (convex/messages.ts) and the deselect branch of
      `toggleUser` (components/CreateGroup.tsx). */
  function RemoveUser(ids: seq<UserId>, me: UserId): (r: seq<UserId>)
    ensures |r| <= |ids|
    ensures forall x :: x in r <==> x in ids && x != me
    ensures NoDuplicateUsers(ids) ==> NoDuplicateUsers(r)
    ensures me !in ids ==> r == ids
  {
    if ids == [] then []
    else if ids[0] == me then RemoveUser(ids[1..], me)
    else
      var rest := RemoveUser(ids[1..], me);
      assert NoDuplicateUsers(ids) ==> ids[0] !in ids[1..];
      [ids[0]] + rest
  }

  /** Filtering out a present id shortens the list. */
  lemma {:induction false} RemovedIsShorter(ids: seq<UserId>, id: UserId)
    requires id in ids
    ensures |RemoveUser(ids, id)| < |ids|
  {
    if ids[0] != id {
      RemovedIsShorter(ids[1..], id);
    }
  }

  /** Filtering out the only id present leaves nothing. */
  lemma {:induction false} RemoveOnlyUser(ids: seq<UserId>, me: UserId)
    requires forall u :: u in ids ==> u == me
    ensures RemoveUser(ids, me) == []
  {
    if ids != [] {
      assert ids[0] in ids;
      assert forall u :: u in ids[1..] ==> u in ids;
      RemoveOnlyUser(ids[1..], me);
    }
  }

  /** Filtering out an id just appended to a list without it gives the list back. */
  lemma {:induction false} RemoveAfterAppend(ids: seq<UserId>, me: UserId)
    requires me !in ids
    ensures RemoveUser(ids + [me], me) == ids
  {
    if ids == [] {
      assert [] + [me] == [me];
    } else {
      assert (ids + [me])[1..] == ids[1..] + [me];
      RemoveAfterAppend(ids[1..], me);
    }
  }
}
