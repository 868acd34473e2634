/** The message store (convex/messages.ts): sending, listing, typing
    indicators, read receipts, reactions and soft delete. Each mutation takes
    the caller's identity (`identity.subject`, or None when there is none) and
    the transaction's clock reading `now` as parameters. */
module Messages {
  import opened Values
  import opened Schema
  import opened Db
  import opened Stamps
  import opened Reactions
  import opened Conversations

  /** `content.slice(0, 100)`: the conversation preview. */
  const PreviewLength := 100

  function Preview(content: string): (r: string)
    ensures |r| <= PreviewLength
    ensures r <= content
    ensures |content| <= PreviewLength ==> r == content
    ensures |content| > PreviewLength ==> |r| == PreviewLength
  {
    if |content| <= PreviewLength then content else content[..PreviewLength]
  }

  /** Every message's reaction list keeps the reaction invariant. */
  ghost predicate AllReactionsWellFormed(ms: seq<Message>)
  {
    forall i :: 0 <= i < |ms| ==> WellFormed(OrEmpty(ms[i].reactions))
  }

  /** `sendMessage`: inserts the message and then patches the conversation's
      summary; if the conversation does not exist the patch throws and the
      insert is rolled back with the rest of the transaction. */
  method SendMessage(db: Database, identity: Option<string>, conversationId: ConversationId,
                     content: string, now: int) returns (r: Result<MessageId>)
    requires db.Valid()
    modifies db
    ensures db.Valid()
    ensures match CurrentUser(old(db.users), identity)
      case Err(e) =>
        r == Err(e) && db.messages == old(db.messages) && db.conversations == old(db.conversations)
      case Ok(me) =>
        if conversationId < |old(db.conversations)| then
          && r == Ok(|old(db.messages)|)
          && db.messages == old(db.messages) + [Message(conversationId, me, content, false, Some([]))]
          && db.conversations == old(db.conversations)[conversationId :=
               old(db.conversations)[conversationId].(lastMessageTime := Some(now),
                                                      lastMessagePreview := Some(Preview(content)))]
        else
          r == Err(DocumentNotFound) && db.messages == old(db.messages) &&
          db.conversations == old(db.conversations)
    ensures old(AllReactionsWellFormed(db.messages)) ==> AllReactionsWellFormed(db.messages)
    ensures old(DMsUnique(db.conversations)) ==> DMsUnique(db.conversations)
    ensures db.users == old(db.users)
    ensures db.typingIndicators == old(db.typingIndicators) && db.readReceipts == old(db.readReceipts)
  {
    var me := CurrentUser(db.users, identity);
    if me.Err? {
      return Err(me.error);
    }
    var before := db.messages;
    var msgId := |db.messages|;
    db.messages := db.messages + [Message(conversationId, me.value, content, false, Some([]))];
    if conversationId >= |db.conversations| {
      db.messages := before;
      return Err(DocumentNotFound);
    }
    var c := db.conversations[conversationId];
    var patched := c.(lastMessageTime := Some(now), lastMessagePreview := Some(Preview(content)));
    if DMsUnique(db.conversations) {
      PatchKeepsDMsUnique(db.conversations, conversationId, patched);
    }
    db.conversations := db.conversations[conversationId := patched];
    r := Ok(msgId);
    assert forall i :: 0 <= i < |before| ==> db.messages[i] == before[i];
  }

  /** One element of `listMessages`: the message, its id, and its sender
      looked up with `ctx.db.get` (null when the sender does not resolve). */
  datatype Listed = Listed(id: MessageId, message: Message, sender: Option<Doc<User>>)

  /** `listMessages`: the messages of the conversation in index order
      (ascending creation time, which is insertion order), each enriched with
      its sender. */
  function ListMessages(users: seq<User>, ms: seq<Message>, c: ConversationId): (r: seq<Listed>)
    ensures |r| <= |ms|
  {
    if ms == [] then []
    else
      var n := |ms| - 1;
      ListMessages(users, ms[..n], c) +
        (if ms[n].conversationId == c then [Listed(n, ms[n], Get(users, ms[n].senderId))] else [])
  }

  /** Every listed entry is a message of the conversation with its own id
      and sender lookup. */
  lemma {:induction false} ListMessagesSound(users: seq<User>, ms: seq<Message>, c: ConversationId)
    ensures forall k :: 0 <= k < |ListMessages(users, ms, c)| ==>
      var e := ListMessages(users, ms, c)[k];
      e.id < |ms| && e == Listed(e.id, ms[e.id], Get(users, ms[e.id].senderId)) && ms[e.id].conversationId == c
  {
    if ms != [] {
      var n := |ms| - 1;
      var prefix := ms[..n];
      ListMessagesSound(users, prefix, c);
      var p := ListMessages(users, prefix, c);
      assert forall k :: 0 <= k < |p| ==> p[k].id < n && prefix[p[k].id] == ms[p[k].id];
    }
  }

  /** The listed ids strictly ascend: insertion order. */
  lemma {:induction false} ListMessagesAscending(users: seq<User>, ms: seq<Message>, c: ConversationId)
    ensures forall k, l :: 0 <= k < l < |ListMessages(users, ms, c)| ==>
      ListMessages(users, ms, c)[k].id < ListMessages(users, ms, c)[l].id
  {
    if ms != [] {
      var n := |ms| - 1;
      var prefix := ms[..n];
      ListMessagesSound(users, prefix, c);
      ListMessagesAscending(users, prefix, c);
      var p := ListMessages(users, prefix, c);
      assert forall k :: 0 <= k < |p| ==> p[k].id < n;
    }
  }

  /** Every message of the conversation is listed, with its sender lookup. */
  lemma {:induction false} ListMessagesComplete(users: seq<User>, ms: seq<Message>, c: ConversationId)
    ensures forall i :: 0 <= i < |ms| && ms[i].conversationId == c ==>
      Listed(i, ms[i], Get(users, ms[i].senderId)) in ListMessages(users, ms, c)
  {
    if ms != [] {
      var n := |ms| - 1;
      var prefix := ms[..n];
      ListMessagesComplete(users, prefix, c);
      assert forall i :: 0 <= i < n ==> prefix[i] == ms[i];
    }
  }

  /** A sent message appears at the end of its conversation's list, and in no
      other conversation's list. */
  lemma ListAfterSend(users: seq<User>, ms: seq<Message>, m: Message, c: ConversationId)
    ensures ListMessages(users, ms + [m], c) ==
      ListMessages(users, ms, c) +
        (if m.conversationId == c then [Listed(|ms|, m, Get(users, m.senderId))] else [])
  {
    assert (ms + [m])[..|ms|] == ms;
  }

  /** Patching messages without moving them between conversations (soft
      delete, reactions) keeps every listed message at its place. */
  lemma {:induction false} ListStableUnderPatch(users: seq<User>, ms: seq<Message>, ms': seq<Message>,
                                                c: ConversationId)
    requires |ms'| == |ms|
    requires forall i :: 0 <= i < |ms| ==>
      ms'[i].conversationId == ms[i].conversationId && ms'[i].senderId == ms[i].senderId
    ensures var r, r' := ListMessages(users, ms, c), ListMessages(users, ms', c);
      && |r'| == |r|
      && forall k :: 0 <= k < |r| ==>
           r'[k].id == r[k].id && r[k].id < |ms'| && r'[k].message == ms'[r[k].id] && r'[k].sender == r[k].sender
  {
    ListMessagesSound(users, ms, c);
    if ms != [] {
      var n := |ms| - 1;
      ListStableUnderPatch(users, ms[..n], ms'[..n], c);
      assert forall i :: 0 <= i < n ==> ms'[..n][i] == ms'[i];
    }
  }

  /** `setTyping`: with no identity or no user record it returns without a
      write; otherwise it refreshes (patch or insert) or deletes the caller's
      row for the conversation. */
  method SetTyping(db: Database, identity: Option<string>, conversationId: ConversationId,
                   isTyping: bool, now: int)
    requires db.Valid()
    modifies db
    ensures db.Valid()
    ensures match CurrentUser(old(db.users), identity)
      case Err(_) => db.typingIndicators == old(db.typingIndicators)
      case Ok(me) =>
        db.typingIndicators ==
          if isTyping then Touch(old(db.typingIndicators), conversationId, me, now)
          else Remove(old(db.typingIndicators), conversationId, me)
    ensures db.users == old(db.users) && db.conversations == old(db.conversations)
    ensures db.messages == old(db.messages) && db.readReceipts == old(db.readReceipts)
  {
    var me := CurrentUser(db.users, identity);
    if me.Err? {
      return;
    }
    var rows := db.typingIndicators;
    var existing := FindStamp(rows, conversationId, me.value);
    if isTyping {
      if existing.Some? {
        var i := existing.value;
        db.typingIndicators := rows[i := rows[i].(time := now)];
      } else {
        db.typingIndicators := rows + [Stamp(conversationId, me.value, now)];
      }
      TouchLeavesOneFreshRow(rows, conversationId, me.value, now);
    } else {
      if existing.Some? {
        var i := existing.value;
        db.typingIndicators := rows[..i] + rows[i + 1..];
      }
      RemoveLeavesNoRow(rows, conversationId, me.value);
    }
  }

  /** How long a typing signal stays live, in milliseconds. */
  const TypingWindow := 2000

  predicate IsLive(s: Stamp, now: int)
  {
    s.time > now - TypingWindow
  }

  /** The indicators of the conversation that are live and not the caller's
      (`me?._id`: no exclusion when the caller has no record), in index order. */
  function ActiveTypers(rows: seq<Stamp>, c: ConversationId, me: Option<UserId>, now: int): (r: seq<Stamp>)
    ensures |r| <= |rows|
    ensures forall s :: s in r <==>
      s in rows && s.conversationId == c && IsLive(s, now) && (me.None? || s.userId != me.value)
  {
    if rows == [] then []
    else
      var s := rows[0];
      var keep := s.conversationId == c && IsLive(s, now) && (me.None? || s.userId != me.value);
      (if keep then [s] else []) + ActiveTypers(rows[1..], c, me, now)
  }

  function UserIdsOf(rows: seq<Stamp>): (ids: seq<UserId>)
    ensures |ids| == |rows| && forall k :: 0 <= k < |rows| ==> ids[k] == rows[k].userId
  {
    seq(|rows|, k requires 0 <= k < |rows| => rows[k].userId)
  }

  /** `getTypingUsers`: [] without identity; otherwise the records of the
      users with a live indicator in the conversation, the caller excepted,
      dropping ids that do not resolve. */
  function GetTypingUsers(users: seq<User>, rows: seq<Stamp>, identity: Option<string>,
                          c: ConversationId, now: int): (r: seq<Doc<User>>)
    ensures identity.None? ==> r == []
    ensures |r| <= |rows|
  {
    match identity
    case None => []
    case Some(subject) =>
      var me := UserByClerkId(users, subject);
      ResolveUsers(users, UserIdsOf(ActiveTypers(rows, c, me, now)))
  }

  /** Every user `getTypingUsers` returns has a live indicator in the
      conversation and is not the caller; every other user with a live
      indicator there whose record exists is returned. */
  lemma TypingUsersAreLiveOthers(users: seq<User>, rows: seq<Stamp>, identity: Option<string>,
                                 c: ConversationId, now: int)
    requires UniqueClerkIds(users)
    ensures identity.None? ==> GetTypingUsers(users, rows, identity, c, now) == []
    ensures var r := GetTypingUsers(users, rows, identity, c, now);
      forall k :: 0 <= k < |r| ==>
        && identity.Some? && r[k].fields.clerkId != identity.value
        && r[k].id < |users| && r[k].fields == users[r[k].id]
        && exists j :: 0 <= j < |rows| && rows[j].conversationId == c && rows[j].userId == r[k].id &&
                       rows[j].time > now - TypingWindow
    ensures var r := GetTypingUsers(users, rows, identity, c, now);
      forall j :: 0 <= j < |rows| && identity.Some? && rows[j].conversationId == c && IsLive(rows[j], now) &&
                  rows[j].userId < |users| && users[rows[j].userId].clerkId != identity.value ==>
        Doc(rows[j].userId, users[rows[j].userId]) in r
  {
    if identity.Some? {
      var me := UserByClerkId(users, identity.value);
      var active := ActiveTypers(rows, c, me, now);
      var ids := UserIdsOf(active);
      var r := ResolveUsers(users, ids);
      ResolveUsersSound(users, ids);
      ResolveUsersComplete(users, ids);
      assert forall k :: 0 <= k < |r| ==> r[k] in r;
      forall k | 0 <= k < |r|
        ensures r[k].fields.clerkId != identity.value
        ensures exists j :: 0 <= j < |rows| && rows[j].conversationId == c && rows[j].userId == r[k].id &&
                            rows[j].time > now - TypingWindow
      {
        var m :| 0 <= m < |ids| && ids[m] == r[k].id;
        assert active[m] in active;
        var j :| 0 <= j < |rows| && rows[j] == active[m];
      }
      forall j | 0 <= j < |rows| && rows[j].conversationId == c && IsLive(rows[j], now) &&
                 rows[j].userId < |users| && users[rows[j].userId].clerkId != identity.value
        ensures Doc(rows[j].userId, users[rows[j].userId]) in r
      {
        assert rows[j] in active;
        var m :| 0 <= m < |active| && active[m] == rows[j];
        assert ids[m] == rows[j].userId;
      }
    }
  }

  /** `markAsRead`: with no identity or no user record it returns without a
      write; otherwise it refreshes the caller's receipt for the conversation. */
  method MarkAsRead(db: Database, identity: Option<string>, conversationId: ConversationId, now: int)
    requires db.Valid()
    modifies db
    ensures db.Valid()
    ensures match CurrentUser(old(db.users), identity)
      case Err(_) => db.readReceipts == old(db.readReceipts)
      case Ok(me) => db.readReceipts == Touch(old(db.readReceipts), conversationId, me, now)
    ensures db.users == old(db.users) && db.conversations == old(db.conversations)
    ensures db.messages == old(db.messages) && db.typingIndicators == old(db.typingIndicators)
  {
    var me := CurrentUser(db.users, identity);
    if me.Err? {
      return;
    }
    var rows := db.readReceipts;
    var existing := FindStamp(rows, conversationId, me.value);
    if existing.Some? {
      var i := existing.value;
      db.readReceipts := rows[i := rows[i].(time := now)];
    } else {
      db.readReceipts := rows + [Stamp(conversationId, me.value, now)];
    }
    TouchLeavesOneFreshRow(rows, conversationId, me.value, now);
  }

  /** `toggleReaction`: throws without identity, user record or message;
      otherwise patches the message's reactions with the rewritten list. */
  method ToggleReaction(db: Database, identity: Option<string>, messageId: MessageId, emoji: string)
    returns (r: Result<()>)
    requires db.Valid()
    modifies db
    ensures db.Valid()
    ensures match CurrentUser(old(db.users), identity)
      case Err(e) => r == Err(e) && db.messages == old(db.messages)
      case Ok(me) =>
        if messageId < |old(db.messages)| then
          var m := old(db.messages)[messageId];
          r == Ok(()) &&
          db.messages == old(db.messages)[messageId := m.(reactions := Some(Toggle(OrEmpty(m.reactions), emoji, me)))]
        else
          r == Err(MessageNotFound) && db.messages == old(db.messages)
    ensures old(AllReactionsWellFormed(db.messages)) ==> AllReactionsWellFormed(db.messages)
    ensures db.users == old(db.users) && db.conversations == old(db.conversations)
    ensures db.typingIndicators == old(db.typingIndicators) && db.readReceipts == old(db.readReceipts)
  {
    var me := CurrentUser(db.users, identity);
    if me.Err? {
      return Err(me.error);
    }
    if messageId >= |db.messages| {
      return Err(MessageNotFound);
    }
    var m := db.messages[messageId];
    var reactions := OrEmpty(m.reactions);
    var newReactions := Toggle(reactions, emoji, me.value);
    db.messages := db.messages[messageId := m.(reactions := Some(newReactions))];
    r := Ok(());
    if AllReactionsWellFormed(old(db.messages)) {
      ToggleKeepsWellFormed(reactions, emoji, me.value);
    }
  }

  /** `deleteMessage`: throws without identity, user record or message, and
      when the caller is not the sender; otherwise sets only `isDeleted`. */
  method DeleteMessage(db: Database, identity: Option<string>, messageId: MessageId)
    returns (r: Result<()>)
    requires db.Valid()
    modifies db
    ensures db.Valid()
    ensures match CurrentUser(old(db.users), identity)
      case Err(e) => r == Err(e) && db.messages == old(db.messages)
      case Ok(me) =>
        if messageId >= |old(db.messages)| then
          r == Err(MessageNotFound) && db.messages == old(db.messages)
        else if old(db.messages)[messageId].senderId != me then
          r == Err(NotYourMessage) && db.messages == old(db.messages)
        else
          && r == Ok(())
          && db.messages == old(db.messages)[messageId := old(db.messages)[messageId].(isDeleted := true)]
          // deleting an already deleted message changes nothing
          && (old(db.messages)[messageId].isDeleted ==> db.messages == old(db.messages))
    ensures old(AllReactionsWellFormed(db.messages)) ==> AllReactionsWellFormed(db.messages)
    ensures db.users == old(db.users) && db.conversations == old(db.conversations)
    ensures db.typingIndicators == old(db.typingIndicators) && db.readReceipts == old(db.readReceipts)
  {
    var me := CurrentUser(db.users, identity);
    if me.Err? {
      return Err(me.error);
    }
    if messageId >= |db.messages| {
      return Err(MessageNotFound);
    }
    var m := db.messages[messageId];
    if m.senderId != me.value {
      return Err(NotYourMessage);
    }
    db.messages := db.messages[messageId := m.(isDeleted := true)];
    r := Ok(());
  }
}
