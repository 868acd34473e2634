/** The operations run one after another on one store: two users sign in,
    one opens a direct conversation and writes, the other answers; and a
    third user, outside the conversation, reacts in it. */
module Scenario {
  import opened Values
  import opened Schema
  import opened Db
  import opened Users
  import opened Conversations
  import opened Reactions
  import opened Messages

  /** A and B sign in, and A opens a DM with B: the store holds the two
      users, one conversation between them, and no messages yet. */
  method SignInAndOpenDM() returns (db: Database)
    ensures fresh(db) && db.Valid()
    ensures |db.users| == 2 && db.users[0].clerkId == "clerk-a" && db.users[1].clerkId == "clerk-b"
    ensures db.conversations == [NewDM(0, 1, 1002)] && db.messages == []
  {
    db := new Database();
    var a := UpsertUser(db, UserArgs("clerk-a", "Ada", "ada@example.org", None), 1000);
    assert a == 0;
    var b := UpsertUser(db, UserArgs("clerk-b", "Bob", "bob@example.org", None), 1001);
    assert db.users[0].clerkId == "clerk-a";
    assert b == 1 && db.users[1].clerkId == "clerk-b";
    var c := GetOrCreateDM(db, Some("clerk-a"), b, 1002);
    assert CurrentUser(db.users, Some("clerk-a")) == Ok(0);
    assert c == Ok(0);
  }

  /** Then A says "hi" and B answers "hello": the conversation is the DM of
      the two, both messages are listed in order with their senders, and the
      preview is the latest message. */
  method DirectMessageScenario() returns (participants: seq<UserId>, listed: seq<Listed>, preview: Option<string>)
    ensures participants == [0, 1]
    ensures |listed| == 2
    ensures listed[0].message.content == "hi" && listed[0].message.senderId == 0
    ensures listed[1].message.content == "hello" && listed[1].message.senderId == 1
    ensures listed[0].id < listed[1].id
    ensures preview == Some("hello")
  {
    var db := SignInAndOpenDM();
    assert CurrentUser(db.users, Some("clerk-a")) == Ok(0);
    var m1 := SendMessage(db, Some("clerk-a"), 0, "hi", 1003);
    assert CurrentUser(db.users, Some("clerk-b")) == Ok(1);
    var m2 := SendMessage(db, Some("clerk-b"), 0, "hello", 1004);
    var hi := Message(0, 0, "hi", false, Some([]));
    var hello := Message(0, 1, "hello", false, Some([]));
    assert db.messages == [hi, hello];
    ListAfterSend(db.users, [], hi, 0);
    assert [] + [hi] == [hi];
    ListAfterSend(db.users, [hi], hello, 0);
    participants := db.conversations[0].participants;
    listed := ListMessages(db.users, db.messages, 0);
    preview := db.conversations[0].lastMessagePreview;
  }

  /** C signs in too, and A says "hi" in the DM with B. */
  method OutsiderJoins() returns (db: Database)
    ensures fresh(db) && db.Valid()
    ensures |db.conversations| == 1 && db.conversations[0].participants == [0, 1]
    ensures db.messages == [Message(0, 0, "hi", false, Some([]))]
    ensures CurrentUser(db.users, Some("clerk-c")) == Ok(2)
  {
    db := SignInAndOpenDM();
    var c := UpsertUser(db, UserArgs("clerk-c", "Cy", "cy@example.org", None), 1003);
    assert db.users[0].clerkId == "clerk-a" && db.users[1].clerkId == "clerk-b";
    assert c == 2 && db.users[2].clerkId == "clerk-c";
    assert CurrentUser(db.users, Some("clerk-a")) == Ok(0);
    var m := SendMessage(db, Some("clerk-a"), 0, "hi", 1004);
  }

  /** No function checks membership: C, who is not in the DM of A and B,
      reacts to a message there and the reaction is stored. */
  method OutsiderReacts() returns (participants: seq<UserId>, outcome: Result<()>, reactions: Option<seq<Reaction>>)
    ensures 2 !in participants
    ensures outcome == Ok(())
    ensures reactions == Some([Reaction("+1", [2])])
  {
    var db := OutsiderJoins();
    outcome := ToggleReaction(db, Some("clerk-c"), 0, "+1");
    assert Toggle([], "+1", 2) == [Reaction("+1", [2])];
    participants := db.conversations[0].participants;
    reactions := db.messages[0].reactions;
  }
}
