/** The Convex database as one object: one sequence field per table, rows in
    creation order. Each server function takes it as `db` (the `ctx.db` of
    convex/users.ts, convex/messages.ts and convex/users_conversations.ts)
    and runs as one atomic method. */
module Db {
  import opened Schema

  class Database {
    var users: seq<User>
    var conversations: seq<Conversation>
    var messages: seq<Message>
    var typingIndicators: seq<Stamp>
    var readReceipts: seq<Stamp>

    /** The keys that convex/users.ts and convex/messages.ts read with
        `.unique()` occur at most once. */
    ghost predicate Valid()
      reads this
    {
      UniqueClerkIds(users) && UniqueKeys(typingIndicators) && UniqueKeys(readReceipts)
    }

    constructor ()
      ensures Valid()
      ensures users == [] && conversations == [] && messages == []
      ensures typingIndicators == [] && readReceipts == []
    {
      users, conversations, messages := [], [], [];
      typingIndicators, readReceipts := [], [];
    }
  }
}
