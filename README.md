# Convex chat store, modelled in Dafny

This project models the server side of a small real-time chat application built on Convex and Clerk, and proves properties of that model. It also models the few pure helpers in the React components that decide what the client sends or shows.

- **Identity directory** (`convex/users.ts`, module `Users`). `upsertUser` looks a user up by Clerk id. It then patches that record, or it inserts a new one.
- **Conversation registry** (`convex/users_conversations.ts` and its duplicate `convex/users-conversations.ts`, module `Conversations`).
  - `getOrCreateDM` scans for an existing direct conversation and inserts one only when none matches.
  - `getConversation` resolves the participant ids and the caller's own record.
- **Message store** (`convex/messages.ts`, modules `Messages`, `Reactions`, `Stamps`; the id filter that reactions and the group form share is `Schema.RemoveUser`).
  - `sendMessage`, `listMessages` and `deleteMessage`.
  - The per-(conversation, user) tables written by `setTyping` and `markAsRead`, and read by `getTypingUsers`.
  - The reaction-list rewrite of `toggleReaction`.
- **Client helpers** (modules `CreateGroup`, `TypingIndicator`, `MessageItem`, `ChatBox`).
  - The group-member toggle and the create guard.
  - The typing label.
  - The reaction chips and the deleted-message bubble.
  - The send guard, the header's other participant, and the own-message test.

How the model is laid out:

- The database is one class, `Db.Database`, with one `seq` field per table: `users`, `conversations`, `messages`, `typingIndicators` and `readReceipts`.
- Each Convex mutation is one method that takes the database.
- The functions that read `Date.now()` (`upsertUser`, `getOrCreateDM`, `sendMessage`, `setTyping`, `markAsRead` and the query `getTypingUsers`) take that clock reading as a parameter `now: int`. `toggleReaction` and `deleteMessage` read no clock and take none.
- The functions that call `ctx.auth.getUserIdentity()` (`sendMessage`, `setTyping`, `getTypingUsers`, `markAsRead`, `toggleReaction`, `deleteMessage`, `getOrCreateDM`, `getConversation`) also take the caller's identity, as an `Option<string>` holding the Clerk subject.
- `upsertUser` and `listMessages` read no identity, so their models take none. `upsertUser` is unauthenticated: any caller may create or overwrite the record of any Clerk id. `listMessages` returns any conversation's messages to any caller.
- No function checks the caller against a conversation's `participants`. Any signed-in user with a directory record may post into any conversation (`sendMessage`), signal typing or mark it read there (`setTyping`, `markAsRead`), react to any of its messages (`toggleReaction`), and read it (`getConversation`, `getTypingUsers`). `Scenario.OutsiderReacts` shows a reaction by a user who is not a participant succeeding.
- A document's `_id` is its position in its table. Users, conversations and messages are never deleted, so positions are stable.
- An id past the end of its table stands for an id that `ctx.db.get` does not resolve.
- Rows are kept in insertion order. This stands in for `_creationTime` and for the ascending order of the `by_conversation` index.
- `.unique()` is taken as the guarantee that each index key occurs at most once. This is `Database.Valid()`: Clerk ids are unique, and so are the (conversation, user) keys of the two per-user tables. Every mutation preserves it.
- A mutation that throws is modelled as an `Err` result with no write, because Convex rolls back the whole transaction.
  - In particular, `sendMessage` on a conversation that does not exist makes its `patch` throw, so the message inserted before the patch is rolled back too.
  - `SendMessage` performs the insert, then undoes it on that path.
- Read-only queries are functions over the tables.
- Pure rewrites are functions, and their properties are proved as lemmas.

## Model

| member | source | states |
|---|---|---|
| Schema.Get | convex/users_conversations.ts:46-47 | `ctx.db.get`: a document exactly when the id is in the table, carrying that id and that record |
| Schema.UserByClerkId | convex/users.ts:19-22 | the `by_clerk_id` lookup: a found index holds the Clerk id; none is found iff no record holds it; under uniqueness it is the only index that does |
| Schema.CurrentUser | convex/messages.ts:10-17 | "Not authenticated" iff there is no identity; "User not found" iff no record has the subject as Clerk id; otherwise the caller's record |
| Schema.ResolveUsers | convex/users_conversations.ts:49-51 | at most one record per id. Its meaning is stated by `ResolveUsersSound`, `ResolveUsersComplete`, `ResolveUsersAllResolve` and `ResolveUsersAppend` |
| Schema.ResolveUsersSound | convex/users_conversations.ts:49-51 | every participant kept is the record of one of the ids, and no more are kept than there are ids |
| Schema.ResolveUsersComplete | convex/users_conversations.ts:60 | `filter(Boolean)` drops only the ids that do not resolve: every resolving id is kept |
| Schema.ResolveUsersAllResolve | convex/users_conversations.ts:49-51 | when all ids resolve, the records follow the ids one for one, in stored order |
| Schema.ResolveUsersAppend | convex/messages.ts:134-138 | resolution distributes over concatenation: it keeps the order of the ids |
| Schema.RemoveUser | convex/messages.ts:201 | `filter(id => id !== me)` on user ids, shared by `toggleReaction` and `toggleUser`: the id is gone, every other id stays, no duplicates appear, and an absent id changes nothing |
| Schema.RemovedIsShorter | components/CreateGroup.tsx:27 | filtering out a present id shortens the list |
| Schema.RemoveOnlyUser | convex/messages.ts:201-202 | removing the only user leaves an empty list |
| Schema.RemoveAfterAppend | convex/messages.ts:201-212 | removing a just-appended absent user restores the list |
| Db.Database.constructor | convex/schema.ts:7-47 | the tables start empty, and an empty store satisfies the `.unique()` invariant |
| Users.Upsert | convex/users.ts:19-47 | the record for the Clerk id carries the arguments, is online and was seen now. An existing record is patched in place and keeps its id. Otherwise exactly one record is appended. Every other record is untouched |
| Users.UpsertUser | convex/users.ts:10-49 | the method's new users table and returned id are those of `Upsert`; the other tables are unchanged; Clerk ids stay unique |
| Users.UpsertKeepsClerkIdsUnique | convex/users.ts:26-46 | an upsert never makes two records share a Clerk id |
| Users.UniqueMeansAtMostOne | convex/users.ts:19-22 | under uniqueness a Clerk id has at most one record, and exactly one when any record carries it |
| Users.ZeroCount | convex/users.ts:36 | a Clerk id that no record carries has count zero |
| Users.UpsertLeavesOneRecord | convex/users.ts:26-46 | after `upsertUser` exactly one record carries the Clerk id |
| Users.RepeatedUpsertsKeepOneRecord | convex/users.ts:19-46 | any sequence of `upsertUser` calls keeps Clerk ids unique and never gives a Clerk id two records |
| Conversations.NewDM | convex/users_conversations.ts:30-34 | the inserted conversation is a DM of the two users, found from either side; it has no group name and no preview, and is stamped `now` |
| Conversations.FindDM | convex/users_conversations.ts:19-26 | the `find` of `getOrCreateDM`: the first non-group, two-participant conversation containing both users, or none iff there is no such conversation |
| Conversations.ResolveDM | convex/users-conversations.ts:19-34 | the returned conversation is a DM with both users. An existing one is returned with no write. Otherwise exactly `[me, other]`, non-group, no group name, stamped `now` and without preview, is appended and its id returned |
| Conversations.GetOrCreateDM | convex/users_conversations.ts:6-36 | throws (Err, no write) without an identity or a user record; otherwise table and answer are those of `ResolveDM`; the other tables are unchanged; no two DMs come to share a pair of participants |
| Conversations.FindDMSymmetric | convex/users-conversations.ts:20-26 | the match does not depend on which of the two users asks |
| Conversations.RepeatedDMCallsAgree | convex/users-conversations.ts:20-34 | after a call for a pair, a second call for the same pair in either direction returns the same id and writes nothing; the two calls add at most one conversation |
| Conversations.SelfDMMatchesAnyDM | convex/users_conversations.ts:22-25 | asked for a DM with oneself, the scan returns a DM the caller has with another user |
| Conversations.ResolveDMKeepsDMsUnique | convex/users_conversations.ts:28-34 | run one at a time, `getOrCreateDM` keeps "no two DMs have the same pair of participants" |
| Conversations.PatchKeepsDMsUnique | convex/messages.ts:27-31 | a patch that keeps a conversation's kind and participants keeps "no two DMs have the same pair of participants" |
| Conversations.GetConversation | convex/users_conversations.ts:40-64 | null iff there is no identity or no such conversation. Otherwise the conversation's fields, its participants resolved in stored order with unresolved ids dropped, and `me` as the caller's record, null iff there is none |
| Stamps.FindStamp | convex/messages.ts:79-84 | the `by_conversation_user` lookup: a found row has the key and is the first such; none iff no row has it |
| Stamps.Touch | convex/messages.ts:86-96 | patch or insert: the table keeps its length or grows by one. Its meaning is stated by `TouchLeavesOneFreshRow` |
| Stamps.Remove | convex/messages.ts:97-102 | the table keeps its length or shrinks by one. Its meaning is stated by `RemoveLeavesNoRow` |
| Stamps.TouchLeavesOneFreshRow | convex/messages.ts:86-96 | a refresh keeps keys unique and leaves one row for the key, stamped `now`. An existing row is patched where it stands; a missing one is appended. No other key's rows change |
| Stamps.RemoveLeavesNoRow | convex/messages.ts:97-102 | a delete keeps keys unique and leaves no row for the key; no other key's rows change |
| Stamps.OtherKeysAppend | convex/messages.ts:91-95 | the rows of the other keys distribute over concatenation |
| Stamps.OtherKeysAround | convex/messages.ts:89-100 | patching or deleting a row of the key leaves the other keys' rows alone |
| Messages.Preview | convex/messages.ts:30 | `content.slice(0, 100)`: a prefix of the content, at most 100 characters, all of it when it is short and exactly 100 when it is long |
| Messages.SendMessage | convex/messages.ts:4-37 | Errors without identity or user record, and for a missing conversation, with no write. Otherwise it appends one message from the caller with the content as given, not deleted and with no reactions, and returns its id. It sets that conversation's `lastMessageTime` to now and its preview to `Preview(content)`, and changes nothing else. It keeps the reaction invariant and "no two DMs have the same pair of participants" |
| Messages.ListMessages | convex/messages.ts:40-60 | no more entries than messages. Its meaning is stated by `ListMessagesSound`, `ListMessagesAscending`, `ListMessagesComplete` and `ListAfterSend` |
| Messages.ListMessagesSound | convex/messages.ts:43-56 | every listed entry is a message of the conversation, with its own id and its sender lookup, which may be null |
| Messages.ListMessagesAscending | convex/messages.ts:43-49 | listed ids strictly ascend: insertion order |
| Messages.ListMessagesComplete | convex/messages.ts:43-56 | every message of the conversation is listed |
| Messages.ListAfterSend | convex/messages.ts:19-25 | a new message appears at the end of its conversation's list, and in no other list |
| Messages.ListStableUnderPatch | convex/messages.ts:220 | patches that keep conversation and sender (delete, reactions) keep every listed message at its place, showing its new state |
| Messages.SetTyping | convex/messages.ts:64-104 | silent no-op without identity or user record; otherwise the rows become `Touch` (typing) or `Remove` (stopped) of the old rows; every other table is unchanged; keys stay unique |
| Messages.ActiveTypers | convex/messages.ts:130-132 | a row is kept iff it is of the conversation, strictly newer than `now - 2000`, and not the caller's |
| Messages.GetTypingUsers | convex/messages.ts:110-140 | [] without identity, and no more users than indicator rows. Its meaning is stated by `TypingUsersAreLiveOthers` |
| Messages.TypingUsersAreLiveOthers | convex/messages.ts:110-140 | [] without identity. Every user returned has a live indicator in the conversation, resolves to its own record, and is not the caller. Every other resolving user with a live indicator there is returned |
| Messages.MarkAsRead | convex/messages.ts:143-172 | no-op without identity or user record; otherwise the receipts become `Touch` of the old ones: one receipt for the key, stamped now, patched or inserted, others unchanged |
| Messages.ToggleReaction | convex/messages.ts:175-222 | Errors "Not authenticated", "User not found" and "Message not found", in order, with no write. Otherwise it patches only that message's reactions with the rewritten (absent read as []) list. It keeps the reaction invariant |
| Messages.DeleteMessage | convex/messages.ts:228-246 | Errors for no identity, no user, a missing message, and a caller who is not the sender, with no write. Otherwise it sets only `isDeleted`. Repeating the call changes nothing |
| Reactions.FindEmoji | convex/messages.ts:194 | `find` by emoji: the first entry with the emoji, or none iff there is none |
| Reactions.WithoutEmoji | convex/messages.ts:203 | `filter(r => r.emoji !== emoji)`: exactly the other entries remain; unique emojis stay unique |
| Reactions.ReplaceUsers | convex/messages.ts:205-207 | the emoji's entries get the new users, all others are untouched, length kept |
| Reactions.AppendUser | convex/messages.ts:210-214 | the emoji's entries get the caller appended, all others are untouched, length kept |
| Reactions.Toggle | convex/messages.ts:193-218 | the list grows by at most one entry. Its meaning is stated by `ToggleFlipsMembership`, `ToggleKeepsOtherEmojis`, `ToggleAddsOrDropsEntry`, `ToggleKeepsWellFormed` and `ToggleCommutesPerEmoji` |
| Reactions.ToggleFlipsMembership | convex/messages.ts:193-218 | the caller's membership for the emoji flips, and no other user's changes |
| Reactions.ToggleKeepsOtherEmojis | convex/messages.ts:203-217 | entries of every other emoji are unchanged and keep their order |
| Reactions.ToggleAddsOrDropsEntry | convex/messages.ts:202-203 | A missing emoji gets a new one-user entry at the end. An emoji whose only user is the caller loses its entry |
| Reactions.ToggleKeepsWellFormed | convex/messages.ts:193-218 | the toggle keeps three things: no entry without users, one entry per emoji, and no user twice in an entry |
| Reactions.AppendedIsFound | convex/messages.ts:217 | an appended entry for a missing emoji is the one `find` returns next |
| Reactions.WithoutEmojiAppend | convex/messages.ts:217 | dropping an emoji distributes over an appended entry |
| Reactions.WithoutEmojiTwice | convex/messages.ts:203 | after dropping an emoji it is not found, and dropping it again changes nothing |
| Reactions.SameKeysSameFind | convex/messages.ts:205-214 | rewriting user lists leaves the emoji found at the same index |
| Reactions.SameEntriesElsewhere | convex/messages.ts:205-214 | a rewrite confined to the emoji's entries leaves the other entries equal |
| Reactions.ToggleTwiceFromAbsent | convex/messages.ts:193-218 | on a well-formed list, a user who had not reacted and toggles twice gets the list back exactly |
| Reactions.ToggleTwiceRestoresMembership | convex/messages.ts:193-218 | two toggles restore who reacted with the emoji, and every other emoji's entries |
| Reactions.UsersOfWithoutEmoji | convex/messages.ts:194 | dropping one emoji's entries leaves every other emoji's users as `find` reads them |
| Reactions.ToggleKeepsOtherUsers | convex/messages.ts:193-218 | a toggle of one emoji leaves the users of every other emoji as they were |
| Reactions.ToggledUsers | convex/messages.ts:193-218 | after the toggle the emoji's users are its users before with the caller filtered out when present, or appended when absent |
| Reactions.ToggleCommutesPerEmoji | convex/messages.ts:193-218 | toggles of two different emojis, by any two users, give every emoji the same users in either order |
| Reactions.ToggleOrderShowsInEntries | convex/messages.ts:217 | as whole lists the two orders differ: new entries are appended in call order |
| Reactions.ToggleTwiceReordersUsers | convex/messages.ts:201-212 | unreacting and reacting again moves the caller to the end: two toggles from `[1, 2]` by 1 give `[2, 1]` |
| Reactions.ReactReactUnreact | convex/messages.ts:193-218 | A reacts, B reacts with the same emoji, A takes theirs back: only B is left |
| Text.TrimStart | components/ChatBox.tsx:36 | a suffix of the input, not starting with white space, and what was dropped is all white space |
| Text.TrimEnd | components/ChatBox.tsx:36 | a prefix of the input, not ending with white space, and what was dropped is all white space |
| Text.Trim | components/ChatBox.tsx:36 | a contiguous piece of the input that neither starts nor ends with white space; empty iff the input is all white space |
| Text.TrimDropsOnlySpace | components/ChatBox.tsx:36 | everything before and everything after the trimmed piece is white space |
| Text.FirstWord | components/TypingIndicator.tsx:15 | `split(" ")[0]`: a prefix without spaces, ending at the first space |
| Text.NatToString | components/TypingIndicator.tsx:18 | the decimal rendering of a count: digits only, no leading zero |
| Text.NatToStringRoundTrip | components/TypingIndicator.tsx:18 | the rendered count reads back as the count |
| CreateGroup.ToggleUser | components/CreateGroup.tsx:25-29 | the clicked id's membership flips and no other id's changes |
| CreateGroup.ToggleUserAppendsOrShrinks | components/CreateGroup.tsx:25-29 | an absent id is appended at the end; removing an id shortens the list |
| CreateGroup.ToggleUserKeepsNoDuplicates | components/CreateGroup.tsx:25-29 | the selection never holds an id twice |
| CreateGroup.ToggleUserTwice | components/CreateGroup.tsx:25-29 | two toggles restore membership; when the id was absent, the exact list |
| CreateGroup.ToggleUserTwiceReorders | components/CreateGroup.tsx:27 | deselecting and reselecting moves the id to the end |
| CreateGroup.CreateDisabled | components/CreateGroup.tsx:176 | the Create button is disabled iff the name is all white space or nothing is selected |
| CreateGroup.GroupForm.constructor | components/CreateGroup.tsx:15-16 | an empty name and an empty selection |
| CreateGroup.GroupForm.SetGroupName | components/CreateGroup.tsx:68 | typing changes only the name |
| CreateGroup.GroupForm.ClickUser | components/CreateGroup.tsx:25-29 | the selection becomes `ToggleUser` of the old one and stays duplicate-free |
| CreateGroup.GroupForm.HandleCreate | components/CreateGroup.tsx:31-40 | No call iff the Create button is disabled (line 176), that is iff the name is all white space or nothing is selected. Otherwise the call carries the selection and the trimmed, non-empty name |
| TypingIndicator.Names | components/TypingIndicator.tsx:13-18 | Opens with the first typer's first word. One typer gives that word, and two give "A and B". Three or more give "A and N others", where N is a non-empty run of digits without a leading zero that reads back as the count minus one |
| TypingIndicator.Label | components/TypingIndicator.tsx:11-51 | None iff there are no typers; otherwise the names followed by " " + verb + " is typing..." |
| TypingIndicator.LabelDoublesVerb | components/TypingIndicator.tsx:51 | one typer reads "... is is typing...", several "... are is typing..." |
| TypingIndicator.TwoNamesSplit | components/TypingIndicator.tsx:17 | a two-typer label splits back into both first words at " and " |
| MessageItem.Live | components/MessageItem.tsx:36 | exactly the entries with users remain |
| MessageItem.ActiveReactions | components/MessageItem.tsx:35-36 | exactly the stored entries with users, and none when the message has no reactions; `LiveAppend` states that the order is kept |
| MessageItem.LiveAppend | components/MessageItem.tsx:35-36 | the filter keeps the list's order |
| MessageItem.LiveOfWellFormed | components/MessageItem.tsx:35-36 | on a list `toggleReaction` wrote, every entry is shown |
| MessageItem.Chips | components/MessageItem.tsx:117-130 | one chip per active reaction, in order, with its emoji and its user count (never zero), highlighted iff the viewer is defined and among its users |
| MessageItem.HighlightedIffReacted | components/MessageItem.tsx:122 | with one entry per emoji, the viewer has a highlighted chip for an emoji iff the viewer reacted with it |
| MessageItem.ClickFlipsHighlight | components/MessageItem.tsx:120 | after the viewer clicks a chip and the server applies the toggle, the viewer's highlight for that emoji has flipped |
| MessageItem.ShowBubble | components/MessageItem.tsx:72-130 | A deleted message shows "This message was deleted" and no picker. Otherwise it shows its content and one picker button per option. Every button issues `toggleReaction` for this message and its emoji |
| ChatBox.SendPayload | components/ChatBox.tsx:35-37 | nothing is sent iff the draft is all white space; otherwise the trimmed, non-empty draft |
| ChatBox.SendDisabled | components/ChatBox.tsx:103 | the Send button is disabled iff the draft is all white space |
| ChatBox.SendDisabledIffNoPayload | components/ChatBox.tsx:103 | the Send button is disabled exactly when a click would send nothing |
| ChatBox.Composer.constructor | components/ChatBox.tsx:15 | the draft starts empty |
| ChatBox.Composer.SetInput | components/ChatBox.tsx:94 | typing replaces the draft |
| ChatBox.Composer.HandleSend | components/ChatBox.tsx:35-41 | sends `SendPayload` of the draft; the draft is cleared only when a send happened and resolved, so a failed send keeps it |
| ChatBox.OtherUser | components/ChatBox.tsx:51-53 | the first participant whose Clerk id is not the signed-in user's (any participant when nobody is signed in); none iff there is no such participant |
| ChatBox.HeaderTitle | components/ChatBox.tsx:60 | the other user's name, or "Chat" when there is none |
| ChatBox.OtherOfPair | components/ChatBox.tsx:51-53 | of two participants, the one who is not the caller is picked, in either order |
| ChatBox.DMHeaderNamesOther | components/ChatBox.tsx:51-60 | in a DM whose two participants resolve, the header names the one who is not the signed-in user |
| ChatBox.ResolvedPair | convex/users_conversations.ts:49-51 | two resolving ids give their two records, in order |
| ChatBox.IsOwn | components/ChatBox.tsx:67 | no message is own while `me` is null. Its meaning is stated by `OwnIffSentByCaller` |
| ChatBox.OwnIffSentByCaller | components/ChatBox.tsx:67 | a message shows as own iff its sender is the user `sendMessage` records for the same identity |
| Scenario.SignInAndOpenDM | convex/users_conversations.ts:6-36 | A and B sign in and A opens a DM with B: two users, one conversation `[A, B]`, no messages |
| Scenario.OutsiderJoins | convex/users.ts:10-49 | a third user C signs in and A posts "hi" in the DM of A and B: C resolves, and the DM's participants are A and B only |
| Scenario.OutsiderReacts | convex/messages.ts:175-222 | a user who is not a participant of the DM reacts to a message in it; the call succeeds and the reaction is stored |
| Scenario.DirectMessageScenario | convex/messages.ts:4-58 | A opens a DM with B and says "hi", and B answers "hello". The DM is `[A, B]`, both messages are listed in order with their senders, and the preview is "hello" |

## Left out

- `createGroup`, `listAllUsers`, `setPresence` and `syncFromWebhook`: the client calls them, but their code is not part of this model. So there is no server-side group-creation or presence rule here. `GroupForm.HandleCreate` stops at the arguments it would pass.
- Concurrency: each mutation is one atomic method, and interleavings are not modelled. The race of two users opening the same DM at once has no uniqueness key in the code. `ResolveDMKeepsDMsUnique` covers only calls run one after another.
- Clock and authentication: `Date.now()` and `ctx.auth.getUserIdentity()` are parameters. `_creationTime` is table position.
- Conversations.FindDM: it follows the code, not the stricter rule that the participant set equal `{me, other}` exactly. With `otherUserId == me`, it matches any DM the caller is in (`SelfDMMatchesAnyDM`).
- Reactions.ToggleTwiceRestoresMembership: two toggles restore membership, not always the exact list. The caller is re-appended at the end (`ToggleTwiceReordersUsers`), and an emoji entry that was dropped comes back at the end of the list. The stronger "two toggles are a no-op" holds exactly only when the caller had not reacted (`ToggleTwiceFromAbsent`).
- Text.Trim: only ASCII white space is stripped. The Unicode white space of `String.prototype.trim` is not modelled.
- Messages.Preview: it counts characters, while JavaScript's `slice(0, 100)` counts UTF-16 code units. The two differ on text with characters outside the Basic Multilingual Plane, such as most emoji.
- Reactions.Toggle: toggles of different emojis commute per emoji (`ToggleCommutesPerEmoji`), but not as whole lists. A new emoji's entry is appended, so the order of the entries follows the order of the calls (`ToggleOrderShowsInEntries`).
- Messages.TypingUsersAreLiveOthers: it assumes unique Clerk ids, which is what `.unique()` relies on. Without that, `.unique()` throws in Convex, and that failure is not modelled.
- The two per-user tables share one row type, `Stamp`, whose `time` is `lastTyped` or `lastReadTime`. Their schema is not declared in `convex/schema.ts`.
- Messages.MarkAsRead: "receipts only move forward" is not stated. A patch stores `now` as given, so such a property would hold only if the clock did.
- `sendMessage` does not trim or reject empty content. The client's guard (`ChatBox.SendPayload`) does that, and the store accepts any content.
- Rendering: all JSX, CSS, avatars, routing, scrolling and the search box. `components/SideBar.tsx` and `components/UserSearch.tsx`.
- `libs/utils.ts` (locale-dependent date formatting and a class-name helper), `hooks/usePresence.ts` (timers and visibility events), `hooks/useSyncUser.ts` (an effect around `upsertUser`) and `convex/http.ts` (webhook I/O).
- The `console.log` calls in `upsertUser`.
