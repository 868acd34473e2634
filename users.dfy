/** The identity directory (convex/users.ts): `upsertUser` looks a user up by
    its Clerk id, then patches that record or inserts a new one. */
module Users {
  import opened Values
  import opened Schema
  import opened Db

  /** The arguments of `upsertUser`. */
  datatype UserArgs = UserArgs(clerkId: string, name: string, email: string, imageUrl: Option<string>)

  datatype Upserted = Upserted(users: seq<User>, id: UserId)

  /** The users table and returned id after `upsertUser(args)` at time `now`. */
  function Upsert(users: seq<User>, args: UserArgs, now: int): (r: Upserted)
    // the record for the Clerk id carries the arguments, is online and was seen now
    ensures r.id < |r.users|
    ensures r.users[r.id] == User(args.clerkId, args.name, args.email, args.imageUrl, now, true)
    // an existing record is patched in place and keeps its id and its Clerk id
    ensures UserByClerkId(users, args.clerkId).Some? ==>
      r.id == UserByClerkId(users, args.clerkId).value && |r.users| == |users|
    // otherwise exactly one record is appended
    ensures UserByClerkId(users, args.clerkId).None? ==>
      r.id == |users| && |r.users| == |users| + 1
    // every other record is untouched
    ensures forall j :: 0 <= j < |users| && j != r.id ==> r.users[j] == users[j]
  {
    match UserByClerkId(users, args.clerkId)
    case Some(i) =>
      var patched := users[i].(name := args.name, email := args.email, imageUrl := args.imageUrl,
                               isOnline := true, lastSeen := now);
      Upserted(users[i := patched], i)
    case None =>
      Upserted(users + [User(args.clerkId, args.name, args.email, args.imageUrl, now, true)], |users|)
  }

  /** `upsertUser`: lookup by Clerk id, then patch or insert. */
  method UpsertUser(db: Database, args: UserArgs, now: int) returns (id: UserId)
    requires db.Valid()
    modifies db
    ensures db.Valid()
    ensures Upserted(db.users, id) == Upsert(old(db.users), args, now)
    ensures db.conversations == old(db.conversations) && db.messages == old(db.messages)
    ensures db.typingIndicators == old(db.typingIndicators) && db.readReceipts == old(db.readReceipts)
  {
    var existing := UserByClerkId(db.users, args.clerkId);
    if existing.Some? {
      id := existing.value;
      var u := db.users[id];
      db.users := db.users[id := u.(name := args.name, email := args.email, imageUrl := args.imageUrl,
                                    isOnline := true, lastSeen := now)];
    } else {
      id := |db.users|;
      db.users := db.users + [User(args.clerkId, args.name, args.email, args.imageUrl, now, true)];
    }
    UpsertKeepsClerkIdsUnique(old(db.users), args, now);
  }

  /** Upserting never makes two records share a Clerk id. */
  lemma UpsertKeepsClerkIdsUnique(users: seq<User>, args: UserArgs, now: int)
    requires UniqueClerkIds(users)
    ensures UniqueClerkIds(Upsert(users, args, now).users)
  {
    var r := Upsert(users, args, now);
    forall i, j | 0 <= i < j < |r.users| ensures r.users[i].clerkId != r.users[j].clerkId {
      if i != r.id && j != r.id {
        assert r.users[i] == users[i] && r.users[j] == users[j];
      }
    }
  }

  /** How many records carry the Clerk id `c`. */
  function ClerkIdCount(users: seq<User>, c: string): nat
  {
    if users == [] then 0
    else (if users[0].clerkId == c then 1 else 0) + ClerkIdCount(users[1..], c)
  }

  lemma {:induction false} UniqueMeansAtMostOne(users: seq<User>, c: string)
    requires UniqueClerkIds(users)
    ensures ClerkIdCount(users, c) <= 1
    ensures (exists j :: 0 <= j < |users| && users[j].clerkId == c) ==> ClerkIdCount(users, c) == 1
  {
    if users != [] {
      UniqueMeansAtMostOne(users[1..], c);
      if users[0].clerkId == c {
        assert forall j :: 0 <= j < |users[1..]| ==> users[1..][j].clerkId != c by {
          forall j | 0 <= j < |users[1..]| ensures users[1..][j].clerkId != c {
            assert users[1..][j] == users[j + 1];
          }
        }
        ZeroCount(users[1..], c);
      } else {
        if exists j :: 0 <= j < |users| && users[j].clerkId == c {
          var j :| 0 <= j < |users| && users[j].clerkId == c;
          assert users[1..][j - 1] == users[j];
        }
      }
    }
  }

  lemma {:induction false} ZeroCount(users: seq<User>, c: string)
    requires forall j :: 0 <= j < |users| ==> users[j].clerkId != c
    ensures ClerkIdCount(users, c) == 0
  {
    if users != [] {
      assert forall j :: 0 <= j < |users[1..]| ==> users[1..][j] == users[j + 1];
      ZeroCount(users[1..], c);
    }
  }

  /** After `upsertUser`, exactly one record carries the Clerk id. */
  lemma UpsertLeavesOneRecord(users: seq<User>, args: UserArgs, now: int)
    requires UniqueClerkIds(users)
    ensures ClerkIdCount(Upsert(users, args, now).users, args.clerkId) == 1
  {
    var r := Upsert(users, args, now);
    UpsertKeepsClerkIdsUnique(users, args, now);
    UniqueMeansAtMostOne(r.users, args.clerkId);
    assert r.users[r.id].clerkId == args.clerkId;
  }

  /** The users table after a series of `upsertUser` calls, in order. */
  function UpsertAll(users: seq<User>, calls: seq<(UserArgs, int)>): seq<User>
    decreases calls
  {
    if calls == [] then users
    else UpsertAll(Upsert(users, calls[0].0, calls[0].1).users, calls[1..])
  }

  /** However many times `upsertUser` runs, no Clerk id has two records. */
  lemma {:induction false} RepeatedUpsertsKeepOneRecord(users: seq<User>, calls: seq<(UserArgs, int)>, c: string)
    requires UniqueClerkIds(users)
    ensures UniqueClerkIds(UpsertAll(users, calls))
    ensures ClerkIdCount(UpsertAll(users, calls), c) <= 1
    decreases calls
  {
    if calls == [] {
      UniqueMeansAtMostOne(users, c);
    } else {
      UpsertKeepsClerkIdsUnique(users, calls[0].0, calls[0].1);
      RepeatedUpsertsKeepOneRecord(Upsert(users, calls[0].0, calls[0].1).users, calls[1..], c);
    }
  }
}
