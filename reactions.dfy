/** The reaction rewrite of `toggleReaction` (convex/messages.ts): a pure
    transform of a message's reaction list, built from the same `find`,
    `includes`, `filter` and `map` steps as convex/messages.ts. */
module Reactions {
  import opened Values
  import opened Schema

  /** `msg.reactions ?? []`. */
  function OrEmpty(rs: Option<seq<Reaction>>): seq<Reaction>
  {
    match rs
    case None => []
    case Some(list) => list
  }

  /** `reactions.find(r => r.emoji === emoji)`, as an index. */
  function FindEmoji(rs: seq<Reaction>, emoji: string): (r: Option<nat>)
    ensures r.Some? ==> r.value < |rs| && rs[r.value].emoji == emoji
    ensures r.Some? ==> forall j :: 0 <= j < r.value ==> rs[j].emoji != emoji
    ensures r.None? <==> forall j :: 0 <= j < |rs| ==> rs[j].emoji != emoji
  {
    IndexOf(rs, (x: Reaction) => x.emoji == emoji)
  }

  /** The users who reacted with `emoji`, as convex/messages.ts reads them (the first
      entry for that emoji; none when there is no entry). */
  function UsersOf(rs: seq<Reaction>, emoji: string): seq<UserId>
  {
    match FindEmoji(rs, emoji)
    case None => []
    case Some(i) => rs[i].userIds
  }

  /** `reactions.filter(r => r.emoji !== emoji)`. */
  function WithoutEmoji(rs: seq<Reaction>, emoji: string): (r: seq<Reaction>)
    ensures |r| <= |rs|
    ensures forall x :: x in r <==> x in rs && x.emoji != emoji
    ensures UniqueEmojis(rs) ==> UniqueEmojis(r)
    ensures (forall j :: 0 <= j < |rs| ==> rs[j].emoji != emoji) ==> r == rs
  {
    if rs == [] then []
    else if rs[0].emoji == emoji then WithoutEmoji(rs[1..], emoji)
    else [rs[0]] + WithoutEmoji(rs[1..], emoji)
  }

  /** `reactions.map(r => r.emoji === emoji ? { ...r, userIds: ids } : r)`. */
  function ReplaceUsers(rs: seq<Reaction>, emoji: string, ids: seq<UserId>): (r: seq<Reaction>)
    ensures |r| == |rs|
    ensures forall k :: 0 <= k < |rs| ==>
      r[k] == if rs[k].emoji == emoji then rs[k].(userIds := ids) else rs[k]
  {
    seq(|rs|, k requires 0 <= k < |rs| =>
      if rs[k].emoji == emoji then rs[k].(userIds := ids) else rs[k])
  }

  /** `reactions.map(r => r.emoji === emoji ? { ...r, userIds: [...r.userIds, me] } : r)`. */
  function AppendUser(rs: seq<Reaction>, emoji: string, me: UserId): (r: seq<Reaction>)
    ensures |r| == |rs|
    ensures forall k :: 0 <= k < |rs| ==>
      r[k] == if rs[k].emoji == emoji then rs[k].(userIds := rs[k].userIds + [me]) else rs[k]
  {
    seq(|rs|, k requires 0 <= k < |rs| =>
      if rs[k].emoji == emoji then rs[k].(userIds := rs[k].userIds + [me]) else rs[k])
  }

  /** The new reaction list `toggleReaction` patches into the message. */
  function Toggle(rs: seq<Reaction>, emoji: string, me: UserId): (r: seq<Reaction>)
    ensures |r| <= |rs| + 1
  {
    match FindEmoji(rs, emoji)
    case None => rs + [Reaction(emoji, [me])]
    case Some(i) =>
      if me in rs[i].userIds then
        var newIds := RemoveUser(rs[i].userIds, me);
        if |newIds| == 0 then WithoutEmoji(rs, emoji) else ReplaceUsers(rs, emoji, newIds)
      else AppendUser(rs, emoji, me)
  }

  /** The caller's membership for the emoji flips, and nobody else's changes. */
  lemma ToggleFlipsMembership(rs: seq<Reaction>, emoji: string, me: UserId)
    ensures me in UsersOf(Toggle(rs, emoji, me), emoji) <==> me !in UsersOf(rs, emoji)
    ensures forall u :: u != me ==>
      (u in UsersOf(Toggle(rs, emoji, me), emoji) <==> u in UsersOf(rs, emoji))
  {
    var r := Toggle(rs, emoji, me);
    match FindEmoji(rs, emoji)
    case None =>
      AppendedIsFound(rs, Reaction(emoji, [me]));
    case Some(i) =>
      if me in rs[i].userIds {
        var newIds := RemoveUser(rs[i].userIds, me);
        if |newIds| == 0 {
          WithoutEmojiTwice(rs, emoji);
          assert forall u :: u in rs[i].userIds ==> u == me;
        } else {
          SameKeysSameFind(rs, r, emoji);
          assert r[i].userIds == newIds;
        }
      } else {
        SameKeysSameFind(rs, r, emoji);
        assert r[i].userIds == rs[i].userIds + [me];
      }
  }

  /** The entries of every other emoji are unchanged and keep their order. */
  lemma ToggleKeepsOtherEmojis(rs: seq<Reaction>, emoji: string, me: UserId)
    ensures WithoutEmoji(Toggle(rs, emoji, me), emoji) == WithoutEmoji(rs, emoji)
  {
    var r := Toggle(rs, emoji, me);
    match FindEmoji(rs, emoji)
    case None =>
      WithoutEmojiAppend(rs, Reaction(emoji, [me]), emoji);
    case Some(i) =>
      if me in rs[i].userIds {
        var newIds := RemoveUser(rs[i].userIds, me);
        if |newIds| == 0 {
          WithoutEmojiTwice(rs, emoji);
        } else {
          SameEntriesElsewhere(rs, r, emoji);
        }
      } else {
        SameEntriesElsewhere(rs, r, emoji);
      }
  }

  /** An absent emoji gets a new one-user entry at the end; an emoji whose
      only user is the caller loses its entry altogether. */
  lemma ToggleAddsOrDropsEntry(rs: seq<Reaction>, emoji: string, me: UserId)
    ensures FindEmoji(rs, emoji).None? ==>
      Toggle(rs, emoji, me) == rs + [Reaction(emoji, [me])] &&
      FindEmoji(Toggle(rs, emoji, me), emoji) == Some(|rs|)
    ensures UsersOf(rs, emoji) != [] && (forall u :: u in UsersOf(rs, emoji) ==> u == me) ==>
      FindEmoji(Toggle(rs, emoji, me), emoji).None?
  {
    match FindEmoji(rs, emoji)
    case None =>
      AppendedIsFound(rs, Reaction(emoji, [me]));
    case Some(i) =>
      var ids := rs[i].userIds;
      if ids != [] && forall u :: u in ids ==> u == me {
        assert ids[0] in ids;
        RemoveOnlyUser(ids, me);
        WithoutEmojiTwice(rs, emoji);
      }
  }

  predicate UniqueEmojis(rs: seq<Reaction>)
  {
    forall i, j :: 0 <= i < j < |rs| ==> rs[i].emoji != rs[j].emoji
  }

  /** The reaction-list invariant: no emoji entry without users, one entry per
      emoji, and no user twice in an entry. */
  predicate WellFormed(rs: seq<Reaction>)
  {
    && UniqueEmojis(rs)
    && (forall k :: 0 <= k < |rs| ==> |rs[k].userIds| > 0)
    && (forall k :: 0 <= k < |rs| ==> NoDuplicateUsers(rs[k].userIds))
  }

  lemma AppendedIsFound(rs: seq<Reaction>, x: Reaction)
    requires FindEmoji(rs, x.emoji).None?
    ensures FindEmoji(rs + [x], x.emoji) == Some(|rs|)
    ensures UsersOf(rs + [x], x.emoji) == x.userIds
  {
    var s := rs + [x];
    assert forall j :: 0 <= j < |rs| ==> s[j] == rs[j];
    assert s[|rs|].emoji == x.emoji;
  }

  lemma {:induction false} WithoutEmojiAppend(rs: seq<Reaction>, x: Reaction, emoji: string)
    ensures WithoutEmoji(rs + [x], emoji) ==
      WithoutEmoji(rs, emoji) + (if x.emoji == emoji then [] else [x])
  {
    if rs == [] {
      assert rs + [x] == [x];
    } else {
      assert (rs + [x])[1..] == rs[1..] + [x];
      WithoutEmojiAppend(rs[1..], x, emoji);
    }
  }

  lemma WithoutEmojiTwice(rs: seq<Reaction>, emoji: string)
    ensures FindEmoji(WithoutEmoji(rs, emoji), emoji).None?
    ensures WithoutEmoji(WithoutEmoji(rs, emoji), emoji) == WithoutEmoji(rs, emoji)
  {
    var w := WithoutEmoji(rs, emoji);
    assert forall j :: 0 <= j < |w| ==> w[j] in w;
  }

  /** Rewriting user lists leaves the emoji keys, hence the found index, alone. */
  lemma SameKeysSameFind(rs: seq<Reaction>, r: seq<Reaction>, emoji: string)
    requires |r| == |rs| && forall k :: 0 <= k < |rs| ==> r[k].emoji == rs[k].emoji
    ensures FindEmoji(r, emoji) == FindEmoji(rs, emoji)
  {
    var a, b := FindEmoji(r, emoji), FindEmoji(rs, emoji);
    if a.Some? && b.Some? {
      assert !(a.value < b.value) && !(b.value < a.value);
    }
  }

  lemma {:induction false} SameEntriesElsewhere(rs: seq<Reaction>, r: seq<Reaction>, emoji: string)
    requires |r| == |rs| && forall k :: 0 <= k < |rs| ==> r[k].emoji == rs[k].emoji
    requires forall k :: 0 <= k < |rs| && rs[k].emoji != emoji ==> r[k] == rs[k]
    ensures WithoutEmoji(r, emoji) == WithoutEmoji(rs, emoji)
  {
    if rs != [] {
      SameEntriesElsewhere(rs[1..], r[1..], emoji);
    }
  }

  /** Toggling keeps the reaction-list invariant. */
  lemma ToggleKeepsWellFormed(rs: seq<Reaction>, emoji: string, me: UserId)
    requires WellFormed(rs)
    ensures WellFormed(Toggle(rs, emoji, me))
  {
    var r := Toggle(rs, emoji, me);
    match FindEmoji(rs, emoji)
    case None =>
      assert r == rs + [Reaction(emoji, [me])];
    case Some(i) =>
      if me in rs[i].userIds {
        var newIds := RemoveUser(rs[i].userIds, me);
        if |newIds| == 0 {
          assert r == WithoutEmoji(rs, emoji);
          forall k | 0 <= k < |r|
            ensures |r[k].userIds| > 0 && NoDuplicateUsers(r[k].userIds)
          {
            assert r[k] in rs;
          }
        } else {
          assert r == ReplaceUsers(rs, emoji, newIds);
        }
      } else {
        assert r == AppendUser(rs, emoji, me);
        forall k | 0 <= k < |r| ensures |r[k].userIds| > 0 && NoDuplicateUsers(r[k].userIds) {
          if rs[k].emoji == emoji {
            assert k == i;
          }
        }
      }
  }

  /** A user who had not reacted with `emoji` and toggles it twice gets the
      original list back, exactly. */
  lemma ToggleTwiceFromAbsent(rs: seq<Reaction>, emoji: string, me: UserId)
    requires WellFormed(rs)
    requires me !in UsersOf(rs, emoji)
    ensures Toggle(Toggle(rs, emoji, me), emoji, me) == rs
  {
    var once := Toggle(rs, emoji, me);
    match FindEmoji(rs, emoji)
    case None =>
      var x := Reaction(emoji, [me]);
      assert once == rs + [x];
      AppendedIsFound(rs, x);
      assert RemoveUser(once[|rs|].userIds, me) == [];
      assert Toggle(once, emoji, me) == WithoutEmoji(once, emoji);
      WithoutEmojiAppend(rs, x, emoji);
    case Some(i) =>
      var ids := rs[i].userIds;
      assert once == AppendUser(rs, emoji, me);
      SameKeysSameFind(rs, once, emoji);
      assert once[i].userIds == ids + [me];
      RemoveAfterAppend(ids, me);
      var twice := Toggle(once, emoji, me);
      assert twice == ReplaceUsers(once, emoji, ids);
      forall k | 0 <= k < |rs| ensures twice[k] == rs[k] {
        if rs[k].emoji == emoji {
          assert k == i;
        }
      }
  }

  /** Toggling twice restores who reacted with `emoji` (as a set) and leaves
      every other emoji's entries as they were. */
  lemma ToggleTwiceRestoresMembership(rs: seq<Reaction>, emoji: string, me: UserId)
    ensures var twice := Toggle(Toggle(rs, emoji, me), emoji, me);
      && (forall u :: u in UsersOf(twice, emoji) <==> u in UsersOf(rs, emoji))
      && WithoutEmoji(twice, emoji) == WithoutEmoji(rs, emoji)
  {
    var once := Toggle(rs, emoji, me);
    ToggleFlipsMembership(rs, emoji, me);
    ToggleFlipsMembership(once, emoji, me);
    ToggleKeepsOtherEmojis(rs, emoji, me);
    ToggleKeepsOtherEmojis(once, emoji, me);
  }

  /** The users of an emoji are read from the first entry carrying it. */
  lemma UsersOfCons(x: Reaction, rest: seq<Reaction>, e: string)
    ensures UsersOf([x] + rest, e) == if x.emoji == e then x.userIds else UsersOf(rest, e)
  {
    var s := [x] + rest;
    assert forall j :: 0 <= j < |rest| ==> s[j + 1] == rest[j];
    if x.emoji != e {
      match FindEmoji(rest, e)
      case None =>
        assert forall j :: 0 <= j < |s| ==> s[j].emoji != e by {
          forall j | 0 <= j < |s| ensures s[j].emoji != e {
            if j > 0 { assert s[j] == rest[j - 1]; }
          }
        }
      case Some(k) =>
        assert s[k + 1] == rest[k];
        var f := FindEmoji(s, e).value;
        assert f != 0;
        assert rest[f - 1] == s[f];
    }
  }

  /** Dropping one emoji's entries leaves every other emoji's users as read. */
  lemma {:induction false} UsersOfWithoutEmoji(rs: seq<Reaction>, emoji: string, e: string)
    requires e != emoji
    ensures UsersOf(WithoutEmoji(rs, emoji), e) == UsersOf(rs, e)
  {
    if rs != [] {
      assert rs == [rs[0]] + rs[1..];
      UsersOfCons(rs[0], rs[1..], e);
      UsersOfWithoutEmoji(rs[1..], emoji, e);
      if rs[0].emoji != emoji {
        UsersOfCons(rs[0], WithoutEmoji(rs[1..], emoji), e);
      }
    }
  }

  /** A toggle of `emoji` leaves the users of every other emoji alone. */
  lemma ToggleKeepsOtherUsers(rs: seq<Reaction>, emoji: string, me: UserId, e: string)
    requires e != emoji
    ensures UsersOf(Toggle(rs, emoji, me), e) == UsersOf(rs, e)
  {
    ToggleKeepsOtherEmojis(rs, emoji, me);
    UsersOfWithoutEmoji(rs, emoji, e);
    UsersOfWithoutEmoji(Toggle(rs, emoji, me), emoji, e);
  }

  /** The users of the toggled emoji after the toggle depend only on its
      users before: the caller is filtered out when present, appended
      otherwise. */
  lemma ToggledUsers(rs: seq<Reaction>, emoji: string, me: UserId)
    ensures var ids := UsersOf(rs, emoji);
      UsersOf(Toggle(rs, emoji, me), emoji) == if me in ids then RemoveUser(ids, me) else ids + [me]
  {
    var r := Toggle(rs, emoji, me);
    match FindEmoji(rs, emoji)
    case None =>
      AppendedIsFound(rs, Reaction(emoji, [me]));
      assert [] + [me] == [me];
    case Some(i) =>
      if me in rs[i].userIds {
        var newIds := RemoveUser(rs[i].userIds, me);
        if |newIds| == 0 {
          WithoutEmojiTwice(rs, emoji);
        } else {
          SameKeysSameFind(rs, r, emoji);
          assert r[i].userIds == newIds;
        }
      } else {
        SameKeysSameFind(rs, r, emoji);
        assert r[i].userIds == rs[i].userIds + [me];
      }
  }

  /** Toggles of two different emojis, by any two users, commute for every
      emoji's users: the order-independence across emojis. */
  lemma ToggleCommutesPerEmoji(rs: seq<Reaction>, e1: string, a: UserId, e2: string, b: UserId, e: string)
    requires e1 != e2
    ensures UsersOf(Toggle(Toggle(rs, e1, a), e2, b), e) == UsersOf(Toggle(Toggle(rs, e2, b), e1, a), e)
  {
    var one, two := Toggle(rs, e1, a), Toggle(rs, e2, b);
    if e == e1 {
      ToggleKeepsOtherUsers(one, e2, b, e1);
      ToggledUsers(rs, e1, a);
      ToggledUsers(two, e1, a);
      ToggleKeepsOtherUsers(rs, e2, b, e1);
    } else if e == e2 {
      ToggleKeepsOtherUsers(two, e1, a, e2);
      ToggledUsers(rs, e2, b);
      ToggledUsers(one, e2, b);
      ToggleKeepsOtherUsers(rs, e1, a, e2);
    } else {
      ToggleKeepsOtherUsers(one, e2, b, e);
      ToggleKeepsOtherUsers(rs, e1, a, e);
      ToggleKeepsOtherUsers(two, e1, a, e);
      ToggleKeepsOtherUsers(rs, e2, b, e);
    }
  }

  /** As whole lists the two orders differ: a new emoji's entry is appended,
      so the entries follow the order of the calls. */
  lemma ToggleOrderShowsInEntries()
    ensures Toggle(Toggle([], "a", 1), "b", 2) == [Reaction("a", [1]), Reaction("b", [2])]
    ensures Toggle(Toggle([], "b", 2), "a", 1) == [Reaction("b", [2]), Reaction("a", [1])]
  {
    var ra := Toggle([], "a", 1);
    assert ra == [Reaction("a", [1])];
    assert FindEmoji(ra, "b").None?;
    var rb := Toggle([], "b", 2);
    assert rb == [Reaction("b", [2])];
    assert FindEmoji(rb, "a").None?;
  }

  /** Toggling off and on again moves the caller to the end of the user list:
      the double toggle does not restore the list exactly. */
  lemma ToggleTwiceReordersUsers()
    ensures var rs := [Reaction("+1", [1, 2])];
      Toggle(Toggle(rs, "+1", 1), "+1", 1) == [Reaction("+1", [2, 1])]
  {
    var rs := [Reaction("+1", [1, 2])];
    assert FindEmoji(rs, "+1") == Some(0);
    var once := Toggle(rs, "+1", 1);
    assert RemoveUser([1, 2], 1) == [2];
    assert once == [Reaction("+1", [2])];
    assert FindEmoji(once, "+1") == Some(0);
    var twice := AppendUser(once, "+1", 1);
    assert twice[0] == Reaction("+1", [2, 1]);
  }

  /** A reacts, B reacts with the same emoji, A takes theirs back: only B is left. */
  lemma ReactReactUnreact(a: UserId, b: UserId, emoji: string)
    requires a != b
    ensures Toggle(Toggle(Toggle([], emoji, a), emoji, b), emoji, a) == [Reaction(emoji, [b])]
  {
    var one := Toggle([], emoji, a);
    assert one == [Reaction(emoji, [a])];
    assert FindEmoji(one, emoji) == Some(0);
    var two := Toggle(one, emoji, b);
    assert two == AppendUser(one, emoji, b);
    assert two[0] == Reaction(emoji, [a, b]);
    assert two == [Reaction(emoji, [a, b])];
    assert FindEmoji(two, emoji) == Some(0);
    assert RemoveUser([a, b], a) == [b];
  }
}
