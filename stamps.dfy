/** The per-(conversation, user) rows of the `typingIndicators` and
    `readReceipts` tables (convex/messages.ts): the `by_conversation_user`
    lookup and the three writes made through it (patch, insert, delete). */
module Stamps {
  import opened Values
  import opened Schema

  predicate HasKey(s: Stamp, c: ConversationId, u: UserId)
  {
    s.conversationId == c && s.userId == u
  }

  /** `withIndex("by_conversation_user", q => q.eq("conversationId", c).eq("userId", u)).unique()`. */
  function FindStamp(rows: seq<Stamp>, c: ConversationId, u: UserId): (r: Option<nat>)
    ensures r.Some? ==> r.value < |rows| && HasKey(rows[r.value], c, u)
    ensures r.Some? ==> forall j :: 0 <= j < r.value ==> !HasKey(rows[j], c, u)
    ensures r.None? <==> forall j :: 0 <= j < |rows| ==> !HasKey(rows[j], c, u)
  {
    IndexOf(rows, (s: Stamp) => HasKey(s, c, u))
  }

  /** The rows of every other key, in table order. */
  function OtherKeys(rows: seq<Stamp>, c: ConversationId, u: UserId): seq<Stamp>
  {
    if rows == [] then []
    else (if HasKey(rows[0], c, u) then [] else [rows[0]]) + OtherKeys(rows[1..], c, u)
  }

  /** Refresh: patch the existing row's timestamp to `now`, or insert a row. */
  function Touch(rows: seq<Stamp>, c: ConversationId, u: UserId, now: int): (r: seq<Stamp>)
    ensures |r| == |rows| || |r| == |rows| + 1
  {
    match FindStamp(rows, c, u)
    case Some(i) => rows[i := rows[i].(time := now)]
    case None => rows + [Stamp(c, u, now)]
  }

  /** Delete the row for the key, if there is one. */
  function Remove(rows: seq<Stamp>, c: ConversationId, u: UserId): (r: seq<Stamp>)
    ensures |r| == |rows| || |r| + 1 == |rows|
  {
    match FindStamp(rows, c, u)
    case Some(i) => rows[..i] + rows[i + 1..]
    case None => rows
  }

  lemma {:induction false} OtherKeysAppend(a: seq<Stamp>, b: seq<Stamp>, c: ConversationId, u: UserId)
    ensures OtherKeys(a + b, c, u) == OtherKeys(a, c, u) + OtherKeys(b, c, u)
  {
    if a == [] {
      assert a + b == b;
    } else {
      assert (a + b)[1..] == a[1..] + b;
      OtherKeysAppend(a[1..], b, c, u);
    }
  }

  /** Replacing or dropping one row of the key leaves the other keys' rows alone. */
  lemma OtherKeysAround(rows: seq<Stamp>, i: nat, c: ConversationId, u: UserId, x: Stamp)
    requires i < |rows| && HasKey(rows[i], c, u) && HasKey(x, c, u)
    ensures OtherKeys(rows[i := x], c, u) == OtherKeys(rows, c, u)
    ensures OtherKeys(rows[..i] + rows[i + 1..], c, u) == OtherKeys(rows, c, u)
  {
    assert rows == rows[..i] + ([rows[i]] + rows[i + 1..]);
    assert rows[i := x] == rows[..i] + ([x] + rows[i + 1..]);
    OtherKeysAppend(rows[..i], [rows[i]] + rows[i + 1..], c, u);
    OtherKeysAppend(rows[..i], [x] + rows[i + 1..], c, u);
    OtherKeysAppend(rows[..i], rows[i + 1..], c, u);
    OtherKeysAppend([rows[i]], rows[i + 1..], c, u);
    OtherKeysAppend([x], rows[i + 1..], c, u);
  }

  /** After a refresh there is exactly one row for the key, stamped `now`; an
      existing row is patched where it stands, a missing one is appended; no
      other key's row changes. */
  lemma TouchLeavesOneFreshRow(rows: seq<Stamp>, c: ConversationId, u: UserId, now: int)
    requires UniqueKeys(rows)
    ensures var r := Touch(rows, c, u, now);
      && UniqueKeys(r)
      && FindStamp(r, c, u).Some? && r[FindStamp(r, c, u).value].time == now
      && OtherKeys(r, c, u) == OtherKeys(rows, c, u)
    ensures FindStamp(rows, c, u).Some? ==>
      |Touch(rows, c, u, now)| == |rows| && FindStamp(Touch(rows, c, u, now), c, u) == FindStamp(rows, c, u)
    ensures FindStamp(rows, c, u).None? ==> Touch(rows, c, u, now) == rows + [Stamp(c, u, now)]
  {
    var r := Touch(rows, c, u, now);
    match FindStamp(rows, c, u)
    case Some(i) =>
      OtherKeysAround(rows, i, c, u, rows[i].(time := now));
      assert forall j :: 0 <= j < |rows| ==> HasKey(r[j], c, u) == HasKey(rows[j], c, u);
      assert FindStamp(r, c, u) == Some(i);
    case None =>
      OtherKeysAppend(rows, [Stamp(c, u, now)], c, u);
      assert forall j :: 0 <= j < |rows| ==> r[j] == rows[j];
      assert HasKey(r[|rows|], c, u);
  }

  /** After a delete there is no row for the key, and no other key's row changes. */
  lemma RemoveLeavesNoRow(rows: seq<Stamp>, c: ConversationId, u: UserId)
    requires UniqueKeys(rows)
    ensures var r := Remove(rows, c, u);
      && UniqueKeys(r)
      && FindStamp(r, c, u).None?
      && OtherKeys(r, c, u) == OtherKeys(rows, c, u)
  {
    match FindStamp(rows, c, u)
    case Some(i) =>
      var r := rows[..i] + rows[i + 1..];
      OtherKeysAround(rows, i, c, u, rows[i]);
      forall j | 0 <= j < |r| ensures r[j] == (if j < i then rows[j] else rows[j + 1]) && !HasKey(r[j], c, u) {
        if j >= i {
          assert r[j] == rows[j + 1];
        }
      }
      forall a, b | 0 <= a < b < |r| ensures !(r[a].conversationId == r[b].conversationId && r[a].userId == r[b].userId) {
        var a', b' := if a < i then a else a + 1, if b < i then b else b + 1;
        assert r[a] == rows[a'] && r[b] == rows[b'];
      }
    case None =>
  }
}
