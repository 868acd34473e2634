/** The message bubble (components/MessageItem.tsx): which reactions it
    shows, with what count and highlight, what a deleted message shows, and
    which `toggleReaction` call each button issues. */
module MessageItem {
  import opened Values
  import opened Schema
  import opened Reactions

  /** The entries with at least one user, in list order. */
  function Live(rs: seq<Reaction>): (r: seq<Reaction>)
    ensures |r| <= |rs|
    ensures forall x :: x in r <==> x in rs && |x.userIds| > 0
  {
    if rs == [] then []
    else (if |rs[0].userIds| > 0 then [rs[0]] else []) + Live(rs[1..])
  }

  /** `activeReactions`: `data.reactions?.filter(r => r.userIds.length > 0) ?? []`. */
  function ActiveReactions(reactions: Option<seq<Reaction>>): (r: seq<Reaction>)
    ensures reactions.None? ==> r == []
    ensures forall x :: x in r <==> x in OrEmpty(reactions) && |x.userIds| > 0
  {
    Live(OrEmpty(reactions))
  }

  /** The filter keeps the list's order: it distributes over concatenation. */
  lemma {:induction false} LiveAppend(a: seq<Reaction>, b: seq<Reaction>)
    ensures Live(a + b) == Live(a) + Live(b)
  {
    if a == [] {
      assert a + b == b;
    } else {
      assert (a + b)[1..] == a[1..] + b;
      LiveAppend(a[1..], b);
    }
  }

  /** The server never stores an entry without users, so on a list that
      `toggleReaction` wrote the filter shows every entry. */
  lemma {:induction false} LiveOfWellFormed(rs: seq<Reaction>)
    requires WellFormed(rs)
    ensures Live(rs) == rs
  {
    if rs != [] {
      assert WellFormed(rs[1..]);
      LiveOfWellFormed(rs[1..]);
    }
  }

  /** A reaction chip: the emoji, the count it shows, and whether it is
      highlighted for the viewer. */
  datatype Chip = Chip(emoji: string, count: nat, highlighted: bool)

  function ChipOf(r: Reaction, viewerId: Option<UserId>): Chip
  {
    Chip(r.emoji, |r.userIds|, viewerId.Some? && viewerId.value in r.userIds)
  }

  /** The chips of the bubble, one per active reaction, in order. */
  function Chips(reactions: Option<seq<Reaction>>, viewerId: Option<UserId>): (r: seq<Chip>)
    ensures var active := ActiveReactions(reactions);
      && |r| == |active|
      && forall k :: 0 <= k < |r| ==>
           && r[k].emoji == active[k].emoji
           && r[k].count == |active[k].userIds| && r[k].count > 0
           && (r[k].highlighted <==> viewerId.Some? && viewerId.value in active[k].userIds)
  {
    var active := ActiveReactions(reactions);
    assert forall k :: 0 <= k < |active| ==> active[k] in active;
    seq(|active|, k requires 0 <= k < |active| => ChipOf(active[k], viewerId))
  }

  /** One emoji per entry: the viewer has a highlighted chip for `emoji`
      exactly when the viewer is among that emoji's users. */
  lemma HighlightedIffReacted(reactions: Option<seq<Reaction>>, viewer: UserId, emoji: string)
    requires UniqueEmojis(OrEmpty(reactions))
    ensures var chips := Chips(reactions, Some(viewer));
      (exists k :: 0 <= k < |chips| && chips[k].emoji == emoji && chips[k].highlighted) <==>
      viewer in UsersOf(OrEmpty(reactions), emoji)
  {
    var rs := OrEmpty(reactions);
    var active := ActiveReactions(reactions);
    var chips := Chips(reactions, Some(viewer));
    if viewer in UsersOf(rs, emoji) {
      var i := FindEmoji(rs, emoji).value;
      assert rs[i] in active;
      var k :| 0 <= k < |active| && active[k] == rs[i];
      assert chips[k].emoji == emoji && chips[k].highlighted;
    }
    if exists k :: 0 <= k < |chips| && chips[k].emoji == emoji && chips[k].highlighted {
      var k :| 0 <= k < |chips| && chips[k].emoji == emoji && chips[k].highlighted;
      assert active[k] in active;
      var j :| 0 <= j < |rs| && rs[j] == active[k];
      var i := FindEmoji(rs, emoji).value;
      assert j == i;
    }
  }

  /** After the viewer clicks the chip for `emoji` and the server applies
      the toggle, the viewer's highlight for that emoji has flipped. */
  lemma ClickFlipsHighlight(rs: seq<Reaction>, viewer: UserId, emoji: string)
    requires WellFormed(rs)
    ensures var before := Chips(Some(rs), Some(viewer));
      var after := Chips(Some(Toggle(rs, emoji, viewer)), Some(viewer));
      (exists k :: 0 <= k < |after| && after[k].emoji == emoji && after[k].highlighted) <==>
      !(exists k :: 0 <= k < |before| && before[k].emoji == emoji && before[k].highlighted)
  {
    ToggleKeepsWellFormed(rs, emoji, viewer);
    ToggleFlipsMembership(rs, emoji, viewer);
    HighlightedIffReacted(Some(rs), viewer, emoji);
    HighlightedIffReacted(Some(Toggle(rs, emoji, viewer)), viewer, emoji);
  }

  /** The `toggleReaction` arguments a button click sends. */
  datatype ReactCall = ReactCall(messageId: MessageId, emoji: string)

  /** What the bubble shows: the text, the picker's buttons (none for a
      deleted message) and the chips with the call each one issues. The
      chips are drawn outside the deleted branch, so a deleted message
      still shows its reactions. */
  datatype Bubble = Bubble(text: string, picker: seq<ReactCall>, chips: seq<(Chip, ReactCall)>)

  const DeletedText := "This message was deleted"

  function ShowBubble(id: MessageId, m: Message, reactionOptions: seq<string>,
                      viewerId: Option<UserId>): (b: Bubble)
    ensures m.isDeleted ==> b.text == DeletedText && b.picker == []
    ensures !m.isDeleted ==> b.text == m.content && |b.picker| == |reactionOptions|
    ensures !m.isDeleted ==> forall k :: 0 <= k < |b.picker| ==> b.picker[k] == ReactCall(id, reactionOptions[k])
    ensures |b.chips| == |Chips(m.reactions, viewerId)| &&
      forall k :: 0 <= k < |b.chips| ==>
        b.chips[k].0 == Chips(m.reactions, viewerId)[k] && b.chips[k].1 == ReactCall(id, b.chips[k].0.emoji)
  {
    var chips := Chips(m.reactions, viewerId);
    var text := if m.isDeleted then DeletedText else m.content;
    var picker := if m.isDeleted then []
      else seq(|reactionOptions|, k requires 0 <= k < |reactionOptions| => ReactCall(id, reactionOptions[k]));
    Bubble(text, picker, seq(|chips|, k requires 0 <= k < |chips| => (chips[k], ReactCall(id, chips[k].emoji))))
  }
}
