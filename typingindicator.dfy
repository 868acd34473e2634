/** The typing label (components/TypingIndicator.tsx): who is typing, as the
    first word of each name, and the verb after it. */
module TypingIndicator {
  import opened Values
  import opened Schema
  import opened Text

  function FirstName(u: Doc<User>): string
  {
    FirstWord(u.fields.name)
  }

  /** `names`: one name, "A and B", or "A and N others". */
  function Names(users: seq<Doc<User>>): (r: string)
    requires |users| > 0
    // the label always opens with the first typer's first name
    ensures FirstName(users[0]) <= r
    ensures |users| == 1 ==> r == FirstName(users[0])
    ensures |users| == 2 ==> r == FirstName(users[0]) + " and " + FirstName(users[1])
    ensures |users| >= 3 ==>
      exists count :: r == FirstName(users[0]) + " and " + count + " others" &&
        count != [] && count[0] != '0' &&
        (forall i :: 0 <= i < |count| ==> '0' <= count[i] <= '9') &&
        ParseDecimal(count) == |users| - 1
  {
    var first := FirstName(users[0]);
    if |users| == 1 then first
    else if |users| == 2 then first + " and " + FirstName(users[1])
    else
      var count := NatToString(|users| - 1);
      NatToStringRoundTrip(|users| - 1);
      assert first <= first + (" and " + count + " others");
      first + " and " + count + " others"
  }

  /** The verb after the names: "is" for one typer, "are" for more. */
  function Verb(count: nat): string
  {
    if count == 1 then "is" else "are"
  }

  /** The rendered text: nothing for no typers; otherwise the names, then
      the verb, then " is typing..." as in the template. */
  function Label(users: seq<Doc<User>>): (r: Option<string>)
    ensures r.None? <==> users == []
    ensures r.Some? ==>
      |Names(users)| <= |r.value| && r.value[..|Names(users)|] == Names(users) &&
      r.value[|Names(users)|..] == " " + Verb(|users|) + " is typing..."
  {
    if |users| == 0 then None
    else
      var names := Names(users);
      var tail := " " + Verb(|users|) + " is typing...";
      assert (names + tail)[..|names|] == names && (names + tail)[|names|..] == tail;
      Some(names + tail)
  }

  /** The template doubles the verb: one typer reads "... is is typing...",
      several "... are is typing...". */
  lemma LabelDoublesVerb(users: seq<Doc<User>>)
    requires users != []
    ensures var l := Label(users).value; var n := |Names(users)|;
      (|users| == 1 ==> l[n..] == " is is typing...") &&
      (|users| > 1 ==> l[n..] == " are is typing...")
  {
    assert " " + "is" + " is typing..." == " is is typing...";
    assert " " + "are" + " is typing..." == " are is typing...";
  }

  /** The first word never spans a space, so a two-user label gives each
      name back split at " and ". */
  lemma TwoNamesSplit(a: Doc<User>, b: Doc<User>)
    ensures var r := Names([a, b]);
      r[..|FirstName(a)|] == FirstName(a) && r[|FirstName(a)|..] == " and " + FirstName(b)
      && ' ' !in FirstName(a) && ' ' !in FirstName(b)
  {
  }
}
