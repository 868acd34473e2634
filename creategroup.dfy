/** The group-creation form (components/CreateGroup.tsx): the member
    selection toggle and the guard in front of the `createGroup` call. The
    rendering and the server-side `createGroup` are not modelled. */
module CreateGroup {
  import opened Values
  import opened Schema
  import opened Text

  /** The `setSelected` updater of `toggleUser`: drop `id` when it is
      selected (`filter`), otherwise append it (spread). */
  function ToggleUser(selected: seq<UserId>, id: UserId): (r: seq<UserId>)
    ensures id in r <==> id !in selected
    ensures forall x :: x != id ==> (x in r <==> x in selected)
  {
    if id in selected then RemoveUser(selected, id) else selected + [id]
  }

  /** A new id goes to the end; deselecting shortens the selection. */
  lemma ToggleUserAppendsOrShrinks(selected: seq<UserId>, id: UserId)
    ensures id !in selected ==> ToggleUser(selected, id) == selected + [id]
    ensures id in selected ==> |ToggleUser(selected, id)| < |selected|
  {
    if id in selected {
      var r := RemoveUser(selected, id);
      if |r| == |selected| {
        RemovedIsShorter(selected, id);
      }
    }
  }

  /** The selection never holds an id twice. */
  lemma ToggleUserKeepsNoDuplicates(selected: seq<UserId>, id: UserId)
    requires NoDuplicateUsers(selected)
    ensures NoDuplicateUsers(ToggleUser(selected, id))
  {
    if id !in selected {
      var r := selected + [id];
      forall i, j | 0 <= i < j < |r| ensures r[i] != r[j] {
        if j == |selected| {
          assert r[i] == selected[i];
        }
      }
    }
  }

  /** Toggling an id twice restores who is selected; when the id was not
      selected the list comes back exactly. */
  lemma ToggleUserTwice(selected: seq<UserId>, id: UserId)
    ensures forall x :: x in ToggleUser(ToggleUser(selected, id), id) <==> x in selected
    ensures id !in selected ==> ToggleUser(ToggleUser(selected, id), id) == selected
  {
    var once := ToggleUser(selected, id);
    ToggleUserAppendsOrShrinks(selected, id);
    if id !in selected {
      RemoveAfterAppend(selected, id);
    }
  }

  /** Deselecting and reselecting a member moves it to the end. */
  lemma ToggleUserTwiceReorders()
    ensures ToggleUser(ToggleUser([1, 2], 1), 1) == [2, 1]
  {
    assert RemoveUser([1, 2], 1) == [2];
  }

  /** The Create button's `disabled` expression. */
  predicate CreateDisabled(groupName: string, selected: seq<UserId>)
    ensures CreateDisabled(groupName, selected) <==> AllSpace(groupName) || selected == []
  {
    Trim(groupName) == [] || |selected| < 1
  }

  /** The arguments `handleCreate` passes to `createGroup`. */
  datatype GroupRequest = GroupRequest(memberIds: seq<UserId>, groupName: string)

  /** The form's state: the `groupName` and `selected` hooks. */
  class GroupForm {
    var groupName: string
    var selected: seq<UserId>

    ghost predicate Valid()
      reads this
    {
      NoDuplicateUsers(selected)
    }

    constructor ()
      ensures Valid() && groupName == [] && selected == []
    {
      groupName, selected := [], [];
    }

    /** Typing in the name field. */
    method SetGroupName(s: string)
      requires Valid()
      modifies this
      ensures Valid() && groupName == s && selected == old(selected)
    {
      groupName := s;
    }

    /** Clicking a user row. */
    method ClickUser(id: UserId)
      requires Valid()
      modifies this
      ensures Valid()
      ensures selected == ToggleUser(old(selected), id) && groupName == old(groupName)
    {
      ToggleUserKeepsNoDuplicates(selected, id);
      if id in selected {
        selected := RemoveUser(selected, id);
      } else {
        selected := selected + [id];
      }
    }

    /** `handleCreate`: no call when the trimmed name or the selection is
        empty (exactly when the button is disabled); otherwise the call
        with the current selection and the trimmed name. */
    method HandleCreate() returns (call: Option<GroupRequest>)
      ensures call.None? <==> CreateDisabled(groupName, selected)
      ensures call.None? <==> AllSpace(groupName) || selected == []
      ensures call.Some? ==>
        call.value.memberIds == selected && call.value.groupName == Trim(groupName) &&
        call.value.groupName != [] && |call.value.memberIds| >= 1
    {
      var name := Trim(groupName);
      if name == [] || |selected| < 1 {
        return None;
      }
      call := Some(GroupRequest(selected, name));
    }
  }
}
