/** Small value types shared by every module: Option, Result, the errors the
    server functions throw, and a first-match search over a sequence (the
    `Array.prototype.find` / index `.first()` pattern of the Convex functions
    and components). */
module Values {

  datatype Option<+T> = None | Some(value: T)

  /** The `throw new Error(...)` cases of the Convex handlers. */
  datatype Error =
    | NotAuthenticated     // "Not authenticated"
    | UserNotFound         // "User not found"
    | MessageNotFound      // "Message not found"
    | NotYourMessage       // "Not your message"
    | DocumentNotFound     // `ctx.db.patch` of an id that has no document

  datatype Result<+T> = Ok(value: T) | Err(error: Error)

  /** Index of the first element of `s` satisfying `p`, if any. */
  function IndexOf<T>(s: seq<T>, p: T -> bool): (r: Option<nat>)
    ensures r.Some? ==> r.value < |s| && p(s[r.value])
    ensures r.Some? ==> forall j :: 0 <= j < r.value ==> !p(s[j])
    ensures r.None? <==> forall j :: 0 <= j < |s| ==> !p(s[j])
  {
    if |s| == 0 then None
    else if p(s[0]) then Some(0)
    else match IndexOf(s[1..], p)
      case None => None
      case Some(i) => Some(i + 1)
  }

  /** Two predicates that agree on every element of `s` find the same index. */
  lemma IndexOfAgrees<T>(s: seq<T>, p: T -> bool, q: T -> bool)
    requires forall j :: 0 <= j < |s| ==> p(s[j]) == q(s[j])
    ensures IndexOf(s, p) == IndexOf(s, q)
  {
    var a, b := IndexOf(s, p), IndexOf(s, q);
    if a.Some? && b.Some? {
      assert !(a.value < b.value) && !(b.value < a.value);
    }
  }
}
