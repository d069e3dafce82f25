/** The chat list in the sidebar: one button per listed user, showing the
    user's photo unless it is missing or failed to load, else the initials
    badge; a click opens the conversation, on its own page on a narrow window
    and beside the list on a wide one. */
module Sidebar {
  import opened Base
  import opened Text
  import opened Avatar

  /** The fields of a listed user that the sidebar reads; a missing name or
      photo is the empty string. */
  datatype Contact = Contact(id: UserId, fullName: string, profilePhoto: string)

  /** The `users` prop, which is not always an array (an error body, say). */
  datatype UsersProp = UserArray(items: seq<Contact>) | NotAnArray

  /** What a button shows: the uploaded photo, or the initials on a coloured disc. */
  datatype Badge = Photo(url: string) | InitialsBadge(initials: Result<string, Failure>, color: Color)

  /** The photo is shown when the user has one and it has not failed to load. */
  predicate ShowsPhoto(c: Contact, failed: set<UserId>) {
    c.profilePhoto != "" && c.id !in failed
  }

  function BadgeFor(apiUrl: string, c: Contact, failed: set<UserId>): (b: Badge)
    ensures b.Photo? <==> ShowsPhoto(c, failed)
    ensures b.Photo? ==> b.url == apiUrl + "/uploads/" + c.profilePhoto
    ensures b.InitialsBadge? ==> b.initials == Initials(c.fullName) && b.color == ColorOf(c.fullName)
  {
    if c.profilePhoto != "" && c.id !in failed then Photo(apiUrl + "/uploads/" + c.profilePhoto)
    else InitialsBadge(Initials(c.fullName), ColorOf(c.fullName))
  }

  /** The list of buttons: one per user, in order; none when `users` is not an array. */
  function Render(apiUrl: string, users: UsersProp, failed: set<UserId>): (badges: seq<Badge>)
    ensures users.NotAnArray? ==> badges == []
    ensures users.UserArray? ==>
      && |badges| == |users.items|
      && forall i :: 0 <= i < |badges| ==> badges[i] == BadgeFor(apiUrl, users.items[i], failed)
  {
    var listed := if users.UserArray? then users.items else [];
    seq(|listed|, i requires 0 <= i < |listed| => BadgeFor(apiUrl, listed[i], failed))
  }

  /** The `imgError` state: the ids whose photo failed to load (the only value
      the object ever holds is `true`). */
  class ImageErrors {
    var failed: set<UserId>

    constructor ()
      ensures failed == {}
    {
      failed := {};
    }

    /** `handleImgError(userId)` */
    method HandleImgError(userId: UserId)
      modifies this
      ensures failed == old(failed) + {userId}
    {
      failed := failed + {userId};
    }
  }

  /** After a user's photo fails, that user gets the initials badge, and every
      other user's button is as it was. */
  lemma ImgErrorFallsBack(apiUrl: string, c: Contact, d: Contact, failed: set<UserId>)
    ensures BadgeFor(apiUrl, c, failed + {c.id}).InitialsBadge?
    ensures d.id != c.id ==> BadgeFor(apiUrl, d, failed + {c.id}) == BadgeFor(apiUrl, d, failed)
  {
  }

  /** What a click on a user's button does. */
  datatype ClickEffect = Navigate(path: string) | SelectUser(user: Contact) | NoEffect

  const NarrowWidth: int := 768

  /** `handleUserClick(user)`: below 768 pixels, go to the user's chat page;
      otherwise hand the user to `onSelectUser`, when that callback is given. */
  function HandleUserClick(c: Contact, innerWidth: int, hasCallback: bool): (e: ClickEffect)
    ensures innerWidth < NarrowWidth ==> e == Navigate("/chat/" + c.id)
    ensures innerWidth >= NarrowWidth ==> e == (if hasCallback then SelectUser(c) else NoEffect)
  {
    if innerWidth < NarrowWidth then Navigate("/chat/" + c.id)
    else if hasCallback then SelectUser(c)
    else NoEffect
  }

  /** The route's first segment `/chat/`, matched without regard to ASCII case
      as the router does by default. */
  predicate ChatPrefix(p: string) {
    |p| == 6 && forall i :: 0 <= i < 6 ==> ToLower(p[i]) == "/chat/"[i]
  }

  /** The length of `s` without the run of '/' it ends with. */
  function SlashRunStart(s: string): (n: nat)
    ensures n <= |s|
    ensures forall i :: n <= i < |s| ==> s[i] == '/'
    ensures n > 0 ==> s[n - 1] != '/'
  {
    if s == [] || s[|s| - 1] != '/' then |s| else SlashRunStart(s[..|s| - 1])
  }

  /** The `userId` parameter the route `/chat/:userId` takes from a path: after
      the prefix, one non-empty segment without '/', then any number of
      trailing slashes, which the router ignores. */
  function ChatRouteParam(path: string): (userId: Option<UserId>)
    ensures userId.Some? ==>
      var n := |userId.value|;
      && 6 + n <= |path| && ChatPrefix(path[..6])
      && path[6..6 + n] == userId.value
      && userId.value != "" && '/' !in userId.value
      && forall i :: 6 + n <= i < |path| ==> path[i] == '/'
  {
    if |path| < 6 || !ChatPrefix(path[..6]) then None
    else
      var rest := path[6..];
      var n := SlashRunStart(rest);
      if n == 0 || '/' in rest[..n] then None
      else
        assert forall i :: 6 + n <= i < |path| ==> path[i] == rest[i - 6];
        Some(rest[..n])
  }

  /** Every path of that shape matches, and its parameter is the segment. */
  lemma ChatRouteParamMatches(prefix: string, id: UserId, slashes: nat)
    requires ChatPrefix(prefix) && id != "" && '/' !in id
    ensures ChatRouteParam(prefix + id + seq(slashes, _ => '/')) == Some(id)
  {
    var path := prefix + id + seq(slashes, _ => '/');
    var rest := path[6..];
    assert path[..6] == prefix;
    assert rest == id + seq(slashes, _ => '/');
    var n := SlashRunStart(rest);
    assert rest[|id| - 1] == id[|id| - 1];
    assert n == |id|;
    assert rest[..n] == id;
  }

  /** On a narrow window a click opens the chat page whose route parameter is
      the clicked user's id (user ids are non-empty and contain no '/'). */
  lemma ClickOpensChatOfUser(c: Contact, innerWidth: int, hasCallback: bool)
    requires c.id != "" && '/' !in c.id
    requires innerWidth < NarrowWidth
    ensures var e := HandleUserClick(c, innerWidth, hasCallback);
      e.Navigate? && ChatRouteParam(e.path) == Some(c.id)
  {
    ChatRouteParamMatches("/chat/", c.id, 0);
    assert "/chat/" + c.id + seq(0, _ => '/') == "/chat/" + c.id;
  }
}
