/** The three permission classes of the Django blog API. A request is
    described by its HTTP method and by who sent it; an object permission
    also sees the author of the post or comment it guards. */
module BlogPermissions {
  import opened BlogModels

  datatype HttpMethod = GET | HEAD | OPTIONS | POST | PUT | PATCH | DELETE

  /** The request's user: the anonymous user, or a signed-in account. Every
      account counts as authenticated, active or not. */
  datatype Requester = Anonymous | Authenticated(id: UserId)

  /** GET, HEAD and OPTIONS: the methods that only read. */
  predicate IsSafe(m: HttpMethod) {
    m == GET || m == HEAD || m == OPTIONS
  }

  /** Whether the requester is the given author. The anonymous user is
      nobody's author. */
  predicate IsAuthor(who: Requester, author: UserId) {
    who.Authenticated? && who.id == author
  }

  /** Object permission on a post: reads are open to everyone, writes only
      to the post's author. */
  function IsAuthorOrReadOnly(m: HttpMethod, who: Requester, author: UserId): (granted: bool)
    ensures IsSafe(m) ==> granted
    ensures !IsSafe(m) ==> (granted <==> IsAuthor(who, author))
  {
    if IsSafe(m) then true else who == Authenticated(author)
  }

  /** Object permission on a comment: the same rule against the comment's
      author. */
  function IsCommentAuthorOrReadOnly(m: HttpMethod, who: Requester, author: UserId): (granted: bool)
    ensures IsSafe(m) ==> granted
    ensures !IsSafe(m) ==> (granted <==> IsAuthor(who, author))
  {
    if IsSafe(m) then true else who == Authenticated(author)
  }

  /** View permission: reads are open to everyone, writes need a signed-in
      user. */
  function IsAuthenticatedOrReadOnly(m: HttpMethod, who: Requester): (granted: bool)
    ensures granted <==> IsSafe(m) || who.Authenticated?
  {
    if IsSafe(m) then true else who.Authenticated?
  }

  /** The post and the comment permission decide every request alike. */
  lemma ObjectPermissionsAgree(m: HttpMethod, who: Requester, author: UserId)
    ensures IsAuthorOrReadOnly(m, who, author) == IsCommentAuthorOrReadOnly(m, who, author)
  {
  }

  /** A write granted by either object permission is also granted by the
      view permission: an author is always a signed-in user, so the object
      rules are the stricter ones. */
  lemma ObjectPermissionImpliesViewPermission(m: HttpMethod, who: Requester, author: UserId)
    requires IsAuthorOrReadOnly(m, who, author) || IsCommentAuthorOrReadOnly(m, who, author)
    ensures IsAuthenticatedOrReadOnly(m, who)
  {
  }

  /** Two different authors can never both be granted the same write. */
  lemma WriteGrantedToOneAuthor(m: HttpMethod, who: Requester, a: UserId, b: UserId)
    requires !IsSafe(m)
    requires IsAuthorOrReadOnly(m, who, a) && IsAuthorOrReadOnly(m, who, b)
    ensures a == b
  {
  }
}
