/** The blog router of the Express server: the route table in declaration
    order, which routes pass through the authentication middleware, which
    run the validation chain, and the dispatch of a request to its
    handler. The middleware's verdict is `who`: the caller's id, or `None`
    when the request carries no valid token (answered 401). A path is the
    list of its segments. `parseId` is the ObjectId cast: an id that does
    not parse is answered 404 by the handlers that look it up. The router
    is created with Express's defaults, so literal path segments match
    without regard to ASCII case. */
module BlogRoutes {
  import opened Wrappers
  import opened Text
  import opened MongooseBlog
  import opened ExpressValidation
  import opened BlogController

  datatype Method = Get | Post | Put | Delete

  datatype Route =
    | ListBlogs
    | ShowBlog(id: string)
    | CreateRoute
    | UpdateRoute(id: string)
    | DeleteRoute(id: string)
    | MyBlogs

  /** The method a route is registered for. */
  function MethodOf(route: Route): Method {
    match route
    case ListBlogs => Get
    case ShowBlog(_) => Get
    case CreateRoute => Post
    case UpdateRoute(_) => Put
    case DeleteRoute(_) => Delete
    case MyBlogs => Get
  }

  /** The path a route answers, below the router's mount point. */
  function PathOf(route: Route): seq<string> {
    match route
    case ListBlogs => []
    case ShowBlog(id) => [id]
    case CreateRoute => []
    case UpdateRoute(id) => [id]
    case DeleteRoute(id) => [id]
    case MyBlogs => ["user", "my-blogs"]
  }

  /** A `:id` parameter matches one non-empty path segment. */
  predicate IdSegment(s: string) {
    s != "" && '/' !in s
  }

  /** Two segments that differ at most in the case of ASCII letters: how
      a case-insensitive router compares a literal segment. */
  predicate SameLetters(a: string, b: string) {
    |a| == |b| && forall i | 0 <= i < |a| :: UpperChar(a[i]) == UpperChar(b[i])
  }

  /** Two paths whose segments pairwise differ at most in letter case. */
  predicate SamePath(p: seq<string>, q: seq<string>) {
    |p| == |q| && forall i | 0 <= i < |p| :: SameLetters(p[i], q[i])
  }

  predicate WellFormed(route: Route) {
    (route.ShowBlog? || route.UpdateRoute? || route.DeleteRoute?) ==> IdSegment(route.id)
  }

  /** Routing: the first route, in declaration order, whose method and
      path pattern match. `GET /:id` is declared before
      `GET /user/my-blogs` but matches one segment only, so it does not
      capture the two-segment path. An `:id` segment is captured as sent;
      the literal segments of `/user/my-blogs` match in any letter case. */
  function Match(m: Method, path: seq<string>): (r: Option<Route>)
    ensures r.Some? ==> MethodOf(r.value) == m && SamePath(PathOf(r.value), path)
    ensures r.Some? && r.value != MyBlogs ==> PathOf(r.value) == path
    ensures r.Some? ==> WellFormed(r.value)
  {
    if path == [] then
      if m == Get then Some(ListBlogs) else if m == Post then Some(CreateRoute) else None
    else if |path| == 1 && IdSegment(path[0]) then
      if m == Get then Some(ShowBlog(path[0]))
      else if m == Put then Some(UpdateRoute(path[0]))
      else if m == Delete then Some(DeleteRoute(path[0]))
      else None
    else if m == Get && SamePath(["user", "my-blogs"], path) then Some(MyBlogs)
    else None
  }

  /** Every route is reached by its own method and path, and by nothing
      else: together with `Match`'s contract, routing is a bijection
      between well-formed routes and the requests that match. */
  lemma MatchFindsRoute(route: Route)
    requires WellFormed(route)
    ensures Match(MethodOf(route), PathOf(route)) == Some(route)
  {
    match route
    case MyBlogs =>
    case _ =>
  }

  /** `GET /user/my-blogs` is reached however its letters are cased, and
      it is the only route a two-segment path reaches. */
  lemma MyBlogsIgnoresCase(m: Method, path: seq<string>)
    requires |path| == 2
    ensures Match(m, path).Some? <==> m == Get && SamePath(["user", "my-blogs"], path)
    ensures Match(m, path).Some? ==> Match(m, path) == Some(MyBlogs)
  {
  }

  /** The routes behind the `auth` middleware: all but the two public reads. */
  predicate NeedsAuth(route: Route) {
    route.CreateRoute? || route.UpdateRoute? || route.DeleteRoute? || route.MyBlogs?
  }

  /** The routes that run `blogValidation`: create and update. */
  predicate Validates(route: Route) {
    route.CreateRoute? || route.UpdateRoute?
  }

  /** What a request is answered with. */
  datatype Response =
    | Listed(listing: Listing)
    | One(doc: BlogDoc)
    | Many(docs: seq<BlogDoc>)
    | Failed(error: Error)

  function Answer(r: Result<BlogDoc>): (resp: Response)
    ensures r.Ok? <==> resp.One?
    ensures r.Ok? ==> resp == One(r.value)
    ensures r.Err? ==> resp == Failed(r.error)
  {
    if r.Ok? then One(r.value) else Failed(r.error)
  }

  /** A request through the router. No route: 404. A protected route
      without a caller: 401, before validation and before the handler. On
      create and update the validation chain runs next and its failure is
      answered 400 with its errors. The reads never change the collection,
      and only create, update and delete ever do. */
  method Handle(coll: BlogCollection, m: Method, path: seq<string>, who: Option<nat>, body: BlogBody,
                isURL: string -> bool, parseId: string -> Option<nat>,
                page: Option<int>, limit: Option<int>, search: string, tag: string,
                searchHit: (string, BlogDoc) -> bool) returns (r: Response)
    requires coll.Valid()
    modifies coll
    ensures coll.Valid()
    ensures Match(m, path).None? ==> r == Failed(NotFound) && coll.docs == old(coll.docs)
    ensures Match(m, path).Some? && NeedsAuth(Match(m, path).value) && who.None? ==>
      r == Failed(Unauthenticated) && coll.docs == old(coll.docs)
    ensures r == Failed(Unauthenticated) ==> Match(m, path).Some? && NeedsAuth(Match(m, path).value) && who.None?
    ensures Match(m, path).Some? && Validates(Match(m, path).value) && who.Some? && ValidateBlog(body, isURL).Err? ==>
      r == Failed(ValidateBlog(body, isURL).error) && coll.docs == old(coll.docs)
    ensures r.Failed? && r.error.Invalid? ==> Match(m, path).Some? && Validates(Match(m, path).value)
    ensures Match(m, path) == Some(ListBlogs) ==>
      var l := GetAllBlogs(old(coll.docs), page, limit, search, tag, searchHit);
      r == (if l.Ok? then Listed(l.value) else Failed(l.error))
    ensures Match(m, path).Some? && Match(m, path).value.ShowBlog? ==>
      var id := parseId(Match(m, path).value.id);
      r == (if id.None? then Failed(NotFound) else Answer(GetBlog(old(coll.docs), id.value)))
    ensures Match(m, path) == Some(CreateRoute) && who.Some? && ValidateBlog(body, isURL).Ok? ==>
      r == One(Created(ValidateBlog(body, isURL).value, old(coll.nextId), who.value)) && coll.docs == [r.doc] + old(coll.docs)
    ensures (&& Match(m, path).Some? && who.Some?
             && (Match(m, path).value.DeleteRoute? || (Match(m, path).value.UpdateRoute? && ValidateBlog(body, isURL).Ok?))
             && parseId(Match(m, path).value.id).None?) ==>
      r == Failed(NotFound) && coll.docs == old(coll.docs)
    ensures (&& Match(m, path).Some? && Match(m, path).value.UpdateRoute? && who.Some?
             && ValidateBlog(body, isURL).Ok? && parseId(Match(m, path).value.id).Some?) ==>
      var at := old(coll.Find(parseId(Match(m, path).value.id).value));
      if at.None? then r == Failed(NotFound) && coll.docs == old(coll.docs)
      else if old(coll.docs)[at.value].author != who.value then r == Failed(Forbidden) && coll.docs == old(coll.docs)
      else
        var saved := Hooked(Merge(old(coll.docs)[at.value], ValidateBlog(body, isURL).value));
        r == One(saved) && coll.docs == old(coll.docs)[at.value := saved]
    ensures (&& Match(m, path).Some? && Match(m, path).value.DeleteRoute? && who.Some?
             && parseId(Match(m, path).value.id).Some?) ==>
      var at := old(coll.Find(parseId(Match(m, path).value.id).value));
      if at.None? then r == Failed(NotFound) && coll.docs == old(coll.docs)
      else if old(coll.docs)[at.value].author != who.value then r == Failed(Forbidden) && coll.docs == old(coll.docs)
      else r == One(old(coll.docs)[at.value]) && coll.docs == old(coll.docs)[..at.value] + old(coll.docs)[at.value + 1..]
    ensures Match(m, path) == Some(MyBlogs) && who.Some? ==> r == Many(GetUserBlogs(old(coll.docs), who.value))
    ensures Match(m, path).Some? && !(Match(m, path).value.CreateRoute? || Match(m, path).value.UpdateRoute? || Match(m, path).value.DeleteRoute?) ==>
      coll.docs == old(coll.docs)
  {
    var route := Match(m, path);
    if route.None? {
      return Failed(NotFound);
    }
    if NeedsAuth(route.value) && who.None? {
      return Failed(Unauthenticated);
    }
    match route.value
    case ListBlogs =>
      var l := GetAllBlogs(coll.docs, page, limit, search, tag, searchHit);
      r := if l.Ok? then Listed(l.value) else Failed(l.error);
    case ShowBlog(id) =>
      var parsed := parseId(id);
      r := if parsed.None? then Failed(NotFound) else Answer(GetBlog(coll.docs, parsed.value));
    case CreateRoute =>
      var created := CreateBlog(coll, ValidateBlog(body, isURL), who.value);
      r := Answer(created);
    case UpdateRoute(id) =>
      var checked := ValidateBlog(body, isURL);
      var parsed := parseId(id);
      if checked.Err? {
        r := Failed(checked.error);
      } else if parsed.None? {
        r := Failed(NotFound);
      } else {
        var updated := UpdateBlog(coll, checked, parsed.value, who.value);
        r := Answer(updated);
      }
    case DeleteRoute(id) =>
      var parsed := parseId(id);
      if parsed.None? {
        r := Failed(NotFound);
      } else {
        var deleted := DeleteBlog(coll, parsed.value, who.value);
        r := Answer(deleted);
      }
    case MyBlogs =>
      r := Many(GetUserBlogs(coll.docs, who.value));
  }
}
