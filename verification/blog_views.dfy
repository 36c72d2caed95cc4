/** The Django blog API views. Listings are filters over the post and
    comment tables; the endpoints that write (detail with its view counter,
    update, delete, comment create/update/delete, like) are methods on the
    database. Each endpoint checks in the order the framework does:
    authentication (401), then the lookup (404), then the body (400). */
module BlogViews {
  import opened Wrappers
  import opened Seqs
  import opened Text
  import opened BlogModels
  import opened BlogStore
  import opened BlogPermissions
  import opened BlogSerializers

  ghost predicate UniqueIds(posts: seq<Post>) {
    forall i, j | 0 <= i < j < |posts| :: posts[i].id != posts[j].id
  }

  /** Filtering rows with unique ids gives rows with unique ids, so no post
      is listed twice. */
  lemma {:induction false} WhereKeepsUniqueIds(posts: seq<Post>, keep: Post -> bool)
    requires UniqueIds(posts)
    ensures UniqueIds(Where(posts, keep))
    decreases |posts|
  {
    if posts != [] {
      WhereKeepsUniqueIds(posts[1..], keep);
      var rest := Where(posts[1..], keep);
      forall j | 0 <= j < |rest| ensures rest[j].id != posts[0].id {
        assert rest[j] in rest;
        assert rest[j] in posts[1..];
        var k :| 0 <= k < |posts[1..]| && posts[1..][k] == rest[j];
        assert posts[k + 1] == rest[j];
      }
    }
  }

  // ---------------------------------------------------------------------
  // Post listings

  /** Query parameters of the public post list. An absent or empty string
      parameter applies no filter. */
  datatype ListQuery = ListQuery(search: Option<string>, tag: Option<string>, category: Option<string>, author: Option<UserId>)

  const NoFilters: ListQuery := ListQuery(None, None, None, None)

  predicate Given(q: Option<string>) {
    q.Some? && q.value != ""
  }

  /** The post's category exists and has the given slug. */
  predicate InCategory(p: Post, cats: seq<Category>, slug: string) {
    p.category.Some? && exists i | 0 <= i < |cats| :: cats[i].id == p.category.value && cats[i].slug == slug
  }

  /** Whether a post belongs in the public list. The text search over
      title, content, excerpt and author name and the tag-name search are
      case-insensitive containment tests of the database, given here as
      `searchHit` and `tagHit`. */
  predicate Listed(p: Post, q: ListQuery, cats: seq<Category>,
                   searchHit: (Post, string) -> bool, tagHit: (Post, string) -> bool)
  {
    && p.status == Published
    && (Given(q.search) ==> searchHit(p, q.search.value))
    && (Given(q.tag) ==> tagHit(p, q.tag.value))
    && (Given(q.category) ==> InCategory(p, cats, q.category.value))
    && (q.author.Some? ==> p.author == q.author.value)
  }

  /** `BlogListView.get_queryset`: published posts, narrowed by each
      filter that was given. */
  function PublicList(posts: seq<Post>, q: ListQuery, cats: seq<Category>,
                      searchHit: (Post, string) -> bool, tagHit: (Post, string) -> bool): (r: seq<Post>)
    ensures forall p :: p in r <==> p in posts && Listed(p, q, cats, searchHit, tagHit)
    ensures forall p | p in r :: p.status == Published
  {
    Where(posts, (p: Post) => Listed(p, q, cats, searchHit, tagHit))
  }

  /** Every filter only narrows: whatever is listed with filters is listed
      without any, and without any one of them; with no filter the list is
      exactly the published posts. */
  lemma PublicListNarrows(posts: seq<Post>, q: ListQuery, cats: seq<Category>,
                          searchHit: (Post, string) -> bool, tagHit: (Post, string) -> bool, p: Post)
    requires p in PublicList(posts, q, cats, searchHit, tagHit)
    ensures p in PublicList(posts, NoFilters, cats, searchHit, tagHit)
    ensures p in PublicList(posts, q.(search := None), cats, searchHit, tagHit)
    ensures p in PublicList(posts, q.(tag := None), cats, searchHit, tagHit)
    ensures p in PublicList(posts, q.(category := None), cats, searchHit, tagHit)
    ensures p in PublicList(posts, q.(author := None), cats, searchHit, tagHit)
  {
  }

  lemma PublicListUnfiltered(posts: seq<Post>, cats: seq<Category>,
                             searchHit: (Post, string) -> bool, tagHit: (Post, string) -> bool, p: Post)
    ensures p in PublicList(posts, NoFilters, cats, searchHit, tagHit) <==> p in posts && p.status == Published
  {
  }

  /** `UserBlogListView.get_queryset`: the published posts of one user. */
  function UserPublished(posts: seq<Post>, user: UserId): (r: seq<Post>)
    ensures forall p :: p in r <==> p in posts && p.author == user && p.status == Published
  {
    Where(posts, (p: Post) => p.author == user && p.status == Published)
  }

  /** `MyBlogListView.get_queryset`: every post of the caller, drafts
      included; the anonymous user is refused. */
  function MyBlogs(posts: seq<Post>, who: Requester): (r: Result<seq<Post>>)
    ensures who.Anonymous? <==> r == Err(Unauthenticated)
    ensures r.Ok? ==> forall p :: p in r.value <==> p in posts && IsAuthor(who, p.author)
  {
    if who.Anonymous? then Err(Unauthenticated)
    else Ok(Where(posts, (p: Post) => p.author == who.id))
  }

  /** A user's public list is their own list without the drafts. */
  lemma UserPublishedIsMyPublished(posts: seq<Post>, user: UserId, p: Post)
    ensures p in UserPublished(posts, user) <==>
      p in MyBlogs(posts, Authenticated(user)).value && p.status == Published
  {
  }

  /** The index of the published post with the given slug. */
  function FindPublished(posts: seq<Post>, slug: string): (r: Option<nat>)
    ensures r.Some? ==> r.value < |posts| && posts[r.value].slug == slug && posts[r.value].status == Published
    ensures r.None? ==> forall j | 0 <= j < |posts| :: posts[j].slug != slug || posts[j].status == Draft
  {
    FindIndex(posts, (p: Post) => p.slug == slug && p.status == Published)
  }

  /** The index of the caller's own post with the given slug. */
  function FindOwn(posts: seq<Post>, author: UserId, slug: string): (r: Option<nat>)
    ensures r.Some? ==> r.value < |posts| && posts[r.value].slug == slug && posts[r.value].author == author
    ensures r.None? ==> forall j | 0 <= j < |posts| :: posts[j].slug != slug || posts[j].author != author
  {
    FindIndex(posts, (p: Post) => p.slug == slug && p.author == author)
  }

  /** A draft is never found by the detail lookup. */
  lemma DraftNotFound(posts: seq<Post>, slug: string)
    requires UniquePostKeys(posts)
    requires exists i | 0 <= i < |posts| :: posts[i].slug == slug && posts[i].status == Draft
    ensures FindPublished(posts, slug) == None
  {
    var i :| 0 <= i < |posts| && posts[i].slug == slug && posts[i].status == Draft;
  }

  /** Another author's post is never found by the owner lookup. */
  lemma OthersPostNotFound(posts: seq<Post>, slug: string, caller: UserId)
    requires UniquePostKeys(posts)
    requires exists i | 0 <= i < |posts| :: posts[i].slug == slug && posts[i].author != caller
    ensures FindOwn(posts, caller, slug) == None
  {
    var i :| 0 <= i < |posts| && posts[i].slug == slug && posts[i].author != caller;
  }

  /** `featured_blogs`: the first six published featured posts. */
  function FeaturedBlogs(posts: seq<Post>): (r: seq<Post>)
    ensures |r| <= 6
    ensures forall p | p in r :: p in posts && p.status == Published && p.isFeatured
    ensures var all := Where(posts, (p: Post) => p.status == Published && p.isFeatured);
      |r| <= |all| && r == all[..|r|] && (|r| < 6 ==> r == all)
  {
    var all := Where(posts, (p: Post) => p.status == Published && p.isFeatured);
    if |all| <= 6 then all
    else
      assert forall p | p in all[..6] :: p in all;
      all[..6]
  }

  ghost predicate DescendingViews(s: seq<Post>) {
    forall i, j | 0 <= i < j < |s| :: s[i].views >= s[j].views
  }

  lemma ConsDescending(x: Post, rest: seq<Post>)
    requires DescendingViews(rest)
    requires forall y | y in rest :: y.views <= x.views
    ensures DescendingViews([x] + rest)
  {
    var r := [x] + rest;
    forall i, j | 0 <= i < j < |r| ensures r[i].views >= r[j].views {
      assert r[j] == rest[j - 1];
      assert rest[j - 1] in rest;
      if i > 0 {
        assert r[i] == rest[i - 1];
      }
    }
  }

  function InsertByViews(p: Post, s: seq<Post>): (r: seq<Post>)
    requires DescendingViews(s)
    ensures DescendingViews(r)
    ensures forall x | x in r :: x == p || x in s
    ensures multiset(r) == multiset(s) + multiset{p}
  {
    if s == [] then [p]
    else if p.views >= s[0].views then
      assert forall y | y in s :: y.views <= p.views by {
        forall y | y in s ensures y.views <= p.views {
          var k :| 0 <= k < |s| && s[k] == y;
        }
      }
      ConsDescending(p, s);
      [p] + s
    else
      var rest := InsertByViews(p, s[1..]);
      assert s == [s[0]] + s[1..];
      assert forall x | x in rest :: x.views <= s[0].views by {
        forall x | x in rest ensures x.views <= s[0].views {
          if x != p {
            var k :| 0 <= k < |s[1..]| && s[1..][k] == x;
            assert s[k + 1] == x;
          }
        }
      }
      ConsDescending(s[0], rest);
      [s[0]] + rest
  }

  /** `order_by('-views')`: the same posts, most viewed first. */
  function SortByViews(s: seq<Post>): (r: seq<Post>)
    ensures DescendingViews(r)
    ensures multiset(r) == multiset(s)
    ensures forall x :: x in r <==> x in s
  {
    if s == [] then []
    else
      assert s == [s[0]] + s[1..];
      var rest := SortByViews(s[1..]);
      var r := InsertByViews(s[0], rest);
      assert forall x | x in s :: x in multiset(r);
      assert forall x | x in r :: x == s[0] || x in s[1..];
      r
  }

  /** The first `n` elements of a descending list are, view for view, at
      least any element after them. */
  lemma TopOfDescending(sorted: seq<Post>, n: nat, p: Post)
    requires DescendingViews(sorted) && n <= |sorted|
    requires p in sorted && p !in sorted[..n]
    ensures forall x | x in sorted[..n] :: x.views >= p.views
  {
    forall x | x in sorted[..n] ensures x.views >= p.views {
      var i :| 0 <= i < n && sorted[..n][i] == x;
      assert sorted[i] == x;
    }
  }

  /** A prefix holds no element more often than the whole sequence. */
  lemma PrefixSubMultiset(s: seq<Post>, n: nat)
    requires n <= |s|
    ensures multiset(s[..n]) <= multiset(s)
  {
    assert s == s[..n] + s[n..];
  }

  /** The post is visible to the public. */
  predicate IsPublished(p: Post) {
    p.status == Published
  }

  /** `popular_blogs`: the six most viewed published posts, most viewed
      first. */
  function PopularBlogs(posts: seq<Post>): (r: seq<Post>)
    ensures |r| <= 6
    ensures DescendingViews(r)
    ensures forall p | p in r :: p in posts && p.status == Published
    ensures forall p | p in posts && p.status == Published && p !in r :: forall x | x in r :: x.views >= p.views
    ensures var pub := Where(posts, IsPublished);
      && |r| == (if |pub| <= 6 then |pub| else 6)
      && multiset(r) <= multiset(pub)
  {
    var pub := Where(posts, IsPublished);
    var sorted := SortByViews(pub);
    var n := if |sorted| <= 6 then |sorted| else 6;
    TopOfPublished(posts, pub, sorted, n);
    sorted[..n]
  }

  /** The first `n` posts of the published posts sorted by views are the
      `n` most viewed of them. */
  lemma TopOfPublished(posts: seq<Post>, pub: seq<Post>, sorted: seq<Post>, n: nat)
    requires pub == Where(posts, IsPublished)
    requires DescendingViews(sorted) && multiset(sorted) == multiset(pub)
    requires forall x :: x in sorted <==> x in pub
    requires n <= |sorted|
    ensures DescendingViews(sorted[..n])
    ensures forall p | p in sorted[..n] :: p in posts && p.status == Published
    ensures forall p | p in posts && p.status == Published && p !in sorted[..n] :: forall x | x in sorted[..n] :: x.views >= p.views
    ensures multiset(sorted[..n]) <= multiset(pub)
    ensures |sorted| == |pub|
  {
    assert |multiset(sorted)| == |multiset(pub)|;
    var r := sorted[..n];
    PrefixSubMultiset(sorted, n);
    assert forall p | p in r :: p in sorted;
    forall p | p in posts && p.status == Published && p !in r ensures forall x | x in r :: x.views >= p.views {
      TopOfDescending(sorted, n, p);
    }
  }

  // ---------------------------------------------------------------------
  // Endpoints that write

  /** `BlogDetailView.retrieve`: a published post is found by slug and its
      view counter goes up by one; the response shows the new count. */
  method RetrieveBlog(db: Database, slug: string) returns (r: Result<Post>)
    requires db.Valid()
    modifies db
    ensures db.Valid()
    ensures var found := FindPublished(old(db.posts), slug);
      if found.None? then r == Err(NotFound) && db.posts == old(db.posts)
      else
        var p := old(db.posts)[found.value];
        && r == Ok(p.(views := p.views + 1))
        && db.posts == old(db.posts)[found.value := p.(views := p.views + 1)]
    ensures db.comments == old(db.comments) && db.categories == old(db.categories) && db.tags == old(db.tags)
  {
    var found := FindPublished(db.posts, slug);
    if found.None? {
      return Err(NotFound);
    }
    var _ := db.IncrementViews(found.value);
    r := Ok(db.posts[found.value]);
  }

  /** `BlogCreateView`: a signed-in caller's validated body becomes a new
      post authored by the caller, saved with the derivations of `save`. */
  method CreateBlog(db: Database, who: Requester, input: BlogInput, slugify: string -> string, now: Time)
    returns (r: Result<Post>)
    requires db.Valid()
    modifies db
    ensures db.Valid()
    ensures who.Anonymous? ==> r == Err(Unauthenticated) && db.posts == old(db.posts)
    ensures who.Authenticated? && ValidateBlog(input).Err? ==>
      r == Err(ValidateBlog(input).error) && db.posts == old(db.posts)
    ensures who.Authenticated? && ValidateBlog(input).Ok? ==>
      var p := PostOnSave(NewPost(ValidateBlog(input).value, old(db.nextPostId), who.id), slugify, now);
      if SlugTaken(old(db.posts), p.slug, p.id) then
        r == Err(Conflict("slug")) && db.posts == old(db.posts)
      else
        r == Ok(p) && db.posts == [p] + old(db.posts)
    ensures r.Ok? ==> r.value.author == who.id && r.value.views == 0 && r.value.likes == 0
    ensures db.comments == old(db.comments) && db.categories == old(db.categories) && db.tags == old(db.tags)
  {
    if who.Anonymous? {
      return Err(Unauthenticated);
    }
    var v := ValidateBlog(input);
    if v.Err? {
      return Err(v.error);
    }
    var p := NewPost(v.value, db.nextPostId, who.id);
    assert p.id !in PostIds(db.posts);
    r := db.SavePost(p, slugify, now);
  }

  /** `BlogUpdateView`: the post is looked up among the caller's own, the
      body is validated, the sent fields are written and the post is saved
      again (its slug and publication date are kept). */
  method UpdateBlog(db: Database, who: Requester, slug: string, patch: BlogPatch,
                    slugify: string -> string, now: Time) returns (r: Result<Post>)
    requires db.Valid()
    modifies db
    ensures db.Valid()
    ensures who.Anonymous? ==> r == Err(Unauthenticated) && db.posts == old(db.posts)
    ensures who.Authenticated? && FindOwn(old(db.posts), who.id, slug).None? ==>
      r == Err(NotFound) && db.posts == old(db.posts)
    ensures who.Authenticated? && FindOwn(old(db.posts), who.id, slug).Some? ==>
      var stored := old(db.posts)[FindOwn(old(db.posts), who.id, slug).value];
      var changed := ApplyBlogPatch(stored, patch);
      if changed.Err? then
        r == Err(changed.error) && db.posts == old(db.posts)
      else
        var saved := PostOnSave(changed.value, slugify, now);
        if SlugTaken(old(db.posts), saved.slug, saved.id) then
          r == Err(Conflict("slug")) && db.posts == old(db.posts)
        else
          r == Ok(saved) && db.posts == ReplacePost(old(db.posts), saved)
    ensures r.Ok? ==>
      && who.Authenticated?
      && var i := FindOwn(old(db.posts), who.id, slug);
      && i.Some?
      && r.value.author == who.id && r.value.id == old(db.posts)[i.value].id
      && IsAuthorOrReadOnly(PATCH, who, r.value.author)
    ensures r.Err? ==> db.posts == old(db.posts)
    ensures db.comments == old(db.comments) && db.categories == old(db.categories) && db.tags == old(db.tags)
  {
    if who.Anonymous? {
      return Err(Unauthenticated);
    }
    var i := FindOwn(db.posts, who.id, slug);
    if i.None? {
      return Err(NotFound);
    }
    var stored := db.posts[i.value];
    var changed := ApplyBlogPatch(stored, patch);
    if changed.Err? {
      return Err(changed.error);
    }
    assert stored in db.posts;
    r := db.SavePost(changed.value, slugify, now);
  }

  /** `BlogDeleteView.destroy`: the caller's own post is deleted together
      with its comments. */
  method DeleteBlog(db: Database, who: Requester, slug: string) returns (r: Result<Post>)
    requires db.Valid()
    modifies db
    ensures db.Valid()
    ensures who.Anonymous? ==>
      r == Err(Unauthenticated) && db.posts == old(db.posts) && db.comments == old(db.comments)
    ensures who.Authenticated? ==>
      var i := FindOwn(old(db.posts), who.id, slug);
      if i.None? then r == Err(NotFound) && db.posts == old(db.posts) && db.comments == old(db.comments)
      else
        && r == Ok(old(db.posts)[i.value])
        && db.posts == old(db.posts)[..i.value] + old(db.posts)[i.value + 1..]
        && RemovedWithReplies(old(db.comments), CommentsOnPost(old(db.comments), r.value.id), db.comments)
        && forall c | c in db.comments :: c.blog != r.value.id
    ensures r.Ok? ==> IsAuthorOrReadOnly(DELETE, who, r.value.author)
    ensures db.categories == old(db.categories) && db.tags == old(db.tags)
  {
    if who.Anonymous? {
      return Err(Unauthenticated);
    }
    var i := FindOwn(db.posts, who.id, slug);
    if i.None? {
      return Err(NotFound);
    }
    r := Ok(db.posts[i.value]);
    db.DeletePost(i.value);
  }

  /** `like_blog`: a signed-in caller likes a published post; its like
      counter goes up by one and the new count is returned. */
  method LikeBlog(db: Database, who: Requester, slug: string) returns (r: Result<nat>)
    requires db.Valid()
    modifies db
    ensures db.Valid()
    ensures who.Anonymous? ==> r == Err(Unauthenticated) && db.posts == old(db.posts)
    ensures who.Authenticated? ==>
      var found := FindPublished(old(db.posts), slug);
      if found.None? then r == Err(NotFound) && db.posts == old(db.posts)
      else
        var p := old(db.posts)[found.value];
        && r == Ok(p.likes + 1)
        && db.posts == old(db.posts)[found.value := p.(likes := p.likes + 1)]
    ensures db.comments == old(db.comments) && db.categories == old(db.categories) && db.tags == old(db.tags)
  {
    if who.Anonymous? {
      return Err(Unauthenticated);
    }
    var found := FindPublished(db.posts, slug);
    if found.None? {
      return Err(NotFound);
    }
    var likes := db.IncrementLikes(found.value);
    r := Ok(likes);
  }

  // ---------------------------------------------------------------------
  // Comments

  /** Error code of a parent id that names no comment. */
  const NoSuchParent: string := "does_not_exist"

  /** `CommentListView`: the post must be published; its approved top-level
      comments are listed, each with its approved replies nested below. */
  function ListComments(posts: seq<Post>, comments: seq<Comment>, slug: string): (r: Result<seq<Thread>>)
    ensures FindPublished(posts, slug).None? <==> r == Err(NotFound)
    ensures r.Ok? ==>
      var post := posts[FindPublished(posts, slug).value];
      && (forall t | t in r.value ::
            && t.comment in comments && t.comment.blog == post.id
            && t.comment.isApproved && t.comment.parent == None
            && Moderated(t, comments) && Complete(t, comments, |comments|))
      && (forall c | c in comments && c.blog == post.id && c.isApproved && c.parent == None ::
            exists t | t in r.value :: t.comment == c)
  {
    var found := FindPublished(posts, slug);
    if found.None? then Err(NotFound)
    else
      var id := posts[found.value].id;
      var top := Where(comments, (c: Comment) => c.blog == id && c.isApproved && c.parent == None);
      var threads := ThreadsOf(comments, top);
      ThreadsCoverTop(comments, id, top, threads);
      Ok(threads)
  }

  /** The threads rendered for the approved top-level comments of post `id`
      are exactly one per such comment. */
  lemma ThreadsCoverTop(comments: seq<Comment>, id: nat, top: seq<Comment>, threads: seq<Thread>)
    requires forall c :: c in top <==> c in comments && c.blog == id && c.isApproved && c.parent == None
    requires threads == ThreadsOf(comments, top)
    ensures forall t | t in threads ::
      && t.comment in comments && t.comment.blog == id
      && t.comment.isApproved && t.comment.parent == None
      && Moderated(t, comments) && Complete(t, comments, |comments|)
    ensures forall c | c in comments && c.blog == id && c.isApproved && c.parent == None ::
      exists t | t in threads :: t.comment == c
  {
    forall t | t in threads ensures t.comment in top && Moderated(t, comments) && Complete(t, comments, |comments|) {
      var k :| 0 <= k < |threads| && threads[k] == t;
    }
    forall c | c in top ensures exists t | t in threads :: t.comment == c {
      var k :| 0 <= k < |top| && top[k] == c;
      assert threads[k] in threads;
    }
  }

  /** The rendered thread of each listed comment, in order. */
  function ThreadsOf(all: seq<Comment>, top: seq<Comment>): (r: seq<Thread>)
    ensures |r| == |top|
    ensures forall k | 0 <= k < |r| :: r[k].comment == top[k] && Moderated(r[k], all)
    ensures forall k | 0 <= k < |r| :: Complete(r[k], all, |all|)
  {
    if top == [] then [] else [ThreadOf(all, top[0], |all|)] + ThreadsOf(all, top[1..])
  }

  /** `CommentCreateView`: a signed-in caller comments on a published post.
      The content and the parent are validated together; the comment is
      stored with the caller as author, the post from the URL and approval
      on. */
  method CreateComment(db: Database, who: Requester, slug: string, content: string, parent: Option<nat>)
    returns (r: Result<Comment>)
    requires db.Valid()
    modifies db
    ensures db.Valid()
    ensures who.Anonymous? ==> r == Err(Unauthenticated)
    ensures who.Authenticated? && FindPublished(old(db.posts), slug).None? ==> r == Err(NotFound)
    ensures r.Err? ==> db.comments == old(db.comments)
    ensures who.Authenticated? && FindPublished(old(db.posts), slug).Some? ==>
      var checked := ValidateCommentContent(content);
      var orphan := parent.Some? && parent.value !in CommentIds(old(db.comments));
      if checked.Err? || orphan then
        r == Err(Invalid(ErrorsOf(checked) + if orphan then [FieldError("parent", NoSuchParent)] else []))
      else
        var post := old(db.posts)[FindPublished(old(db.posts), slug).value];
        && checked.value == Trim(content)
        && r == Ok(NewComment(Trim(content), parent, who.id, post.id).(id := old(db.nextCommentId)))
        && db.comments == [r.value] + old(db.comments)
    ensures db.posts == old(db.posts) && db.categories == old(db.categories) && db.tags == old(db.tags)
  {
    if who.Anonymous? {
      return Err(Unauthenticated);
    }
    var found := FindPublished(db.posts, slug);
    if found.None? {
      return Err(NotFound);
    }
    var checked := ValidateCommentContent(content);
    var parentErrors := if parent.Some? && parent.value !in CommentIds(db.comments)
      then [FieldError("parent", NoSuchParent)] else [];
    if checked.Err? || parentErrors != [] {
      return Err(Invalid(ErrorsOf(checked) + parentErrors));
    }
    var post := db.posts[found.value];
    assert post in db.posts;
    var saved := db.InsertComment(NewComment(checked.value, parent, who.id, post.id));
    r := Ok(saved);
  }

  /** The index of the caller's own comment with the given id. */
  function FindOwnComment(cs: seq<Comment>, author: UserId, id: nat): (r: Option<nat>)
    ensures r.Some? ==> r.value < |cs| && cs[r.value].id == id && cs[r.value].author == author
    ensures r.None? ==> forall j | 0 <= j < |cs| :: cs[j].id != id || cs[j].author != author
  {
    FindIndex(cs, (c: Comment) => c.id == id && c.author == author)
  }

  /** `CommentUpdateView`: the comment is looked up among the caller's own;
      a new parent must exist; only the content and the parent change. */
  method UpdateComment(db: Database, who: Requester, id: nat, content: Option<string>, parent: Option<Option<nat>>)
    returns (r: Result<Comment>)
    requires db.Valid()
    modifies db
    ensures db.Valid()
    ensures who.Anonymous? ==> r == Err(Unauthenticated)
    ensures who.Authenticated? && FindOwnComment(old(db.comments), who.id, id).None? ==> r == Err(NotFound)
    ensures r.Err? ==> db.comments == old(db.comments)
    ensures who.Authenticated? && FindOwnComment(old(db.comments), who.id, id).Some? ==>
      var i := FindOwnComment(old(db.comments), who.id, id).value;
      if parent.Some? && parent.value.Some? && parent.value.value !in CommentIds(old(db.comments)) then
        r == Err(FieldInvalid("parent", NoSuchParent))
      else
        && r == Ok(ApplyCommentUpdate(old(db.comments)[i], content, parent))
        && db.comments == old(db.comments)[i := r.value]
    ensures r.Ok? ==> r.value.author == who.id && IsCommentAuthorOrReadOnly(PUT, who, r.value.author)
    ensures db.posts == old(db.posts) && db.categories == old(db.categories) && db.tags == old(db.tags)
  {
    if who.Anonymous? {
      return Err(Unauthenticated);
    }
    var i := FindOwnComment(db.comments, who.id, id);
    if i.None? {
      return Err(NotFound);
    }
    if parent.Some? && parent.value.Some? && parent.value.value !in CommentIds(db.comments) {
      return Err(FieldInvalid("parent", NoSuchParent));
    }
    var updated := ApplyCommentUpdate(db.comments[i.value], content, parent);
    db.UpdateComment(i.value, updated.content, updated.parent);
    r := Ok(updated);
  }

  /** `CommentDeleteView.destroy`: the caller's own comment is deleted with
      every reply below it. */
  method DeleteComment(db: Database, who: Requester, id: nat) returns (r: Result<Comment>)
    requires db.Valid()
    modifies db
    ensures db.Valid()
    ensures who.Anonymous? ==> r == Err(Unauthenticated)
    ensures who.Authenticated? && FindOwnComment(old(db.comments), who.id, id).None? ==> r == Err(NotFound)
    ensures r.Err? ==> db.comments == old(db.comments)
    ensures who.Authenticated? && FindOwnComment(old(db.comments), who.id, id).Some? ==>
      && r == Ok(old(db.comments)[FindOwnComment(old(db.comments), who.id, id).value])
      && RemovedWithReplies(old(db.comments), {r.value.id}, db.comments)
      && r.value !in db.comments
    ensures r.Ok? ==> IsCommentAuthorOrReadOnly(DELETE, who, r.value.author)
    ensures db.posts == old(db.posts) && db.categories == old(db.categories) && db.tags == old(db.tags)
  {
    if who.Anonymous? {
      return Err(Unauthenticated);
    }
    var i := FindOwnComment(db.comments, who.id, id);
    if i.None? {
      return Err(NotFound);
    }
    r := Ok(db.comments[i.value]);
    db.DeleteComment(i.value);
  }
}
