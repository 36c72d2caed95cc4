/** The Django blog tables and the writes the core makes to them: `save` of
    a category, tag or post (with the derivations of `BlogModels` and the
    unique-column checks of the database), the view and like counters, the
    cascading deletes of posts and comments, comment insertion and update,
    and the admin's bulk approval. Rows are kept newest first, the default
    ordering of both the post and the comment model. */
module BlogStore {
  import opened Wrappers
  import opened BlogModels

  function PostIds(posts: seq<Post>): set<nat>
  {
    set p | p in posts :: p.id
  }

  function CommentIds(cs: seq<Comment>): set<nat>
  {
    set c | c in cs :: c.id
  }

  ghost predicate UniquePostKeys(posts: seq<Post>) {
    forall i, j | 0 <= i < j < |posts| :: posts[i].id != posts[j].id && posts[i].slug != posts[j].slug
  }

  ghost predicate UniqueCommentIds(cs: seq<Comment>) {
    forall i, j | 0 <= i < j < |cs| :: cs[i].id != cs[j].id
  }

  /** Foreign keys of the comment table: every comment belongs to an
      existing post and replies, if at all, to an existing comment. */
  ghost predicate CommentLinks(cs: seq<Comment>, postIds: set<nat>) {
    forall i | 0 <= i < |cs| ::
      cs[i].blog in postIds && (cs[i].parent.Some? ==> cs[i].parent.value in CommentIds(cs))
  }

  /** Post ids and slugs are unique and below the next id to be issued. */
  ghost predicate PostTable(posts: seq<Post>, next: nat) {
    UniquePostKeys(posts) && forall i | 0 <= i < |posts| :: posts[i].id < next
  }

  /** Comment ids are unique and below the next id, and the foreign keys
      hold against the given post ids. */
  ghost predicate CommentTable(cs: seq<Comment>, next: nat, postIds: set<nat>) {
    && UniqueCommentIds(cs)
    && (forall i | 0 <= i < |cs| :: cs[i].id < next)
    && CommentLinks(cs, postIds)
  }

  /** Categories and tags are never deleted here, so a row's id is its
      position; names and slugs are unique columns. */
  ghost predicate CategoryTable(cats: seq<Category>) {
    && (forall i | 0 <= i < |cats| :: cats[i].id == i)
    && (forall i, j | 0 <= i < j < |cats| :: cats[i].name != cats[j].name && cats[i].slug != cats[j].slug)
  }

  ghost predicate TagTable(tags: seq<Tag>) {
    && (forall i | 0 <= i < |tags| :: tags[i].id == i)
    && (forall i, j | 0 <= i < j < |tags| :: tags[i].name != tags[j].name && tags[i].slug != tags[j].slug)
  }

  /** Whether a post other than the one with id `self` already uses `slug`. */
  function SlugTaken(posts: seq<Post>, slug: string, self: nat): (b: bool)
    ensures b <==> exists i | 0 <= i < |posts| :: posts[i].slug == slug && posts[i].id != self
  {
    if posts == [] then false
    else (posts[0].slug == slug && posts[0].id != self) || SlugTaken(posts[1..], slug, self)
  }

  /** The table with the row whose id is `p.id` replaced by `p`. */
  function ReplacePost(posts: seq<Post>, p: Post): (r: seq<Post>)
    ensures |r| == |posts|
    ensures forall i | 0 <= i < |posts| :: r[i] == if posts[i].id == p.id then p else posts[i]
  {
    if posts == [] then []
    else [if posts[0].id == p.id then p else posts[0]] + ReplacePost(posts[1..], p)
  }

  /** The comments whose id is not in `doomed`, in their order. */
  function KeepComments(cs: seq<Comment>, doomed: set<nat>): (r: seq<Comment>)
    ensures forall c :: c in r <==> c in cs && c.id !in doomed
    ensures UniqueCommentIds(cs) ==> UniqueCommentIds(r)
  {
    if cs == [] then []
    else if cs[0].id in doomed then KeepComments(cs[1..], doomed)
    else
      var rest := KeepComments(cs[1..], doomed);
      assert UniqueCommentIds(cs) ==> forall j | 0 <= j < |rest| :: rest[j].id != cs[0].id by {
        if UniqueCommentIds(cs) {
          forall j | 0 <= j < |rest| ensures rest[j].id != cs[0].id {
            assert rest[j] in cs[1..];
            var k :| 0 <= k < |cs[1..]| && cs[1..][k] == rest[j];
            assert cs[k + 1] == rest[j];
          }
        }
      }
      [cs[0]] + rest
  }

  /** Every comment whose parent is in `ids` is itself in `ids`. */
  ghost predicate ClosedUnderReplies(cs: seq<Comment>, ids: set<nat>) {
    forall i | 0 <= i < |cs| :: cs[i].parent.Some? && cs[i].parent.value in ids ==> cs[i].id in ids
  }

  /** Every comment in `ids` but not in `seed` replies to a comment in `ids`. */
  ghost predicate RepliesOnly(cs: seq<Comment>, seed: set<nat>, ids: set<nat>) {
    forall i | 0 <= i < |cs| :: cs[i].id in ids && cs[i].id !in seed ==>
      cs[i].parent.Some? && cs[i].parent.value in ids
  }

  /** `ids` lies inside every reply-closed set that holds the seed: nothing
      is in it that the cascade does not reach. */
  ghost predicate InEveryClosure(cs: seq<Comment>, seed: set<nat>, ids: set<nat>) {
    forall d: set<nat> | seed <= d && ClosedUnderReplies(cs, d) :: ids <= d
  }

  /** Ids of the comments on the post `blog`: where the cascade of a post
      deletion starts. */
  function CommentsOnPost(cs: seq<Comment>, blog: nat): (r: set<nat>)
    ensures forall c | c in cs :: c.id in r <== c.blog == blog
    ensures forall x | x in r :: exists c | c in cs :: c.id == x && c.blog == blog
  {
    set c | c in cs && c.blog == blog :: c.id
  }

  /** `doomed` is what the `parent` cascade removes when the comments in
      `seed` go: it holds the seed, every reply to a doomed comment, and
      nothing else: it is the least reply-closed set holding the seed. */
  ghost predicate CascadeFrom(cs: seq<Comment>, seed: set<nat>, doomed: set<nat>) {
    && seed <= doomed
    && ClosedUnderReplies(cs, doomed)
    && RepliesOnly(cs, seed, doomed)
    && InEveryClosure(cs, seed, doomed)
  }

  /** The cascade from a seed is unique: two sets that both meet its
      description are equal. */
  lemma CascadeUnique(cs: seq<Comment>, seed: set<nat>, a: set<nat>, b: set<nat>)
    requires CascadeFrom(cs, seed, a) && CascadeFrom(cs, seed, b)
    ensures a == b
  {
    assert a <= b;
    assert b <= a;
  }

  /** `after` is `before` less the comments in `seed` and every reply below
      them, in the original order. */
  ghost predicate RemovedWithReplies(before: seq<Comment>, seed: set<nat>, after: seq<Comment>) {
    exists doomed: set<nat> :: CascadeFrom(before, seed, doomed) && after == KeepComments(before, doomed)
  }

  /** `queryset.update(is_approved=...)` on the selected comments. */
  function WithApproval(cs: seq<Comment>, selected: set<nat>, approved: bool): (r: seq<Comment>)
    ensures |r| == |cs|
    ensures forall i | 0 <= i < |cs| ::
      r[i] == if cs[i].id in selected then cs[i].(isApproved := approved) else cs[i]
  {
    if cs == [] then []
    else [if cs[0].id in selected then cs[0].(isApproved := approved) else cs[0]]
         + WithApproval(cs[1..], selected, approved)
  }

  /** Number of rows a queryset over the selected ids matches. */
  function CountSelected(cs: seq<Comment>, selected: set<nat>): nat
  {
    if cs == [] then 0 else (if cs[0].id in selected then 1 else 0) + CountSelected(cs[1..], selected)
  }

  /** Updating the approval flag leaves ids, and with them the comment
      table's keys and links, as they were. */
  lemma WithApprovalKeepsIds(cs: seq<Comment>, selected: set<nat>, approved: bool)
    ensures CommentIds(WithApproval(cs, selected, approved)) == CommentIds(cs)
  {
    var r := WithApproval(cs, selected, approved);
    forall x | x in CommentIds(cs) ensures x in CommentIds(r) {
      var c :| c in cs && c.id == x;
      var i :| 0 <= i < |cs| && cs[i] == c;
      assert r[i].id == x;
    }
    forall x | x in CommentIds(r) ensures x in CommentIds(cs) {
      var c :| c in r && c.id == x;
      var i :| 0 <= i < |r| && r[i] == c;
      assert cs[i].id == x;
    }
  }

  class Database {
    var posts: seq<Post>
    var comments: seq<Comment>
    var categories: seq<Category>
    var tags: seq<Tag>
    var nextPostId: nat
    var nextCommentId: nat

    ghost predicate Valid()
      reads this
    {
      && PostTable(posts, nextPostId)
      && CommentTable(comments, nextCommentId, PostIds(posts))
      && CategoryTable(categories)
      && TagTable(tags)
    }

    constructor ()
      ensures Valid()
      ensures posts == [] && comments == [] && categories == [] && tags == []
    {
      posts, comments, categories, tags := [], [], [], [];
      nextPostId, nextCommentId := 0, 0;
    }

    /** `Category.save`: derive the slug if empty, then insert (a category
        not yet in the table) or update. A name or slug another category
        already has is refused, as the unique columns refuse it. */
    method SaveCategory(c: Category, slugify: string -> string) returns (r: Result<Category>)
      requires Valid()
      modifies this
      ensures Valid()
      ensures posts == old(posts) && comments == old(comments) && tags == old(tags)
      ensures nextPostId == old(nextPostId) && nextCommentId == old(nextCommentId)
      ensures var isNew := c.id >= |old(categories)|;
        var saved := CategoryOnSave(if isNew then c.(id := |old(categories)|) else c, slugify);
        if exists i | 0 <= i < |old(categories)| :: old(categories)[i].id != saved.id && old(categories)[i].name == saved.name then
          r == Err(Conflict("name")) && categories == old(categories)
        else if exists i | 0 <= i < |old(categories)| :: old(categories)[i].id != saved.id && old(categories)[i].slug == saved.slug then
          r == Err(Conflict("slug")) && categories == old(categories)
        else
          r == Ok(saved) && categories == (if isNew then old(categories) + [saved] else old(categories)[saved.id := saved])
    {
      var row := c;
      var isNew := row.id >= |categories|;
      if isNew {
        row := row.(id := |categories|);
      }
      if row.slug == "" {
        row := row.(slug := slugify(row.name));
      }
      var i := 0;
      while i < |categories|
        invariant 0 <= i <= |categories|
        invariant forall k | 0 <= k < i :: categories[k].id == row.id || categories[k].name != row.name
      {
        if categories[i].id != row.id && categories[i].name == row.name {
          return Err(Conflict("name"));
        }
        i := i + 1;
      }
      i := 0;
      while i < |categories|
        invariant 0 <= i <= |categories|
        invariant forall k | 0 <= k < i :: categories[k].id == row.id || categories[k].slug != row.slug
      {
        if categories[i].id != row.id && categories[i].slug == row.slug {
          return Err(Conflict("slug"));
        }
        i := i + 1;
      }
      if isNew {
        categories := categories + [row];
      } else {
        categories := categories[row.id := row];
      }
      r := Ok(row);
    }

    /** `Tag.save`: the same derivation and unique columns as categories. */
    method SaveTag(t: Tag, slugify: string -> string) returns (r: Result<Tag>)
      requires Valid()
      modifies this
      ensures Valid()
      ensures posts == old(posts) && comments == old(comments) && categories == old(categories)
      ensures nextPostId == old(nextPostId) && nextCommentId == old(nextCommentId)
      ensures var isNew := t.id >= |old(tags)|;
        var saved := TagOnSave(if isNew then t.(id := |old(tags)|) else t, slugify);
        if exists i | 0 <= i < |old(tags)| :: old(tags)[i].id != saved.id && old(tags)[i].name == saved.name then
          r == Err(Conflict("name")) && tags == old(tags)
        else if exists i | 0 <= i < |old(tags)| :: old(tags)[i].id != saved.id && old(tags)[i].slug == saved.slug then
          r == Err(Conflict("slug")) && tags == old(tags)
        else
          r == Ok(saved) && tags == (if isNew then old(tags) + [saved] else old(tags)[saved.id := saved])
    {
      var row := t;
      var isNew := row.id >= |tags|;
      if isNew {
        row := row.(id := |tags|);
      }
      if row.slug == "" {
        row := row.(slug := slugify(row.name));
      }
      var i := 0;
      while i < |tags|
        invariant 0 <= i <= |tags|
        invariant forall k | 0 <= k < i :: tags[k].id == row.id || tags[k].name != row.name
      {
        if tags[i].id != row.id && tags[i].name == row.name {
          return Err(Conflict("name"));
        }
        i := i + 1;
      }
      i := 0;
      while i < |tags|
        invariant 0 <= i <= |tags|
        invariant forall k | 0 <= k < i :: tags[k].id == row.id || tags[k].slug != row.slug
      {
        if tags[i].id != row.id && tags[i].slug == row.slug {
          return Err(Conflict("slug"));
        }
        i := i + 1;
      }
      if isNew {
        tags := tags + [row];
      } else {
        tags := tags[row.id := row];
      }
      r := Ok(row);
    }

    /** `Blog.save`: a post whose id is not in the table is new and gets the
        next id; the derivations of `PostOnSave` are applied in the order
        the source applies them; a slug another post already has is
        refused; otherwise a new post goes to the front of the table and
        an existing one replaces its row. Comments are not touched. */
    method SavePost(p: Post, slugify: string -> string, now: Time) returns (r: Result<Post>)
      requires Valid()
      modifies this
      ensures Valid()
      ensures comments == old(comments) && categories == old(categories) && tags == old(tags)
      ensures nextCommentId == old(nextCommentId)
      ensures var isNew := p.id !in PostIds(old(posts));
        var saved := PostOnSave(if isNew then p.(id := old(nextPostId)) else p, slugify, now);
        if SlugTaken(old(posts), saved.slug, saved.id) then
          r == Err(Conflict("slug")) && posts == old(posts) && nextPostId == old(nextPostId)
        else if isNew then
          r == Ok(saved) && posts == [saved] + old(posts) && nextPostId == old(nextPostId) + 1
        else
          r == Ok(saved) && posts == ReplacePost(old(posts), saved) && nextPostId == old(nextPostId)
    {
      var row := p;
      var isNew := row.id !in PostIds(posts);
      if isNew {
        row := row.(id := nextPostId);
      }
      ghost var before := row;
      row := if row.slug == "" then row.(slug := slugify(row.title)) else row;
      row := if row.excerpt == "" && row.content != "" then row.(excerpt := DerivedExcerpt(row.content)) else row;
      row := if row.status == Published && row.publishedAt.None? then row.(publishedAt := Some(now)) else row;
      assert row == PostOnSave(before, slugify, now);
      assert isNew ==> row.id !in PostIds(posts);
      r := WritePost(row);
    }

    /** The database half of a post save: refuse a slug another post has,
        otherwise insert the row at the front (a new id) or replace the
        row with its id. */
    method WritePost(row: Post) returns (r: Result<Post>)
      requires Valid()
      requires row.id in PostIds(posts) || row.id == nextPostId
      modifies this
      ensures Valid()
      ensures comments == old(comments) && categories == old(categories) && tags == old(tags)
      ensures nextCommentId == old(nextCommentId)
      ensures if SlugTaken(old(posts), row.slug, row.id) then
          r == Err(Conflict("slug")) && posts == old(posts) && nextPostId == old(nextPostId)
        else if row.id !in PostIds(old(posts)) then
          r == Ok(row) && posts == [row] + old(posts) && nextPostId == old(nextPostId) + 1
        else
          r == Ok(row) && posts == ReplacePost(old(posts), row) && nextPostId == old(nextPostId)
    {
      if SlugTaken(posts, row.slug, row.id) {
        return Err(Conflict("slug"));
      }
      if row.id !in PostIds(posts) {
        PrependPostKeys(posts, nextPostId, row);
        CommentTableMorePosts(comments, nextCommentId, PostIds(posts), PostIds([row] + posts));
        posts := [row] + posts;
        nextPostId := nextPostId + 1;
      } else {
        ReplacePostKeys(posts, nextPostId, row);
        posts := ReplacePost(posts, row);
      }
      r := Ok(row);
    }

    /** `increment_views` on the row at `i`: views go up by exactly one and
        nothing else changes (only the `views` column is written). */
    method IncrementViews(i: nat) returns (views: nat)
      requires Valid() && i < |posts|
      modifies this
      ensures Valid()
      ensures posts == old(posts)[i := old(posts)[i].(views := old(posts)[i].views + 1)]
      ensures views == old(posts)[i].views + 1
      ensures comments == old(comments) && categories == old(categories) && tags == old(tags)
      ensures nextPostId == old(nextPostId) && nextCommentId == old(nextCommentId)
    {
      var row := posts[i];
      row := row.(views := row.views + 1);
      SameKeysKeepIds(posts, i, row);
      posts := posts[i := row];
      views := row.views;
    }

    /** `increment_likes` on the row at `i`: likes go up by exactly one and
        nothing else changes. */
    method IncrementLikes(i: nat) returns (likes: nat)
      requires Valid() && i < |posts|
      modifies this
      ensures Valid()
      ensures posts == old(posts)[i := old(posts)[i].(likes := old(posts)[i].likes + 1)]
      ensures likes == old(posts)[i].likes + 1
      ensures comments == old(comments) && categories == old(categories) && tags == old(tags)
      ensures nextPostId == old(nextPostId) && nextCommentId == old(nextCommentId)
    {
      var row := posts[i];
      row := row.(likes := row.likes + 1);
      SameKeysKeepIds(posts, i, row);
      posts := posts[i := row];
      likes := row.likes;
    }

    /** The comments that a delete starting from `seed` removes: `seed`,
        the replies to them, the replies to those, and so on (the cascade
        of the `parent` foreign key). Every removed comment outside `seed`
        is a reply to a removed one, and no kept comment replies to a
        removed one. */
    method Cascade(seed: set<nat>) returns (doomed: set<nat>)
      requires Valid()
      ensures seed <= doomed && doomed - seed <= CommentIds(comments)
      ensures ClosedUnderReplies(comments, doomed)
      ensures RepliesOnly(comments, seed, doomed)
      ensures InEveryClosure(comments, seed, doomed)
    {
      doomed := seed;
      var changed := true;
      while changed
        invariant seed <= doomed && doomed - seed <= CommentIds(comments)
        invariant RepliesOnly(comments, seed, doomed)
        invariant InEveryClosure(comments, seed, doomed)
        invariant !changed ==> ClosedUnderReplies(comments, doomed)
        decreases |CommentIds(comments) - doomed| + (if changed then 1 else 0)
      {
        doomed, changed := Sweep(seed, doomed);
      }
    }

    /** One pass of the cascade: adds every comment that replies to one
        already in `doomed`, and reports whether anything was added. */
    method Sweep(seed: set<nat>, doomed: set<nat>) returns (grown: set<nat>, changed: bool)
      requires UniqueCommentIds(comments)
      requires seed <= doomed && doomed - seed <= CommentIds(comments)
      requires RepliesOnly(comments, seed, doomed)
      requires InEveryClosure(comments, seed, doomed)
      ensures doomed <= grown && grown - seed <= CommentIds(comments)
      ensures RepliesOnly(comments, seed, grown)
      ensures InEveryClosure(comments, seed, grown)
      ensures !changed ==> grown == doomed && ClosedUnderReplies(comments, doomed)
      ensures changed ==> |CommentIds(comments) - grown| < |CommentIds(comments) - doomed|
    {
      grown, changed := doomed, false;
      var i := 0;
      while i < |comments|
        invariant 0 <= i <= |comments|
        invariant doomed <= grown && grown - seed <= CommentIds(comments)
        invariant RepliesOnly(comments, seed, grown)
        invariant InEveryClosure(comments, seed, grown)
        invariant !changed ==> grown == doomed
        invariant !changed ==> forall k | 0 <= k < i ::
          comments[k].parent.Some? && comments[k].parent.value in grown ==> comments[k].id in grown
        invariant changed ==> |CommentIds(comments) - grown| < |CommentIds(comments) - doomed|
      {
        var c := comments[i];
        if c.parent.Some? && c.parent.value in grown && c.id !in grown {
          assert c in comments;
          AddShrinks(CommentIds(comments), grown, c.id);
          RepliesOnlyAdd(comments, seed, grown, i);
          InEveryClosureAdd(comments, seed, grown, i);
          grown := grown + {c.id};
          changed := true;
        }
        i := i + 1;
      }
    }

    /** Deletes the post at `i` together with its comments and, through the
        `parent` cascade, every reply below them. */
    method DeletePost(i: nat)
      requires Valid() && i < |posts|
      modifies this
      ensures Valid()
      ensures posts == old(posts)[..i] + old(posts)[i + 1..]
      ensures RemovedWithReplies(old(comments), CommentsOnPost(old(comments), old(posts)[i].id), comments)
      ensures forall c | c in comments :: c.blog != old(posts)[i].id
      ensures categories == old(categories) && tags == old(tags)
      ensures nextPostId == old(nextPostId) && nextCommentId == old(nextCommentId)
    {
      var gone := posts[i];
      var seed := CommentsOnPost(comments, gone.id);
      var doomed := Cascade(seed);
      assert CascadeFrom(comments, seed, doomed);
      ghost var oldComments := comments;
      ghost var oldPosts := posts;
      comments := KeepComments(comments, doomed);
      posts := posts[..i] + posts[i + 1..];
      RemovedPostKeys(oldPosts, i);
      DeletePostKeepsLinks(oldPosts, i, oldComments, doomed);
    }

    /** Inserts a new comment at the front of the table with the next id.
        The post and the parent it names must exist (their foreign keys). */
    method InsertComment(c: Comment) returns (saved: Comment)
      requires Valid()
      requires c.blog in PostIds(posts)
      requires c.parent.Some? ==> c.parent.value in CommentIds(comments)
      modifies this
      ensures Valid()
      ensures saved == c.(id := old(nextCommentId))
      ensures comments == [saved] + old(comments)
      ensures nextCommentId == old(nextCommentId) + 1
      ensures posts == old(posts) && categories == old(categories) && tags == old(tags)
      ensures nextPostId == old(nextPostId)
    {
      saved := c.(id := nextCommentId);
      ghost var before := comments;
      comments := [saved] + comments;
      nextCommentId := nextCommentId + 1;
      assert CommentIds(comments) == CommentIds(before) + {saved.id};
      forall k | 0 <= k < |comments|
        ensures comments[k].parent.Some? ==> comments[k].parent.value in CommentIds(comments)
      {
        if k > 0 {
          assert comments[k] == before[k - 1];
        }
      }
    }

    /** Writes new content and a new parent to the comment at `i`; its id,
        post, author and approval are kept. The new parent must exist. */
    method UpdateComment(i: nat, content: string, parent: Option<nat>)
      requires Valid() && i < |comments|
      requires parent.Some? ==> parent.value in CommentIds(comments)
      modifies this
      ensures Valid()
      ensures comments == old(comments)[i := old(comments)[i].(content := content, parent := parent)]
      ensures posts == old(posts) && categories == old(categories) && tags == old(tags)
      ensures nextPostId == old(nextPostId) && nextCommentId == old(nextCommentId)
    {
      var row := comments[i].(content := content, parent := parent);
      ghost var before := comments;
      comments := comments[i := row];
      assert CommentIds(comments) == CommentIds(before) by {
        SameCommentIdsAfterUpdate(before, i, row);
      }
    }

    /** Deletes the comment at `i` and, through the `parent` cascade, every
        reply below it. */
    method DeleteComment(i: nat)
      requires Valid() && i < |comments|
      modifies this
      ensures Valid()
      ensures RemovedWithReplies(old(comments), {old(comments)[i].id}, comments)
      ensures posts == old(posts) && categories == old(categories) && tags == old(tags)
      ensures nextPostId == old(nextPostId) && nextCommentId == old(nextCommentId)
    {
      var doomed := Cascade({comments[i].id});
      assert CascadeFrom(comments, {comments[i].id}, doomed);
      ghost var oldComments := comments;
      comments := KeepComments(comments, doomed);
      forall k | 0 <= k < |comments|
        ensures comments[k].parent.Some? ==> comments[k].parent.value in CommentIds(comments)
      {
        var c := comments[k];
        assert c in oldComments && c.id !in doomed;
        if c.parent.Some? {
          var j :| 0 <= j < |oldComments| && oldComments[j] == c;
          var pid := c.parent.value;
          assert pid !in doomed;
          var pc :| pc in oldComments && pc.id == pid;
          assert pc in comments;
        }
      }
    }

    /** `queryset.update(is_approved=approved)` over the selected ids: the
        flag is set on exactly the selected comments, every other field and
        every other comment is unchanged, and the number of matched rows is
        returned. */
    method SetApproval(selected: set<nat>, approved: bool) returns (count: nat)
      requires Valid()
      modifies this
      ensures Valid()
      ensures comments == WithApproval(old(comments), selected, approved)
      ensures count == CountSelected(old(comments), selected)
      ensures posts == old(posts) && categories == old(categories) && tags == old(tags)
      ensures nextPostId == old(nextPostId) && nextCommentId == old(nextCommentId)
    {
      ghost var before := comments;
      count := CountSelected(comments, selected);
      comments := WithApproval(comments, selected, approved);
      WithApprovalKeepsIds(before, selected, approved);
    }
  }

  // ---------------------------------------------------------------------
  // Facts about keys that the methods above use

  lemma RepliesOnlyAdd(cs: seq<Comment>, seed: set<nat>, ids: set<nat>, i: nat)
    requires UniqueCommentIds(cs) && RepliesOnly(cs, seed, ids)
    requires i < |cs| && cs[i].parent.Some? && cs[i].parent.value in ids
    ensures RepliesOnly(cs, seed, ids + {cs[i].id})
  {
    forall k | 0 <= k < |cs| && cs[k].id in ids + {cs[i].id} && cs[k].id !in seed
      ensures cs[k].parent.Some? && cs[k].parent.value in ids + {cs[i].id}
    {
    }
  }

  /** A reply to a comment the cascade reaches is reached too. */
  lemma InEveryClosureAdd(cs: seq<Comment>, seed: set<nat>, ids: set<nat>, i: nat)
    requires InEveryClosure(cs, seed, ids)
    requires i < |cs| && cs[i].parent.Some? && cs[i].parent.value in ids
    ensures InEveryClosure(cs, seed, ids + {cs[i].id})
  {
    forall d: set<nat> | seed <= d && ClosedUnderReplies(cs, d) ensures ids + {cs[i].id} <= d {
      assert ids <= d;
    }
  }

  /** After a post and every comment on it (and the replies below them) are
      deleted, the remaining comments still point at existing rows. */
  lemma DeletePostKeepsLinks(posts: seq<Post>, i: nat, cs: seq<Comment>, doomed: set<nat>)
    requires i < |posts| && CommentLinks(cs, PostIds(posts))
    requires forall c | c in cs && c.blog == posts[i].id :: c.id in doomed
    requires ClosedUnderReplies(cs, doomed)
    ensures CommentLinks(KeepComments(cs, doomed), PostIds(posts[..i] + posts[i + 1..]))
    ensures forall c | c in KeepComments(cs, doomed) :: c.blog != posts[i].id
  {
    var rest := posts[..i] + posts[i + 1..];
    var kept := KeepComments(cs, doomed);
    forall k | 0 <= k < |kept|
      ensures kept[k].blog in PostIds(rest)
      ensures kept[k].parent.Some? ==> kept[k].parent.value in CommentIds(kept)
    {
      var c := kept[k];
      assert c in cs && c.id !in doomed;
      var j :| 0 <= j < |cs| && cs[j] == c;
      var q :| q in posts && q.id == c.blog;
      var qi :| 0 <= qi < |posts| && posts[qi] == q;
      assert qi != i;
      if qi < i { assert rest[qi] == q; } else { assert rest[qi - 1] == q; }
      if c.parent.Some? {
        var pc :| pc in cs && pc.id == c.parent.value;
        assert pc in kept;
      }
    }
  }

  lemma AddShrinks(ids: set<nat>, doomed: set<nat>, x: nat)
    requires x in ids && x !in doomed
    ensures |ids - (doomed + {x})| < |ids - doomed|
  {
    assert ids - doomed == (ids - (doomed + {x})) + {x};
  }

  lemma PostIdsCons(p: Post, posts: seq<Post>)
    ensures PostIds([p] + posts) == {p.id} + PostIds(posts)
  {
    assert forall q | q in [p] + posts :: q == p || q in posts;
  }

  /** A new post with the next id and an unused slug keeps the post table
      well formed. */
  lemma PrependPostKeys(posts: seq<Post>, next: nat, row: Post)
    requires PostTable(posts, next)
    requires row.id == next && !SlugTaken(posts, row.slug, row.id)
    ensures PostTable([row] + posts, next + 1)
    ensures PostIds([row] + posts) == {row.id} + PostIds(posts)
  {
    var r := [row] + posts;
    forall a, b | 0 <= a < b < |r| ensures r[a].id != r[b].id && r[a].slug != r[b].slug {
      assert r[b] == posts[b - 1];
      if a > 0 {
        assert r[a] == posts[a - 1];
      }
    }
    PostIdsCons(row, posts);
  }

  /** Replacing a row by one with the same id and an unused slug keeps the
      post table well formed and its ids where they were. */
  lemma ReplacePostKeys(posts: seq<Post>, next: nat, row: Post)
    requires PostTable(posts, next)
    requires row.id in PostIds(posts) && !SlugTaken(posts, row.slug, row.id)
    ensures PostTable(ReplacePost(posts, row), next)
    ensures PostIds(ReplacePost(posts, row)) == PostIds(posts)
  {
    var r := ReplacePost(posts, row);
    assert forall i | 0 <= i < |posts| :: r[i].id == posts[i].id;
    forall a, b | 0 <= a < b < |r| ensures r[a].id != r[b].id && r[a].slug != r[b].slug {
      assert posts[a].id != posts[b].id;
    }
    SameIdsSamePostIds(posts, r);
  }

  /** The comment table stays well formed when posts are only added. */
  lemma CommentTableMorePosts(cs: seq<Comment>, next: nat, ids: set<nat>, more: set<nat>)
    requires CommentTable(cs, next, ids) && ids <= more
    ensures CommentTable(cs, next, more)
  {
  }

  lemma SameIdsSamePostIds(posts: seq<Post>, r: seq<Post>)
    requires |r| == |posts|
    requires forall i | 0 <= i < |posts| :: r[i].id == posts[i].id
    ensures PostIds(r) == PostIds(posts)
  {
    forall x | x in PostIds(posts) ensures x in PostIds(r) {
      var q :| q in posts && q.id == x;
      var j :| 0 <= j < |posts| && posts[j] == q;
      assert r[j] in r;
    }
    forall x | x in PostIds(r) ensures x in PostIds(posts) {
      var q :| q in r && q.id == x;
      var j :| 0 <= j < |r| && r[j] == q;
      assert posts[j] in posts;
    }
  }

  lemma SameKeysKeepIds(posts: seq<Post>, i: nat, row: Post)
    requires i < |posts| && row.id == posts[i].id && row.slug == posts[i].slug
    requires UniquePostKeys(posts)
    ensures UniquePostKeys(posts[i := row])
    ensures PostIds(posts[i := row]) == PostIds(posts)
  {
    SameIdsSamePostIds(posts, posts[i := row]);
  }

  lemma SameCommentIdsAfterUpdate(cs: seq<Comment>, i: nat, row: Comment)
    requires i < |cs| && row.id == cs[i].id
    ensures CommentIds(cs[i := row]) == CommentIds(cs)
  {
    var r := cs[i := row];
    forall x | x in CommentIds(cs) ensures x in CommentIds(r) {
      var q :| q in cs && q.id == x;
      var j :| 0 <= j < |cs| && cs[j] == q;
      assert r[j].id == x;
    }
    forall x | x in CommentIds(r) ensures x in CommentIds(cs) {
      var q :| q in r && q.id == x;
      var j :| 0 <= j < |r| && r[j] == q;
      assert cs[j].id == x;
    }
  }

  lemma RemovedPostKeys(posts: seq<Post>, i: nat)
    requires i < |posts| && UniquePostKeys(posts)
    ensures UniquePostKeys(posts[..i] + posts[i + 1..])
  {
    var r := posts[..i] + posts[i + 1..];
    forall a, b | 0 <= a < b < |r| ensures r[a].id != r[b].id && r[a].slug != r[b].slug {
      var a' := if a < i then a else a + 1;
      var b' := if b < i then b else b + 1;
      assert r[a] == posts[a'] && r[b] == posts[b'];
    }
  }
}
