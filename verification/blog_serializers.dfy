/** The blog serializers: field validators that clean or reject a value,
    the construction of a new post or comment from validated input (the
    author and the post always come from the request, never from the
    body), the partial update of a post, the writable fields of a comment,
    and the nested reply threads of a comment. */
module BlogSerializers {
  import opened Wrappers
  import opened Text
  import opened BlogModels

  const TitleTooShort: string := "Title must be at least 3 characters long."
  const ContentTooShort: string := "Content must be at least 10 characters long."
  const ExcerptTooLong: string := "Excerpt cannot exceed 500 characters."
  const CommentTooShort: string := "Comment must be at least 2 characters long."
  const MaxExcerptInput: nat := 500

  /** The validator shape shared by titles, post and comment contents and
      user names: the value is measured after trimming, too short is an
      error on `field`, and an accepted value is returned trimmed. */
  function MinTrimmed(field: string, value: string, min: nat, message: string): (r: Result<string>)
    ensures r.Ok? <==> |Trim(value)| >= min
    ensures r.Ok? ==> r.value == Trim(value) && Edgeless(r.value) && |r.value| >= min
    ensures r.Err? ==> r.error == FieldInvalid(field, message)
  {
    var t := Trim(value);
    if |t| < min then Err(FieldInvalid(field, message)) else Ok(t)
  }

  /** A value the validator returned passes it again unchanged, so a
      stored cleaned value survives being re-submitted. */
  lemma MinTrimmedIdempotent(field: string, value: string, min: nat, message: string)
    requires MinTrimmed(field, value, min, message).Ok?
    ensures var v := MinTrimmed(field, value, min, message).value;
      MinTrimmed(field, v, min, message) == Ok(v)
  {
    TrimIdempotent(value);
  }

  /** Whitespace around a value changes nothing: the verdict and the
      cleaned value depend on the trimmed text only. */
  lemma MinTrimmedIgnoresPadding(field: string, value: string, min: nat, message: string)
    ensures MinTrimmed(field, value, min, message) == MinTrimmed(field, Trim(value), min, message)
  {
    TrimIdempotent(value);
  }

  /** `validate_title`, the same on create and on update. */
  function ValidateTitle(value: string): (r: Result<string>)
    ensures r.Ok? <==> |Trim(value)| >= 3
    ensures r.Ok? ==> r.value == Trim(value)
    ensures r.Err? ==> r.error == FieldInvalid("title", TitleTooShort)
  {
    MinTrimmed("title", value, 3, TitleTooShort)
  }

  /** `validate_content` of a post, the same on create and on update. */
  function ValidateContent(value: string): (r: Result<string>)
    ensures r.Ok? <==> |Trim(value)| >= 10
    ensures r.Ok? ==> r.value == Trim(value)
    ensures r.Err? ==> r.error == FieldInvalid("content", ContentTooShort)
  {
    MinTrimmed("content", value, 10, ContentTooShort)
  }

  /** `validate_excerpt`, the same on create and on update: the length
      limit is applied to the value as sent, before trimming, and the empty
      excerpt is passed through. */
  function ValidateExcerpt(value: string): (r: Result<string>)
    ensures r.Err? <==> |value| > MaxExcerptInput
    ensures r.Ok? ==> r.value == Trim(value) && |r.value| <= MaxExcerptInput
    ensures value == "" ==> r == Ok("")
    ensures r.Err? ==> r.error == FieldInvalid("excerpt", ExcerptTooLong)
  {
    if value != "" && |value| > MaxExcerptInput then Err(FieldInvalid("excerpt", ExcerptTooLong))
    else if value != "" then Ok(Trim(value))
    else Ok(value)
  }

  /** Comment `validate_content`. */
  function ValidateCommentContent(value: string): (r: Result<string>)
    ensures r.Ok? <==> |Trim(value)| >= 2
    ensures r.Ok? ==> r.value == Trim(value)
    ensures r.Err? ==> r.error == FieldInvalid("content", CommentTooShort)
  {
    MinTrimmed("content", value, 2, CommentTooShort)
  }

  /** The field errors of a validator's result. */
  function ErrorsOf(r: Result<string>): (errs: seq<FieldError>)
    ensures r.Err? && r.error.Invalid? ==> errs == r.error.errors
    ensures r.Ok? ==> errs == []
  {
    if r.Err? && r.error.Invalid? then r.error.errors else []
  }

  /** The writable fields of the post create serializer. Author, slug,
      counters and timestamps are not among them. */
  datatype BlogInput = BlogInput(
    title: string,
    content: string,
    excerpt: string,
    featuredImage: Option<string>,
    category: Option<nat>,
    tags: set<nat>,
    status: Status,
    isFeatured: bool,
    metaTitle: string,
    metaDescription: string)

  /** Field validation of a post body: every field validator runs and all
      their errors are reported together, in field order; when none fails,
      the title, content and excerpt are replaced by their cleaned values
      and the other fields are kept. */
  function ValidateBlog(input: BlogInput): (r: Result<BlogInput>)
    ensures r.Ok? <==> ValidateTitle(input.title).Ok? && ValidateContent(input.content).Ok? && ValidateExcerpt(input.excerpt).Ok?
    ensures r.Ok? ==> r.value == input.(title := ValidateTitle(input.title).value,
                                        content := ValidateContent(input.content).value,
                                        excerpt := ValidateExcerpt(input.excerpt).value)
    ensures r.Err? ==> r.error == Invalid(ErrorsOf(ValidateTitle(input.title)) + ErrorsOf(ValidateContent(input.content)) + ErrorsOf(ValidateExcerpt(input.excerpt)))
    ensures r.Err? ==> r.error.errors != []
  {
    var t := ValidateTitle(input.title);
    var c := ValidateContent(input.content);
    var e := ValidateExcerpt(input.excerpt);
    if t.Ok? && c.Ok? && e.Ok? then
      Ok(input.(title := t.value, content := c.value, excerpt := e.value))
    else
      Err(Invalid(ErrorsOf(t) + ErrorsOf(c) + ErrorsOf(e)))
  }

  /** `BlogCreateSerializer.create`: the new row takes the validated
      fields and the requesting user as author; the slug is left empty for
      `save` to derive, and the counters start at zero. */
  function NewPost(v: BlogInput, id: nat, caller: UserId): (p: Post)
    ensures p.author == caller && p.id == id
    ensures p.slug == "" && p.views == 0 && p.likes == 0 && p.publishedAt == None
    ensures p.title == v.title && p.content == v.content && p.excerpt == v.excerpt
    ensures p.featuredImage == v.featuredImage && p.category == v.category && p.tags == v.tags
    ensures p.status == v.status && p.isFeatured == v.isFeatured
    ensures p.metaTitle == v.metaTitle && p.metaDescription == v.metaDescription
  {
    Post(id, v.title, "", v.content, v.excerpt, v.featuredImage, caller, v.category, v.tags,
         v.status, v.isFeatured, v.metaTitle, v.metaDescription, 0, 0, None)
  }

  /** A partial update body: a field that is `None` was not sent. */
  datatype BlogPatch = BlogPatch(
    title: Option<string>,
    content: Option<string>,
    excerpt: Option<string>,
    featuredImage: Option<Option<string>>,
    category: Option<Option<nat>>,
    tags: Option<set<nat>>,
    status: Option<Status>,
    isFeatured: Option<bool>,
    metaTitle: Option<string>,
    metaDescription: Option<string>)

  function Pick<T>(sent: Option<T>, stored: T): T {
    if sent.Some? then sent.value else stored
  }

  /** `BlogUpdateSerializer`: the validators run on the fields that were
      sent, and their errors are collected; on success every sent field is
      written (cleaned) and everything else about the post, its id, slug,
      author and counters in particular, is kept. */
  function ApplyBlogPatch(p: Post, patch: BlogPatch): (r: Result<Post>)
    ensures r.Ok? <==>
      && (patch.title.Some? ==> ValidateTitle(patch.title.value).Ok?)
      && (patch.content.Some? ==> ValidateContent(patch.content.value).Ok?)
      && (patch.excerpt.Some? ==> ValidateExcerpt(patch.excerpt.value).Ok?)
    ensures r.Ok? ==>
      && r.value.id == p.id && r.value.slug == p.slug && r.value.author == p.author
      && r.value.views == p.views && r.value.likes == p.likes && r.value.publishedAt == p.publishedAt
      && r.value.title == (if patch.title.Some? then Trim(patch.title.value) else p.title)
      && r.value.content == (if patch.content.Some? then Trim(patch.content.value) else p.content)
      && r.value.excerpt == (if patch.excerpt.Some? then Trim(patch.excerpt.value) else p.excerpt)
      && r.value.status == Pick(patch.status, p.status)
      && r.value.isFeatured == Pick(patch.isFeatured, p.isFeatured)
      && r.value.featuredImage == Pick(patch.featuredImage, p.featuredImage)
      && r.value.category == Pick(patch.category, p.category)
      && r.value.tags == Pick(patch.tags, p.tags)
      && r.value.metaTitle == Pick(patch.metaTitle, p.metaTitle)
      && r.value.metaDescription == Pick(patch.metaDescription, p.metaDescription)
    ensures r.Err? ==> r.error == Invalid(
      (if patch.title.Some? then ErrorsOf(ValidateTitle(patch.title.value)) else [])
      + (if patch.content.Some? then ErrorsOf(ValidateContent(patch.content.value)) else [])
      + (if patch.excerpt.Some? then ErrorsOf(ValidateExcerpt(patch.excerpt.value)) else []))
    ensures r.Err? ==> r.error.errors != []
  {
    var t := if patch.title.Some? then ValidateTitle(patch.title.value) else Ok(p.title);
    var c := if patch.content.Some? then ValidateContent(patch.content.value) else Ok(p.content);
    var e := if patch.excerpt.Some? then ValidateExcerpt(patch.excerpt.value) else Ok(p.excerpt);
    if t.Ok? && c.Ok? && e.Ok? then
      Ok(p.(title := t.value,
            content := c.value,
            excerpt := e.value,
            featuredImage := Pick(patch.featuredImage, p.featuredImage),
            category := Pick(patch.category, p.category),
            tags := Pick(patch.tags, p.tags),
            status := Pick(patch.status, p.status),
            isFeatured := Pick(patch.isFeatured, p.isFeatured),
            metaTitle := Pick(patch.metaTitle, p.metaTitle),
            metaDescription := Pick(patch.metaDescription, p.metaDescription)))
    else
      Err(Invalid(ErrorsOf(t) + ErrorsOf(c) + ErrorsOf(e)))
  }

  /** An empty patch changes nothing. */
  lemma EmptyPatchKeepsPost(p: Post)
    ensures ApplyBlogPatch(p, BlogPatch(None, None, None, None, None, None, None, None, None, None)) == Ok(p)
  {
  }

  /** `CommentCreateSerializer.create`: only the content and the parent
      come from the body; the author is the caller, the post is the one
      named in the URL, and the comment starts approved. The id is given
      by the table on insertion. */
  function NewComment(content: string, parent: Option<nat>, caller: UserId, blog: nat): (c: Comment)
    ensures c.author == caller && c.blog == blog
    ensures c.content == content && c.parent == parent
    ensures c.isApproved
    ensures IsReply(c) <==> parent.Some?
  {
    Comment(0, blog, caller, parent, content, true)
  }

  /** The writable fields of `CommentSerializer`: content and parent. The
      id, post, author and approval flag are read-only and are kept. */
  function ApplyCommentUpdate(c: Comment, content: Option<string>, parent: Option<Option<nat>>): (r: Comment)
    ensures r.id == c.id && r.blog == c.blog && r.author == c.author && r.isApproved == c.isApproved
    ensures r.content == Pick(content, c.content) && r.parent == Pick(parent, c.parent)
  {
    c.(content := Pick(content, c.content), parent := Pick(parent, c.parent))
  }

  /** A serialized comment with its serialized replies. */
  datatype Thread = Thread(comment: Comment, replies: seq<Thread>)

  /** Every reply, at every depth, is an approved comment of the table
      whose parent is the comment it is listed under. */
  ghost predicate Moderated(t: Thread, all: seq<Comment>)
    decreases t
  {
    forall i | 0 <= i < |t.replies| ::
      && t.replies[i].comment in all
      && t.replies[i].comment.isApproved
      && t.replies[i].comment.parent == Some(t.comment.id)
      && Moderated(t.replies[i], all)
  }

  /** `get_replies` of the comment with id `parent`, scanning `rest` (a
      suffix of the table `all`): the approved direct replies in table
      order, each with its own replies. `fuel` bounds the nesting depth
      (below it the replies list is empty). */
  function Replies(rest: seq<Comment>, all: seq<Comment>, parent: nat, fuel: nat): (r: seq<Thread>)
    ensures forall i | 0 <= i < |r| ::
      && r[i].comment in rest
      && r[i].comment.isApproved
      && r[i].comment.parent == Some(parent)
      && Moderated(r[i], all)
    ensures |r| <= |rest|
    decreases fuel, |rest|
  {
    if rest == [] then []
    else
      var tail := Replies(rest[1..], all, parent, fuel);
      var c := rest[0];
      assert forall d | d in tail :: d.comment in rest[1..];
      if c.isApproved && c.parent == Some(parent) then
        var below := if fuel == 0 then [] else Replies(all, all, c.id, fuel - 1);
        [Thread(c, below)] + tail
      else tail
  }

  /** Some thread of `ts` renders `c` at its top. */
  predicate Lists(ts: seq<Thread>, c: Comment) {
    exists i | 0 <= i < |ts| :: ts[i].comment == c
  }

  /** No approved direct reply in `rest` is left out. */
  lemma {:induction false} RepliesComplete(rest: seq<Comment>, all: seq<Comment>, parent: nat, fuel: nat)
    ensures forall c: Comment :: c in rest && c.isApproved && c.parent == Some(parent) ==>
      Lists(Replies(rest, all, parent, fuel), c)
  {
    forall c: Comment | c in rest && c.isApproved && c.parent == Some(parent)
      ensures Lists(Replies(rest, all, parent, fuel), c)
    {
      RepliesListed(rest, all, parent, fuel, c);
    }
  }

  lemma {:induction false} RepliesListed(rest: seq<Comment>, all: seq<Comment>, parent: nat, fuel: nat, c: Comment)
    requires c in rest && c.isApproved && c.parent == Some(parent)
    ensures Lists(Replies(rest, all, parent, fuel), c)
    decreases |rest|
  {
    var r := Replies(rest, all, parent, fuel);
    var tail := Replies(rest[1..], all, parent, fuel);
    var head := rest[0];
    if head.isApproved && head.parent == Some(parent) {
      var below := if fuel == 0 then [] else Replies(all, all, head.id, fuel - 1);
      assert r == [Thread(head, below)] + tail;
      if c == head {
        assert r[0].comment == c;
      } else {
        assert c in rest[1..];
        RepliesListed(rest[1..], all, parent, fuel, c);
        var j :| 0 <= j < |tail| && tail[j].comment == c;
        assert r[j + 1].comment == c;
      }
    } else {
      assert r == tail;
      assert c in rest[1..];
      RepliesListed(rest[1..], all, parent, fuel, c);
    }
  }

  /** Down to `depth` levels, every approved direct reply in `all` of a
      rendered comment is listed under it. */
  ghost predicate Complete(t: Thread, all: seq<Comment>, depth: nat)
    decreases t
  {
    depth > 0 ==>
      && (forall d | d in all && d.isApproved && d.parent == Some(t.comment.id) :: Lists(t.replies, d))
      && (forall i | 0 <= i < |t.replies| :: Complete(t.replies[i], all, depth - 1))
  }

  /** Each thread `Replies` renders is complete down to the fuel it was
      given. */
  lemma {:induction false} RepliesCompleteAtDepth(rest: seq<Comment>, all: seq<Comment>, parent: nat, fuel: nat)
    ensures forall i | 0 <= i < |Replies(rest, all, parent, fuel)| ::
      Complete(Replies(rest, all, parent, fuel)[i], all, fuel)
    decreases fuel, |rest|
  {
    if rest != [] {
      var r := Replies(rest, all, parent, fuel);
      var tail := Replies(rest[1..], all, parent, fuel);
      RepliesCompleteAtDepth(rest[1..], all, parent, fuel);
      var head := rest[0];
      if head.isApproved && head.parent == Some(parent) {
        var below := if fuel == 0 then [] else Replies(all, all, head.id, fuel - 1);
        assert r == [Thread(head, below)] + tail;
        RenderedComplete(all, head, fuel);
        assert forall i | 1 <= i < |r| :: r[i] == tail[i - 1];
      } else {
        assert r == tail;
      }
    }
  }

  /** One comment rendered with `fuel` levels of replies is complete to
      that depth. */
  lemma {:induction false} RenderedComplete(all: seq<Comment>, c: Comment, fuel: nat)
    ensures Complete(Thread(c, if fuel == 0 then [] else Replies(all, all, c.id, fuel - 1)), all, fuel)
    decreases fuel, 0
  {
    if fuel > 0 {
      var below := Replies(all, all, c.id, fuel - 1);
      RepliesComplete(all, all, c.id, fuel - 1);
      RepliesCompleteAtDepth(all, all, c.id, fuel - 1);
      assert forall d | d in all && d.isApproved && d.parent == Some(c.id) :: Lists(below, d);
      assert forall i | 0 <= i < |below| :: Complete(below[i], all, fuel - 1);
    }
  }

  /** The thread of one comment as the comment serializer renders it. */
  function ThreadOf(all: seq<Comment>, c: Comment, fuel: nat): (t: Thread)
    ensures t.comment == c && Moderated(t, all)
    ensures Complete(t, all, fuel)
  {
    RenderedComplete(all, c, fuel);
    if fuel == 0 then Thread(c, [])
    else
      RepliesComplete(all, all, c.id, fuel - 1);
      Thread(c, Replies(all, all, c.id, fuel - 1))
  }

  /** Whether `c` is rendered anywhere below the top of `t`. */
  ghost predicate Nested(t: Thread, c: Comment)
    decreases t
  {
    exists i | 0 <= i < |t.replies| :: t.replies[i].comment == c || Nested(t.replies[i], c)
  }

  /** An unapproved comment is never rendered as a reply, at any depth. */
  lemma {:induction false} UnapprovedNeverNested(t: Thread, all: seq<Comment>, c: Comment)
    requires Moderated(t, all) && !c.isApproved
    ensures !Nested(t, c)
    decreases t
  {
    forall i | 0 <= i < |t.replies| ensures t.replies[i].comment != c && !Nested(t.replies[i], c) {
      UnapprovedNeverNested(t.replies[i], all, c);
    }
  }
}
