/** The Django blog models: categories, tags, posts and comments, the fields
    that `save` derives (slug, excerpt, publication time) and the read-only
    accessors (word count, reading time, SEO fallbacks, `is_reply`).
    `slugify` and the clock are parameters: the model says when they are
    consulted, not what they compute. */
module BlogModels {
  import opened Wrappers
  import opened Text

  type UserId = nat

  /** A reading of `timezone.now()`. */
  type Time = nat

  datatype Status = Draft | Published

  datatype Category = Category(id: nat, name: string, slug: string, description: string)

  datatype Tag = Tag(id: nat, name: string, slug: string)

  /** A row of the blog table. Timestamps other than `published_at` and the
      stored image file are left out. */
  datatype Post = Post(
    id: nat,
    title: string,
    slug: string,
    content: string,
    excerpt: string,
    featuredImage: Option<string>,
    author: UserId,
    category: Option<nat>,
    tags: set<nat>,
    status: Status,
    isFeatured: bool,
    metaTitle: string,
    metaDescription: string,
    views: nat,
    likes: nat,
    publishedAt: Option<Time>)

  /** A row of the comment table; `parent` is the id of the comment this one
      replies to. */
  datatype Comment = Comment(
    id: nat,
    blog: nat,
    author: UserId,
    parent: Option<nat>,
    content: string,
    isApproved: bool)

  const ExcerptLength: nat := 150
  const Ellipsis: string := "..."
  const WordsPerMinute: nat := 200

  // ---------------------------------------------------------------------
  // Slugs of categories and tags

  /** `Category.save`: an empty slug is filled from the name; a non-empty
      slug is kept, and nothing else changes. */
  function CategoryOnSave(c: Category, slugify: string -> string): (r: Category)
    ensures r == c.(slug := r.slug)
    ensures c.slug != "" ==> r.slug == c.slug
    ensures c.slug == "" ==> r.slug == slugify(c.name)
  {
    if c.slug == "" then c.(slug := slugify(c.name)) else c
  }

  /** `Tag.save`: the same rule as for categories. */
  function TagOnSave(t: Tag, slugify: string -> string): (r: Tag)
    ensures r == t.(slug := r.slug)
    ensures t.slug != "" ==> r.slug == t.slug
    ensures t.slug == "" ==> r.slug == slugify(t.name)
  {
    if t.slug == "" then t.(slug := slugify(t.name)) else t
  }

  /** Once a category has a slug, renaming it and saving again keeps that
      slug. */
  lemma CategorySlugStable(c: Category, slugify: string -> string, newName: string)
    requires CategoryOnSave(c, slugify).slug != ""
    ensures CategoryOnSave(CategoryOnSave(c, slugify).(name := newName), slugify).slug
         == CategoryOnSave(c, slugify).slug
  {
  }

  // ---------------------------------------------------------------------
  // Tag stripping: `re.sub(r'<[^>]+>', '', s)`

  /** Index of the first '>' in `s`, or |s| when there is none. */
  function CloseIndex(s: string): (k: nat)
    ensures k <= |s|
    ensures '>' !in s[..k]
    ensures k < |s| ==> s[k] == '>'
  {
    if s == [] then 0
    else if s[0] == '>' then 0
    else 1 + CloseIndex(s[1..])
  }

  /** A tag starts at the front of `s`: a '<', one or more characters other
      than '>', then a '>'. It ends at `CloseIndex(s)`. */
  predicate TagAtFront(s: string) {
    s != [] && s[0] == '<' && 2 <= CloseIndex(s) < |s|
  }

  /** The left-to-right scan of `re.sub(r'<[^>]+>', '', s)`: a tag at the
      scan position is deleted whole and the scan resumes after its '>';
      any other character, including a '<' that opens no tag, is copied. */
  function StripTags(s: string): (r: string)
    ensures |r| <= |s|
    ensures '<' !in s ==> r == s
    decreases |s|
  {
    if s == [] then []
    else if TagAtFront(s) then StripTags(s[CloseIndex(s) + 1..])
    else [s[0]] + StripTags(s[1..])
  }

  /** Stripping never introduces a '>'. */
  lemma {:induction false} StripTagsNoNewClose(s: string)
    requires '>' !in s
    ensures '>' !in StripTags(s)
    decreases |s|
  {
    if s != [] {
      assert '>' !in s[1..] by { assert forall x | x in s[1..] :: x in s; }
      StripTagsNoNewClose(s[1..]);
      assert !TagAtFront(s);
    }
  }

  /** Stripping is idempotent: the result contains no tag left to strip. */
  lemma {:induction false} StripTagsIdempotent(s: string)
    ensures StripTags(StripTags(s)) == StripTags(s)
    decreases |s|
  {
    if s == [] {
    } else if TagAtFront(s) {
      StripTagsIdempotent(s[CloseIndex(s) + 1..]);
    } else {
      var rest := StripTags(s[1..]);
      var r := [s[0]] + rest;
      assert StripTags(s) == r;
      StripTagsIdempotent(s[1..]);
      assert r[1..] == rest;
      if s[0] != '<' {
        assert !TagAtFront(r);
      } else if CloseIndex(s) == |s| {
        assert '>' !in s[1..] by {
          assert s[1..] == s[..|s|][1..];
        }
        StripTagsNoNewClose(s[1..]);
        assert '>' !in r;
        assert CloseIndex(r) == |r|;
        assert !TagAtFront(r);
      } else {
        assert CloseIndex(s) == 1;
        assert s[1] == '>';
        assert !TagAtFront(s[1..]);
        assert rest == ['>'] + StripTags(s[2..]) by { assert s[1..][1..] == s[2..]; }
        assert r[1] == '>';
        assert CloseIndex(r) == 1;
        assert !TagAtFront(r);
      }
    }
  }

  /** Without a '>' the first '>' is past the end. */
  lemma CloseIndexNoClose(s: string)
    requires '>' !in s
    ensures CloseIndex(s) == |s|
  {
  }

  /** A '>' inside `s` is found before anything appended after it. */
  lemma {:induction false} CloseIndexWithin(s: string, rest: string)
    requires CloseIndex(s) < |s|
    ensures CloseIndex(s + rest) == CloseIndex(s)
    decreases |s|
  {
    if s[0] != '>' {
      assert (s + rest)[1..] == s[1..] + rest;
      CloseIndexWithin(s[1..], rest);
    }
  }

  /** Text free of '>' is skipped whole by the search for the first '>'. */
  lemma {:induction false} CloseIndexAfter(t: string, rest: string)
    requires '>' !in t
    ensures CloseIndex(t + rest) == |t| + CloseIndex(rest)
    decreases |t|
  {
    if t == [] {
      assert t + rest == rest;
    } else {
      assert t[0] in t;
      assert (t + rest)[0] == t[0];
      assert '>' !in t[1..] by { assert forall x | x in t[1..] :: x in t; }
      assert (t + rest)[1..] == t[1..] + rest;
      CloseIndexAfter(t[1..], rest);
    }
  }

  /** Text without '>' holds no tag, so stripping leaves it unchanged. */
  lemma {:induction false} StripTagsNoClose(s: string)
    requires '>' !in s
    ensures StripTags(s) == s
    decreases |s|
  {
    if s != [] {
      CloseIndexNoClose(s);
      assert !TagAtFront(s);
      assert '>' !in s[1..] by { assert forall x | x in s[1..] :: x in s; }
      StripTagsNoClose(s[1..]);
    }
  }

  /** Appending text without '>' never completes a tag, so the appended
      text is kept and the rest strips as it would alone. */
  lemma {:induction false} StripTagsAppendUnclosed(a: string, b: string)
    requires '>' !in b
    ensures StripTags(a + b) == StripTags(a) + b
    decreases |a|
  {
    if a == [] {
      assert a + b == b;
      StripTagsNoClose(b);
    } else {
      var s := a + b;
      if CloseIndex(a) < |a| {
        CloseIndexWithin(a, b);
      } else {
        assert a[..|a|] == a;
        assert '>' !in s by {
          forall x | x in s ensures x != '>' {
            assert x in a || x in b;
          }
        }
        CloseIndexNoClose(s);
      }
      if TagAtFront(a) {
        var k := CloseIndex(a);
        assert TagAtFront(s);
        assert s[k + 1..] == a[k + 1..] + b;
        StripTagsAppendUnclosed(a[k + 1..], b);
      } else {
        assert !TagAtFront(s);
        assert s[1..] == a[1..] + b;
        StripTagsAppendUnclosed(a[1..], b);
      }
    }
  }

  /** A '<' with no later '>' opens no tag: it and everything after it are
      kept, and what precedes it strips as it would alone. */
  lemma StripTagsKeepsUnclosed(a: string, b: string)
    requires '>' !in b
    ensures StripTags(a + "<" + b) == StripTags(a) + "<" + b
  {
    assert a + "<" + b == a + ("<" + b);
    assert '>' !in "<" + b by {
      forall x | x in "<" + b ensures x != '>' {
        assert x == '<' || x in b;
      }
    }
    StripTagsAppendUnclosed(a, "<" + b);
  }

  /** A literal "<>" opens no tag, since the pattern needs a character
      between the brackets: it is kept, and the scan goes on after it. */
  lemma StripTagsKeepsEmptyBrackets(s: string)
    ensures StripTags("<>" + s) == "<>" + StripTags(s)
  {
    var u := "<>" + s;
    assert u[2..] == s;
    EmptyBracketsKept(u);
  }

  /** The same, stated on a text that starts with "<>". */
  lemma EmptyBracketsKept(u: string)
    requires |u| >= 2 && u[0] == '<' && u[1] == '>'
    ensures StripTags(u) == u[..2] + StripTags(u[2..])
  {
    assert CloseIndex(u[1..]) == 0;
    assert !TagAtFront(u);
    assert StripTags(u) == [u[0]] + StripTags(u[1..]);
    assert !TagAtFront(u[1..]);
    assert u[1..][1..] == u[2..];
    assert StripTags(u[1..]) == [u[1]] + StripTags(u[2..]);
  }

  /** A complete tag at the scan position is removed whole, and the scan
      goes on after its '>'. */
  lemma StripTagsRemovesMarkup(t: string, s: string)
    requires t != [] && '>' !in t
    ensures StripTags("<" + t + ">" + s) == StripTags(s)
  {
    var u := "<" + t + ">" + s;
    assert '>' !in "<" + t by {
      forall x | x in "<" + t ensures x != '>' {
        assert x == '<' || x in t;
      }
    }
    assert u == ("<" + t) + (">" + s);
    CloseIndexAfter("<" + t, ">" + s);
    assert CloseIndex(u) == |t| + 1;
    assert TagAtFront(u);
    assert u[|t| + 2..] == s;
  }

  // ---------------------------------------------------------------------
  // Blog.save

  /** The excerpt `save` derives from non-empty content: the tag-stripped
      text when it is at most 150 characters, else its first 150
      characters followed by "...". */
  function DerivedExcerpt(content: string): string
  {
    var plain := StripTags(content);
    if |plain| > ExcerptLength then plain[..ExcerptLength] + Ellipsis else plain
  }

  /** The derived excerpt is at most 153 characters long; it is the
      stripped text itself when that text fits in 150 characters, and
      otherwise the stripped text's first 150 characters and an
      ellipsis. */
  lemma DerivedExcerptShape(content: string)
    ensures |DerivedExcerpt(content)| <= ExcerptLength + |Ellipsis|
    ensures |StripTags(content)| <= ExcerptLength ==> DerivedExcerpt(content) == StripTags(content)
    ensures |StripTags(content)| > ExcerptLength ==>
      && DerivedExcerpt(content)[..ExcerptLength] == StripTags(content)[..ExcerptLength]
      && DerivedExcerpt(content)[ExcerptLength..] == Ellipsis
  {
    var plain := StripTags(content);
    if |plain| > ExcerptLength {
      assert |DerivedExcerpt(content)| == ExcerptLength + 3;
    }
  }

  /** What `Blog.save` does to the instance before writing it: an empty
      slug is filled from the title, an empty excerpt is derived from
      non-empty content, and a published post without a publication time
      gets `now`. Nothing else changes, and each of the three is filled
      only when it is empty. */
  function PostOnSave(p: Post, slugify: string -> string, now: Time): (r: Post)
    ensures r == p.(slug := r.slug, excerpt := r.excerpt, publishedAt := r.publishedAt)
    ensures p.slug != "" ==> r.slug == p.slug
    ensures p.slug == "" ==> r.slug == slugify(p.title)
    ensures p.excerpt != "" ==> r.excerpt == p.excerpt
    ensures p.excerpt == "" && p.content != "" ==> r.excerpt == DerivedExcerpt(p.content)
    ensures p.excerpt == "" && p.content == "" ==> r.excerpt == ""
    ensures p.publishedAt.Some? ==> r.publishedAt == p.publishedAt
  {
    var slug := if p.slug == "" then slugify(p.title) else p.slug;
    var excerpt := if p.excerpt == "" && p.content != "" then DerivedExcerpt(p.content) else p.excerpt;
    var publishedAt := if p.status == Published && p.publishedAt.None? then Some(now) else p.publishedAt;
    p.(slug := slug, excerpt := excerpt, publishedAt := publishedAt)
  }

  /** The publication time is set exactly when a published post has none,
      and a draft without one keeps none. */
  lemma PostOnSavePublication(p: Post, slugify: string -> string, now: Time)
    ensures var r := PostOnSave(p, slugify, now);
      && (r.publishedAt.None? <==> p.publishedAt.None? && p.status == Draft)
      && (p.publishedAt.None? && p.status == Published ==> r.publishedAt == Some(now))
  {
  }

  /** Saving again, at any later time, changes nothing: every derived field
      is derived at most once. */
  lemma PostOnSaveIdempotent(p: Post, slugify: string -> string, now: Time, later: Time)
    ensures PostOnSave(PostOnSave(p, slugify, now), slugify, later) == PostOnSave(p, slugify, now)
  {
  }

  /** After an edit of the title, the content or the status, a post that
      already had a slug, an excerpt or a publication time keeps them. */
  lemma PostOnSaveAfterEdit(p: Post, slugify: string -> string, now: Time, later: Time,
                            title: string, content: string, status: Status)
    requires var r := PostOnSave(p, slugify, now); r.slug != "" && r.excerpt != ""
    ensures var r := PostOnSave(p, slugify, now);
      var r' := PostOnSave(r.(title := title, content := content, status := status), slugify, later);
      && r'.slug == r.slug
      && r'.excerpt == r.excerpt
      && (r.publishedAt.Some? ==> r'.publishedAt == r.publishedAt)
  {
  }

  // ---------------------------------------------------------------------
  // Read accessors

  /** `word_count`: the number of whitespace-separated tokens. It is
      zero exactly for blank content. */
  function WordCount(content: string): (n: nat)
    ensures n == 0 <==> AllSpace(content)
    ensures n <= |content|
  {
    WordsFitIn(content);
    |Words(content)|
  }

  /** Python's `round(n / 200)` for a non-negative numerator: to the
      nearest integer, ties to the even neighbour. */
  function RoundPer200(n: nat): nat
  {
    var q, r := n / 200, n % 200;
    if r < 100 then q
    else if r > 100 then q + 1
    else if q % 2 == 0 then q
    else q + 1
  }

  /** `q` is a nearest integer to n / 200, and the even one on a tie. */
  predicate IsRoundedPer200(n: nat, q: int)
  {
    var dist := if 200 * q >= n then 200 * q - n else n - 200 * q;
    && dist <= 100
    && (dist == 100 ==> q % 2 == 0)
  }

  /** `RoundPer200` meets the rounding rule, and it is the only value that
      does. */
  lemma RoundPer200Correct(n: nat, q': int)
    ensures IsRoundedPer200(n, RoundPer200(n))
    ensures IsRoundedPer200(n, q') ==> q' == RoundPer200(n)
  {
    var q, r := n / 200, n % 200;
    assert n == 200 * q + r;
    if IsRoundedPer200(n, q') {
      if q' == q + 1 {
        assert 200 * q' == 200 * q + 200;
      }
    }
  }

  /** `reading_time`: `max(1, round(word_count / 200))` minutes. */
  function ReadingTime(content: string): (minutes: nat)
    ensures minutes >= 1
    ensures WordCount(content) > 100 ==> IsRoundedPer200(WordCount(content), minutes)
  {
    var rounded := RoundPer200(WordCount(content));
    RoundPer200Correct(WordCount(content), rounded);
    if rounded > 1 then rounded else 1
  }

  /** Reading times for the tie cases: 100 words round down to 0 and are
      lifted to 1, 300 words round to 2, 500 words round to 2. */
  lemma ReadingTimeTies(content: string)
    ensures WordCount(content) == 300 ==> ReadingTime(content) == 2
    ensures WordCount(content) == 500 ==> ReadingTime(content) == 2
    ensures WordCount(content) <= 100 ==> ReadingTime(content) == 1
  {
  }

  /** `get_meta_title`: the SEO title when it is set, else the title. */
  function MetaTitle(p: Post): (r: string)
    ensures p.metaTitle != "" ==> r == p.metaTitle
    ensures p.metaTitle == "" ==> r == p.title
  {
    if p.metaTitle != "" then p.metaTitle else p.title
  }

  /** `get_meta_description`: the SEO description when it is set, else the
      excerpt. */
  function MetaDescription(p: Post): (r: string)
    ensures p.metaDescription != "" ==> r == p.metaDescription
    ensures p.metaDescription == "" ==> r == p.excerpt
  {
    if p.metaDescription != "" then p.metaDescription else p.excerpt
  }

  /** `Comment.is_reply`. */
  function IsReply(c: Comment): (b: bool)
    ensures b <==> c.parent.Some?
  {
    c.parent.Some?
  }
}
