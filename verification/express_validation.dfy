/** The express-validator chains of the Express server: `validateBlog`
    (also written out a second time, identically, as the blog router's
    `blogValidation`) and `validateUser`. Every chain of a request runs;
    the request fails with all failing fields' messages, in chain order.
    The trim and email-normalizing sanitizers rewrite the body that the
    handler then reads. `undefined` (a field not sent) is `None`; an
    `optional()` field is skipped only then. `isURL`, `isEmail` and
    `normalizeEmail` are the library's checks, passed in. */
module ExpressValidation {
  import opened Wrappers
  import opened Text

  const MinTitle: nat := 3
  const MaxTitle: nat := 200
  const MinContent: nat := 10
  const MaxExcerpt: nat := 300
  const MinName: nat := 2
  const MaxName: nat := 50
  const MinPassword: nat := 6

  const TitleLength: string := "Title must be between 3 and 200 characters"
  const ContentLength: string := "Content must be at least 10 characters long"
  const ExcerptLength: string := "Excerpt cannot be more than 300 characters"
  const TagsNotString: string := "Tags must be a string"
  const ImageNotUrl: string := "Featured image must be a valid URL"
  const NameLength: string := "Name must be between 2 and 50 characters"
  const EmailInvalid: string := "Please enter a valid email"
  const PasswordLength: string := "Password must be at least 6 characters long"

  /** A JSON body value the `tags` check tells apart: a string, or
      anything else (array, number, object). */
  datatype BodyValue = Text(s: string) | NotString

  /** The fields of a blog request body the chain and the handlers read. */
  datatype BlogBody = BlogBody(
    title: Option<string>,
    content: Option<string>,
    excerpt: Option<string>,
    tags: Option<BodyValue>,
    featuredImage: Option<string>)

  /** The body as the chain leaves it for the handler: title, content and
      a present excerpt trimmed, tags (when present) a string. */
  datatype CleanBlog = CleanBlog(
    title: string,
    content: string,
    excerpt: Option<string>,
    tags: Option<string>,
    featuredImage: Option<string>)

  /** A missing field reads as the empty string to a validator. */
  function OrEmpty(s: Option<string>): string {
    if s.Some? then s.value else ""
  }

  predicate TitleOk(body: BlogBody) {
    MinTitle <= |Trim(OrEmpty(body.title))| <= MaxTitle
  }

  predicate ContentOk(body: BlogBody) {
    |Trim(OrEmpty(body.content))| >= MinContent
  }

  predicate ExcerptOk(body: BlogBody) {
    body.excerpt.Some? ==> |Trim(body.excerpt.value)| <= MaxExcerpt
  }

  predicate TagsOk(body: BlogBody) {
    body.tags.Some? ==> body.tags.value.Text?
  }

  predicate ImageOk(body: BlogBody, isURL: string -> bool) {
    body.featuredImage.Some? ==> isURL(body.featuredImage.value)
  }

  /** The body a passing chain hands on satisfies the limits the chain
      checks, measured on the trimmed values it stored. */
  predicate IsClean(b: CleanBlog) {
    && Edgeless(b.title) && MinTitle <= |b.title| <= MaxTitle
    && Edgeless(b.content) && |b.content| >= MinContent
    && (b.excerpt.Some? ==> Edgeless(b.excerpt.value) && |b.excerpt.value| <= MaxExcerpt)
  }

  /** The error a failed check reports: one entry, or none. */
  function Check(ok: bool, field: string, message: string): (errs: seq<FieldError>)
    ensures ok <==> errs == []
    ensures !ok ==> errs == [FieldError(field, message)]
    ensures forall y | y in errs :: y.field == field
  {
    if ok then [] else [FieldError(field, message)]
  }

  /** Every error the blog chain can report, in chain order. */
  const BlogChain: seq<FieldError> := [
    FieldError("title", TitleLength), FieldError("content", ContentLength),
    FieldError("excerpt", ExcerptLength), FieldError("tags", TagsNotString),
    FieldError("featuredImage", ImageNotUrl)]

  /** The position of a field's check in the blog chain. */
  function ChainRank(field: string): nat {
    if field == "title" then 0
    else if field == "content" then 1
    else if field == "excerpt" then 2
    else if field == "tags" then 3
    else 4
  }

  /** Errors listed strictly in chain order: no field twice, none out of
      turn. */
  predicate InChainOrder(errs: seq<FieldError>) {
    forall i, j | 0 <= i < j < |errs| :: ChainRank(errs[i].field) < ChainRank(errs[j].field)
  }

  /** Every listed error comes from a check before position `rank`. */
  predicate RanksBelow(errs: seq<FieldError>, rank: nat) {
    forall k | 0 <= k < |errs| :: ChainRank(errs[k].field) < rank
  }

  /** Appending the report of the check at position `rank`, which comes
      after every listed one, keeps the list in chain order. */
  lemma AppendInChainOrder(errs: seq<FieldError>, more: seq<FieldError>, rank: nat)
    requires rank < |BlogChain|
    requires InChainOrder(errs) && RanksBelow(errs, rank)
    requires more == [] || more == [BlogChain[rank]]
    ensures InChainOrder(errs + more) && RanksBelow(errs + more, rank + 1)
    ensures forall y | y in errs + more :: y in errs || y == BlogChain[rank]
  {
    assert ChainRank(BlogChain[rank].field) == rank;
    var all := errs + more;
    assert forall k | 0 <= k < |errs| :: all[k] == errs[k];
    assert forall k | |errs| <= k < |all| :: all[k] == BlogChain[rank];
  }

  /** Five checks' reports, each empty or its own chain entry, concatenate
      to a list of chain entries in chain order. */
  lemma ChainOfFive(a: seq<FieldError>, b: seq<FieldError>, c: seq<FieldError>, d: seq<FieldError>, e: seq<FieldError>)
    requires a == [] || a == [BlogChain[0]]
    requires b == [] || b == [BlogChain[1]]
    requires c == [] || c == [BlogChain[2]]
    requires d == [] || d == [BlogChain[3]]
    requires e == [] || e == [BlogChain[4]]
    ensures InChainOrder(a + b + c + d + e)
    ensures forall y | y in a + b + c + d + e :: y in BlogChain
  {
    assert [] + a == a;
    AppendInChainOrder([], a, 0);
    AppendInChainOrder(a, b, 1);
    AppendInChainOrder(a + b, c, 2);
    AppendInChainOrder(a + b + c, d, 3);
    AppendInChainOrder(a + b + c + d, e, 4);
  }

  /** The errors of the blog chain given the outcome of each check, one
      per failing field, in chain order: title, content, excerpt, tags,
      featured image. */
  function BlogChainErrors(title: bool, content: bool, excerpt: bool, tags: bool, image: bool): (errs: seq<FieldError>)
    ensures |errs| <= 5
    ensures forall y | y in errs :: y in BlogChain
    ensures InChainOrder(errs)
    ensures errs == [] <==> title && content && excerpt && tags && image
    ensures FieldError("title", TitleLength) in errs <==> !title
    ensures FieldError("content", ContentLength) in errs <==> !content
    ensures FieldError("excerpt", ExcerptLength) in errs <==> !excerpt
    ensures FieldError("tags", TagsNotString) in errs <==> !tags
    ensures FieldError("featuredImage", ImageNotUrl) in errs <==> !image
  {
    var a := Check(title, "title", TitleLength);
    var b := Check(content, "content", ContentLength);
    var c := Check(excerpt, "excerpt", ExcerptLength);
    var d := Check(tags, "tags", TagsNotString);
    var e := Check(image, "featuredImage", ImageNotUrl);
    InFive(FieldError("title", TitleLength), a, b, c, d, e);
    InFive(FieldError("content", ContentLength), a, b, c, d, e);
    InFive(FieldError("excerpt", ExcerptLength), a, b, c, d, e);
    InFive(FieldError("tags", TagsNotString), a, b, c, d, e);
    InFive(FieldError("featuredImage", ImageNotUrl), a, b, c, d, e);
    ChainOfFive(a, b, c, d, e);
    a + b + c + d + e
  }

  /** The errors of the blog chain on a body. */
  function BlogErrors(body: BlogBody, isURL: string -> bool): (errs: seq<FieldError>)
    ensures |errs| <= 5
    ensures errs == [] <==> TitleOk(body) && ContentOk(body) && ExcerptOk(body) && TagsOk(body) && ImageOk(body, isURL)
    ensures FieldError("title", TitleLength) in errs <==> !TitleOk(body)
    ensures FieldError("content", ContentLength) in errs <==> !ContentOk(body)
    ensures FieldError("excerpt", ExcerptLength) in errs <==> !ExcerptOk(body)
    ensures FieldError("tags", TagsNotString) in errs <==> !TagsOk(body)
    ensures FieldError("featuredImage", ImageNotUrl) in errs <==> !ImageOk(body, isURL)
  {
    BlogChainErrors(TitleOk(body), ContentOk(body), ExcerptOk(body), TagsOk(body), ImageOk(body, isURL))
  }

  /** Membership in a concatenation of five lists. */
  lemma InFive<T>(x: T, a: seq<T>, b: seq<T>, c: seq<T>, d: seq<T>, e: seq<T>)
    ensures x in a + b + c + d + e <==> x in a || x in b || x in c || x in d || x in e
  {
  }

  /** `validateBlog` (and the router's identical `blogValidation`):
      the title's trimmed length lies in [3, 200], the content's trimmed
      length is at least 10, a present excerpt's trimmed length is at most
      300, present tags are a string, a present featured image is a URL.
      The request passes exactly when all five hold, and then the handler
      reads the trimmed values; otherwise it fails with `BlogErrors`. */
  function ValidateBlog(body: BlogBody, isURL: string -> bool): (r: Result<CleanBlog>)
    ensures r.Ok? <==> TitleOk(body) && ContentOk(body) && ExcerptOk(body) && TagsOk(body) && ImageOk(body, isURL)
    ensures r.Ok? ==> IsClean(r.value)
    ensures r.Ok? ==>
      && r.value.title == Trim(OrEmpty(body.title)) && r.value.content == Trim(OrEmpty(body.content))
      && (body.excerpt.Some? <==> r.value.excerpt.Some?)
      && (body.excerpt.Some? ==> r.value.excerpt.value == Trim(body.excerpt.value))
      && (body.tags.Some? <==> r.value.tags.Some?)
      && (body.tags.Some? ==> body.tags.value == Text(r.value.tags.value))
      && r.value.featuredImage == body.featuredImage
    ensures r.Err? ==> r.error == Invalid(BlogErrors(body, isURL)) && BlogErrors(body, isURL) != []
  {
    var errs := BlogErrors(body, isURL);
    if errs != [] then Err(Invalid(errs))
    else
      var title := Trim(OrEmpty(body.title));
      var content := Trim(OrEmpty(body.content));
      if body.excerpt.Some? then
        Ok(CleanBlog(title, content, Some(Trim(body.excerpt.value)), TagText(body.tags), body.featuredImage))
      else
        Ok(CleanBlog(title, content, None, TagText(body.tags), body.featuredImage))
  }

  /** The string a `tags` value holds, when it is one. */
  function TagText(tags: Option<BodyValue>): (r: Option<string>)
    ensures tags.Some? && tags.value.Text? <==> r.Some?
    ensures r.Some? ==> tags == Some(Text(r.value))
  {
    if tags.Some? && tags.value.Text? then Some(tags.value.s) else None
  }

  /** Surrounding whitespace decides nothing: padding a title, content or
      excerpt with blanks neither makes a failing body pass nor a passing
      one fail, and the handler sees the same text. */
  lemma PaddingIsIgnored(body: BlogBody, isURL: string -> bool, pad: string)
    requires AllSpace(pad) && body.title.Some?
    ensures var padded := body.(title := Some(pad + body.title.value + pad));
      && ValidateBlog(padded, isURL).Ok? == ValidateBlog(body, isURL).Ok?
      && (ValidateBlog(body, isURL).Ok? ==> ValidateBlog(padded, isURL).value == ValidateBlog(body, isURL).value)
  {
    TrimPadded(body.title.value, pad);
  }

  /** The fields of a registration body `validateUser` checks. */
  datatype UserBody = UserBody(name: Option<string>, email: Option<string>, password: Option<string>)

  datatype CleanUser = CleanUser(name: string, email: string, password: string)

  predicate NameOk(body: UserBody) {
    MinName <= |Trim(OrEmpty(body.name))| <= MaxName
  }

  predicate PasswordOk(body: UserBody) {
    |OrEmpty(body.password)| >= MinPassword
  }

  /** The errors of the user chain, one per failing field, in chain order. */
  function UserErrors(body: UserBody, isEmail: string -> bool): (errs: seq<FieldError>)
    ensures |errs| <= 3
    ensures errs == [] <==> NameOk(body) && isEmail(OrEmpty(body.email)) && PasswordOk(body)
    ensures FieldError("name", NameLength) in errs <==> !NameOk(body)
    ensures FieldError("email", EmailInvalid) in errs <==> !isEmail(OrEmpty(body.email))
    ensures FieldError("password", PasswordLength) in errs <==> !PasswordOk(body)
  {
    var a := Check(NameOk(body), "name", NameLength);
    var b := Check(isEmail(OrEmpty(body.email)), "email", EmailInvalid);
    var c := Check(PasswordOk(body), "password", PasswordLength);
    InFive(FieldError("name", NameLength), a, b, c, [], []);
    InFive(FieldError("email", EmailInvalid), a, b, c, [], []);
    InFive(FieldError("password", PasswordLength), a, b, c, [], []);
    assert a + b + c + [] + [] == a + b + c;
    a + b + c
  }

  /** `validateUser`: the trimmed name has 2 to 50 characters; the email
      passes the email check (and is then normalized); the password has at
      least 6 characters, counted untrimmed, so blanks count. */
  function ValidateUser(body: UserBody, isEmail: string -> bool, normalizeEmail: string -> string): (r: Result<CleanUser>)
    ensures r.Ok? <==> NameOk(body) && isEmail(OrEmpty(body.email)) && PasswordOk(body)
    ensures r.Ok? ==> r.value == CleanUser(Trim(OrEmpty(body.name)), normalizeEmail(OrEmpty(body.email)), OrEmpty(body.password))
    ensures r.Err? ==> r.error == Invalid(UserErrors(body, isEmail)) && UserErrors(body, isEmail) != []
  {
    var errs := UserErrors(body, isEmail);
    if errs != [] then Err(Invalid(errs))
    else Ok(CleanUser(Trim(OrEmpty(body.name)), normalizeEmail(OrEmpty(body.email)), OrEmpty(body.password)))
  }

  /** Blanks count towards the password's length: six spaces pass. */
  lemma BlankPasswordAccepted(name: string, email: string, isEmail: string -> bool, normalizeEmail: string -> string)
    requires 2 <= |Trim(name)| <= 50 && isEmail(email)
    ensures ValidateUser(UserBody(Some(name), Some(email), Some("      ")), isEmail, normalizeEmail).Ok?
  {
  }
}
