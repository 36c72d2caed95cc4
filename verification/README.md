# Blog platform rules, modelled in Dafny

The repository is a blog platform with two backends that are independent of
each other. One is a Django REST backend (`backend/`) and the other an
Express/Mongoose server (`server/`). A React client sits on top, and its
text helpers are in `client/src/utils/helpers.js`. This project models the
rules these programs write out by hand:

- how a post, category or tag fills in its derived fields on save;
- the counters;
- comment threads and moderation;
- field validation;
- permissions and queryset scoping;
- user creation and name helpers;
- the Express controller, its router and the Mongoose pre-save hook;
- the client's text helpers.

The two backends stay in separate modules on purpose. Django adds "..."
to a derived excerpt only when the text is long, while Mongoose always adds
it. Django rounds the reading time half-to-even with a floor of 1, while
Express takes the ceiling. The excerpt limit is 500 characters in Django
and 300 in Express.

Modules, one per source file, plus shared helpers:

- `Wrappers`: `Option`, `Result` and the error kinds of both backends
  (field-keyed validation errors, 401, 403, 404, a uniqueness conflict,
  `ValueError`, `IndexError`, 500).
- `Text`: the whitespace set, and ASCII-only versions of trim, Python
  `split()`, `split(sep)` and join, and `upper`. `Seqs` holds a stable
  filter and a first-index search. `JsMath` holds floor and ceiling
  division on integers.
- Django:
  - `BlogModels`: the `save` rules, the tag stripper, reading time and
    the SEO accessors.
  - `BlogStore`: a `Database` class whose fields are the post, comment,
    category and tag tables. Its methods are the saves, the counter
    increments, the cascading deletes and the bulk approval update.
  - `BlogSerializers`, `BlogPermissions`, `BlogViews` and `BlogAdmin`.
  - `UserModels`: a `UserTable` class for `UserManager`.
  - `UserSerializers`.
- Express:
  - `ExpressValidation`.
  - `MongooseBlog`: a `BlogCollection` class for the stored documents
    and a `BlogDocument` class for the document the hook mutates.
  - `BlogController`.
  - `BlogRoutes`.
- Client: `ClientHelpers`.

Library calls become function parameters of the operations that use them:
`slugify`, `normalize_email`, password hashing and checking,
`authenticate`, `validate_password`, the ORM's substring search, Mongo's
`$text` search, express-validator's `isURL`, `isEmail` and
`normalizeEmail`, and the ObjectId cast. The clock (`timezone.now()`) is
passed in as a `Time` value. Which user makes the request is a parameter
too. For Django it is a `Requester` (anonymous or authenticated); for
Express it is `who: Option<nat>`, the verdict of the authentication
middleware.

Reply listing follows `get_replies` (`backend/blogs/serializers.py:46-49`):
only approved replies are listed, at every level of a thread, so an
unapproved reply hides everything beneath it.

## Model

| member | source | states |
|---|---|---|
| BlogModels.CategoryOnSave | backend/blogs/models.py:28-32 | the slug becomes `slugify(name)` only when it is empty; a set slug and every other field stay as they were |
| BlogModels.TagOnSave | backend/blogs/models.py:50-54 | the same rule for tags: slug derived from the name only when empty, nothing else touched |
| BlogModels.CategorySlugStable | backend/blogs/models.py:28-32 | once a save has given a category a slug, renaming it and saving again keeps that slug |
| BlogModels.StripTags | backend/blogs/models.py:164 | stripping never lengthens the text, and text without `<` comes back unchanged |
| BlogModels.StripTagsIdempotent | backend/blogs/models.py:164 | stripping the stripped text changes nothing more: no new tag is ever formed by a removal |
| BlogModels.StripTagsNoNewClose | backend/blogs/models.py:164 | text without `>` has no `>` after stripping |
| BlogModels.StripTagsKeepsEmptyBrackets | backend/blogs/models.py:164 | a literal `<>` at the scan position is kept, for any text after it, because the pattern needs at least one character between the brackets; the scan goes on after it |
| BlogModels.StripTagsKeepsUnclosed | backend/blogs/models.py:164 | for any text before it, a `<` with no later `>` is kept together with everything after it, and the text before strips as it would alone |
| BlogModels.StripTagsNoClose | backend/blogs/models.py:164 | text without `>` holds no tag and comes back unchanged |
| BlogModels.StripTagsAppendUnclosed | backend/blogs/models.py:164 | appending text without `>` never completes a tag: the appended text is kept and the rest strips as it would alone |
| BlogModels.StripTagsRemovesMarkup | backend/blogs/models.py:164 | every complete tag (a `<`, one or more characters other than `>`, then `>`) at the scan position is removed whole, and the text after it strips as it would alone |
| BlogModels.DerivedExcerptShape | backend/blogs/models.py:162-165 | the derived excerpt is at most 153 characters; stripped text of at most 150 characters is used whole; longer text gives its first 150 characters followed by "..." |
| BlogModels.PostOnSave | backend/blogs/models.py:157-172 | save changes only slug, excerpt and publication time: the slug is derived only when empty, the excerpt only when empty and the content is not, and a set publication time is kept |
| BlogModels.PostOnSavePublication | backend/blogs/models.py:167-170 | after a save the publication time is unset exactly when it was unset and the status is draft; a first published save stamps the given time |
| BlogModels.PostOnSaveIdempotent | backend/blogs/models.py:157-172 | saving a saved post again, at any later time, changes nothing |
| BlogModels.PostOnSaveAfterEdit | backend/blogs/models.py:157-172 | after the title, content or status change, a re-save keeps the slug, the excerpt and any publication time |
| BlogModels.RoundPer200Correct | backend/blogs/models.py:182 | the integer rounding of n/200 is within half a unit of n/200 and even on a tie, and it is the only such value |
| BlogModels.ReadingTime | backend/blogs/models.py:178-182 | the reading time is at least 1 minute, and above 100 words it is the half-to-even rounding of words/200 |
| BlogModels.ReadingTimeTies | backend/blogs/models.py:182 | 300 words and 500 words both give 2 minutes, because ties round to even; at most 100 words gives 1 minute |
| BlogModels.WordCount | backend/blogs/models.py:184-187 | the number of whitespace-separated tokens: zero exactly for blank content, and never more than the characters |
| BlogModels.MetaTitle | backend/blogs/models.py:204-206 | the meta title if it is non-empty, otherwise the title |
| BlogModels.MetaDescription | backend/blogs/models.py:208-210 | the meta description if it is non-empty, otherwise the excerpt |
| BlogModels.IsReply | backend/blogs/models.py:246-249 | true exactly when the comment has a parent |
| BlogStore.SlugTaken | backend/blogs/models.py:69-73 | true exactly when another post already holds the slug |
| BlogStore.WithApproval | backend/blogs/admin.py:158-167 | the selected comments get the new approval flag and every other row is unchanged, in place and in order |
| BlogStore.Database.SaveCategory | backend/blogs/models.py:11-32 | a save stores the slug-filled category, appending a new one or replacing by id; a clash with another category's name or slug is refused with that field and leaves the tables as they were |
| BlogStore.Database.SaveTag | backend/blogs/models.py:35-54 | the same for tags, with their own unique name and slug |
| BlogStore.Database.SavePost | backend/blogs/models.py:157-172 | a new post gets the next id and is stored first, and an existing post is replaced in place; a slug held by another post is refused with nothing changed; comments, categories and tags are untouched |
| BlogStore.Database.WritePost | backend/blogs/models.py:172 | the row write behind a save, with the unique-slug check |
| BlogStore.Database.IncrementViews | backend/blogs/models.py:194-197 | that post's views grow by exactly 1, the new count is returned, and every other field and row is unchanged |
| BlogStore.Database.IncrementLikes | backend/blogs/models.py:199-202 | that post's likes grow by exactly 1, the new count is returned, and every other field and row is unchanged |
| BlogStore.Database.Cascade | backend/blogs/models.py:226-232 | computes the comments a cascading delete takes: the least set holding the seed and closed under replies, so a reply cycle unconnected to the seed is never taken |
| BlogStore.CascadeUnique | backend/blogs/models.py:226-232 | the set a cascade takes is determined by the seed: two such sets are equal |
| BlogStore.Database.DeletePost | backend/blogs/models.py:216-220 | removes the post and exactly the least reply-closed set of comments holding its comments, and nothing else; no remaining comment points at the post |
| BlogStore.Database.InsertComment | backend/blogs/models.py:213-236 | stores the comment first under the next id, with its post and any parent existing |
| BlogStore.Database.UpdateComment | backend/blogs/views.py:205-213 | rewrites only that comment's content and parent |
| BlogStore.Database.DeleteComment | backend/blogs/models.py:226-232 | removes exactly the least reply-closed set of comments holding the comment, and nothing else |
| BlogStore.Database.SetApproval | backend/blogs/admin.py:158-167 | the bulk update sets the flag on exactly the selected comments and returns how many rows it matched |
| BlogViews.WhereKeepsUniqueIds | backend/blogs/views.py:64 | filtering a table never repeats a post, so every listing is duplicate-free, as `distinct()` promises |
| BlogViews.PublicList | backend/blogs/views.py:33-64 | a post is listed exactly when it is published and meets each search, tag, category and author filter that is given |
| BlogViews.PublicListNarrows | backend/blogs/views.py:39-62 | dropping any single filter, or all of them, keeps every listed post listed |
| BlogViews.PublicListUnfiltered | backend/blogs/views.py:35 | with no filters the list is exactly the published posts |
| BlogViews.UserPublished | backend/blogs/views.py:136-142 | exactly the user's published posts |
| BlogViews.MyBlogs | backend/blogs/views.py:145-155 | an anonymous caller gets 401; otherwise exactly the caller's posts, drafts included |
| BlogViews.UserPublishedIsMyPublished | backend/blogs/views.py:136-155 | the public per-user list is the published part of that user's own list |
| BlogViews.FindPublished | backend/blogs/views.py:74-78 | finds a published post with the slug, or shows that none exists |
| BlogViews.FindOwn | backend/blogs/views.py:106-108 | finds the caller's post with the slug, or shows that the caller has none |
| BlogViews.DraftNotFound | backend/blogs/views.py:74-78 | the slug of a draft is not found by the detail lookup |
| BlogViews.OthersPostNotFound | backend/blogs/views.py:117-119 | another author's slug is "not found" for update and delete, not "forbidden" |
| BlogViews.FeaturedBlogs | backend/blogs/views.py:246-256 | the first at most 6 published, featured posts, in table order; fewer only when fewer exist |
| BlogViews.SortByViews | backend/blogs/views.py:265 | a permutation of the input in non-increasing view order |
| BlogViews.PopularBlogs | backend/blogs/views.py:259-268 | the published posts in descending view order, cut to six: exactly min(6, number published) of them, no post more often than it is published, and none with fewer views than a published post left out |
| BlogViews.RetrieveBlog | backend/blogs/views.py:80-85 | a published post's detail raises its views by exactly 1 and returns it; anything else is 404 with nothing changed |
| BlogViews.CreateBlog | backend/blogs/views.py:88-96 | anonymous gives 401, invalid input gives 400 with the field errors, and a slug another post holds gives a conflict on `slug` (the serializer has no `slug` field, so Django answers this with a 500 from the unique constraint, not a 400), each changing nothing; otherwise the request succeeds: the validated post, with the caller as author, the next id, zero counters and the fields save derives, is stored first; comments, categories and tags are untouched |
| BlogViews.UpdateBlog | backend/blogs/views.py:99-108 | only among the caller's posts, another author's slug giving 404; an invalid patch gives its field errors and a taken slug a conflict, both changing nothing; otherwise the request succeeds and the patched, re-saved post replaces the old row in place, with id and author kept; the other tables are untouched |
| BlogViews.DeleteBlog | backend/blogs/views.py:111-127 | anonymous gives 401 and a slug outside the caller's posts gives 404, both changing nothing; a success removes the post and exactly the least reply-closed set of comments holding its comments, and nothing else, so no remaining comment points at the post; categories and tags are untouched |
| BlogViews.LikeBlog | backend/blogs/views.py:234-243 | only a published post: its likes grow by exactly 1 and the new count is returned; otherwise 404 with nothing changed; comments, categories and tags are never touched |
| BlogViews.ListComments | backend/blogs/views.py:174-188 | 404 exactly when the post is not published; otherwise every approved top-level comment of the post, each thread moderated and holding every approved reply at every depth up to the number of comments |
| BlogViews.ThreadsOf | backend/blogs/serializers.py:46-49 | one thread per top-level comment, in order, each moderated at every depth and complete (every approved reply listed) to the depth of the number of comments |
| BlogViews.CreateComment | backend/blogs/views.py:191-202 | needs a caller (401) and a published post (404); content shorter than 2 trimmed characters and a parent id that does not exist give 400 with both field errors; otherwise the comment with the trimmed content, the given parent, the caller as author, the post, approval and the next id is stored first; a failure changes nothing, and posts, categories and tags are never touched |
| BlogViews.FindOwnComment | backend/blogs/views.py:211-213 | finds the caller's comment with the id, or shows that the caller has none |
| BlogViews.UpdateComment | backend/blogs/views.py:205-213 | only the caller's comments, others giving 404; a new parent id that does not exist gives 400 on `parent`; otherwise the request succeeds and the row is replaced in place with only content and parent changed; the other tables are untouched |
| BlogViews.DeleteComment | backend/blogs/views.py:216-231 | only the caller's comments, others giving 404 with nothing changed; a success returns the comment and removes it and every reply beneath it, and nothing else; posts, categories and tags are untouched |
| BlogSerializers.MinTrimmed | backend/blogs/serializers.py:107-111 | accepts exactly when the trimmed value has the minimum length, returns the trimmed value, and otherwise fails keyed by the field |
| BlogSerializers.MinTrimmedIdempotent | backend/blogs/serializers.py:107-117 | an accepted value validates to itself |
| BlogSerializers.MinTrimmedIgnoresPadding | backend/blogs/serializers.py:107-117 | validating a value and validating its trimmed form give the same result |
| BlogSerializers.ValidateTitle | backend/blogs/serializers.py:107-111 | accepted exactly when the trimmed title has at least 3 characters; returns it trimmed |
| BlogSerializers.ValidateContent | backend/blogs/serializers.py:113-117 | accepted exactly when the trimmed content has at least 10 characters; returns it trimmed |
| BlogSerializers.ValidateExcerpt | backend/blogs/serializers.py:119-123 | refused exactly when the untrimmed excerpt exceeds 500 characters; "" passes unchanged; returns it trimmed |
| BlogSerializers.ValidateCommentContent | backend/blogs/serializers.py:168-172 | accepted exactly when the trimmed comment has at least 2 characters; returns it trimmed |
| BlogSerializers.ValidateBlog | backend/blogs/serializers.py:92-123 | succeeds exactly when all three field validators do, with their cleaned values; otherwise fails with every failing field's error |
| BlogSerializers.NewPost | backend/blogs/serializers.py:102-105 | the author is the requester; slug, counters and publication time are never taken from the input |
| BlogSerializers.ApplyBlogPatch | backend/blogs/serializers.py:126-152 | the validators apply to the fields sent, and a failure lists the errors of title, content and excerpt in that order; each sent field, image, category, tags and the meta fields included, replaces the old value and each unsent one keeps it; id, slug, author, counters and publication time never change |
| BlogSerializers.EmptyPatchKeepsPost | backend/blogs/serializers.py:126-152 | an update that sends nothing leaves the post as it was |
| BlogSerializers.NewComment | backend/blogs/serializers.py:162-166 | the author is the requester and the post comes from the context; a new comment is approved, and it is a reply exactly when it has a parent |
| BlogSerializers.ApplyCommentUpdate | backend/blogs/serializers.py:32-44 | author, approval, post and id are read-only: an update changes content and parent only |
| BlogSerializers.Replies | backend/blogs/serializers.py:46-49 | lists only approved direct replies of the parent, each moderated in turn |
| BlogSerializers.RepliesCompleteAtDepth | backend/blogs/serializers.py:46-49 | every thread in the listed replies holds every approved reply beneath it, down to the fuel's depth |
| BlogSerializers.RenderedComplete | backend/blogs/serializers.py:46-49 | a comment rendered with a given fuel lists every approved reply beneath it down to that depth |
| BlogSerializers.RepliesComplete | backend/blogs/serializers.py:46-49 | every approved direct reply is listed |
| BlogSerializers.ThreadOf | backend/blogs/serializers.py:46-49 | a comment's thread is moderated at every depth and holds every approved reply beneath it down to the fuel's depth |
| BlogSerializers.UnapprovedNeverNested | backend/blogs/serializers.py:46-49 | an unapproved comment appears nowhere in a moderated thread, at any depth |
| BlogAdmin.ContentPreview | backend/blogs/admin.py:147-149 | content of at most 100 characters is unchanged; longer content gives its first 100 characters followed by "..." |
| BlogAdmin.IsReplyColumn | backend/blogs/admin.py:152-154 | true exactly when the comment has a parent |
| BlogAdmin.ApproveComments | backend/blogs/admin.py:158-161 | exactly the selected comments become approved, the rest are untouched, and the matched count is reported; posts, categories, tags and both next ids are unchanged |
| BlogAdmin.DisapproveComments | backend/blogs/admin.py:164-167 | exactly the selected comments become unapproved, and the rest are untouched; posts, categories, tags and both next ids are unchanged |
| BlogAdmin.ModerationTouchesOnlySelected | backend/blogs/admin.py:158-167 | a row keeps its id; a selected row changes only its flag; an unselected row is unchanged |
| BlogAdmin.ModerationIdempotent | backend/blogs/admin.py:158-161 | repeating the same action is a no-op |
| BlogAdmin.ModerationLastWins | backend/blogs/admin.py:158-167 | approving then disapproving the same selection, or the reverse, equals the last action alone |
| BlogAdmin.CountSelectedIsMatchedIds | backend/blogs/admin.py:158-167 | the count the bulk update reports is the number of distinct selected ids present in the table |
| BlogAdmin.CountSelectedFromList | backend/blogs/admin.py:158-167 | a selection taken from the comment list is counted in full: the count is the number of comments selected |
| BlogAdmin.SaveModel | backend/blogs/admin.py:114-118 | the requesting admin becomes author, and the next id is given, only when a post is added; an edit stores the author the form holds; save then fills the derived fields, the write is refused exactly when another post holds the resulting slug, and a success returns the stored post |
| BlogPermissions.IsAuthorOrReadOnly | backend/blogs/permissions.py:9-16 | safe methods are granted to anyone; other methods exactly when the requester is the post's author |
| BlogPermissions.IsCommentAuthorOrReadOnly | backend/blogs/permissions.py:24-31 | the same decision against the comment's author |
| BlogPermissions.IsAuthenticatedOrReadOnly | backend/blogs/permissions.py:40-47 | granted exactly for a safe method or an authenticated requester |
| BlogPermissions.ObjectPermissionsAgree | backend/blogs/permissions.py:4-31 | the two object permissions decide identically |
| BlogPermissions.ObjectPermissionImpliesViewPermission | backend/blogs/permissions.py:9-47 | whatever an object permission grants, the view permission grants too |
| BlogPermissions.WriteGrantedToOneAuthor | backend/blogs/permissions.py:16 | an unsafe request granted on two objects implies both have the same author |
| UserModels.SuperuserFields | backend/users/models.py:19-28 | staff and superuser default to true and active to true; an explicit false for staff or superuser is a `ValueError`, staff checked first |
| UserModels.UserTable.CreateUser | backend/users/models.py:9-17 | an empty email is a `ValueError` and a taken normalized email a conflict, both changing nothing; otherwise the user with the next id, the normalized email, the name, the hashed password, staff and superuser false unless given, and active unless told otherwise, is appended and returned |
| UserModels.UserTable.CreateSuperuser | backend/users/models.py:19-30 | a bad flag is a `ValueError`; then an empty email is a `ValueError` and a taken one a conflict; each changes nothing; otherwise the staff superuser with the next id, the normalized email and the hashed password is stored, active unless told otherwise |
| UserModels.ShortName | backend/users/models.py:114-116 | the email when the name is empty; a whitespace-only name is an `IndexError`; otherwise a non-empty token without spaces |
| UserModels.ShortNameIsLeadingWord | backend/users/models.py:114-116 | the short name is the first whitespace-separated word of the name |
| UserModels.Initials | backend/users/models.py:118-125 | no value for an empty name; `IndexError` for a whitespace-only name; otherwise the uppercased first letters of the first and last words, one letter for a single word |
| UserModels.InitialsStartShortName | backend/users/models.py:114-125 | the initials begin with the uppercased first letter of the short name |
| UserSerializers.PasswordErrors | backend/users/serializers.py:10-15 | each password-strength message becomes one error keyed `password`, in order |
| UserSerializers.ValidateRegistration | backend/users/serializers.py:30-34 | of the hand-written checks, passes exactly when the password is strong enough and both copies agree; a weak password gives its strength errors keyed `password`, and a mismatch is an error keyed `password` |
| UserSerializers.CreateRegistered | backend/users/serializers.py:36-44 | `create` builds the user from email, name and password only, with no staff, superuser or inactive flag; an empty email is a `ValueError`; otherwise `create_user` succeeds exactly when the normalized email is free, and a taken one is refused by the unique `email` column (an `IntegrityError`, which Django answers with a 500), changing nothing |
| UserSerializers.ValidateLogin | backend/users/serializers.py:56-71 | a missing email or password fails first; failed authentication fails next; an inactive account only after that; a success is an active, authenticated user |
| UserSerializers.MissingCredentialsNeverAuthenticate | backend/users/serializers.py:56-71 | with a credential missing, the outcome does not depend on the authenticator, so none is attempted |
| UserSerializers.ValidateName | backend/users/serializers.py:94-98 | accepted exactly when the trimmed name has at least 2 characters; returns it trimmed |
| UserSerializers.ValidateBio | backend/users/serializers.py:100-104 | refused exactly when longer than 500 characters; returns it untrimmed |
| UserSerializers.ValidateOldPassword | backend/users/serializers.py:130-135 | accepted exactly when the password checks |
| UserSerializers.ValidatePasswordChange | backend/users/serializers.py:124-128 | passes exactly when the old password checks, the new one is strong enough and both copies agree; a mismatch is keyed `new_password` |
| ExpressValidation.BlogChainErrors | server/utils/validation.js:3-25 | none exactly when every check passes; otherwise the chain's own error for each failing check, once each and in the chain's order (title, content, excerpt, tags, image), and nothing else |
| ExpressValidation.BlogErrors | server/routes/blogs.js:16-38 | title trimmed to between 3 and 200 characters, content trimmed to at least 10, a present excerpt trimmed to at most 300, tags a string, image a URL; each rule fails with its own message |
| ExpressValidation.ValidateBlog | server/routes/blogs.js:16-38 | passes exactly when every rule holds, giving the trimmed title, content and excerpt with tags and image unchanged; otherwise every failing field's message |
| ExpressValidation.PaddingIsIgnored | server/routes/blogs.js:17-20 | whitespace around the title changes neither the verdict nor the cleaned body |
| ExpressValidation.UserErrors | server/utils/validation.js:27-39 | a name trimmed to between 2 and 50 characters, an accepted email, and an untrimmed password of at least 6 characters; each rule fails with its own message |
| ExpressValidation.ValidateUser | server/utils/validation.js:27-39 | passes exactly when all three rules hold, giving the trimmed name and the normalized email |
| ExpressValidation.BlankPasswordAccepted | server/utils/validation.js:36-38 | six spaces pass as a password, because its length is measured untrimmed |
| MongooseBlog.SchemaViolations | server/models/Blog.js:4-40 | none exactly when the document meets the schema: title required and at most 200, content required and at least 10, excerpt at most 300, status draft or published |
| MongooseBlog.HookExcerpt | server/models/Blog.js:46-49 | a set excerpt is kept; an empty one with content becomes the first 150 characters of the content plus "...", even for short content |
| MongooseBlog.HookExcerptSticks | server/models/Blog.js:47 | once derived, the excerpt survives every later save, whatever the content becomes |
| MongooseBlog.SpacePieces | server/models/Blog.js:53 | the number of pieces from splitting on one space, empty pieces included; always at least 1 |
| MongooseBlog.HookReadTime | server/models/Blog.js:52-55 | the ceiling of pieces/200, so at least 1 |
| MongooseBlog.HookKeepsSchema | server/models/Blog.js:46-58 | the hook runs after validation, but a valid document stays valid through it |
| MongooseBlog.BlogCollection.Find | server/controllers/blogController.js:121 | finds the document with the id, or shows that none exists |
| MongooseBlog.BlogCollection.Put | server/controllers/blogController.js:140 | a new document is stored first; an existing one is replaced in place |
| MongooseBlog.BlogCollection.Remove | server/controllers/blogController.js:172 | removes exactly that document, and no document with its id remains |
| MongooseBlog.BlogCollection.NewId | server/controllers/blogController.js:86-95 | a fresh id that no stored document holds; the documents are unchanged |
| MongooseBlog.BlogDocument.constructor | server/models/Blog.js:4-40 | a new document has a trimmed title and trimmed tags, status published and read time 0 |
| MongooseBlog.BlogDocument.Load | server/controllers/blogController.js:121 | the loaded object holds exactly the stored document's fields |
| MongooseBlog.BlogDocument.SetTitle | server/models/Blog.js:4-9 | assigning the title stores it trimmed and changes nothing else |
| MongooseBlog.BlogDocument.SetTags | server/models/Blog.js:24-27 | assigning tags stores each one trimmed and changes nothing else |
| MongooseBlog.BlogDocument.SetFields | server/controllers/blogController.js:134-138 | assigns content, excerpt and image and nothing else |
| MongooseBlog.BlogDocument.PreSave | server/models/Blog.js:46-58 | the hook's effect: the excerpt as HookExcerpt gives it, the read time recomputed only when there is content, nothing else touched |
| MongooseBlog.BlogDocument.Save | server/models/Blog.js:46-58 | a schema violation is refused with its errors, with document and collection unchanged; otherwise the hooked document is stored and returned |
| MongooseBlog.Hooked | server/models/Blog.js:46-58 | the hook changes only excerpt and read time; with content, the excerpt is non-empty and the read time is recomputed |
| MongooseBlog.TrimAll | server/models/Blog.js:24-27 | each tag trimmed, same count and order |
| BlogController.IntOr | server/controllers/blogController.js:7-8 | the parsed number, unless it is missing, non-numeric or 0, in which case the fallback |
| BlogController.BuildQuery | server/controllers/blogController.js:15-23 | always asks for published documents; the text and tag conditions are present exactly when search and tag are non-empty |
| BlogController.ConditionsNarrow | server/controllers/blogController.js:15-23 | a document matching with search and tag also matches with either or both removed, and is published |
| BlogController.Window | server/controllers/blogController.js:29-33 | the consecutive slice that starts at skip, of at most limit documents |
| BlogController.GetAllBlogs | server/controllers/blogController.js:5-51 | page and limit fall back to 1 and 10; a negative skip is a server error; otherwise the page's window of the published matches, with total pages the ceiling of matches/limit, a next page exactly when the page is below it, and a previous page exactly when the page is above 1 |
| BlogController.NextPageMeansMoreMatches | server/controllers/blogController.js:35-46 | there is a next page exactly when page×limit is below the number of matches, and then the page is full |
| BlogController.SplitTags | server/controllers/blogController.js:90 | no tags for "", otherwise one trimmed, comma-free piece per comma-separated part |
| BlogController.SplitTagsPieces | server/controllers/blogController.js:90 | the i-th tag is the trimmed i-th comma-separated part |
| BlogController.SplitTagsJoin | server/controllers/blogController.js:90 | for a tags string without spaces, joining the tags with commas gives back the string |
| BlogController.SetterKeepsSplitTags | server/controllers/blogController.js:90-92 | the schema's tag trimming leaves split tags as they are |
| BlogController.NewDoc | server/controllers/blogController.js:90-93 | the author is the caller; the document is published with read time 0 and the split tags |
| BlogController.CreateBlog | server/controllers/blogController.js:74-108 | invalid input is 400 with nothing stored; otherwise the hooked new document, authored by the caller, is stored first; a failed save is 500 |
| BlogController.Insert | server/controllers/blogController.js:95-107 | the save step of create: a clean body is stored with the hook applied; a failure is 500 with nothing stored |
| BlogController.Merge | server/controllers/blogController.js:134-138 | a non-empty title or content replaces the old one (the title trimmed), a non-empty excerpt or image replaces the old one, and a non-empty tags string replaces the tags with its split; an empty value keeps the old one; id, author, status and read time are kept |
| BlogController.CleanUpdateReplacesTitleAndContent | server/controllers/blogController.js:134-138 | after validation, title and content are always replaced, and a schema-valid document stays valid |
| BlogController.MergeFields | server/controllers/blogController.js:134-138 | the merged excerpt is either the new one or the old one |
| BlogController.MergeIdempotent | server/controllers/blogController.js:134-138 | applying the same update twice equals applying it once |
| BlogController.UpdateBlog | server/controllers/blogController.js:111-156 | 400 before any lookup, then 404 for a missing document, then 403 for a non-author; only the author's request replaces the document, with the hook applied and id and author kept |
| BlogController.Modify | server/controllers/blogController.js:134-153 | the merge-and-save step of update: the document is replaced in place, or a 500 leaves it unchanged |
| BlogController.DeleteBlog | server/controllers/blogController.js:159-182 | 404 for a missing document, then 403 for a non-author, both changing nothing; only the author deletes, and no document with the id remains |
| BlogController.GetBlog | server/controllers/blogController.js:54-71 | the document with the id, or 404 exactly when none exists |
| BlogController.DraftsAreServed | server/controllers/blogController.js:54-71 | a draft is served by id as well, with no status filter |
| BlogController.GetUserBlogs | server/controllers/blogController.js:185-196 | exactly the caller's documents, drafts included |
| BlogRoutes.Match | server/routes/blogs.js:41-48 | a matched route has the request's method and path, the literal segments of `/user/my-blogs` compared without regard to ASCII case; `/:id` matches one non-empty segment only |
| BlogRoutes.MatchFindsRoute | server/routes/blogs.js:41-48 | every route is reached by its own method and path, including `/user/my-blogs` behind `/:id` |
| BlogRoutes.MyBlogsIgnoresCase | server/routes/blogs.js:48 | a two-segment path reaches my-blogs exactly for GET and the segments `user` and `my-blogs` in any ASCII case |
| BlogRoutes.Handle | server/routes/blogs.js:41-48 | no route is 404; create, update, delete and my-blogs without a caller are 401, and 401 arises no other way; create and update validate next and answer 400 with the chain's errors; delete does not validate; for a well-formed id, update answers 404 for a missing document and 403 for another author's, for create with a caller and a valid body, the answer is the new document as the pre-save hook leaves it, with the tags split, the collection's next id and the caller as author, stored first; for update, the merged, hooked document replaces it in place, and delete answers the same way and otherwise removes exactly that document and returns it; the two public reads and my-blogs never change the collection |
| ClientHelpers.TruncateText | client/src/utils/helpers.js:8-11 | text that fits is returned whole; otherwise its first maxLength characters followed by "..." |
| ClientHelpers.TruncateTextIdempotent | client/src/utils/helpers.js:8-11 | truncating a truncated text changes nothing |
| ClientHelpers.Collapse | client/src/utils/helpers.js:16 | empty exactly for empty input; starts with a space exactly when the input starts with whitespace, and ends with one exactly when the input ends with whitespace |
| ClientHelpers.CollapseSingleSpaced | client/src/utils/helpers.js:16 | after collapsing, no whitespace but single spaces remains, and never two in a row |
| ClientHelpers.CollapseKeepsWords | client/src/utils/helpers.js:16 | collapsing keeps the sequence of words |
| ClientHelpers.TrimKeepsWords | client/src/utils/helpers.js:16 | trimming keeps the sequence of words |
| ClientHelpers.Clean | client/src/utils/helpers.js:16 | the cleaned text neither starts nor ends with whitespace |
| ClientHelpers.GenerateExcerpt | client/src/utils/helpers.js:14-18 | "" for empty content; the cleaned content itself when it fits in maxLength, otherwise its first maxLength characters followed by "..."; never longer than maxLength + 3 |
| ClientHelpers.ExcerptSingleSpaced | client/src/utils/helpers.js:14-18 | an excerpt is single-spaced |
| ClientHelpers.ShortExcerptKeepsWords | client/src/utils/helpers.js:14-18 | when the cleaned content fits, the excerpt has exactly the content's words |
| ClientHelpers.NonEmpty | client/src/utils/helpers.js:24 | the number of non-empty pieces, which is the length of the pieces filtered by `word.length > 0` |
| ClientHelpers.WordCountPositive | client/src/utils/helpers.js:24 | the count is positive exactly when some character is not a space; newlines do not separate words |
| ClientHelpers.CalculateReadingTime | client/src/utils/helpers.js:21-26 | 0 for empty content, and otherwise the least m with words ≤ 200·m, the ceiling of words/200 |
| ClientHelpers.ReadingTimeZeroIffBlank | client/src/utils/helpers.js:21-26 | 0 exactly when the content is all spaces |
| ClientHelpers.ClientReadingTimeAtMostStored | client/src/utils/helpers.js:21-26 | the client never shows more minutes than the Mongoose hook stores, and shows 0 against the hook's 1 for content of spaces only |
| ClientHelpers.IsValidEmail | client/src/utils/helpers.js:29-32 | accepted exactly when the string is local@domain.tld with three non-empty parts free of whitespace and `@` |
| ClientHelpers.ScannedEmailHasShape | client/src/utils/helpers.js:29-32 | an address the left-to-right scan accepts has that shape |
| ClientHelpers.ShapedEmailIsScanned | client/src/utils/helpers.js:29-32 | an address of that shape is accepted by the scan, whichever `.` the regex's backtracking picks |
| ClientHelpers.EmailScanMatchesRegex | client/src/utils/helpers.js:29-32 | the scan and the regex agree on every string |
| ClientHelpers.Heads | client/src/utils/helpers.js:37-39 | the k-th character is the first character of the k-th non-empty piece, in order, one per piece |
| ClientHelpers.GetInitials | client/src/utils/helpers.js:35-43 | as many characters as non-empty space-separated words, capped at 2; the i-th is the uppercased first letter of the i-th word |
| ClientHelpers.InitialsOfTwoWords | client/src/utils/helpers.js:35-43 | for "first last", the uppercased first letters of both |
| ClientHelpers.InitialsIgnoreLeadingSpace | client/src/utils/helpers.js:35-43 | a leading space does not change the initials |
| Text.Words | backend/blogs/models.py:187 | Python `split()` returns non-empty tokens without whitespace, and none exactly when the text is blank |
| Text.Split | client/src/utils/helpers.js:24 | `split(sep)` returns one more piece than there are separators, none containing the separator |
| Text.JoinSplit | server/controllers/blogController.js:90 | joining the pieces of a split gives back the string |
| Text.Trim | backend/blogs/serializers.py:109 | `strip()` neither lengthens the text nor leaves whitespace at either end, and is empty exactly for blank text |
| Text.TrimIdempotent | backend/blogs/serializers.py:109 | stripping twice is stripping once |
| Text.WordsFitIn | backend/blogs/models.py:187 | `split()` gives no more tokens than the text has characters |
| Seqs.WhereAppend | backend/blogs/views.py:33-64 | filtering keeps order: the kept elements of a concatenation are those of each part, one after the other, so a filtered listing keeps the table's newest-first order |
| JsMath.CeilDiv | server/controllers/blogController.js:35 | `Math.ceil(a / b)` on integers: the q with (q-1)·b < a ≤ q·b |
| JsMath.CeilDivUnique | client/src/utils/helpers.js:25 | that q is unique, and positive exactly when a is |

## Left out

- `slugify`, markdown rendering, `normalize_email`, password hashing and checking, `authenticate`, `validate_password`, `isURL`, `isEmail`, `normalizeEmail`, substring search (`icontains`), Mongo `$text` search and the ObjectId cast are library code. They are function parameters and are not defined.
- The clock is a `Time` parameter. Timestamps (`created_at`, `updated_at`, `createdAt`) are not stored. Newest-first order is the table's order, and new rows go to the front.
- The lost updates a concurrent `increment_views`/`increment_likes` could cause are a database concern. Each increment is one sequential step.
- `server/middleware/auth.js` is not part of this model. Its verdict is the `who` parameter. Django's token authentication is the `Requester` parameter.
- `backend/users/views.py`, both `urls.py` files, `backend/setup.py`, the admin display HTML, the React pages and services, and the scripts that call a live server are configuration, I/O or UI.
- `debounce` (timers) and `formatDate` (locale formatting) in `client/src/utils/helpers.js` are not modelled.
- `DjangoFilterBackend`, the search and ordering backends, `select_related`/`prefetch_related` and DRF pagination are not modelled. The hand-written filters in `get_queryset` are.
- DRF's own field checks (required, `max_length`, blank strings, the `CharField` trimming before a validator runs, the `PrimaryKeyRelatedField` checks that the given category and tag ids exist, and the `UniqueValidator` a `ModelSerializer` adds for the unique `email` column of the user) are not modelled. Each of these answers 400. The blank check that would reject an empty email or password before the "Must include" message is one of them. Only the hand-written validators are.
- BlogViews.UpdateComment: the comment update serializer has no content validator, so content passes through as sent.
- BlogViews.UpdateBlog: `PUT` is modelled as a partial update, `PATCH`. A full `PUT` would require every field.
- BlogViews.PublicList: the `author` query parameter is compared as a number. A non-numeric value, which gives a server error in Django, is not modelled.
- BlogSerializers.Replies: the depth of a reply thread is bounded by a `fuel` argument. Callers pass the number of comments, which covers every acyclic thread. A parent cycle, which the database does not prevent, is cut off there.
- BlogAdmin.SaveModel: the admin change form can also reassign the author field. Only the author rule of `save_model` is modelled.
- UserSerializers.ValidateLogin: "User account is disabled" is stated but cannot be reached with Django's default `ModelBackend`, which does not authenticate inactive users.
- The featured image of a Django post is an `Option`, and the rendered admin thumbnails are left out.
- MongooseBlog: `undefined` and `""` are both the empty string in a stored document. A title or content that is not a string is not modelled.
- BlogController.GetAllBlogs: a negative skip is answered 500 and a negative limit lists at most its magnitude, as the database treats them; for a limit that is not positive the contract does not bound the page count.
- UserSerializers.ValidateRegistration: the `UniqueValidator` on `email` is not modelled. DRF refuses with a 400 an email already stored exactly as sent, before `create` runs. CreateRegistered's conflict (a 500) is then reachable only when the sent email differs from the stored one before `normalize_email`.
- JsMath: `Math.ceil(a / b)` and Python's `round(n / 200)` divide in double precision. The quotient itself is a double and is not exact (10/3, say). The rounded results equal CeilDiv and RoundPer200 for counts below 2^53, the range the model assumes.
- JavaScript string lengths count UTF-16 code units and Python's count code points. Both are modelled as counts of `char`s.
- JavaScript `\s`, `trim` and Python `split()`/`strip()` also treat Unicode spaces as whitespace, and Python's `split()`/`strip()` also the four separators U+001C–U+001F. The model uses the ASCII whitespace set (space, tab, line feed, carriage return, vertical tab, form feed). So `validate_title` strips "\x1fab\x1f" to "ab" and rejects it, while ValidateTitle keeps the separators and accepts it.
- `toUpperCase`/`upper()` are modelled for ASCII letters only.
- The client helpers are not modelled for `null` or `undefined` arguments. A missing `content` or `name` behaves like "".
- ExpressValidation.ValidateUser: `validateUser` is not mounted by the blog router. It is modelled on its own.
