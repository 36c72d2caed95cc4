/** The blog handlers of the Express server. The listing is pure: query
    parameters with fallbacks, a query that always asks for published
    documents, one page of the matches and the page arithmetic. The
    handlers that write run the validation outcome check first (400), then
    the lookup (404), then the ownership check (403), and only then change
    the collection. Any exception a handler catches becomes a 500. */
module BlogController {
  import opened Wrappers
  import opened Text
  import opened Seqs
  import opened JsMath
  import opened MongooseBlog
  import opened ExpressValidation

  const DefaultPage: int := 1
  const DefaultLimit: int := 10

  /** `parseInt(value) || fallback`: `parsed` is what `parseInt` gives,
      `None` standing for NaN (a missing or non-numeric value); NaN and 0
      are falsy and give the fallback. */
  function IntOr(parsed: Option<int>, fallback: int): (n: int)
    ensures parsed.Some? && parsed.value != 0 ==> n == parsed.value
    ensures parsed.None? || parsed.value == 0 ==> n == fallback
    ensures fallback != 0 ==> n != 0
  {
    if parsed.Some? && parsed.value != 0 then parsed.value else fallback
  }

  /** The listing query: status is always "published"; a non-empty search
      adds a text condition and a non-empty tag a tag condition. */
  datatype Query = Query(status: string, text: Option<string>, tag: Option<string>)

  function BuildQuery(search: string, tag: string): (q: Query)
    ensures q.status == Published
    ensures q.text.Some? <==> search != ""
    ensures q.text.Some? ==> q.text.value == search
    ensures q.tag.Some? <==> tag != ""
    ensures q.tag.Some? ==> q.tag.value == tag
  {
    var q := Query(Published, None, None);
    var q := if search != "" then q.(text := Some(search)) else q;
    if tag != "" then q.(tag := Some(tag)) else q
  }

  /** A document the query selects. `searchHit` is the text index's
      verdict, which is not modelled. */
  predicate Matches(q: Query, d: BlogDoc, searchHit: (string, BlogDoc) -> bool) {
    && d.status == q.status
    && (q.text.Some? ==> searchHit(q.text.value, d))
    && (q.tag.Some? ==> q.tag.value in d.tags)
  }

  /** Adding a search or a tag only narrows the listing: whatever a query
      with conditions selects, the bare query selects too. */
  lemma ConditionsNarrow(search: string, tag: string, d: BlogDoc, searchHit: (string, BlogDoc) -> bool)
    requires Matches(BuildQuery(search, tag), d, searchHit)
    ensures Matches(BuildQuery("", tag), d, searchHit)
    ensures Matches(BuildQuery(search, ""), d, searchHit)
    ensures Matches(BuildQuery("", ""), d, searchHit) && d.status == Published
  {
  }

  datatype Pagination = Pagination(
    currentPage: int,
    totalPages: int,
    totalBlogs: nat,
    hasNextPage: bool,
    hasPrevPage: bool)

  datatype Listing = Listing(blogs: seq<BlogDoc>, pagination: Pagination)

  /** `skip(skip).limit(limit)` on the matches: a negative limit returns at
      most its magnitude, as the database does. */
  function Window(matches: seq<BlogDoc>, skip: nat, limit: int): (page: seq<BlogDoc>)
    ensures |page| == if skip >= |matches| then 0 else Min(|matches| - skip, Abs(limit))
    ensures skip >= |matches| ==> page == []
    ensures skip < |matches| ==> page == matches[skip..skip + |page|]
  {
    if skip >= |matches| then []
    else matches[skip..skip + Min(|matches| - skip, Abs(limit))]
  }

  function Min(a: int, b: int): int { if a <= b then a else b }
  function Abs(a: int): nat { if a < 0 then -a else a }

  /** `getAllBlogs`. The page and the limit fall back to 1 and 10; the
      number of documents skipped is `(page - 1) * limit`, and a negative
      skip is refused by the database (500). The documents listed are the
      page's window of the published matches, newest first; the page count
      is the ceiling of matches over limit; there is a next page exactly
      when the page is below the count, and a previous one exactly when it
      is above 1. */
  function GetAllBlogs(docs: seq<BlogDoc>, page: Option<int>, limit: Option<int>, search: string, tag: string,
                       searchHit: (string, BlogDoc) -> bool): (r: Result<Listing>)
    ensures var p := IntOr(page, DefaultPage); var l := IntOr(limit, DefaultLimit);
      && (r.Err? <==> (p - 1) * l < 0)
      && (r.Err? ==> r.error == ServerError)
      && (r.Ok? ==>
        var q := BuildQuery(search, tag);
        var matches := Where(docs, (d: BlogDoc) => Matches(q, d, searchHit));
        var info := r.value.pagination;
        && r.value.blogs == Window(matches, (p - 1) * l, l)
        && (forall d | d in r.value.blogs :: d in docs && d.status == Published && Matches(q, d, searchHit))
        && info.currentPage == p && info.totalBlogs == |matches|
        && (l > 0 ==> (info.totalPages - 1) * l < |matches| <= info.totalPages * l)
        && (info.hasNextPage <==> p < info.totalPages)
        && (info.hasPrevPage <==> p > 1))
  {
    var p := IntOr(page, DefaultPage);
    var l := IntOr(limit, DefaultLimit);
    var skip := (p - 1) * l;
    if skip < 0 then Err(ServerError)
    else
      var q := BuildQuery(search, tag);
      var matches := Where(docs, (d: BlogDoc) => Matches(q, d, searchHit));
      var total := |matches|;
      var totalPages := CeilDiv(total, l);
      var blogs := Window(matches, skip, l);
      assert forall d | d in blogs :: d in matches;
      Ok(Listing(blogs, Pagination(p, totalPages, total, p < totalPages, p > 1)))
  }

  /** With a positive limit and a page from 1 on, "has a next page" says
      exactly that matches remain after this page's window. */
  lemma NextPageMeansMoreMatches(docs: seq<BlogDoc>, page: Option<int>, limit: Option<int>, search: string, tag: string,
                                 searchHit: (string, BlogDoc) -> bool)
    requires IntOr(page, DefaultPage) >= 1 && IntOr(limit, DefaultLimit) > 0
    ensures var r := GetAllBlogs(docs, page, limit, search, tag, searchHit);
      var p := IntOr(page, DefaultPage); var l := IntOr(limit, DefaultLimit);
      && r.Ok?
      && (r.value.pagination.hasNextPage <==> p * l < r.value.pagination.totalBlogs)
      && (r.value.pagination.hasNextPage ==> |r.value.blogs| == l)
  {
    var r := GetAllBlogs(docs, page, limit, search, tag, searchHit);
    var p := IntOr(page, DefaultPage);
    var l := IntOr(limit, DefaultLimit);
    assert (p - 1) * l >= 0 by { MulMono(0, p - 1, l); }
    var n := r.value.pagination.totalPages;
    var total := r.value.pagination.totalBlogs;
    if p < n {
      MulMono(p, n - 1, l);
    } else {
      MulMono(n, p, l);
    }
    assert p * l == (p - 1) * l + l;
  }

  /** `tags ? tags.split(',').map(tag => tag.trim()) : []`: no tags for an
      absent or empty string; otherwise one tag per comma-separated piece,
      trimmed, empty pieces kept. */
  function SplitTags(tags: string): (r: seq<string>)
    ensures tags == "" ==> r == []
    ensures tags != "" ==> |r| == Count(tags, ',') + 1
    ensures forall i | 0 <= i < |r| :: ',' !in r[i] && Edgeless(r[i])
  {
    if tags == "" then []
    else
      TrimmedPieces(Split(tags, ','), ',');
      TrimAll(Split(tags, ','))
  }

  /** Each tag is the trimmed comma-separated piece at its position. */
  lemma SplitTagsPieces(tags: string, i: nat)
    requires tags != "" && i < |SplitTags(tags)|
    ensures SplitTags(tags)[i] == Trim(Split(tags, ',')[i])
  {
  }

  /** Trimmed pieces are edgeless and gain no character. */
  lemma TrimmedPieces(pieces: seq<string>, sep: char)
    requires forall i | 0 <= i < |pieces| :: sep !in pieces[i]
    ensures forall i | 0 <= i < |pieces| :: sep !in TrimAll(pieces)[i] && Edgeless(TrimAll(pieces)[i])
  {
    var r := TrimAll(pieces);
    forall i | 0 <= i < |r| ensures sep !in r[i] && Edgeless(r[i]) {
      TrimSlice(pieces[i]);
      assert forall x | x in r[i] :: x in pieces[i];
    }
  }

  /** Comma-separated tags without blanks come back out of a join with
      commas unchanged. */
  lemma SplitTagsJoin(tags: string)
    requires tags != "" && NoSpace(tags)
    ensures Join(SplitTags(tags), ',') == tags
  {
    var pieces := Split(tags, ',');
    SplitKeepsNoSpace(tags, ',');
    forall i | 0 <= i < |pieces| ensures Edgeless(pieces[i]) {
      assert NoSpace(pieces[i]);
    }
    TrimAllKeepsTrimmed(pieces);
    assert SplitTags(tags) == TrimAll(pieces);
    JoinSplit(tags, ',');
  }

  /** The schema's trim setter leaves the handler's already trimmed tags
      as they are. */
  lemma SetterKeepsSplitTags(tags: string)
    ensures TrimAll(SplitTags(tags)) == SplitTags(tags)
  {
    TrimAllKeepsTrimmed(SplitTags(tags));
  }

  /** The document `createBlog` builds: the fields the chain left, tags
      split from the tag string, the caller as author, and the schema's
      defaults; the title goes through the trim setter. */
  function NewDoc(b: CleanBlog, tags: seq<string>, id: nat, caller: nat): (d: BlogDoc)
    ensures d.id == id && d.author == caller && d.status == Published && d.readTime == 0
    ensures d.title == Trim(b.title) && d.content == b.content && d.tags == tags
  {
    BlogDoc(id, Trim(b.title), b.content, OrEmpty(b.excerpt), caller, tags, OrEmpty(b.featuredImage), Published, 0)
  }

  /** The document a successful `createBlog` stores: the new document as
      the pre-save hook leaves it. */
  function Created(b: CleanBlog, id: nat, caller: nat): (d: BlogDoc)
    ensures d.id == id && d.author == caller && d.status == Published
  {
    Hooked(NewDoc(b, SplitTags(OrEmpty(b.tags)), id, caller))
  }

  /** The trim setter leaves the title the chain already trimmed as it is. */
  lemma NewDocKeepsTitle(b: CleanBlog, tags: seq<string>, id: nat, caller: nat)
    requires IsClean(b)
    ensures NewDoc(b, tags, id, caller).title == b.title
  {
    TrimOfEdgeless(b.title);
  }

  /** A document holding what a passing chain left satisfies the schema:
      the chain's bounds are at least as strict as the schema's. */
  lemma CleanDocValid(b: CleanBlog, d: BlogDoc)
    requires IsClean(b)
    requires d.title == b.title && d.content == b.content && d.excerpt == OrEmpty(b.excerpt) && d.status == Published
    ensures SchemaValid(d)
  {
  }

  /** `createBlog`, given what the validation chain left: its failure is
      answered with 400 and nothing is written; a body that passed is
      stored by `Insert`. */
  method CreateBlog(coll: BlogCollection, checked: Result<CleanBlog>, caller: nat) returns (r: Result<BlogDoc>)
    requires coll.Valid()
    modifies coll
    ensures coll.Valid()
    ensures checked.Err? ==> r == Err(checked.error) && coll.docs == old(coll.docs)
    ensures checked.Ok? && IsClean(checked.value) ==>
      r == Ok(Created(checked.value, old(coll.nextId), caller))
    ensures checked.Ok? && r.Err? ==> r.error == ServerError
    ensures r.Err? ==> coll.docs == old(coll.docs)
    ensures r.Ok? ==> r.value.author == caller && coll.docs == [r.value] + old(coll.docs)
  {
    if checked.Err? {
      r := Err(checked.error);
    } else {
      r := Insert(coll, checked.value, caller);
    }
  }

  /** The part of `createBlog` after a passing validation: a new document
      with a fresh id, the fields the chain left, the split tags and the
      caller as author is saved, newest first. A body the chain passed
      always satisfies the schema, so its save succeeds; any failure of the
      save is answered with 500. */
  method Insert(coll: BlogCollection, b: CleanBlog, caller: nat) returns (r: Result<BlogDoc>)
    requires coll.Valid()
    modifies coll
    ensures coll.Valid()
    ensures IsClean(b) ==> r == Ok(Hooked(NewDoc(b, SplitTags(OrEmpty(b.tags)), old(coll.nextId), caller)))
    ensures r.Err? ==> r.error == ServerError && coll.docs == old(coll.docs)
    ensures r.Ok? ==> r.value.author == caller && coll.docs == [r.value] + old(coll.docs)
  {
    var id := coll.NewId();
    var tags := SplitTags(OrEmpty(b.tags));
    SetterKeepsSplitTags(OrEmpty(b.tags));
    var doc := new BlogDocument(id, b.title, b.content, OrEmpty(b.excerpt), tags, OrEmpty(b.featuredImage), caller);
    assert doc.Snapshot() == NewDoc(b, tags, id, caller);
    assert coll.Find(id).None?;
    if IsClean(b) {
      NewDocKeepsTitle(b, tags, id, caller);
      CleanDocValid(b, doc.Snapshot());
      r := doc.Save(coll);
    } else {
      var saved := doc.Save(coll);
      r := if saved.Err? then Err(ServerError) else saved;
    }
  }

  /** `value || current`: an empty (or absent) new value keeps the current one. */
  function Or(value: string, current: string): (r: string)
    ensures value != "" ==> r == value
    ensures value == "" ==> r == current
  {
    if value != "" then value else current
  }

  /** The fields `updateBlog` assigns before saving: each of title,
      content, excerpt and featured image is replaced only by a non-empty
      new value; tags are replaced only by a non-empty tag string; the
      title goes through the trim setter. Author, status and id stay. */
  function Merge(d: BlogDoc, b: CleanBlog): (m: BlogDoc)
    ensures m.id == d.id && m.author == d.author && m.status == d.status && m.readTime == d.readTime
    ensures m.title == Trim(if b.title != "" then b.title else d.title)
    ensures b.content != "" ==> m.content == b.content
    ensures b.content == "" ==> m.content == d.content
    ensures OrEmpty(b.excerpt) != "" ==> m.excerpt == b.excerpt.value
    ensures OrEmpty(b.excerpt) == "" ==> m.excerpt == d.excerpt
    ensures OrEmpty(b.featuredImage) != "" ==> m.featuredImage == b.featuredImage.value
    ensures OrEmpty(b.featuredImage) == "" ==> m.featuredImage == d.featuredImage
    ensures OrEmpty(b.tags) != "" ==> m.tags == SplitTags(b.tags.value)
    ensures OrEmpty(b.tags) == "" ==> m.tags == d.tags
  {
    d.(title := Trim(Or(b.title, d.title)),
       content := Or(b.content, d.content),
       excerpt := Or(OrEmpty(b.excerpt), d.excerpt),
       tags := if OrEmpty(b.tags) != "" then SplitTags(OrEmpty(b.tags)) else d.tags,
       featuredImage := Or(OrEmpty(b.featuredImage), d.featuredImage))
  }

  /** After the validation chain the title and the content are never
      empty, so an update always replaces them; only the optional fields
      can fall back to the stored values. An update of a stored document
      therefore always satisfies the schema. */
  lemma CleanUpdateReplacesTitleAndContent(d: BlogDoc, b: CleanBlog)
    requires IsClean(b)
    ensures Merge(d, b).title == b.title && Merge(d, b).content == b.content
    ensures SchemaValid(d) ==> SchemaValid(Merge(d, b))
  {
    MergeFields(d, b);
  }

  lemma MergeFields(d: BlogDoc, b: CleanBlog)
    requires IsClean(b)
    ensures Merge(d, b).title == b.title && Merge(d, b).content == b.content
    ensures Merge(d, b).excerpt == OrEmpty(b.excerpt) || Merge(d, b).excerpt == d.excerpt
  {
    TrimOfEdgeless(b.title);
  }

  /** Applying the same update twice is applying it once. */
  lemma MergeIdempotent(d: BlogDoc, b: CleanBlog)
    ensures Merge(Merge(d, b), b) == Merge(d, b)
  {
    TrimIdempotent(Or(b.title, d.title));
  }

  /** `updateBlog`: 400 for a failed validation before any lookup; 404
      when no document has the id; 403 when the caller is not its author;
      otherwise the merged document is saved (the hook runs again) in
      place. Nothing is written on any refusal. */
  method UpdateBlog(coll: BlogCollection, checked: Result<CleanBlog>, id: nat, caller: nat) returns (r: Result<BlogDoc>)
    requires coll.Valid()
    modifies coll
    ensures coll.Valid()
    ensures r.Err? && r.error != ServerError ==> coll.docs == old(coll.docs)
    ensures checked.Err? ==> r == Err(checked.error)
    ensures checked.Ok? && old(coll.Find(id)).None? ==> r == Err(NotFound)
    ensures checked.Ok? && old(coll.Find(id)).Some? && old(coll.docs[coll.Find(id).value]).author != caller ==>
      r == Err(Forbidden)
    ensures checked.Ok? && IsClean(checked.value) && old(coll.Find(id)).Some? && old(coll.docs[coll.Find(id).value]).author == caller ==>
      var i := old(coll.Find(id)).value;
      && r == Ok(Hooked(Merge(old(coll.docs[i]), checked.value)))
      && coll.docs == old(coll.docs)[i := r.value]
    ensures r.Ok? ==> r.value.author == caller && r.value.id == id
    ensures r == Err(ServerError) ==> coll.docs == old(coll.docs)
  {
    if checked.Err? {
      return Err(checked.error);
    }
    var at := coll.Find(id);
    if at.None? {
      return Err(NotFound);
    }
    var stored := coll.docs[at.value];
    if stored.author != caller {
      return Err(Forbidden);
    }
    r := Modify(coll, at.value, checked.value);
  }

  /** The part of `updateBlog` after the checks: the stored document at
      position `i` is loaded, the update is assigned through the setters,
      and the document is saved in place. A body the chain passed keeps
      the document within the schema, so its save succeeds; any failure of
      the save is answered with 500. */
  method Modify(coll: BlogCollection, i: nat, b: CleanBlog) returns (r: Result<BlogDoc>)
    requires coll.Valid() && i < |coll.docs|
    modifies coll
    ensures coll.Valid()
    ensures IsClean(b) ==> r == Ok(Hooked(Merge(old(coll.docs[i]), b)))
    ensures r.Ok? ==>
      && r.value.id == old(coll.docs[i]).id && r.value.author == old(coll.docs[i]).author
      && coll.docs == old(coll.docs)[i := r.value]
    ensures r.Err? ==> r == Err(ServerError) && coll.docs == old(coll.docs)
  {
    var stored := coll.docs[i];
    assert coll.Find(stored.id) == Some(i);
    assert stored.id < coll.nextId && SchemaValid(stored);
    var doc := new BlogDocument.Load(stored);
    doc.SetTitle(Or(b.title, doc.title));
    if OrEmpty(b.tags) != "" {
      doc.SetTags(SplitTags(OrEmpty(b.tags)));
      SetterKeepsSplitTags(OrEmpty(b.tags));
    }
    doc.SetFields(Or(b.content, doc.content), Or(OrEmpty(b.excerpt), doc.excerpt), Or(OrEmpty(b.featuredImage), doc.featuredImage));
    assert doc.Snapshot() == Merge(stored, b);
    if IsClean(b) {
      CleanUpdateReplacesTitleAndContent(stored, b);
      r := doc.Save(coll);
    } else {
      var saved := doc.Save(coll);
      r := if saved.Err? then Err(ServerError) else saved;
    }
  }

  /** `deleteBlog`: 404 when no document has the id, 403 when the caller is
      not its author; otherwise exactly that document is removed. There is
      no validation step. */
  method DeleteBlog(coll: BlogCollection, id: nat, caller: nat) returns (r: Result<BlogDoc>)
    requires coll.Valid()
    modifies coll
    ensures coll.Valid()
    ensures old(coll.Find(id)).None? ==> r == Err(NotFound)
    ensures old(coll.Find(id)).Some? && old(coll.docs[coll.Find(id).value]).author != caller ==> r == Err(Forbidden)
    ensures r.Err? ==> coll.docs == old(coll.docs) && (r.error == NotFound || r.error == Forbidden)
    ensures old(coll.Find(id)).Some? && old(coll.docs[coll.Find(id).value]).author == caller ==> r.Ok?
    ensures r.Ok? ==>
      var i := old(coll.Find(id)).value;
      && r.value == old(coll.docs[i]) && r.value.author == caller
      && coll.docs == old(coll.docs[..i] + coll.docs[i + 1..])
    ensures forall k | 0 <= k < |coll.docs| :: r.Ok? ==> coll.docs[k].id != id
  {
    var at := coll.Find(id);
    if at.None? {
      return Err(NotFound);
    }
    var stored := coll.docs[at.value];
    if stored.author != caller {
      return Err(Forbidden);
    }
    coll.Remove(at.value);
    r := Ok(stored);
  }

  /** `getBlog`: the document with the id, whatever its status. */
  function GetBlog(docs: seq<BlogDoc>, id: nat): (r: Result<BlogDoc>)
    ensures r.Ok? <==> exists i | 0 <= i < |docs| :: docs[i].id == id
    ensures r.Ok? ==> r.value in docs && r.value.id == id
    ensures r.Err? ==> r.error == NotFound
  {
    var at := FindIndex(docs, (d: BlogDoc) => d.id == id);
    if at.None? then Err(NotFound) else Ok(docs[at.value])
  }

  /** Unlike the listing, a single lookup also serves drafts. */
  lemma DraftsAreServed(docs: seq<BlogDoc>, i: nat)
    requires i < |docs| && docs[i].status == Draft
    requires forall j, k | 0 <= j < k < |docs| :: docs[j].id != docs[k].id
    ensures GetBlog(docs, docs[i].id) == Ok(docs[i])
  {
    var at := FindIndex(docs, (d: BlogDoc) => d.id == docs[i].id);
    assert at.Some?;
  }

  /** `getUserBlogs`: every document of the caller, drafts included,
      newest first. */
  function GetUserBlogs(docs: seq<BlogDoc>, caller: nat): (r: seq<BlogDoc>)
    ensures forall d :: d in r <==> d in docs && d.author == caller
  {
    Where(docs, (d: BlogDoc) => d.author == caller)
  }
}
