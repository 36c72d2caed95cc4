/** The Mongoose `Blog` model of the Express server: the schema's field
    constraints, the document being saved, its `pre('save')` hook (derived
    excerpt and reading time), and the collection the saved documents land
    in. An absent string field is the empty string here. */
module MongooseBlog {
  import opened Wrappers
  import opened Text
  import opened JsMath
  import opened Seqs

  const MaxTitle: nat := 200
  const MinContent: nat := 10
  const MaxExcerpt: nat := 300
  const ExcerptCut: nat := 150
  const Ellipsis: string := "..."
  const WordsPerMinute: nat := 200

  const Draft: string := "draft"
  const Published: string := "published"

  const TitleRequired: string := "Title is required"
  const TitleTooLong: string := "Title cannot be more than 200 characters"
  const ContentRequired: string := "Content is required"
  const ContentTooShort: string := "Content must be at least 10 characters"
  const ExcerptTooLong: string := "Excerpt cannot be more than 300 characters"

  /** Mongoose's default enum message, which quotes the rejected value. */
  function StatusNotInEnum(value: string): string {
    "`" + value + "` is not a valid enum value for path `status`."
  }

  /** A document as stored in the collection. */
  datatype BlogDoc = BlogDoc(
    id: nat,
    title: string,
    content: string,
    excerpt: string,
    author: nat,
    tags: seq<string>,
    featuredImage: string,
    status: string,
    readTime: nat)

  /** The schema's constraints on one document: a non-empty title of at
      most 200 characters, non-empty content of at least 10, an excerpt of
      at most 300, and one of the two statuses. */
  predicate SchemaValid(d: BlogDoc) {
    && d.title != "" && |d.title| <= MaxTitle
    && d.content != "" && |d.content| >= MinContent
    && |d.excerpt| <= MaxExcerpt
    && (d.status == Draft || d.status == Published)
  }

  /** Mongoose's validation before a save: every path is checked, and a
      path reports its first failing validator (`required` before the
      length bounds). */
  function SchemaViolations(d: BlogDoc): (errs: seq<FieldError>)
    ensures errs == [] <==> SchemaValid(d)
    ensures |errs| <= 4
    ensures d.title == "" ==> FieldError("title", TitleRequired) in errs
    ensures d.content == "" ==> FieldError("content", ContentRequired) in errs
  {
    (if d.title == "" then [FieldError("title", TitleRequired)]
     else if |d.title| > MaxTitle then [FieldError("title", TitleTooLong)] else [])
    + (if d.content == "" then [FieldError("content", ContentRequired)]
       else if |d.content| < MinContent then [FieldError("content", ContentTooShort)] else [])
    + (if |d.excerpt| > MaxExcerpt then [FieldError("excerpt", ExcerptTooLong)] else [])
    + (if d.status != Draft && d.status != Published then [FieldError("status", StatusNotInEnum(d.status))] else [])
  }

  /** The hook's excerpt: an empty excerpt with non-empty content becomes
      the first 150 characters of the content followed by "...", however
      short the content is; any other excerpt is kept. */
  function HookExcerpt(excerpt: string, content: string): (r: string)
    ensures excerpt != "" ==> r == excerpt
    ensures excerpt == "" && content == "" ==> r == ""
    ensures excerpt == "" && content != "" ==>
      && |r| == (if |content| < ExcerptCut then |content| else ExcerptCut) + |Ellipsis|
      && r[..|r| - |Ellipsis|] == content[..|r| - |Ellipsis|]
      && r[|r| - |Ellipsis|..] == Ellipsis
    ensures content != "" ==> r != ""
  {
    if excerpt == "" && content != "" then Prefix(content, ExcerptCut) + Ellipsis else excerpt
  }

  /** Once an excerpt is in place no later save derives it again, whatever
      the content has become. */
  lemma HookExcerptSticks(excerpt: string, content: string, later: string)
    requires content != ""
    ensures HookExcerpt(HookExcerpt(excerpt, content), later) == HookExcerpt(excerpt, content)
  {
  }

  /** The number of pieces of `content.split(' ')`, empty pieces included:
      one more than the number of spaces. */
  function SpacePieces(content: string): (n: nat)
    ensures n == |Split(content, ' ')|
    ensures n >= 1
  {
    Count(content, ' ') + 1
  }

  /** The hook's reading time: `Math.ceil(pieces / 200)`, so at least one
      minute, and exactly the number of whole or partial blocks of 200
      pieces. */
  function HookReadTime(content: string): (minutes: nat)
    ensures minutes >= 1
    ensures (minutes - 1) * WordsPerMinute < SpacePieces(content) <= minutes * WordsPerMinute
  {
    var q := CeilDiv(SpacePieces(content), WordsPerMinute);
    CeilDivUnique(SpacePieces(content), WordsPerMinute, q);
    q
  }

  /** A document that passed validation still satisfies the schema after
      the hook: a derived excerpt has at most 153 characters. */
  lemma HookKeepsSchema(d: BlogDoc)
    requires SchemaValid(d)
    ensures SchemaValid(d.(excerpt := HookExcerpt(d.excerpt, d.content), readTime := HookReadTime(d.content)))
  {
  }

  /** The stored documents, newest first (the order of the server's
      `createdAt` descending sort). Ids are unique and below `nextId`, and
      every stored document satisfies the schema. */
  class BlogCollection {
    var docs: seq<BlogDoc>
    var nextId: nat

    ghost predicate Valid()
      reads this
    {
      && (forall i, j | 0 <= i < j < |docs| :: docs[i].id != docs[j].id)
      && (forall i | 0 <= i < |docs| :: docs[i].id < nextId && SchemaValid(docs[i]))
    }

    constructor ()
      ensures Valid() && docs == [] && nextId == 0
    {
      docs, nextId := [], 0;
    }

    /** A fresh ObjectId for a new document. */
    method NewId() returns (id: nat)
      requires Valid()
      modifies this
      ensures Valid()
      ensures id == old(nextId) && nextId == old(nextId) + 1 && docs == old(docs)
      ensures forall i | 0 <= i < |docs| :: docs[i].id != id
    {
      id := nextId;
      nextId := nextId + 1;
    }

    /** The position of the document with this id. */
    function Find(id: nat): (r: Option<nat>)
      reads this
      ensures r.Some? ==> r.value < |docs| && docs[r.value].id == id
      ensures r.None? ==> forall i | 0 <= i < |docs| :: docs[i].id != id
    {
      FindIndex(docs, (d: BlogDoc) => d.id == id)
    }

    /** Writes a saved document: a new id goes in front, a known id is
        replaced where it stands. */
    method Put(d: BlogDoc)
      requires Valid() && SchemaValid(d) && d.id < nextId
      modifies this
      ensures Valid()
      ensures old(Find(d.id)).None? ==> docs == [d] + old(docs)
      ensures old(Find(d.id)).Some? ==> docs == old(docs)[old(Find(d.id)).value := d]
      ensures nextId == old(nextId)
    {
      var at := Find(d.id);
      if at.None? {
        docs := [d] + docs;
        assert forall i | 1 <= i < |docs| :: docs[i] == old(docs)[i - 1];
      } else {
        docs := docs[at.value := d];
      }
    }

    /** `findByIdAndDelete` of a stored document. */
    method Remove(i: nat)
      requires Valid() && i < |docs|
      modifies this
      ensures Valid()
      ensures docs == old(docs[..i] + docs[i + 1..]) && nextId == old(nextId)
      ensures forall k | 0 <= k < |docs| :: docs[k].id != old(docs[i].id)
    {
      docs := docs[..i] + docs[i + 1..];
      assert forall k | 0 <= k < |docs| :: docs[k] == if k < i then old(docs[k]) else old(docs[k + 1]);
    }
  }

  /** The in-memory document a handler builds or loads, changes, and saves. */
  class BlogDocument {
    var id: nat
    var title: string
    var content: string
    var excerpt: string
    var author: nat
    var tags: seq<string>
    var featuredImage: string
    var status: string
    var readTime: nat

    function Snapshot(): (d: BlogDoc)
      reads this
      ensures d.id == id && d.title == title && d.content == content && d.excerpt == excerpt
      ensures d.author == author && d.tags == tags && d.featuredImage == featuredImage
      ensures d.status == status && d.readTime == readTime
    {
      BlogDoc(id, title, content, excerpt, author, tags, featuredImage, status, readTime)
    }

    /** `new Blog({...})`: the title and each tag go through the schema's
        trim setter; status and reading time take their defaults. */
    constructor (id: nat, title: string, content: string, excerpt: string, tags: seq<string>,
                 featuredImage: string, author: nat)
      ensures Snapshot() == BlogDoc(id, Trim(title), content, excerpt, author, TrimAll(tags), featuredImage, Published, 0)
    {
      this.id := id;
      this.title := Trim(title);
      this.content := content;
      this.excerpt := excerpt;
      this.author := author;
      this.tags := TrimAll(tags);
      this.featuredImage := featuredImage;
      this.status := Published;
      this.readTime := 0;
    }

    /** `Blog.findById`: the stored document, as an object. */
    constructor Load(d: BlogDoc)
      ensures Snapshot() == d
    {
      id, title, content, excerpt, author := d.id, d.title, d.content, d.excerpt, d.author;
      tags, featuredImage, status, readTime := d.tags, d.featuredImage, d.status, d.readTime;
    }

    /** Assignments through the schema's setters. */
    method SetTitle(t: string)
      modifies this
      ensures title == Trim(t)
      ensures Snapshot() == old(Snapshot()).(title := title)
    {
      title := Trim(t);
    }

    method SetTags(ts: seq<string>)
      modifies this
      ensures Snapshot() == old(Snapshot()).(tags := TrimAll(ts))
    {
      tags := TrimAll(ts);
    }

    method SetFields(content: string, excerpt: string, featuredImage: string)
      modifies this
      ensures Snapshot() == old(Snapshot()).(content := content, excerpt := excerpt, featuredImage := featuredImage)
    {
      this.content := content;
      this.excerpt := excerpt;
      this.featuredImage := featuredImage;
    }

    /** The `pre('save')` hook: the excerpt is derived only when it is
        empty and there is content; the reading time is recomputed on every
        save that has content. Nothing else changes. */
    method PreSave()
      modifies this
      ensures excerpt == HookExcerpt(old(excerpt), content)
      ensures readTime == if content != "" then HookReadTime(content) else old(readTime)
      ensures Snapshot() == old(Snapshot()).(excerpt := excerpt, readTime := readTime)
    {
      if excerpt == "" && content != "" {
        excerpt := Prefix(content, ExcerptCut) + Ellipsis;
      }
      if content != "" {
        var pieces := Count(content, ' ') + 1;
        readTime := CeilDiv(pieces, WordsPerMinute);
        CeilDivUnique(pieces, WordsPerMinute, readTime);
      }
    }

    /** `save()`: validation first (a failing document is not written and
        is not touched by the hook), then the hook, then the write. */
    method Save(coll: BlogCollection) returns (r: Result<BlogDoc>)
      requires coll.Valid() && id < coll.nextId
      modifies this, coll
      ensures coll.Valid()
      ensures coll.nextId == old(coll.nextId)
      ensures !SchemaValid(old(Snapshot())) ==>
        r == Err(Invalid(SchemaViolations(old(Snapshot())))) && coll.docs == old(coll.docs) && Snapshot() == old(Snapshot())
      ensures SchemaValid(old(Snapshot())) ==>
        var saved := Hooked(old(Snapshot()));
        && r == Ok(saved) && Snapshot() == saved
        && (old(coll.Find(id)).None? ==> coll.docs == [saved] + old(coll.docs))
        && (old(coll.Find(id)).Some? ==> coll.docs == old(coll.docs)[old(coll.Find(id)).value := saved])
    {
      var errs := SchemaViolations(Snapshot());
      if errs != [] {
        return Err(Invalid(errs));
      }
      ghost var before := Snapshot();
      PreSave();
      HookKeepsSchema(before);
      r := Ok(Snapshot());
      coll.Put(r.value);
    }
  }

  /** The document as the hook leaves it. */
  function Hooked(d: BlogDoc): (h: BlogDoc)
    ensures h.excerpt == HookExcerpt(d.excerpt, d.content)
    ensures h == d.(excerpt := h.excerpt, readTime := h.readTime)
    ensures d.content != "" ==> h.readTime == HookReadTime(d.content) && h.excerpt != ""
  {
    d.(excerpt := HookExcerpt(d.excerpt, d.content),
       readTime := if d.content != "" then HookReadTime(d.content) else d.readTime)
  }

  /** The schema's trim setter on every element of a string array. */
  function TrimAll(ts: seq<string>): (r: seq<string>)
    ensures |r| == |ts|
    ensures forall i | 0 <= i < |ts| :: r[i] == Trim(ts[i])
  {
    if ts == [] then [] else [Trim(ts[0])] + TrimAll(ts[1..])
  }

  /** Trimming strings that are already trimmed changes nothing. */
  lemma {:induction false} TrimAllKeepsTrimmed(ts: seq<string>)
    requires forall i | 0 <= i < |ts| :: Edgeless(ts[i])
    ensures TrimAll(ts) == ts
  {
    if ts != [] {
      TrimOfEdgeless(ts[0]);
      TrimAllKeepsTrimmed(ts[1..]);
    }
  }
}
