/** The Django admin of the blog: the comment list's preview and reply
    columns, the two bulk moderation actions, and the post form's save,
    which makes the signed-in admin the author of a post they create. */
module BlogAdmin {
  import opened Wrappers
  import opened BlogModels
  import opened BlogStore

  const PreviewLength: nat := 100

  /** `content_preview`: short content as it is, longer content cut to its
      first 100 characters with an ellipsis. */
  function ContentPreview(content: string): (r: string)
    ensures |content| <= PreviewLength ==> r == content
    ensures |content| > PreviewLength ==> r == content[..PreviewLength] + Ellipsis
    ensures |r| <= PreviewLength + |Ellipsis|
    ensures r[..if |content| <= PreviewLength then |content| else PreviewLength] ==
            content[..if |content| <= PreviewLength then |content| else PreviewLength]
  {
    if |content| > PreviewLength then content[..PreviewLength] + Ellipsis else content
  }

  /** The admin's reply column agrees with the comment's own `is_reply`. */
  function IsReplyColumn(c: Comment): (b: bool)
    ensures b == IsReply(c)
    ensures b <==> c.parent.Some?
  {
    c.parent != None
  }

  /** `approve_comments`: the selected comments become approved, and the
      number of rows updated is reported. */
  method ApproveComments(db: Database, selected: set<nat>) returns (updated: nat)
    requires db.Valid()
    modifies db
    ensures db.Valid()
    ensures db.comments == WithApproval(old(db.comments), selected, true)
    ensures updated == CountSelected(old(db.comments), selected)
    ensures db.posts == old(db.posts) && db.categories == old(db.categories) && db.tags == old(db.tags)
    ensures db.nextPostId == old(db.nextPostId) && db.nextCommentId == old(db.nextCommentId)
  {
    updated := db.SetApproval(selected, true);
  }

  /** `disapprove_comments`: the selected comments become unapproved. */
  method DisapproveComments(db: Database, selected: set<nat>) returns (updated: nat)
    requires db.Valid()
    modifies db
    ensures db.Valid()
    ensures db.comments == WithApproval(old(db.comments), selected, false)
    ensures updated == CountSelected(old(db.comments), selected)
    ensures db.posts == old(db.posts) && db.categories == old(db.categories) && db.tags == old(db.tags)
    ensures db.nextPostId == old(db.nextPostId) && db.nextCommentId == old(db.nextCommentId)
  {
    updated := db.SetApproval(selected, false);
  }

  /** A moderation action sets the flag on exactly the selected comments
      and changes nothing else about any comment. */
  lemma ModerationTouchesOnlySelected(cs: seq<Comment>, selected: set<nat>, approved: bool, i: nat)
    requires i < |cs|
    ensures WithApproval(cs, selected, approved)[i].id == cs[i].id
    ensures cs[i].id in selected ==> WithApproval(cs, selected, approved)[i].isApproved == approved
    ensures cs[i].id !in selected ==> WithApproval(cs, selected, approved)[i] == cs[i]
    ensures WithApproval(cs, selected, approved)[i].(isApproved := cs[i].isApproved) == cs[i]
  {
  }

  /** Repeating a moderation action changes nothing more. */
  lemma {:induction false} ModerationIdempotent(cs: seq<Comment>, selected: set<nat>, approved: bool)
    ensures WithApproval(WithApproval(cs, selected, approved), selected, approved) == WithApproval(cs, selected, approved)
  {
    var once := WithApproval(cs, selected, approved);
    var twice := WithApproval(once, selected, approved);
    assert |twice| == |once|;
    forall i | 0 <= i < |once| ensures twice[i] == once[i] {
      assert once[i].id == cs[i].id;
    }
  }

  /** The later of two moderation actions on the same selection wins. */
  lemma {:induction false} ModerationLastWins(cs: seq<Comment>, selected: set<nat>, first: bool, second: bool)
    ensures WithApproval(WithApproval(cs, selected, first), selected, second) == WithApproval(cs, selected, second)
  {
    var once := WithApproval(cs, selected, first);
    var twice := WithApproval(once, selected, second);
    forall i | 0 <= i < |cs| ensures twice[i] == WithApproval(cs, selected, second)[i] {
      assert once[i].id == cs[i].id;
    }
  }

  /** The ids of a table are its first row's id and the ids of the rest;
      with unique ids the first is not among the rest. */
  lemma CommentIdsOfCons(cs: seq<Comment>)
    requires cs != [] && UniqueCommentIds(cs)
    ensures CommentIds(cs) == {cs[0].id} + CommentIds(cs[1..])
    ensures cs[0].id !in CommentIds(cs[1..]) && UniqueCommentIds(cs[1..])
  {
    var rest := cs[1..];
    assert cs == [cs[0]] + rest;
    forall i, j | 0 <= i < j < |rest| ensures rest[i].id != rest[j].id {
      assert rest[i] == cs[i + 1] && rest[j] == cs[j + 1];
    }
    forall c | c in rest ensures c.id != cs[0].id {
      var k :| 0 <= k < |rest| && rest[k] == c;
      assert cs[k + 1] == c;
    }
  }

  /** One more id in the table adds one match exactly when it is selected. */
  lemma MatchedWithOneMore(selected: set<nat>, ids: set<nat>, x: nat)
    requires x !in ids
    ensures |selected * ({x} + ids)| == (if x in selected then 1 else 0) + |selected * ids|
  {
    if x in selected {
      assert selected * ({x} + ids) == (selected * ids) + {x};
    } else {
      assert selected * ({x} + ids) == selected * ids;
    }
  }

  /** The count a moderation action reports is the number of selected ids
      that name a comment: each matched row once, since ids are unique. */
  lemma {:induction false} CountSelectedIsMatchedIds(cs: seq<Comment>, selected: set<nat>)
    requires UniqueCommentIds(cs)
    ensures CountSelected(cs, selected) == |selected * CommentIds(cs)|
  {
    if cs == [] {
      assert CommentIds(cs) == {};
    } else {
      CommentIdsOfCons(cs);
      CountSelectedIsMatchedIds(cs[1..], selected);
      MatchedWithOneMore(selected, CommentIds(cs[1..]), cs[0].id);
    }
  }

  /** A selection made from the comment list, as the admin makes it, is
      counted in full. */
  lemma CountSelectedFromList(cs: seq<Comment>, selected: set<nat>)
    requires UniqueCommentIds(cs) && selected <= CommentIds(cs)
    ensures CountSelected(cs, selected) == |selected|
  {
    CountSelectedIsMatchedIds(cs, selected);
    assert selected * CommentIds(cs) == selected;
  }

  /** `BlogAdmin.save_model`: on the add form the requesting admin becomes
      the author; on the change form the author is what the form holds.
      The post is then saved like any other. */
  method SaveModel(db: Database, obj: Post, change: bool, admin: UserId, slugify: string -> string, now: Time)
    returns (r: Result<Post>)
    requires db.Valid()
    requires change <==> obj.id in PostIds(db.posts)
    modifies db
    ensures db.Valid()
    ensures r.Ok? ==> r.value.author == (if change then obj.author else admin)
    ensures r.Ok? && !change ==> db.posts == [r.value] + old(db.posts)
    ensures r.Ok? && change ==> db.posts == ReplacePost(old(db.posts), r.value) && r.value.id == obj.id
    ensures r.Err? ==> r == Err(Conflict("slug")) && db.posts == old(db.posts)
    ensures var saved := PostOnSave(if change then obj else obj.(author := admin, id := old(db.nextPostId)), slugify, now);
      && (r.Err? <==> SlugTaken(old(db.posts), saved.slug, saved.id))
      && (r.Ok? ==> r.value == saved)
    ensures db.comments == old(db.comments) && db.categories == old(db.categories) && db.tags == old(db.tags)
  {
    var row := obj;
    if !change {
      row := row.(author := admin);
    }
    r := db.SavePost(row, slugify, now);
  }
}
