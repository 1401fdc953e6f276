/**
 * The comment actions: the newest-first listing of an article's comments, and
 * creation (through the sanitiser), deletion and update of comments.
 */
module CommentController {
  import opened Optional
  import opened Schema
  import Tables
  import opened Validation
  import Database

  // ---------------------------------------------------------------- index

  /** `orderBy('created_at', 'desc')`. */
  predicate NewestFirst(s: seq<Comment>) {
    forall i, j :: 0 <= i < j < |s| ==> s[i].createdAt >= s[j].createdAt
  }

  /** Puts `c` in front of the first comment that is not newer than it. */
  function Insert(c: Comment, s: seq<Comment>): (r: seq<Comment>)
    ensures multiset(r) == multiset(s) + multiset{c}
  {
    if s == [] || c.createdAt >= s[0].createdAt then
      [c] + s
    else
      assert s == [s[0]] + s[1..];
      [s[0]] + Insert(c, s[1..])
  }

  /** Inserting into a newest-first sequence keeps it newest first. */
  lemma {:induction false} InsertKeepsOrder(c: Comment, s: seq<Comment>)
    requires NewestFirst(s)
    ensures NewestFirst(Insert(c, s))
  {
    if s != [] && c.createdAt < s[0].createdAt {
      var rest := Insert(c, s[1..]);
      InsertKeepsOrder(c, s[1..]);
      var r := [s[0]] + rest;
      assert r == Insert(c, s);
      forall j | 1 <= j < |r| ensures r[0].createdAt >= r[j].createdAt {
        assert r[j] in multiset(rest);
        assert r[j] == c || r[j] in multiset(s[1..]);
      }
    }
  }

  /** The same comments, newest first. Comments with equal creation times keep their
      storage order here; the database does not promise any order among them. */
  function SortNewestFirst(s: seq<Comment>): (r: seq<Comment>)
    ensures NewestFirst(r)
    ensures multiset(r) == multiset(s)
  {
    if s == [] then []
    else
      assert s == [s[0]] + s[1..];
      InsertKeepsOrder(s[0], SortNewestFirst(s[1..]));
      Insert(s[0], SortNewestFirst(s[1..]))
  }

  /** `index`: exactly the comments of the article, each as often as it is stored,
      newest first. */
  function Index(comments: seq<Comment>, articleId: Id): (r: seq<Comment>)
    ensures NewestFirst(r)
    ensures multiset(r) == multiset(CommentsOf(comments, articleId))
    ensures forall c :: c in r <==> c in comments && c.articleId == articleId
  {
    var r := SortNewestFirst(CommentsOf(comments, articleId));
    assert forall c :: c in r <==> c in multiset(CommentsOf(comments, articleId));
    r
  }

  // ---------------------------------------------------------------- store

  /** The fields `store` rejects: `required|exists:articles,id`,
      `required|exists:users,id` and `required|string`. */
  function StoreErrors(articleId: Option<Id>, userId: Option<Id>, content: Param,
                       articles: seq<Article>, users: seq<User>): (errs: set<Field>)
    ensures ArticleId in errs <==>
      articleId.None? || Tables.Find(articles, ArticleKey, articleId.value).None?
    ensures UserId in errs <==> userId.None? || FindUser(users, userId.value).None?
    ensures Content in errs <==> !Required(content)
    ensures errs <= {ArticleId, UserId, Content}
  {
    (if articleId.Some? && Tables.Find(articles, ArticleKey, articleId.value).Some? then {} else {ArticleId})
    + (if userId.Some? && FindUser(users, userId.value).Some? then {} else {UserId})
    + (if Required(content) then {} else {Content})
  }

  /** Appending a comment with a fresh id and an existing user keeps the invariant. */
  lemma AppendKeepsWellFormed(users: seq<User>, articles: seq<Article>, comments: seq<Comment>, c: Comment)
    requires WellFormed(users, articles, comments)
    requires forall i :: 0 <= i < |comments| ==> comments[i].id < c.id
    requires FindUser(users, c.userId).Some?
    ensures WellFormed(users, articles, comments + [c])
  {
    Tables.AppendKeepsIncreasing(comments, CommentKey, c);
    var after := comments + [c];
    assert forall i :: 0 <= i < |comments| ==> after[i] == comments[i];
  }

  /** `store`: validates, then appends the comment with the next id, the current time,
      and the sanitised content `clean(content)`, never the raw text. */
  method Store(db: Database.Db, articleId: Option<Id>, userId: Option<Id>, content: Param,
               clean: string -> string, now: Time)
    returns (r: Result<Comment>)
    requires db.Valid()
    modifies db
    ensures db.Valid()
    ensures db.users == old(db.users) && db.articles == old(db.articles)
    ensures db.nextArticleId == old(db.nextArticleId)
    ensures var errs := StoreErrors(articleId, userId, content, old(db.articles), old(db.users));
      if errs != {} then
        r == Err(Invalid(errs)) && db.comments == old(db.comments) && db.nextCommentId == old(db.nextCommentId)
      else
        && r == Ok(Comment(old(db.nextCommentId), articleId.value, userId.value, clean(content.text), now))
        && db.comments == old(db.comments) + [r.value]
        && db.nextCommentId == old(db.nextCommentId) + 1
  {
    var errs := StoreErrors(articleId, userId, content, db.articles, db.users);
    if errs != {} {
      return Err(Invalid(errs));
    }
    var c := Comment(db.nextCommentId, articleId.value, userId.value, clean(content.text), now);
    AppendKeepsWellFormed(db.users, db.articles, db.comments, c);
    db.comments := db.comments + [c];
    db.nextCommentId := db.nextCommentId + 1;
    r := Ok(c);
  }

  // ---------------------------------------------------------------- destroy

  datatype DestroyReport = DestroyReport(remainingCount: nat, firstRemaining: Option<Comment>)

  /** The count and the first of an article's comments, as `count()` and `first()` on
      an unordered query see them: the first is the earliest in storage order. */
  function Remaining(comments: seq<Comment>, articleId: Id): (rep: DestroyReport)
    ensures rep.remainingCount == |CommentsOf(comments, articleId)|
    ensures rep.firstRemaining.None? <==> rep.remainingCount == 0
    ensures rep.firstRemaining.Some? ==> exists k :: (0 <= k < |comments|
      && comments[k] == rep.firstRemaining.value
      && comments[k].articleId == articleId
      && forall j :: 0 <= j < k ==> comments[j].articleId != articleId)
  {
    var cs := CommentsOf(comments, articleId);
    if cs == [] then DestroyReport(0, None)
    else
      CommentsOfHead(comments, articleId);
      assert cs[0] in cs;
      DestroyReport(|cs|, Some(cs[0]))
  }

  /** A comment between two runs of rows adds exactly one to its article's count. */
  lemma {:induction false} CountAround(pre: seq<Comment>, x: Comment, post: seq<Comment>)
    ensures |CommentsOf(pre + [x] + post, x.articleId)| == |CommentsOf(pre + post, x.articleId)| + 1
  {
    CommentsOfAppend(pre, [x] + post, x.articleId);
    CommentsOfAppend([x], post, x.articleId);
    CommentsOfAppend(pre, post, x.articleId);
    assert pre + [x] + post == pre + ([x] + post);
    assert [x][1..] == [];
  }

  /** Removing one comment of an article lowers that article's count by one. */
  lemma {:induction false} DestroyLowersCount(comments: seq<Comment>, id: Id)
    requires Tables.Distinct(comments, CommentKey)
    requires Tables.Find(comments, CommentKey, id).Some?
    ensures var gone := comments[Tables.Find(comments, CommentKey, id).value];
      |CommentsOf(Tables.Delete(comments, CommentKey, id), gone.articleId)| + 1
        == |CommentsOf(comments, gone.articleId)|
  {
    var k := Tables.Find(comments, CommentKey, id).value;
    assert comments == comments[..k] + [comments[k]] + comments[k + 1..];
    CountAround(comments[..k], comments[k], comments[k + 1..]);
  }

  /** The last comment of an article leaves a count of 0 and no first comment. */
  lemma {:induction false} DestroyLastComment(comments: seq<Comment>, id: Id)
    requires Tables.Distinct(comments, CommentKey)
    requires Tables.Find(comments, CommentKey, id).Some?
    requires var gone := comments[Tables.Find(comments, CommentKey, id).value];
      |CommentsOf(comments, gone.articleId)| == 1
    ensures var gone := comments[Tables.Find(comments, CommentKey, id).value];
      Remaining(Tables.Delete(comments, CommentKey, id), gone.articleId) == DestroyReport(0, None)
  {
    DestroyLowersCount(comments, id);
  }

  /** Deleting a comment keeps the invariant: every remaining row was there before. */
  lemma DeleteKeepsWellFormed(users: seq<User>, articles: seq<Article>, comments: seq<Comment>, id: Id)
    requires WellFormed(users, articles, comments)
    ensures WellFormed(users, articles, Tables.Delete(comments, CommentKey, id))
  {
    var after := Tables.Delete(comments, CommentKey, id);
    forall i | 0 <= i < |after| ensures FindUser(users, after[i].userId).Some? {
      assert after[i] in comments;
    }
  }

  /** `destroy`: NotFound on an unknown id; otherwise exactly that comment is removed and
      the report describes what is left of its article's comments. */
  method Destroy(db: Database.Db, id: Id) returns (r: Result<DestroyReport>)
    requires db.Valid()
    modifies db
    ensures db.Valid()
    ensures db.users == old(db.users) && db.articles == old(db.articles)
    ensures db.nextArticleId == old(db.nextArticleId) && db.nextCommentId == old(db.nextCommentId)
    ensures Tables.Find(old(db.comments), CommentKey, id).None? ==>
      r == Err(NotFound) && db.comments == old(db.comments)
    ensures Tables.Find(old(db.comments), CommentKey, id).Some? ==>
      var gone := old(db.comments)[Tables.Find(old(db.comments), CommentKey, id).value];
      && db.comments == Tables.Delete(old(db.comments), CommentKey, id)
      && r == Ok(Remaining(db.comments, gone.articleId))
      && r.value.remainingCount + 1 == |CommentsOf(old(db.comments), gone.articleId)|
  {
    var found := Tables.Find(db.comments, CommentKey, id);
    if found.None? {
      return Err(NotFound);
    }
    var articleId := db.comments[found.value].articleId;
    Tables.IncreasingIsDistinct(db.comments, CommentKey);
    DestroyLowersCount(db.comments, id);
    DeleteKeepsWellFormed(db.users, db.articles, db.comments, id);
    db.comments := Tables.Delete(db.comments, CommentKey, id);
    r := Ok(Remaining(db.comments, articleId));
  }

  // ---------------------------------------------------------------- update

  /** `update`: NotFound on an unknown id, checked before validation; then only the
      content changes, stored exactly as sent: no sanitiser runs here. */
  method Update(db: Database.Db, id: Id, content: Param) returns (r: Result<Comment>)
    requires db.Valid()
    modifies db
    ensures db.Valid()
    ensures db.users == old(db.users) && db.articles == old(db.articles)
    ensures db.nextArticleId == old(db.nextArticleId) && db.nextCommentId == old(db.nextCommentId)
    ensures Tables.Find(old(db.comments), CommentKey, id).None? ==>
      r == Err(NotFound) && db.comments == old(db.comments)
    ensures Tables.Find(old(db.comments), CommentKey, id).Some? && !Required(content) ==>
      r == Err(Invalid({Content})) && db.comments == old(db.comments)
    ensures Tables.Find(old(db.comments), CommentKey, id).Some? && Required(content) ==>
      var k := Tables.Find(old(db.comments), CommentKey, id).value;
      && r == Ok(old(db.comments)[k].(content := content.text))
      && db.comments == old(db.comments)[k := r.value]
  {
    var found := Tables.Find(db.comments, CommentKey, id);
    if found.None? {
      return Err(NotFound);
    }
    if !Required(content) {
      return Err(Invalid({Content}));
    }
    var k := found.value;
    var c := db.comments[k].(content := content.text);
    Tables.ReplaceKeepsIncreasing(db.comments, CommentKey, k, c);
    db.comments := db.comments[k := c];
    r := Ok(c);
  }
}
