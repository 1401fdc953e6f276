/**
 * The article actions: the listing with excerpts and comment counts, the detail
 * view, title search, and creation, partial update and deletion of articles.
 */
module ArticleController {
  import opened Optional
  import opened Schema
  import Tables
  import opened Validation
  import SqlLike
  import Database

  /** Characters kept by the excerpts of the listing and of search results. */
  const ExcerptLength: nat := 200
  const Ellipsis: string := "..."
  /** `max:255` on the title. */
  const TitleMaxLength: nat := 255

  /** `substr(s, 0, n)`: the first n characters, or all of s when it is shorter. */
  function Take(s: string, n: nat): (r: string)
    ensures r <= s
    ensures |r| == if |s| < n then |s| else n
  {
    if |s| <= n then s else s[..n]
  }

  // ---------------------------------------------------------------- index

  datatype ArticleSummary = ArticleSummary(
    id: Id,
    title: string,
    content: string,
    author: string,
    commentsCount: nat,
    publishedAt: Time,
    createdAt: Time)

  /** The listing entry for article `a`: its excerpt always ends in an ellipsis, and it
      names the author and counts the comments that refer to the article. */
  predicate Summarizes(s: ArticleSummary, a: Article, users: seq<User>, comments: seq<Comment>) {
    && s.id == a.id
    && s.title == a.title
    && s.content == Take(a.content, ExcerptLength) + Ellipsis
    && FindUser(users, a.authorId).Some?
    && s.author == FindUser(users, a.authorId).value.name
    && s.commentsCount == |CommentsOf(comments, a.id)|
    && s.publishedAt == a.publishedAt
    && s.createdAt == a.createdAt
  }

  /** `index`: one summary per article, in storage order; an article whose author is
      not a user makes the whole listing fail. */
  function Index(users: seq<User>, articles: seq<Article>, comments: seq<Comment>)
    : (r: Result<seq<ArticleSummary>>)
    ensures r.Ok? <==> forall i :: 0 <= i < |articles| ==> FindUser(users, articles[i].authorId).Some?
    ensures r.Err? ==> r.error == MissingAssociation
    ensures r.Ok? ==> |r.value| == |articles|
    ensures r.Ok? ==> forall i :: 0 <= i < |articles| ==> Summarizes(r.value[i], articles[i], users, comments)
  {
    if articles == [] then Ok([])
    else
      var a := articles[0];
      assert forall i :: 1 <= i < |articles| ==> articles[i] == articles[1..][i - 1];
      match FindUser(users, a.authorId)
      case None => Err(MissingAssociation)
      case Some(author) =>
        match Index(users, articles[1..], comments)
        case Err(e) => Err(e)
        case Ok(rest) =>
          var s := ArticleSummary(a.id, a.title, Take(a.content, ExcerptLength) + Ellipsis, author.name,
                                  |CommentsOf(comments, a.id)|, a.publishedAt, a.createdAt);
          Ok([s] + rest)
  }

  /** Every listing excerpt is the first min(200, |content|) characters of the content
      followed by "...", also when the content is shorter than 200 characters. */
  lemma IndexExcerpt(users: seq<User>, articles: seq<Article>, comments: seq<Comment>, i: nat)
    requires Index(users, articles, comments).Ok? && i < |articles|
    ensures var c := Index(users, articles, comments).value[i].content;
            var n := if |articles[i].content| < ExcerptLength then |articles[i].content| else ExcerptLength;
      && |c| == n + 3
      && c[..n] == articles[i].content[..n]
      && c[n..] == "..."
  {
    var c := Index(users, articles, comments).value[i].content;
    var t := Take(articles[i].content, ExcerptLength);
    assert c == t + Ellipsis;
    assert c[..|t|] == t && c[|t|..] == Ellipsis;
  }

  /** On a well-formed database the listing never fails. */
  lemma IndexTotal(users: seq<User>, articles: seq<Article>, comments: seq<Comment>)
    requires WellFormed(users, articles, comments)
    ensures Index(users, articles, comments).Ok?
  {
  }

  // ---------------------------------------------------------------- show

  datatype CommentView = CommentView(id: Id, content: string, user: string, createdAt: Time)

  datatype ArticleDetail = ArticleDetail(
    id: Id,
    title: string,
    content: string,
    author: string,
    authorId: Id,
    imagePath: Option<string>,
    publishedAt: Time,
    createdAt: Time,
    comments: seq<CommentView>)

  /** The view of comment `c` names its author. */
  predicate Presents(v: CommentView, c: Comment, users: seq<User>) {
    && v.id == c.id
    && v.content == c.content
    && FindUser(users, c.userId).Some?
    && v.user == FindUser(users, c.userId).value.name
    && v.createdAt == c.createdAt
  }

  /** The `comments.user` relation mapped to views, in the order given. */
  function CommentViews(cs: seq<Comment>, users: seq<User>): (r: Result<seq<CommentView>>)
    ensures r.Ok? <==> forall i :: 0 <= i < |cs| ==> FindUser(users, cs[i].userId).Some?
    ensures r.Err? ==> r.error == MissingAssociation
    ensures r.Ok? ==> |r.value| == |cs|
    ensures r.Ok? ==> forall i :: 0 <= i < |cs| ==> Presents(r.value[i], cs[i], users)
  {
    if cs == [] then Ok([])
    else
      var c := cs[0];
      assert forall i :: 1 <= i < |cs| ==> cs[i] == cs[1..][i - 1];
      match FindUser(users, c.userId)
      case None => Err(MissingAssociation)
      case Some(u) =>
        match CommentViews(cs[1..], users)
        case Err(e) => Err(e)
        case Ok(rest) => Ok([CommentView(c.id, c.content, u.name, c.createdAt)] + rest)
  }

  /** The detail view of article `a`: full content, author, and every comment of the
      article in storage order. */
  predicate Details(d: ArticleDetail, a: Article, users: seq<User>, comments: seq<Comment>) {
    var cs := CommentsOf(comments, a.id);
    && d.id == a.id
    && d.title == a.title
    && d.content == a.content
    && FindUser(users, a.authorId).Some?
    && d.author == FindUser(users, a.authorId).value.name
    && d.authorId == a.authorId
    && d.imagePath == a.imagePath
    && d.publishedAt == a.publishedAt
    && d.createdAt == a.createdAt
    && |d.comments| == |cs|
    && forall i :: 0 <= i < |cs| ==> Presents(d.comments[i], cs[i], users)
  }

  /** `show`: NotFound exactly when no article has the id. */
  function Show(users: seq<User>, articles: seq<Article>, comments: seq<Comment>, id: Id)
    : (r: Result<ArticleDetail>)
    ensures r == Err(NotFound) <==> Tables.Find(articles, ArticleKey, id).None?
    ensures r.Err? ==> r.error == NotFound || r.error == MissingAssociation
    ensures Tables.Find(articles, ArticleKey, id).Some? ==>
      var a := articles[Tables.Find(articles, ArticleKey, id).value];
      (r.Ok? <==> (FindUser(users, a.authorId).Some?
        && forall c :: c in CommentsOf(comments, a.id) ==> FindUser(users, c.userId).Some?))
    ensures r.Ok? ==> (Tables.Find(articles, ArticleKey, id).Some?
      && Details(r.value, articles[Tables.Find(articles, ArticleKey, id).value], users, comments))
  {
    match Tables.Find(articles, ArticleKey, id)
    case None => Err(NotFound)
    case Some(k) =>
      var a := articles[k];
      match FindUser(users, a.authorId)
      case None => Err(MissingAssociation)
      case Some(author) =>
        match CommentViews(CommentsOf(comments, a.id), users)
        case Err(e) => Err(e)
        case Ok(views) =>
          Ok(ArticleDetail(a.id, a.title, a.content, author.name, author.id, a.imagePath,
                           a.publishedAt, a.createdAt, views))
  }

  /** On a well-formed database `show` fails only with NotFound, and only on an unknown id. */
  lemma ShowTotal(users: seq<User>, articles: seq<Article>, comments: seq<Comment>, id: Id)
    requires WellFormed(users, articles, comments)
    ensures Show(users, articles, comments, id).Ok? <==> Tables.Find(articles, ArticleKey, id).Some?
  {
    var cs := CommentsOf(comments, id);
    forall i | 0 <= i < |cs|
      ensures FindUser(users, cs[i].userId).Some?
    {
      assert cs[i] in comments;
    }
  }

  // ---------------------------------------------------------------- search

  datatype SearchHit = SearchHit(id: Id, title: string, content: string, publishedAt: Time)

  /** A search result: the content excerpt carries no ellipsis. */
  function HitOf(a: Article): SearchHit {
    SearchHit(a.id, a.title, Take(a.content, ExcerptLength), a.publishedAt)
  }

  function HitKey(h: SearchHit): Id { h.id }

  /** `SELECT * FROM articles WHERE title LIKE pattern`, mapped to results. */
  function Hits(articles: seq<Article>, pattern: string, fold: char -> char): (r: seq<SearchHit>)
    ensures |r| <= |articles|
    ensures forall h :: h in r <==>
      exists a :: a in articles && SqlLike.Like(a.title, pattern, fold) && h == HitOf(a)
    ensures Tables.Increasing(articles, ArticleKey) ==> Tables.Increasing(r, HitKey)
  {
    if articles == [] then []
    else
      var rest := Hits(articles[1..], pattern, fold);
      if SqlLike.Like(articles[0].title, pattern, fold) then
        var r := [HitOf(articles[0])] + rest;
        assert Tables.Increasing(articles, ArticleKey) ==> Tables.Increasing(r, HitKey) by {
          if Tables.Increasing(articles, ArticleKey) {
            assert Tables.Increasing(articles[1..], ArticleKey);
            forall j | 1 <= j < |r| ensures r[0].id < r[j].id {
              assert r[j] in rest;
              var a :| a in articles[1..] && SqlLike.Like(a.title, pattern, fold) && r[j] == HitOf(a);
              var m :| 0 <= m < |articles[1..]| && articles[1..][m] == a;
              assert a == articles[m + 1];
            }
          }
        }
        r
      else
        rest
  }

  /** PHP `!$query`: absent, empty, and also the string "0". */
  predicate Falsy(q: Option<string>) {
    q.None? || q.value == "" || q.value == "0"
  }

  /** `search` as written: a falsy query yields nothing; otherwise the query is placed
      between `%` signs unescaped, so its own `%`, `_` and `\` act as LIKE syntax. */
  function SearchAsWritten(articles: seq<Article>, q: Option<string>, fold: char -> char)
    : (r: seq<SearchHit>)
    ensures Falsy(q) ==> r == []
    ensures !Falsy(q) ==> forall h :: h in r <==>
      exists a :: a in articles && SqlLike.Like(a.title, "%" + q.value + "%", fold) && h == HitOf(a)
    ensures Tables.Increasing(articles, ArticleKey) ==> Tables.Increasing(r, HitKey)
  {
    if Falsy(q) then [] else Hits(articles, "%" + q.value + "%", fold)
  }

  /** `search` as intended: an absent or empty query yields nothing; any other query
      yields the articles whose title contains it, by collation key, in storage order. */
  function Search(articles: seq<Article>, q: Option<string>, fold: char -> char): (r: seq<SearchHit>)
    ensures q.None? || q.value == "" ==> r == []
    ensures q.Some? && q.value != "" ==> forall h :: h in r <==>
      exists a :: a in articles && SqlLike.ContainsFolded(a.title, q.value, fold) && h == HitOf(a)
    ensures Tables.Increasing(articles, ArticleKey) ==> Tables.Increasing(r, HitKey)
  {
    if q.None? || q.value == "" then []
    else
      SqlLike.ContainsPatternMeaningAll(q.value, fold);
      Hits(articles, SqlLike.ContainsPattern(q.value), fold)
  }

  /** Whatever the pattern, so for the search as written and as corrected alike:
      every result's content is a prefix of its article's content, at most 200
      characters long, with no ellipsis added. */
  lemma SearchExcerpt(articles: seq<Article>, pattern: string, fold: char -> char, h: SearchHit)
    requires h in Hits(articles, pattern, fold)
    ensures exists a :: (a in articles && a.id == h.id && h.content <= a.content
      && |h.content| == (if |a.content| < ExcerptLength then |a.content| else ExcerptLength))
  {
    var a :| a in articles && SqlLike.Like(a.title, pattern, fold) && h == HitOf(a);
    assert a.id == h.id && h.content <= a.content;
  }

  /** A query with no LIKE syntax in it and other than "0" gets the same answer from
      the code as written and from the corrected search. */
  lemma SearchAgreesOnPlainQueries(articles: seq<Article>, q: string, fold: char -> char)
    requires q != "0"
    requires forall i :: 0 <= i < |q| ==> !SqlLike.Special(q[i])
    ensures SearchAsWritten(articles, Some(q), fold) == Search(articles, Some(q), fold)
  {
    if q != "" {
      SqlLike.EscapeOfPlain(q);
      assert SqlLike.ContainsPattern(q) == "%" + q + "%";
    }
  }

  /** Finding: the query "0" is falsy in PHP, so it finds nothing, although an article
      whose title contains a "0" matches it. */
  lemma ZeroQueryFindsNothing(articles: seq<Article>, fold: char -> char, a: Article, k: nat)
    requires a in articles && k < |a.title| && a.title[k] == '0'
    ensures SearchAsWritten(articles, Some("0"), fold) == []
    ensures HitOf(a) in Search(articles, Some("0"), fold)
  {
    assert a.title[k..k + 1] == "0";
    assert SqlLike.OccursAt(a.title, "0", k, fold);
  }

  /** Finding: the unescaped query "_" matches every non-empty title. */
  lemma UnderscoreMatchesEveryTitle(articles: seq<Article>, fold: char -> char, a: Article)
    requires a in articles && a.title != ""
    ensures HitOf(a) in SearchAsWritten(articles, Some("_"), fold)
  {
    assert "%" + "_" + "%" == "%_%";
    SqlLike.UnderscoreMatchesNonEmpty(a.title, fold);
  }

  /** The same finding on one article: with a case-sensitive identity collation the
      title "abc" is found by "_" as written, and not by the corrected search. */
  lemma UnderscoreCounterexample(a: Article)
    requires a.title == "abc"
    ensures SearchAsWritten([a], Some("_"), c => c) == [HitOf(a)]
    ensures Search([a], Some("_"), c => c) == []
  {
    var fold := (c: char) => c;
    UnderscoreMatchesEveryTitle([a], fold, a);
    var asWritten := SearchAsWritten([a], Some("_"), fold);
    assert |asWritten| <= 1;
    assert HitOf(a) in asWritten;
    forall k: nat | k <= |a.title|
      ensures !SqlLike.OccursAt(a.title, "_", k, fold)
    {
      if k + 1 <= |a.title| {
        assert SqlLike.Folded(a.title[k..k + 1], fold)[0] == a.title[k];
      }
    }
  }

  // ---------------------------------------------------------------- store

  /** The fields `store` rejects: the rules `required|max:255`, `required` and
      `required|exists:users,id`. */
  function StoreErrors(title: Param, content: Param, authorId: Option<Id>, users: seq<User>)
    : (errs: set<Field>)
    ensures Title in errs <==> !(Required(title) && AtMost(title, TitleMaxLength))
    ensures Content in errs <==> !Required(content)
    ensures AuthorId in errs <==> authorId.None? || FindUser(users, authorId.value).None?
    ensures errs <= {Title, Content, AuthorId}
  {
    (if Required(title) && AtMost(title, TitleMaxLength) then {} else {Title})
    + (if Required(content) then {} else {Content})
    + (if authorId.Some? && FindUser(users, authorId.value).Some? then {} else {AuthorId})
  }

  /** `store`: validates, then appends the article with the next id, a null image path
      when none was sent, and the current time as publication and creation time. */
  method Store(db: Database.Db, title: Param, content: Param, authorId: Option<Id>, imagePath: Param,
               now: Time)
    returns (r: Result<Article>)
    requires db.Valid()
    modifies db
    ensures db.Valid()
    ensures db.users == old(db.users) && db.comments == old(db.comments)
    ensures db.nextCommentId == old(db.nextCommentId)
    ensures var errs := StoreErrors(title, content, authorId, old(db.users));
      if errs != {} then
        r == Err(Invalid(errs)) && db.articles == old(db.articles) && db.nextArticleId == old(db.nextArticleId)
      else
        && r == Ok(Article(old(db.nextArticleId), title.text, content.text, authorId.value,
                           OrNull(imagePath), now, now))
        && db.articles == old(db.articles) + [r.value]
        && db.nextArticleId == old(db.nextArticleId) + 1
  {
    var errs := StoreErrors(title, content, authorId, db.users);
    if errs != {} {
      return Err(Invalid(errs));
    }
    var a := Article(db.nextArticleId, title.text, content.text, authorId.value, OrNull(imagePath), now, now);
    Tables.AppendKeepsIncreasing(db.articles, ArticleKey, a);
    db.articles := db.articles + [a];
    db.nextArticleId := db.nextArticleId + 1;
    r := Ok(a);
  }

  // ---------------------------------------------------------------- update

  /** `update`'s rules `sometimes|required|max:255` and `sometimes|required`: a field
      is checked only when it was sent. */
  function UpdateErrors(title: Param, content: Param): (errs: set<Field>)
    ensures Title in errs <==> !title.Absent? && !(Required(title) && AtMost(title, TitleMaxLength))
    ensures Content in errs <==> !content.Absent? && !Required(content)
    ensures errs <= {Title, Content}
  {
    (if title.Absent? || (Required(title) && AtMost(title, TitleMaxLength)) then {} else {Title})
    + (if content.Absent? || Required(content) then {} else {Content})
  }

  /** The partial update: a field changes only when it was sent. */
  function Patch(a: Article, title: Param, content: Param): (r: Article)
    ensures r.id == a.id && r.authorId == a.authorId && r.imagePath == a.imagePath
    ensures r.publishedAt == a.publishedAt && r.createdAt == a.createdAt
    ensures title.Given? ==> r.title == title.text
    ensures !title.Given? ==> r.title == a.title
    ensures content.Given? ==> r.content == content.text
    ensures !content.Given? ==> r.content == a.content
  {
    a.(title := if title.Given? then title.text else a.title,
       content := if content.Given? then content.text else a.content)
  }

  /** Patching one article keeps every id and author, so the invariant holds on. */
  lemma PatchKeepsWellFormed(users: seq<User>, articles: seq<Article>, comments: seq<Comment>, k: nat,
                             title: Param, content: Param)
    requires WellFormed(users, articles, comments) && k < |articles|
    ensures var after := articles[k := Patch(articles[k], title, content)];
      && WellFormed(users, after, comments)
      && forall i :: 0 <= i < |after| ==> after[i].id == articles[i].id
  {
    var a := Patch(articles[k], title, content);
    Tables.ReplaceKeepsIncreasing(articles, ArticleKey, k, a);
    var after := articles[k := a];
    assert forall i :: 0 <= i < |after| ==> after[i].authorId == articles[i].authorId;
  }

  /** `update`: NotFound on an unknown id (checked before validation); otherwise the
      article is replaced in place by its patched version and nothing else changes. */
  method Update(db: Database.Db, id: Id, title: Param, content: Param) returns (r: Result<Article>)
    requires db.Valid()
    modifies db
    ensures db.Valid()
    ensures db.users == old(db.users) && db.comments == old(db.comments)
    ensures db.nextArticleId == old(db.nextArticleId) && db.nextCommentId == old(db.nextCommentId)
    ensures Tables.Find(old(db.articles), ArticleKey, id).None? ==>
      r == Err(NotFound) && db.articles == old(db.articles)
    ensures Tables.Find(old(db.articles), ArticleKey, id).Some? && UpdateErrors(title, content) != {} ==>
      r == Err(Invalid(UpdateErrors(title, content))) && db.articles == old(db.articles)
    ensures Tables.Find(old(db.articles), ArticleKey, id).Some? && UpdateErrors(title, content) == {} ==>
      var k := Tables.Find(old(db.articles), ArticleKey, id).value;
      && r == Ok(Patch(old(db.articles)[k], title, content))
      && db.articles == old(db.articles)[k := r.value]
  {
    var found := Tables.Find(db.articles, ArticleKey, id);
    if found.None? {
      return Err(NotFound);
    }
    var errs := UpdateErrors(title, content);
    if errs != {} {
      return Err(Invalid(errs));
    }
    var k := found.value;
    var a := Patch(db.articles[k], title, content);
    PatchKeepsWellFormed(db.users, db.articles, db.comments, k, title, content);
    db.articles := db.articles[k := a];
    r := Ok(a);
  }

  // ---------------------------------------------------------------- destroy

  /** `destroy`: NotFound on an unknown id; otherwise exactly that article is removed.
      Its comments stay in the comments table. */
  method Destroy(db: Database.Db, id: Id) returns (r: Result<()>)
    requires db.Valid()
    modifies db
    ensures db.Valid()
    ensures db.users == old(db.users) && db.comments == old(db.comments)
    ensures db.nextArticleId == old(db.nextArticleId) && db.nextCommentId == old(db.nextCommentId)
    ensures Tables.Find(old(db.articles), ArticleKey, id).None? ==>
      r == Err(NotFound) && db.articles == old(db.articles)
    ensures Tables.Find(old(db.articles), ArticleKey, id).Some? ==>
      r == Ok(()) && db.articles == Tables.Delete(old(db.articles), ArticleKey, id)
  {
    if Tables.Find(db.articles, ArticleKey, id).None? {
      return Err(NotFound);
    }
    db.articles := Tables.Delete(db.articles, ArticleKey, id);
    r := Ok(());
  }
}
