/**
 * The rows of the `users`, `articles` and `comments` tables, the errors the
 * controllers report, and the relations between the tables.
 */
module Schema {
  import opened Optional
  import Tables

  type Id = Tables.Id

  /** A timestamp column; the clock that fills it is a parameter of each operation. */
  type Time = int

  datatype User = User(id: Id, name: string, password: string)

  datatype Article = Article(
    id: Id,
    title: string,
    content: string,
    authorId: Id,
    imagePath: Option<string>,
    publishedAt: Time,
    createdAt: Time)

  datatype Comment = Comment(id: Id, articleId: Id, userId: Id, content: string, createdAt: Time)

  function UserKey(u: User): Id { u.id }
  function ArticleKey(a: Article): Id { a.id }
  function CommentKey(c: Comment): Id { c.id }

  /** The request fields a validation rule can reject. */
  datatype Field = Title | Content | AuthorId | ArticleId | UserId

  datatype Error =
    | NotFound                   // `findOrFail` on an id with no row
    | Invalid(fields: set<Field>) // `validate` rejected these fields
    | MissingAssociation          // a row refers to a user that does not exist

  datatype Result<T> = Ok(value: T) | Err(error: Error)

  /** The `author` / `user` relation: the user with that id, when there is one. */
  function FindUser(users: seq<User>, id: Id): (r: Option<User>)
    ensures r.Some? ==> r.value in users && r.value.id == id
    ensures r.None? <==> forall j :: 0 <= j < |users| ==> users[j].id != id
  {
    match Tables.Find(users, UserKey, id)
    case None => None
    case Some(k) => Some(users[k])
  }

  /** `$article->comments` and `Comment::where('article_id', ...)`: the comments of an
      article, in storage order. */
  function CommentsOf(comments: seq<Comment>, articleId: Id): (r: seq<Comment>)
    ensures |r| <= |comments|
    ensures forall c :: c in r <==> c in comments && c.articleId == articleId
    ensures Tables.Subsequence(r, comments)
  {
    if comments == [] then []
    else if comments[0].articleId == articleId then [comments[0]] + CommentsOf(comments[1..], articleId)
    else CommentsOf(comments[1..], articleId)
  }

  /** Selecting the comments of an article distributes over a split of the table. */
  lemma {:induction false} CommentsOfAppend(s: seq<Comment>, t: seq<Comment>, articleId: Id)
    ensures CommentsOf(s + t, articleId) == CommentsOf(s, articleId) + CommentsOf(t, articleId)
  {
    if s == [] {
      assert s + t == t;
    } else {
      assert (s + t)[1..] == s[1..] + t;
      CommentsOfAppend(s[1..], t, articleId);
    }
  }

  /** The first comment of an article is the earliest row of the table that belongs to it. */
  lemma {:induction false} CommentsOfHead(s: seq<Comment>, articleId: Id)
    requires CommentsOf(s, articleId) != []
    ensures exists k :: (0 <= k < |s| && s[k] == CommentsOf(s, articleId)[0]
                         && forall j :: 0 <= j < k ==> s[j].articleId != articleId)
  {
    if s[0].articleId != articleId {
      CommentsOfHead(s[1..], articleId);
      var k :| 0 <= k < |s[1..]| && s[1..][k] == CommentsOf(s[1..], articleId)[0]
        && forall j :: 0 <= j < k ==> s[1..][j].articleId != articleId;
      assert s[k + 1] == CommentsOf(s, articleId)[0];
      assert forall j :: 1 <= j < k + 1 ==> s[j] == s[1..][j - 1];
    } else {
      assert s[0] == CommentsOf(s, articleId)[0];
    }
  }

  /** The invariant the controllers keep: ids in auto-increment order in each table,
      and every article author and every comment author is an existing user.
      Comments may outlive their article: nothing cascades a deletion. */
  predicate WellFormed(users: seq<User>, articles: seq<Article>, comments: seq<Comment>) {
    && Tables.Increasing(users, UserKey)
    && Tables.Increasing(articles, ArticleKey)
    && Tables.Increasing(comments, CommentKey)
    && (forall i :: 0 <= i < |articles| ==> FindUser(users, articles[i].authorId).Some?)
    && (forall i :: 0 <= i < |comments| ==> FindUser(users, comments[i].userId).Some?)
  }
}
