/** The three tables the controllers and the seeder work on, updated in place. */
module Database {
  import opened Schema
  import Tables

  class Db {
    var users: seq<User>
    var articles: seq<Article>
    var comments: seq<Comment>
    /** The AUTO_INCREMENT counters: a deleted id is never handed out again. */
    var nextArticleId: Id
    var nextCommentId: Id

    ghost predicate Valid()
      reads this
    {
      && WellFormed(users, articles, comments)
      && (forall i :: 0 <= i < |articles| ==> articles[i].id < nextArticleId)
      && (forall i :: 0 <= i < |comments| ==> comments[i].id < nextCommentId)
    }

    constructor (users: seq<User>, articles: seq<Article>, comments: seq<Comment>)
      requires WellFormed(users, articles, comments)
      ensures Valid()
      ensures this.users == users && this.articles == articles && this.comments == comments
    {
      this.users := users;
      this.articles := articles;
      this.comments := comments;
      nextArticleId := Tables.NextId(articles, ArticleKey);
      nextCommentId := Tables.NextId(comments, CommentKey);
    }
  }
}
