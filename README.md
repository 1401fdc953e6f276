# Article and comment backend: a Dafny model

This project models the core of a Laravel backend for articles and their comments:

- `ArticleController`: the article listing (excerpt with ellipsis, author name, comment count), the detail view, title search through a case- and accent-insensitive `LIKE`, and creation, partial update and deletion of articles;
- `CommentController`: an article's comments newest first, creation through the HTML sanitiser, deletion with a report of what remains, and update;
- `HashPasswordsSeeder::run`: the pass that bcrypt-hashes every stored password not already hashed.

The `users`, `articles` and `comments` tables are sequences of rows in storage order, held in the class `Database.Db` and updated in place by the controller methods (`modifies db`). None of the listing, search and `first()` queries has an `orderBy`. The model assumes that rows fetched without one come back in primary-key order, as InnoDB's scans of the clustered index return them, and that this is storage order. The invariant `Db.Valid()` requires three things. Ids grow along storage order, as auto-increment keys do. The AUTO_INCREMENT counters are above every id. Every article author and every comment author is an existing user. Each mutating method is proved to keep it. The read-only actions are functions over the table values.

The foreign calls are parameters:
- `fold: char -> char` is the collation key of `utf8mb4_unicode_ci`, compared one character at a time as MySQL's `LIKE` does;
- `clean: string -> string` is `Purifier::clean(…, 'myclean')`;
- `hash: string -> string` is `Hash::make`;
- `now: Time` is `now()`.

Four behaviours a reader might assume do not hold in the code, and the model follows the code:
- One might expect every stored comment to be sanitised. Comment update stores the content without calling the sanitiser (`CommentController.Update`), so stored comment content is not always sanitised.
- `first_remaining` might be taken for the most recent remaining comment. After a comment deletion it is the first remaining comment in storage order. The query has no `orderBy`, so it is not necessarily the most recent one.
- Search ignores case and accents, but not through a normaliser in the application: matching is delegated to MySQL's collation and `LIKE`.
- The listing and the detail view might be taken to cope with a missing author or comment user. They do not: the model reports the case as `MissingAssociation`. In the code it surfaces as an internal error: reading `->name` on null raises an error, and Laravel turns that into an exception.

Layout: `optional.dfy` (Option), `tables.dfy` (generic lookup, delete, key order), `schema.dfy` (rows, errors, relations, the invariant), `validation.dfy` (the Laravel rules used), `sql_like.dfy` (MySQL `LIKE`), `database.dfy` (the class), `article_controller.dfy`, `comment_controller.dfy`, `hash_passwords_seeder.dfy`.

## Model

| member | source | states |
|---|---|---|
| Tables.Find | project/backend/app/Http/Controllers/ArticleController.php:147 | `findOrFail` lookup: the position found holds that id and no earlier row does; none is found exactly when no row has the id |
| Tables.Delete | project/backend/app/Http/Controllers/ArticleController.php:164-165 | deleting by id removes one row when the id exists, and afterwards no row has it. Every other row is kept, the result holds only rows of the table, and key order is preserved |
| Tables.NextId | project/backend/app/Http/Controllers/ArticleController.php:131 | the initial AUTO_INCREMENT counter of a loaded table, from which `create` then counts on (`Db.nextArticleId`, `Db.nextCommentId`): at least 1 and above every key in the table |
| Schema.FindUser | project/backend/app/Http/Controllers/ArticleController.php:28 | the `author`/`user` relation: the user found is in the table with that id; none is found exactly when no user has it |
| Schema.CommentsOf | project/backend/app/Http/Controllers/CommentController.php:18 | the comments of an article are exactly the stored comments with that `article_id`, as a subsequence of storage order |
| Schema.CommentsOfHead | project/backend/app/Http/Controllers/CommentController.php:56 | the first comment of an article is the earliest row in storage order that belongs to it |
| Validation.Blank | project/backend/app/Http/Controllers/ArticleController.php:125-127 | text consisting of `trim`'s characters only is exactly text that PHP `trim` reduces to the empty string |
| Validation.Required | project/backend/app/Http/Controllers/CommentController.php:32-34 | the `required` rule: the field is sent, not null, and not empty after PHP `trim` |
| Validation.AtMost | project/backend/app/Http/Controllers/ArticleController.php:150 | defines the `max:n` rule on a string: a sent text has at most n characters |
| Validation.OrNull | project/backend/app/Http/Controllers/ArticleController.php:135 | `image_path ?? null`: the sent text, or null exactly when none was sent |
| ArticleController.Take | project/backend/app/Http/Controllers/ArticleController.php:27 | `substr(s, 0, n)` is a prefix of s of length min(n, length of s) |
| ArticleController.Index | project/backend/app/Http/Controllers/ArticleController.php:17-33 | one summary per article in storage order, with the excerpt plus "...", the author's name and that article's comment count. It fails, with MissingAssociation only, exactly when some article's author is not a user |
| ArticleController.IndexExcerpt | project/backend/app/Http/Controllers/ArticleController.php:27 | each summary's content is the first min(200, length of the content) characters of the content followed by "...", also for content shorter than 200 |
| ArticleController.IndexTotal | project/backend/app/Http/Controllers/ArticleController.php:17-33 | on a database satisfying the invariant the listing never fails |
| ArticleController.CommentViews | project/backend/app/Http/Controllers/ArticleController.php:54-61 | one view per comment in order, naming its user; fails exactly when some comment's user is missing |
| ArticleController.Show | project/backend/app/Http/Controllers/ArticleController.php:43-62 | NotFound exactly when no article has the id; any other failure is MissingAssociation. A found article succeeds exactly when its author and every one of its comments' users exist, and then carries the article's full fields, the author's name and id, and every comment of the article in storage order |
| ArticleController.ShowTotal | project/backend/app/Http/Controllers/ArticleController.php:43 | on a database satisfying the invariant, `show` succeeds exactly when the id exists |
| ArticleController.Hits | project/backend/app/Http/Controllers/ArticleController.php:101-114 | the results are exactly the results of the articles whose title matches the LIKE pattern; in id (storage) order |
| ArticleController.Falsy | project/backend/app/Http/Controllers/ArticleController.php:72 | defines PHP `!$query` on an optional string: true for an absent query, "" and "0" |
| ArticleController.SearchAsWritten | project/backend/app/Http/Controllers/ArticleController.php:70-114 | as written: absent, empty and "0" queries give []; any other query is used unescaped as `%q%` |
| ArticleController.Search | project/backend/app/Http/Controllers/ArticleController.php:70-114 | corrected: an absent or empty query gives []. Otherwise the results are exactly the articles whose title contains the query by collation key, in storage order |
| ArticleController.SearchExcerpt | project/backend/app/Http/Controllers/ArticleController.php:107-114 | for any LIKE pattern, so for the search as written and as corrected alike, each result's content is a prefix of its article's content of length min(200, length of the content), with no ellipsis |
| ArticleController.SearchAgreesOnPlainQueries | project/backend/app/Http/Controllers/ArticleController.php:72-103 | for a query other than "0" with no `%`, `_` or `\`, the code as written and the corrected search agree |
| ArticleController.ZeroQueryFindsNothing | project/backend/app/Http/Controllers/ArticleController.php:72 | the query "0" finds nothing as written, though an article whose title contains "0" matches it |
| ArticleController.UnderscoreMatchesEveryTitle | project/backend/app/Http/Controllers/ArticleController.php:103 | as written, the query "_" finds every article with a non-empty title |
| ArticleController.UnderscoreCounterexample | project/backend/app/Http/Controllers/ArticleController.php:101-103 | the title "abc" is found by "_" as written and not by the corrected search |
| ArticleController.StoreErrors | project/backend/app/Http/Controllers/ArticleController.php:124-129 | title rejected unless present, non-blank and at most 255 characters; content unless present and non-blank; author_id unless an existing user |
| ArticleController.Store | project/backend/app/Http/Controllers/ArticleController.php:124-137 | rejected with the failing fields and no change. Otherwise one article is appended with the next id, the given fields, a null image path when none was sent, and `now` as publication time. The invariant is kept |
| ArticleController.UpdateErrors | project/backend/app/Http/Controllers/ArticleController.php:149-152 | a field is checked only when sent; when sent, the title must be non-blank and at most 255 characters, and the content non-blank |
| ArticleController.Patch | project/backend/app/Http/Controllers/ArticleController.php:154 | only a sent title/content changes; id, author, image path and timestamps are kept |
| ArticleController.Update | project/backend/app/Http/Controllers/ArticleController.php:147-154 | NotFound on an unknown id, checked before validation. An invalid request changes nothing. Otherwise only that article is replaced by its patched version |
| ArticleController.Destroy | project/backend/app/Http/Controllers/ArticleController.php:164-165 | NotFound on an unknown id; otherwise exactly that article is removed, and users and comments are untouched |
| CommentController.InsertKeepsOrder | project/backend/app/Http/Controllers/CommentController.php:20 | inserting a comment into a newest-first sequence keeps it newest first |
| CommentController.SortNewestFirst | project/backend/app/Http/Controllers/CommentController.php:20 | `orderBy('created_at', 'desc')`: a permutation of its input in non-increasing `created_at` order |
| CommentController.Index | project/backend/app/Http/Controllers/CommentController.php:18-21 | exactly the comments with that `article_id`, each with its multiplicity, in non-increasing `created_at` order |
| CommentController.StoreErrors | project/backend/app/Http/Controllers/CommentController.php:31-35 | rejected fields: article_id unless an existing article, user_id unless an existing user, content unless present and non-blank |
| CommentController.Store | project/backend/app/Http/Controllers/CommentController.php:31-38 | rejected with the failing fields and no change. Otherwise one comment is appended with the next id, the given article and user, `now`, and `clean(content)` rather than the raw text |
| CommentController.Remaining | project/backend/app/Http/Controllers/CommentController.php:54-60 | `remaining_count` is the number of the article's comments. `first_remaining` is none exactly when that count is 0; otherwise it is the earliest such comment in storage order |
| CommentController.DestroyLowersCount | project/backend/app/Http/Controllers/CommentController.php:52-59 | deleting a comment lowers its article's comment count by exactly one |
| CommentController.DestroyLastComment | project/backend/app/Http/Controllers/CommentController.php:54-60 | deleting an article's last comment reports count 0 and no first comment |
| CommentController.Destroy | project/backend/app/Http/Controllers/CommentController.php:49-60 | NotFound on an unknown id. Otherwise exactly that comment is removed, and the report describes the article's remaining comments, whose count is the old count minus one |
| CommentController.Update | project/backend/app/Http/Controllers/CommentController.php:69-75 | NotFound on an unknown id, then validation. Otherwise only that comment's content changes, to the text exactly as sent; article and user are kept |
| SqlLike.Like | project/backend/app/Http/Controllers/ArticleController.php:103 | defines MySQL `LIKE` with `%`, `_` and the `\` escape, comparing text and pattern one character at a time by collation key |
| SqlLike.LikeLiteral | project/backend/app/Http/Controllers/ArticleController.php:103 | a pattern without special characters matches exactly the texts of its length that equal it by collation key |
| SqlLike.LeadingPercent | project/backend/app/Http/Controllers/ArticleController.php:103 | a leading `%` matches exactly when the rest of the pattern matches some suffix of the text |
| SqlLike.EscapedPrefix | project/backend/app/Http/Controllers/ArticleController.php:103 | an escaped query followed by `%` matches exactly the texts starting with the query by collation key |
| SqlLike.ContainsPatternMeaning | project/backend/app/Http/Controllers/ArticleController.php:101-103 | `title LIKE '%q%'` with q escaped holds exactly when the title contains q by collation key |
| SqlLike.UnderscoreMatchesNonEmpty | project/backend/app/Http/Controllers/ArticleController.php:103 | `%_%` matches every non-empty text |
| HashPasswordsSeeder.Rehash | project/backend/database/seeders/HashPasswordsSeeder.php:23-26 | a user whose password starts with "$2y$" is unchanged; any other gets `hash(old password)`; id and name are kept |
| HashPasswordsSeeder.IsHashed | project/backend/database/seeders/HashPasswordsSeeder.php:23 | defines "already hashed" as `str_starts_with(password, '$2y$')` |
| HashPasswordsSeeder.Rehashed | project/backend/database/seeders/HashPasswordsSeeder.php:19-26 | the table after the seeder: ids and names kept, hashed passwords kept, every other password replaced by its hash. If every hash starts with "$2y$", every password afterwards does |
| HashPasswordsSeeder.RunOver | project/backend/database/seeders/HashPasswordsSeeder.php:21-26 | the loop over a sequence of snapshot rows, one by-id update per row not yet hashed; it keeps the table's length, ids and names |
| HashPasswordsSeeder.SetPassword | project/backend/database/seeders/HashPasswordsSeeder.php:24-26 | the update by id keeps every row's id and name. Lookup of any other id gives the same user as before. The id is found afterwards exactly when it was found before, and then with the new password |
| HashPasswordsSeeder.RunOverAt | project/backend/database/seeders/HashPasswordsSeeder.php:19-26 | with distinct ids, each row after the loop depends only on the snapshot row with its id |
| HashPasswordsSeeder.RunOverSnapshot | project/backend/database/seeders/HashPasswordsSeeder.php:19-26 | looping over the snapshot rehashes every user exactly once |
| HashPasswordsSeeder.OrderIndependent | project/backend/database/seeders/HashPasswordsSeeder.php:19-21 | visiting the snapshot rows in any order gives the same table |
| HashPasswordsSeeder.RunTwiceIsRunOnce | project/backend/database/seeders/HashPasswordsSeeder.php:22-26 | if every hash starts with "$2y$", running the seeder twice gives the table of running it once |
| HashPasswordsSeeder.Run | project/backend/database/seeders/HashPasswordsSeeder.php:19-26 | the loop over the snapshot leaves the users table equal to every user rehashed in place. User ids, names, the other tables and the invariant are unchanged |

## Left out

- HTTP and JSON handling: request parsing, `response()->json`, status codes and message strings. Each action returns a value or an `Error`.
- Laravel's request middleware, which trims strings and turns empty strings into null: the model takes each field as the controller receives it. Text fields (title, content, image_path) are taken as text. Id fields (author_id, article_id, user_id) are taken as natural numbers, and absent and null are both None. Other shapes are not modelled: arrays, numbers in a text field, and id fields sent as non-numeric text, which `exists` would compare against the id column under MySQL's casting.
- `validate` reports which fields failed, not its messages.
- The `performance_test` delay (`usleep`) in the listing.
- Eager loading and how many queries it issues: this lives inside the ORM.
- The user object that `with('user')` and `load('user')` attach to returned comments.
- The collation is abstract. `fold` is a per-character key, so multi-character equivalences and ignorable characters of the Unicode Collation Algorithm are not modelled.
- The sanitiser's policy and output: `clean` is an arbitrary function.
- Byte versus character truncation: PHP `substr` counts bytes, while the model counts characters of a sequence and claims nothing about UTF-8.
- Timestamps: `created_at` is assumed to be set to `now` by the ORM on creation, as is its default. `updated_at` is not modelled.
- Database-level foreign keys and cascades are not part of this model: deleting an article leaves its comments in place.
- The seeder's console message.
- Concurrency: each action runs alone.
- HashPasswordsSeeder.Run: `hash` is a fixed function, so the random salt of bcrypt is not modelled. The idempotence lemma needs only the "$2y$" prefix of its output.
- CommentController.Index: among comments with equal `created_at`, the model keeps storage order, but the contract does not promise any order among them, as the database does not.

## Findings

| source | as written | input that shows it | evidently intended | confidence | as-written member | corrected member |
|---|---|---|---|---|---|---|
| project/backend/app/Http/Controllers/ArticleController.php:72 | `if (!$query)` treats the string "0" as an absent query | query "0" with an article titled "Top 10": nothing is returned | only an absent or empty query returns nothing | medium, not executed | ArticleController.ZeroQueryFindsNothing | ArticleController.Search |
| project/backend/app/Http/Controllers/ArticleController.php:103 | the query is interpolated into `%$query%` unescaped, so `%`, `_` and `\` in it act as LIKE syntax | query "_" with an article titled "abc": the article is returned | the title contains the query as typed | medium, not executed | ArticleController.UnderscoreCounterexample | ArticleController.Search |
