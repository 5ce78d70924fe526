# MudskipDB leaderboard API in Dafny

This project models the decision logic of the MudskipDB game-leaderboard web
API and proves what each endpoint does. MudskipDB has five controllers:

- users: register, login, profile update, logout, admin delete;
- levels: list, get, create, rename, delete;
- highscores: a level's leaderboard, a player's best score per level, score submission, admin delete;
- reviews: one per user, listed newest first, admin delete;
- level statistics: list, admin overwrite of the completion count, admin delete.

The database context becomes one class, `Database.Store`. It holds:

- the five tables, each a sequence of rows in primary-key order;
- one auto-increment counter for each table the controllers insert into;
- the session's logged-in user id (`sessionUserId`);
- the password hash, as an uninterpreted deterministic function.

`Store.Valid()` says that each table's id is a primary key, and that the ids
of users, levels, highscores and reviews stay below their table's counter.
The level statistics table has no counter, because no endpoint inserts into
it.

Each endpoint is modelled in one of two ways:

- A state-changing endpoint is a method on the store, in the module of its
  controller. It returns the kind of HTTP result (`Ok`, `Created`,
  `NoContent`, `NotFound`, `BadRequest`, `Unauthorized`, `Forbidden`). Its
  `modifies` clause names only the tables and counters it writes. Its
  contract gives every guard as an if-and-only-if, says that a failed guard
  changes nothing, and gives the exact new table after a success.
- A read endpoint is a function that returns a body or a failure kind.
  Sorting uses one insertion sort (`Sorting.Sort`), proved to return a
  permutation of its input in order.

Lookups follow the source's `FirstOrDefault`/`FindAsync`. They are modelled
as "the first row in table order that matches" (`Tables.FirstIndex`).

The highscore submission is specified by a pure function, `Upsert`. Lemmas
about `Upsert` prove:

- afterwards the stored score of the pair is the maximum of the old score and the submitted one;
- no other pair's score changes;
- no score ever goes down;
- "at most one row per (user, level)" is preserved.

`AddHighscore` is proved to leave the table equal to `Upsert` of the old
table.

### Login on an ambiguous name

Login looks for the first user whose username *or* email equals the name
given. Registration compares emails only with emails and usernames only with
usernames. So a new user can take an older user's email address as their
username, and logging in with that name then reaches the older account.

- `UserController.LoginAfterRegister` proves the register-then-login round
  trip. It needs the side condition that the new username is nobody's email.
- `UserController.LoginAfterRegisterCanReachOlderAccount` is a concrete
  two-user instance where that login fails.
- `UserController.LoginWithUnambiguousName` states Login exactly, under the
  assumption that at most one user matches the name.

### Behaviour worth noting

- `AddHighscore` (`Controllers/HighscoreController.cs`, lines 93-138) takes
  the level by id and never touches LevelStats. So the model's
  `AddHighscore` may modify only the highscore table and its counter.
- `DeleteUser` answers Unauthorized for every caller who is not a logged-in
  admin (`Controllers/UserController.cs`, lines 134-138). The other admin
  endpoints answer Forbidden to a logged-in caller who is not an admin.
- The Forbidden paths call `Forbid` with a message string
  (`Controllers/HighscoreController.cs` line 153,
  `Controllers/ReviewController.cs` line 82,
  `Controllers/LevelStatsController.cs` lines 41 and 65). That overload of
  `ControllerBase.Forbid` takes the string as the name of an authentication
  scheme, and the application registers no authentication. So the service
  would most likely fail on those paths instead of answering 403. This is
  read from the code; it was not executed. No table changes on those paths
  either way. The model answers `Forbidden`, which is what the code
  evidently intends.

## Model

| member | source | states |
|---|---|---|
| Database.Store.constructor | Controllers/HighscoreController.cs:16-21 | a store over the given tables satisfies the primary-key and counter invariant, with nobody logged in |
| Tables.FirstIndex | Controllers/LevelController.cs:38 | the first row whose key matches, with no earlier match; None exactly when no row matches (FirstOrDefault / FindAsync) |
| Tables.Where | Controllers/HighscoreController.cs:36 | the filtered rows are exactly the rows with that key, with the same multiplicity |
| Tables.RemoveAtDropsRow | Controllers/HighscoreController.cs:164 | removing a row by primary key leaves the multiset minus that row, drops its key, and keeps the key primary |
| Tables.UsernameOf | Controllers/HighscoreController.cs:37-41 | the referenced user's username; None exactly when no user has the id |
| Tables.LevelNameOf | Controllers/HighscoreController.cs:83 | the referenced level's name; None exactly when no level has the id |
| Tables.IsAdmin | Controllers/HighscoreController.cs:150-151 | the admin check of the role-gated endpoints: the first user with the session's id exists and has role "Admin"; a missing user is not an admin (its meaning under unique ids is stated by IsAdminMeansAdminRow) |
| Tables.IsWhiteSpace | Controllers/LevelController.cs:59 | the characters .NET's Char.IsWhiteSpace accepts: U+0009 to U+000D, U+0020, U+0085, U+00A0, U+1680, U+2000 to U+200A, U+2028, U+2029, U+202F, U+205F and U+3000 |
| Tables.IsBlank | Controllers/LevelController.cs:59 | string.IsNullOrWhiteSpace: every character is white space, so the empty string is blank |
| Tables.IsAdminMeansAdminRow | Controllers/HighscoreController.cs:150-151 | with unique user ids, the admin check holds exactly when the user with that id has role "Admin" |
| Sorting.Insert | Controllers/HighscoreController.cs:38 | inserting into a sorted list adds exactly that element and keeps the list sorted |
| Sorting.Sort | Controllers/HighscoreController.cs:38 | OrderBy: the result is a permutation of the input and is sorted by the given total preorder |
| Sorting.LexLeTotal | Controllers/HighscoreController.cs:86 | any two strings compare one way or the other in ordinal order |
| Sorting.LexLeTransitive | Controllers/HighscoreController.cs:86 | ordinal string order is transitive |
| Sorting.LexLeAntisymmetric | Controllers/HighscoreController.cs:86 | strings that compare both ways in ordinal order are equal |
| Sorting.LexLeIsTotalPreorder | Controllers/HighscoreController.cs:86 | ordinal string order is a valid sort key |
| HighscoreController.ScoreOrderIsTotal | Controllers/HighscoreController.cs:38 | descending score order is a valid sort key |
| HighscoreController.GetHighscoresByDot | Controllers/HighscoreController.cs:25-52 | NotFound exactly when the level is missing or has no scores; otherwise a permutation of that level's rows, each paired with its user's name, with non-increasing scores |
| HighscoreController.DistinctLevelIds | Controllers/HighscoreController.cs:75 | GroupBy keys: each level id of the rows exactly once |
| HighscoreController.MaxScore | Controllers/HighscoreController.cs:76 | the value picked for a group is attained by one of its rows and is at least every row of the group |
| HighscoreController.BestPerLevel | Controllers/HighscoreController.cs:74-85 | the GroupBy/Select: one line per distinct level of the rows, in order of first appearance, with the level's name and its best score (its meaning is proved by BestPerLevelIsBest) |
| HighscoreController.BestPerLevelIsBest | Controllers/HighscoreController.cs:74-85 | one line for every level the rows touch, carrying that level's maximum, and no other lines |
| HighscoreController.NameOrderIsTotal | Controllers/HighscoreController.cs:86 | level-name order, where a missing name sorts first, is a valid sort key |
| HighscoreController.GetMyHighscores | Controllers/HighscoreController.cs:57-90 | Unauthorized with no session; NotFound exactly when the player has no rows; otherwise a permutation of the best-per-level lines of the player's rows, sorted by level name |
| HighscoreController.ScoreIndex | Controllers/HighscoreController.cs:109-110 | the first row of the (user, level) pair; None exactly when the pair has no row |
| HighscoreController.StoredScore | Controllers/HighscoreController.cs:109-110 | the pair's stored value comes from a row of that pair; None exactly when there is no such row |
| HighscoreController.Upsert | Controllers/HighscoreController.cs:109-133 | a submission either keeps the row count or appends one row of the pair; other pairs' rows are untouched; ids and pairs are never changed; the table stays the same exactly when the stored score is already at least the submitted one |
| HighscoreController.UpsertKeepsMaximum | Controllers/HighscoreController.cs:112-133 | after a submission the pair's stored score is max(old, submitted), or the submitted one if there was none |
| HighscoreController.UpsertLeavesOtherPairs | Controllers/HighscoreController.cs:121-132 | a submission never changes another pair's stored score |
| HighscoreController.UpsertNeverLowers | Controllers/HighscoreController.cs:115-121 | no submission lowers any stored score |
| HighscoreController.UpsertKeepsOneRowPerPair | Controllers/HighscoreController.cs:109-133 | a submission keeps at most one row per (user, level) pair |
| HighscoreController.SaveSubmission | Controllers/HighscoreController.cs:109-135 | the table becomes Upsert of the old table; the id counter advances exactly when a row was inserted |
| HighscoreController.AddHighscore | Controllers/HighscoreController.cs:93-138 | Unauthorized exactly without a session; BadRequest exactly when the session's user or the level is missing; on failure nothing changes; on Ok the table is the upsert for the session's user (the body's UserId is ignored), the pair's score is the maximum, and one row per pair is kept |
| HighscoreController.DeleteHighscore | Controllers/HighscoreController.cs:143-168 | Unauthorized, then Forbidden for a non-admin, then NotFound, each as an if-and-only-if and changing nothing; NoContent removes exactly the row with that id |
| UserController.NewUser | Controllers/UserController.cs:40-49 | the new row has the next id, the body's username, full name and email, the time `now`, role "User", and a stored hash that the registered password verifies against |
| UserController.RegistrationKeepsCredentialsUnique | Controllers/UserController.cs:30-51 | a registration that passed both checks keeps emails and usernames unique |
| UserController.Register | Controllers/UserController.cs:25-55 | BadRequest exactly for a missing body, an email in use or a username taken, adding nothing; otherwise one user with the hashed password and role "User" is appended under the next id; uniqueness is preserved |
| UserController.LoginIndex | Controllers/UserController.cs:61-62 | the first user whose username or email is the given name; None exactly when there is none |
| UserController.VerifyPassword | Controllers/UserController.cs:124-128 | the entered password's hash equals the stored hash; the hash is the store's uninterpreted HashPassword |
| UserController.LoginUser | Controllers/UserController.cs:61-70 | a login that succeeds selects a user whose username or email is the name and whose stored hash is the password's hash |
| UserController.LoginWithUnambiguousName | Controllers/UserController.cs:61-70 | when at most one user matches the name, login succeeds exactly when a matching user has the password's hash, and it selects that user |
| UserController.LoginAfterRegister | Controllers/UserController.cs:40-70 | after a registration, logging in with the new username and password selects the new user, when no older account uses that username as its email |
| UserController.LoginAfterRegisterCanReachOlderAccount | Controllers/UserController.cs:30-62 | a registration passes both uniqueness checks, yet the new username then first matches the older account (through its email), and logging in with the new password fails |
| UserController.Login | Controllers/UserController.cs:59-73 | Ok exactly when the credentials select a user, and the session then holds that id; otherwise Unauthorized with the session untouched |
| UserController.UpdatedProfile | Controllers/UserController.cs:87-101 | the updated row keeps id, username, full name, creation time and role; a blank new email or password keeps the old value; a non-blank email replaces the old one; a non-blank password is stored so that it verifies |
| UserController.ProfileUpdateKeepsCredentialsUnique | Controllers/UserController.cs:88-101 | an update that passed the email check keeps emails and usernames unique |
| UserController.UpdateUser | Controllers/UserController.cs:76-105 | Unauthorized without a session, NotFound without the session's user, BadRequest when a non-blank email belongs to another user, each changing nothing; on Ok only that user's row changes, and a blank field is kept |
| UserController.Logout | Controllers/UserController.cs:110-114 | the session is emptied and the answer is Ok |
| UserController.DeleteUser | Controllers/UserController.cs:131-148 | Unauthorized unless the caller is a logged-in admin; NotFound when no user has the id; otherwise exactly that user is removed |
| ReviewController.AddingFirstReviewKeepsOnePerUser | Controllers/ReviewController.cs:29-41 | adding a review for a user who has none keeps one review per user |
| ReviewController.PostReview | Controllers/ReviewController.cs:20-51 | Unauthorized exactly without a session or its user; BadRequest exactly when the user already has a review; on failure nothing is added; on Ok one review of the session's user with the body's comment and rating, stamped `now`, is appended; one review per user is kept |
| ReviewController.NewerFirstIsTotal | Controllers/ReviewController.cs:59 | newest-first order is a valid sort key |
| ReviewController.GetAllReviews | Controllers/ReviewController.cs:55-70 | every review exactly once, with its author's name, with non-increasing creation times |
| ReviewController.GetAllReviewsListsEveryReview | Controllers/ReviewController.cs:57-67 | each stored review appears in the list |
| ReviewController.DeleteReview | Controllers/ReviewController.cs:76-91 | Unauthorized, then Forbidden for a non-admin, then NotFound, each as an if-and-only-if and changing nothing; Ok removes exactly that review and keeps one review per user |
| ReviewController.RemovalKeepsOneReviewPerUser | Controllers/ReviewController.cs:87 | removing a review keeps one review per user |
| LevelStatsController.GetAllStats | Controllers/LevelStatsController.cs:17-29 | one line per statistics row in order, with the count as stored and the level's name (None exactly when the level is missing) |
| LevelStatsController.UpdateCompletionCount | Controllers/LevelStatsController.cs:33-52 | Unauthorized, then Forbidden, then NotFound when the level has no statistics row, each changing nothing; on Ok that level's row holds exactly the new count and no other row changes |
| LevelStatsController.DeleteLevelStats | Controllers/LevelStatsController.cs:55-76 | the same guards; on Ok exactly the level's statistics row is removed |
| LevelController.GetLevels | Controllers/LevelController.cs:21-31 | NotFound exactly when there are no levels; otherwise all levels |
| LevelController.GetLevel | Controllers/LevelController.cs:36-46 | NotFound exactly when no level has the id; otherwise a stored level with that id |
| LevelController.GetLevelFindsTheLevel | Controllers/LevelController.cs:38-45 | with unique level ids, looking up a stored level's id returns that level |
| LevelController.CreateLevel | Controllers/LevelController.cs:51-68 | BadRequest exactly for a missing body or a blank name, adding nothing; otherwise one level with that name is appended under the next id (Created); non-blank names stay non-blank |
| LevelController.UpdateLevel | Controllers/LevelController.cs:73-93 | BadRequest exactly for a missing body or mismatched ids, NotFound when no level has the id, each changing nothing; otherwise only that level's name changes, with no blank check |
| LevelController.DeleteLevel | Controllers/LevelController.cs:98-111 | NotFound exactly when no level has the id, changing nothing; otherwise exactly that level is removed (NoContent) |

## Left out

- Asynchronous database access and transactions are not modelled: each request is one atomic step. So the race between two concurrent submissions for the same pair is not captured.
- Each session is not modelled separately: the model has one session slot, `sessionUserId`. Logout clears that slot, which stands for clearing the whole session.
- Password hashing is not modelled as SHA-256 and Base64. It is a deterministic uninterpreted function, and no proof assumes it is injective.
- The clock and date rendering are not modelled. `DateTime.UtcNow` becomes an integer parameter `now`. `GetAllReviews` returns the timestamp itself, not the "yyyy-MM-dd" text.
- Culture-sensitive string ordering is not modelled. Sorting by a level name uses ordinal lexicographic order.
- The database collation is not modelled. Every string equality in a query (email and username checks at registration and on update, and the login name match) is exact code-point equality. The default MySQL collation ignores case and accents, so the model's uniqueness checks and login matching are finer than the deployed ones: the model accepts registering "BOB@x.org" next to "bob@x.org", and does not let "BOB" log in as "bob".
- Stability is not stated. `Sorting.Sort` is proved to return a sorted permutation, but not that elements with equal keys keep their table order, as OrderBy does.
- Response bodies and message texts are not modelled, only the result kinds: the returned level or highscore, `UserId` after login, and `ReviewId`/`CreatedAt` after a review.
- Rows may reference a missing user or level. The model gives `None` for the name; Entity Framework's behaviour for such rows is not modelled.
- Cascading or restricting deletes are not modelled. Deleting a user or a level leaves dependent rows in place.
- Table order is an assumption. A query with no `OrderBy` is modelled as returning rows in primary-key order, and "first match" means the first in that order.
- Null is not modelled. A missing request body is `None`. A null string is the empty string. The null-session lookup in `DeleteUser` is treated as "not an admin".
- 32-bit integer limits are not modelled: ids, counters, scores and counts are unbounded, so overflow is not captured.
- Validation attributes on the entity classes (`[Required]`, `[EmailAddress]`) are not modelled.
- Client-supplied ids are ignored. `CreateLevel` always uses the next counter value, even when the body carries a non-zero `Id`.
- Register's order of checks cannot be observed: all three rejections give the same result kind, so the model only states which inputs are rejected.
- `Models/AutheticationService.cs` (BCrypt, JWT), `Program.cs` and `Startup.cs` are not part of this model.
