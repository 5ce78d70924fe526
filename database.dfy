/** The persistent state the controllers share: the five tables of the
    database context, one auto-increment counter per table that the
    controllers insert into, and the session's logged-in user id. */
module Database {
  import opened Tables

  class Store {
    /** HashPassword: a deterministic function from a password to the stored
        hash (SHA-256 then Base64 in the service), left uninterpreted. */
    const hash: string -> string

    var users: seq<User>
    var levels: seq<Level>
    var highscores: seq<Highscore>
    var reviews: seq<Review>
    var levelStats: seq<LevelStats>

    var nextUserId: int
    var nextLevelId: int
    var nextHighscoreId: int
    var nextReviewId: int

    /** The "UserId" entry of the session; None when nobody is logged in. */
    var sessionUserId: Option<int>

    /** Every table's id is a primary key, and every id is below its table's
        next auto-increment value. */
    ghost predicate Valid()
      reads this
    {
      && UniqueKeys(users, UserKey) && KeysBelow(users, UserKey, nextUserId)
      && UniqueKeys(levels, LevelKey) && KeysBelow(levels, LevelKey, nextLevelId)
      && UniqueKeys(highscores, HighscoreKey) && KeysBelow(highscores, HighscoreKey, nextHighscoreId)
      && UniqueKeys(reviews, ReviewKey) && KeysBelow(reviews, ReviewKey, nextReviewId)
      && UniqueKeys(levelStats, StatsKey)
    }

    /** A store holding the given tables, with nobody logged in. */
    constructor (hash: string -> string, users: seq<User>, levels: seq<Level>,
                 highscores: seq<Highscore>, reviews: seq<Review>, levelStats: seq<LevelStats>,
                 nextUserId: int, nextLevelId: int, nextHighscoreId: int, nextReviewId: int)
      requires UniqueKeys(users, UserKey) && KeysBelow(users, UserKey, nextUserId)
      requires UniqueKeys(levels, LevelKey) && KeysBelow(levels, LevelKey, nextLevelId)
      requires UniqueKeys(highscores, HighscoreKey) && KeysBelow(highscores, HighscoreKey, nextHighscoreId)
      requires UniqueKeys(reviews, ReviewKey) && KeysBelow(reviews, ReviewKey, nextReviewId)
      requires UniqueKeys(levelStats, StatsKey)
      ensures Valid() && sessionUserId.None? && this.hash == hash
      ensures this.users == users && this.levels == levels && this.highscores == highscores
      ensures this.reviews == reviews && this.levelStats == levelStats
      ensures this.nextUserId == nextUserId && this.nextLevelId == nextLevelId
      ensures this.nextHighscoreId == nextHighscoreId && this.nextReviewId == nextReviewId
    {
      this.hash := hash;
      this.users, this.levels, this.highscores := users, levels, highscores;
      this.reviews, this.levelStats := reviews, levelStats;
      this.nextUserId, this.nextLevelId := nextUserId, nextLevelId;
      this.nextHighscoreId, this.nextReviewId := nextHighscoreId, nextReviewId;
      sessionUserId := None;
    }
  }
}
