/** The highscore endpoints: a level's leaderboard, the logged-in player's
    best score per level, submitting a score, and the admin delete. */
module HighscoreController {
  import opened Tables
  import opened Sorting
  import opened Database

  /** One line of a level's leaderboard. */
  datatype ScoreEntry = ScoreEntry(username: Option<string>, highscoreValue: int)

  /** One line of a player's own list: a level and the best score on it. */
  datatype BestScore = BestScore(levelName: Option<string>, highscore: int)

  function Max(a: int, b: int): int { if a >= b then a else b }

  // ---------------------------------------------------------------- leaderboard

  /** Each row paired with the username of the user it references. */
  function EntriesOf(users: seq<User>, rows: seq<Highscore>): seq<ScoreEntry>
  {
    seq(|rows|, i requires 0 <= i < |rows| => ScoreEntry(UsernameOf(users, rows[i].userId), rows[i].highscoreValue))
  }

  /** Leaderboard order: the higher score first. */
  predicate ScoreAtLeast(a: ScoreEntry, b: ScoreEntry)
  {
    a.highscoreValue >= b.highscoreValue
  }

  lemma ScoreOrderIsTotal()
    ensures TotalPreorder(ScoreAtLeast)
  {
  }

  /** GET api/Highscore/{dotLevel}: NotFound when the level does not exist or
      has no scores; otherwise every score of the level with its player's
      username, highest first. */
  function GetHighscoresByDot(db: Store, dotLevel: int): (r: Reply<seq<ScoreEntry>>)
    reads db
    ensures r.Failure? ==> r.status == NotFound
    ensures r.Failure? <==> (forall l :: l in db.levels ==> l.id != dotLevel)
                            || (forall h :: h in db.highscores ==> h.levelId != dotLevel)
    ensures r.Success? ==>
              multiset(r.value) == multiset(EntriesOf(db.users, Where(db.highscores, HighscoreLevelKey, dotLevel)))
    ensures r.Success? ==>
              forall i, j :: 0 <= i < j < |r.value| ==> r.value[i].highscoreValue >= r.value[j].highscoreValue
  {
    if FirstIndex(db.levels, LevelKey, dotLevel).None? then
      assert forall l :: l in db.levels ==> LevelKey(l) != dotLevel;
      Failure(NotFound)
    else
      var rows := Where(db.highscores, HighscoreLevelKey, dotLevel);
      ScoreOrderIsTotal();
      var board := Sort(EntriesOf(db.users, rows), ScoreAtLeast);
      assert |board| == |rows| by {
        assert |multiset(board)| == |multiset(EntriesOf(db.users, rows))|;
      }
      assert |rows| == 0 <==> forall h :: h in db.highscores ==> h.levelId != dotLevel by {
        if exists h :: h in db.highscores && h.levelId == dotLevel {
          var h :| h in db.highscores && h.levelId == dotLevel;
          assert multiset(rows)[h] == multiset(db.highscores)[h];
          assert h in rows;
        }
      }
      if |board| == 0 then Failure(NotFound) else Success(board)
  }

  // ------------------------------------------------------ a player's best scores

  /** The level ids of `rows`, each once, in order of first appearance (GroupBy). */
  function DistinctLevelIds(rows: seq<Highscore>): (ids: seq<int>)
    ensures forall i, j :: 0 <= i < j < |ids| ==> ids[i] != ids[j]
    ensures forall l :: l in ids <==> exists h :: h in rows && h.levelId == l
  {
    if |rows| == 0 then []
    else
      var front := rows[..|rows| - 1];
      var last := rows[|rows| - 1];
      var prev := DistinctLevelIds(front);
      assert rows == front + [last];
      if last.levelId in prev then prev else prev + [last.levelId]
  }

  /** The largest score among the rows of a level (the first row after
      ordering a group by descending score). */
  function MaxScore(rows: seq<Highscore>, levelId: int): (m: int)
    requires exists h :: h in rows && h.levelId == levelId
    ensures exists h :: h in rows && h.levelId == levelId && h.highscoreValue == m
    ensures forall h :: h in rows && h.levelId == levelId ==> h.highscoreValue <= m
  {
    assert rows == [rows[0]] + rows[1..];
    if !exists h :: h in rows[1..] && h.levelId == levelId then rows[0].highscoreValue
    else
      var m := MaxScore(rows[1..], levelId);
      if rows[0].levelId == levelId && rows[0].highscoreValue > m then rows[0].highscoreValue else m
  }

  /** One line per distinct level of `rows`, carrying the level's name and
      the best score on it. */
  function BestPerLevel(levels: seq<Level>, rows: seq<Highscore>): seq<BestScore>
  {
    var ids := DistinctLevelIds(rows);
    seq(|ids|, i requires 0 <= i < |ids| =>
      assert ids[i] in ids; BestScore(LevelNameOf(levels, ids[i]), MaxScore(rows, ids[i])))
  }

  /** Every level the rows touch gets exactly one line, with the maximum of
      that level's scores, and there are no other lines. */
  lemma BestPerLevelIsBest(levels: seq<Level>, rows: seq<Highscore>)
    ensures |BestPerLevel(levels, rows)| == |DistinctLevelIds(rows)|
    ensures forall l :: (exists h :: h in rows && h.levelId == l) ==>
              BestScore(LevelNameOf(levels, l), MaxScore(rows, l)) in BestPerLevel(levels, rows)
    ensures forall e :: e in BestPerLevel(levels, rows) ==>
              exists h :: h in rows && e == BestScore(LevelNameOf(levels, h.levelId), MaxScore(rows, h.levelId))
  {
    var ids := DistinctLevelIds(rows);
    var best := BestPerLevel(levels, rows);
    forall l | exists h :: h in rows && h.levelId == l
      ensures BestScore(LevelNameOf(levels, l), MaxScore(rows, l)) in best
    {
      assert l in ids;
      var i :| 0 <= i < |ids| && ids[i] == l;
      assert best[i] == BestScore(LevelNameOf(levels, l), MaxScore(rows, l));
    }
    forall e | e in best
      ensures exists h :: h in rows && e == BestScore(LevelNameOf(levels, h.levelId), MaxScore(rows, h.levelId))
    {
      var i :| 0 <= i < |best| && best[i] == e;
      assert ids[i] in ids;
      var h :| h in rows && h.levelId == ids[i];
    }
  }

  /** Level-name order, ordinal; a line without a level sorts first. */
  predicate NameAtMost(a: BestScore, b: BestScore)
  {
    match a.levelName
    case None => true
    case Some(x) => b.levelName.Some? && LexLe(x, b.levelName.value)
  }

  lemma NameOrderIsTotal()
    ensures TotalPreorder(NameAtMost)
  {
    LexLeIsTotalPreorder();
    forall a: BestScore, b: BestScore ensures NameAtMost(a, b) || NameAtMost(b, a) {
      if a.levelName.Some? && b.levelName.Some? {
        LexLeTotal(a.levelName.value, b.levelName.value);
      }
    }
    forall a: BestScore, b: BestScore, c: BestScore | NameAtMost(a, b) && NameAtMost(b, c)
      ensures NameAtMost(a, c)
    {
      if a.levelName.Some? {
        LexLeTransitive(a.levelName.value, b.levelName.value, c.levelName.value);
      }
    }
  }

  /** GET api/Highscore/my-highscores: Unauthorized with nobody logged in,
      NotFound when the player has no scores; otherwise one line per level
      the player has scored on, with the best of those scores, ordered by
      level name. */
  function GetMyHighscores(db: Store): (r: Reply<seq<BestScore>>)
    reads db
    ensures db.sessionUserId.None? ==> r == Failure(Unauthorized)
    ensures db.sessionUserId.Some? && r.Failure? ==> r.status == NotFound
    ensures db.sessionUserId.Some? ==>
              (r.Failure? <==> forall h :: h in db.highscores ==> h.userId != db.sessionUserId.value)
    ensures r.Success? ==>
              && db.sessionUserId.Some?
              && multiset(r.value) == multiset(BestPerLevel(db.levels, Where(db.highscores, HighscoreUserKey, db.sessionUserId.value)))
    ensures r.Success? ==> SortedBy(r.value, NameAtMost)
  {
    match db.sessionUserId
    case None => Failure(Unauthorized)
    case Some(userId) =>
      var mine := Where(db.highscores, HighscoreUserKey, userId);
      assert |mine| == 0 <==> forall h :: h in db.highscores ==> h.userId != userId by {
        if exists h :: h in db.highscores && h.userId == userId {
          var h :| h in db.highscores && h.userId == userId;
          assert multiset(mine)[h] == multiset(db.highscores)[h];
          assert h in mine;
        }
      }
      if |mine| == 0 then Failure(NotFound)
      else
        NameOrderIsTotal();
        Success(Sort(BestPerLevel(db.levels, mine), NameAtMost))
  }

  // --------------------------------------------------------------- submission

  predicate IsRowOf(h: Highscore, userId: int, levelId: int)
  {
    h.userId == userId && h.levelId == levelId
  }

  /** The position of the first row of this (user, level) pair. */
  function ScoreIndex(hs: seq<Highscore>, userId: int, levelId: int): (r: Option<nat>)
    ensures r.Some? ==> r.value < |hs| && IsRowOf(hs[r.value], userId, levelId)
    ensures r.Some? ==> forall j :: 0 <= j < r.value ==> !IsRowOf(hs[j], userId, levelId)
    ensures r.None? <==> forall j :: 0 <= j < |hs| ==> !IsRowOf(hs[j], userId, levelId)
  {
    if |hs| == 0 then None
    else if IsRowOf(hs[0], userId, levelId) then Some(0)
    else match ScoreIndex(hs[1..], userId, levelId)
      case None => None
      case Some(i) => Some(i + 1)
  }

  /** The score stored for a (user, level) pair, None when it has no row. */
  function StoredScore(hs: seq<Highscore>, userId: int, levelId: int): (r: Option<int>)
    ensures r.None? <==> forall h :: h in hs ==> !IsRowOf(h, userId, levelId)
    ensures r.Some? ==> exists h :: h in hs && IsRowOf(h, userId, levelId) && h.highscoreValue == r.value
  {
    match ScoreIndex(hs, userId, levelId)
    case None => None
    case Some(k) => Some(hs[k].highscoreValue)
  }

  /** At most one row per (user, level) pair. */
  ghost predicate OneRowPerPair(hs: seq<Highscore>)
  {
    forall i, j :: 0 <= i < j < |hs| ==> !IsRowOf(hs[j], hs[i].userId, hs[i].levelId)
  }

  /** The table after a submission: a first score for the pair is inserted
      with the next id, a higher one overwrites the stored value, a lower or
      equal one changes nothing. */
  function Upsert(hs: seq<Highscore>, nextId: int, userId: int, levelId: int, value: int): (r: seq<Highscore>)
    ensures |r| == |hs| || r == hs + [Highscore(nextId, userId, levelId, value)]
    ensures |r| >= |hs|
    ensures forall i :: 0 <= i < |hs| && !IsRowOf(hs[i], userId, levelId) ==> r[i] == hs[i]
    ensures forall i :: 0 <= i < |hs| ==> r[i].id == hs[i].id && IsRowOf(r[i], hs[i].userId, hs[i].levelId)
    ensures r == hs <==> StoredScore(hs, userId, levelId).Some? && StoredScore(hs, userId, levelId).value >= value
  {
    match ScoreIndex(hs, userId, levelId)
    case None => hs + [Highscore(nextId, userId, levelId, value)]
    case Some(k) =>
      if hs[k].highscoreValue >= value then hs
      else
        assert hs[k := hs[k].(highscoreValue := value)][k] != hs[k];
        hs[k := hs[k].(highscoreValue := value)]
  }

  /** After a submission the pair's stored score is the larger of the old
      score and the submitted one (the submitted one if there was none). */
  lemma UpsertKeepsMaximum(hs: seq<Highscore>, nextId: int, userId: int, levelId: int, value: int)
    ensures StoredScore(Upsert(hs, nextId, userId, levelId, value), userId, levelId)
            == Some(match StoredScore(hs, userId, levelId)
                    case None => value
                    case Some(s) => Max(s, value))
  {
    var r := Upsert(hs, nextId, userId, levelId, value);
    match ScoreIndex(hs, userId, levelId)
    case None =>
      assert IsRowOf(r[|hs|], userId, levelId);
      assert forall j :: 0 <= j < |hs| ==> r[j] == hs[j];
    case Some(k) =>
      assert IsRowOf(r[k], userId, levelId);
      assert forall j :: 0 <= j < k ==> r[j] == hs[j];
  }

  /** A submission does not change the stored score of any other pair. */
  lemma UpsertLeavesOtherPairs(hs: seq<Highscore>, nextId: int, userId: int, levelId: int, value: int,
                               otherUser: int, otherLevel: int)
    requires otherUser != userId || otherLevel != levelId
    ensures StoredScore(Upsert(hs, nextId, userId, levelId, value), otherUser, otherLevel)
            == StoredScore(hs, otherUser, otherLevel)
  {
    var r := Upsert(hs, nextId, userId, levelId, value);
    var k := ScoreIndex(hs, otherUser, otherLevel);
    var k' := ScoreIndex(r, otherUser, otherLevel);
    assert forall j :: 0 <= j < |hs| ==> (IsRowOf(r[j], otherUser, otherLevel) <==> IsRowOf(hs[j], otherUser, otherLevel));
    assert |r| > |hs| ==> !IsRowOf(r[|hs|], otherUser, otherLevel);
    if k.Some? {
      assert k'.Some? && k'.value <= k.value;
      assert k'.value == k.value;
    } else {
      assert k'.None?;
    }
  }

  /** No submission lowers a stored score. */
  lemma UpsertNeverLowers(hs: seq<Highscore>, nextId: int, userId: int, levelId: int, value: int,
                          anyUser: int, anyLevel: int)
    requires StoredScore(hs, anyUser, anyLevel).Some?
    ensures StoredScore(Upsert(hs, nextId, userId, levelId, value), anyUser, anyLevel).Some?
    ensures StoredScore(Upsert(hs, nextId, userId, levelId, value), anyUser, anyLevel).value
            >= StoredScore(hs, anyUser, anyLevel).value
  {
    if anyUser == userId && anyLevel == levelId {
      UpsertKeepsMaximum(hs, nextId, userId, levelId, value);
    } else {
      UpsertLeavesOtherPairs(hs, nextId, userId, levelId, value, anyUser, anyLevel);
    }
  }

  /** A submission keeps "at most one row per (user, level) pair". */
  lemma UpsertKeepsOneRowPerPair(hs: seq<Highscore>, nextId: int, userId: int, levelId: int, value: int)
    requires OneRowPerPair(hs)
    ensures OneRowPerPair(Upsert(hs, nextId, userId, levelId, value))
  {
    var r := Upsert(hs, nextId, userId, levelId, value);
    if |r| > |hs| {
      assert ScoreIndex(hs, userId, levelId).None?;
      forall i | 0 <= i < |hs| ensures !IsRowOf(r[|hs|], r[i].userId, r[i].levelId) {
        assert !IsRowOf(hs[i], userId, levelId);
      }
    }
  }

  /** The write half of a submission: look up the pair's row, then insert,
      raise or leave it. */
  method SaveSubmission(db: Store, userId: int, levelId: int, value: int)
    requires db.Valid()
    modifies db`highscores, db`nextHighscoreId
    ensures db.Valid()
    ensures db.highscores == Upsert(old(db.highscores), old(db.nextHighscoreId), userId, levelId, value)
    ensures db.nextHighscoreId == old(db.nextHighscoreId)
                                  + (if StoredScore(old(db.highscores), userId, levelId).None? then 1 else 0)
  {
    var existing := ScoreIndex(db.highscores, userId, levelId);
    match existing {
      case Some(k) =>
        if db.highscores[k].highscoreValue >= value {
          return;
        }
        var raised := db.highscores[k].(highscoreValue := value);
        ReplaceSameKey(db.highscores, HighscoreKey, db.nextHighscoreId, k, raised);
        db.highscores := db.highscores[k := raised];
      case None =>
        var row := Highscore(db.nextHighscoreId, userId, levelId, value);
        AppendFreshKey(db.highscores, HighscoreKey, db.nextHighscoreId, row);
        db.highscores := db.highscores + [row];
        db.nextHighscoreId := db.nextHighscoreId + 1;
    }
  }

  /** POST api/Highscore: Unauthorized with nobody logged in, BadRequest when
      the session's user or the submitted level does not exist; otherwise
      the submission is upserted for the session's user (the body's UserId
      and Id are ignored) and the answer is Ok. */
  method AddHighscore(db: Store, submitted: Highscore) returns (r: Status)
    requires db.Valid()
    modifies db`highscores, db`nextHighscoreId
    ensures db.Valid()
    ensures r == Ok || r == Unauthorized || r == BadRequest
    ensures r == Unauthorized <==> db.sessionUserId.None?
    ensures r == BadRequest <==>
              && db.sessionUserId.Some?
              && ((forall u :: u in db.users ==> u.id != db.sessionUserId.value)
                  || (forall l :: l in db.levels ==> l.id != submitted.levelId))
    ensures r != Ok ==> db.highscores == old(db.highscores) && db.nextHighscoreId == old(db.nextHighscoreId)
    ensures r == Ok ==> db.highscores == Upsert(old(db.highscores), old(db.nextHighscoreId),
                                                db.sessionUserId.value, submitted.levelId, submitted.highscoreValue)
    ensures r == Ok ==>
              db.nextHighscoreId == old(db.nextHighscoreId)
                                    + (if StoredScore(old(db.highscores), db.sessionUserId.value, submitted.levelId).None? then 1 else 0)
    ensures r == Ok ==> StoredScore(db.highscores, db.sessionUserId.value, submitted.levelId)
                        == Some(match StoredScore(old(db.highscores), db.sessionUserId.value, submitted.levelId)
                                case None => submitted.highscoreValue
                                case Some(s) => Max(s, submitted.highscoreValue))
    ensures OneRowPerPair(old(db.highscores)) ==> OneRowPerPair(db.highscores)
  {
    if db.sessionUserId.None? {
      return Unauthorized;
    }
    var userId := db.sessionUserId.value;
    var user := FirstIndex(db.users, UserKey, userId);
    var level := FirstIndex(db.levels, LevelKey, submitted.levelId);
    if user.None? || level.None? {
      assert user.None? ==> forall u :: u in db.users ==> UserKey(u) != userId;
      assert level.None? ==> forall l :: l in db.levels ==> LevelKey(l) != submitted.levelId;
      return BadRequest;
    }
    assert db.users[user.value] in db.users && db.levels[level.value] in db.levels;
    var owner := db.users[user.value].id;
    UpsertKeepsMaximum(db.highscores, db.nextHighscoreId, owner, submitted.levelId, submitted.highscoreValue);
    if OneRowPerPair(db.highscores) {
      UpsertKeepsOneRowPerPair(db.highscores, db.nextHighscoreId, owner, submitted.levelId, submitted.highscoreValue);
    }
    SaveSubmission(db, owner, submitted.levelId, submitted.highscoreValue);
    r := Ok;
  }

  /** DELETE api/Highscore/{id}: Unauthorized with nobody logged in,
      Forbidden unless the session's user is an admin, NotFound when no row
      has this id; otherwise exactly that row is removed (NoContent). */
  method DeleteHighscore(db: Store, id: int) returns (r: Status)
    requires db.Valid()
    modifies db`highscores
    ensures db.Valid()
    ensures r == Unauthorized <==> db.sessionUserId.None?
    ensures r == Forbidden <==> db.sessionUserId.Some? && !IsAdmin(db.users, db.sessionUserId.value)
    ensures r == NotFound <==> db.sessionUserId.Some? && IsAdmin(db.users, db.sessionUserId.value)
                               && forall h :: h in old(db.highscores) ==> h.id != id
    ensures r == NoContent <==> db.sessionUserId.Some? && IsAdmin(db.users, db.sessionUserId.value)
                                && exists h :: h in old(db.highscores) && h.id == id
    ensures r != NoContent ==> db.highscores == old(db.highscores)
    ensures r == NoContent ==>
              db.highscores == RemoveAt(old(db.highscores), FirstIndex(old(db.highscores), HighscoreKey, id).value)
    ensures r == NoContent ==> forall h :: h in db.highscores ==> h.id != id
  {
    if db.sessionUserId.None? {
      return Unauthorized;
    }
    if !IsAdmin(db.users, db.sessionUserId.value) {
      return Forbidden;
    }
    var k := FirstIndex(db.highscores, HighscoreKey, id);
    if k.None? {
      assert forall h :: h in db.highscores ==> HighscoreKey(h) != id;
      return NotFound;
    }
    assert db.highscores[k.value] in db.highscores;
    RemoveAtDropsRow(db.highscores, HighscoreKey, k.value);
    db.highscores := RemoveAt(db.highscores, k.value);
    r := NoContent;
  }
}
