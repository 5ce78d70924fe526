/** The level statistics endpoints: the list of completion counts, and the
    admin-only overwrite and delete of a level's statistics row. */
module LevelStatsController {
  import opened Tables
  import opened Database

  /** One line of the statistics list. */
  datatype StatsEntry = StatsEntry(levelName: Option<string>, completionCount: int)

  /** GET LevelStats: one line per statistics row, in table order, carrying
      the name of the row's level and its completion count as stored. */
  function GetAllStats(db: Store): (r: seq<StatsEntry>)
    reads db
    ensures |r| == |db.levelStats|
    ensures forall i :: 0 <= i < |r| ==> r[i].completionCount == db.levelStats[i].completionCount
    ensures forall i :: 0 <= i < |r| ==>
              (r[i].levelName.None? <==> forall l :: l in db.levels ==> l.id != db.levelStats[i].levelId)
    ensures forall i :: 0 <= i < |r| && r[i].levelName.Some? ==>
              exists l :: l in db.levels && l.id == db.levelStats[i].levelId && l.name == r[i].levelName.value
  {
    seq(|db.levelStats|, i reads db requires 0 <= i < |db.levelStats| =>
      StatsEntry(LevelNameOf(db.levels, db.levelStats[i].levelId), db.levelStats[i].completionCount))
  }

  /** PUT LevelStats/{levelId}: Unauthorized when nobody is logged in,
      Forbidden unless the session's user is an admin, NotFound when the
      level has no statistics row, and in each case nothing changes;
      otherwise the level's (first) statistics row gets exactly `newCount`,
      whether higher or lower, and no other row changes (Ok). */
  method UpdateCompletionCount(db: Store, levelId: int, newCount: int) returns (r: Status)
    requires db.Valid()
    modifies db`levelStats
    ensures db.Valid()
    ensures r == Ok || r == Unauthorized || r == Forbidden || r == NotFound
    ensures r == Unauthorized <==> db.sessionUserId.None?
    ensures r == Forbidden <==> db.sessionUserId.Some? && !IsAdmin(db.users, db.sessionUserId.value)
    ensures r == NotFound <==> db.sessionUserId.Some? && IsAdmin(db.users, db.sessionUserId.value)
                               && forall s :: s in old(db.levelStats) ==> s.levelId != levelId
    ensures r != Ok ==> db.levelStats == old(db.levelStats)
    ensures r == Ok ==>
              var k := FirstIndex(old(db.levelStats), StatsLevelKey, levelId).value;
              && |db.levelStats| == |old(db.levelStats)|
              && db.levelStats[k] == old(db.levelStats)[k].(completionCount := newCount)
              && db.levelStats[k].levelId == levelId
              && forall i :: 0 <= i < |db.levelStats| && i != k ==> db.levelStats[i] == old(db.levelStats)[i]
  {
    if db.sessionUserId.None? {
      return Unauthorized;
    }
    if !IsAdmin(db.users, db.sessionUserId.value) {
      return Forbidden;
    }
    var k := FirstIndex(db.levelStats, StatsLevelKey, levelId);
    if k.None? {
      assert forall s :: s in db.levelStats ==> StatsLevelKey(s) != levelId;
      return NotFound;
    }
    var stats := db.levelStats[k.value].(completionCount := newCount);
    db.levelStats := db.levelStats[k.value := stats];
    r := Ok;
  }

  /** DELETE LevelStats/{levelId}: the same guards in the same order; on
      success exactly the level's (first) statistics row is removed (Ok). */
  method DeleteLevelStats(db: Store, levelId: int) returns (r: Status)
    requires db.Valid()
    modifies db`levelStats
    ensures db.Valid()
    ensures r == Ok || r == Unauthorized || r == Forbidden || r == NotFound
    ensures r == Unauthorized <==> db.sessionUserId.None?
    ensures r == Forbidden <==> db.sessionUserId.Some? && !IsAdmin(db.users, db.sessionUserId.value)
    ensures r == NotFound <==> db.sessionUserId.Some? && IsAdmin(db.users, db.sessionUserId.value)
                               && forall s :: s in old(db.levelStats) ==> s.levelId != levelId
    ensures r != Ok ==> db.levelStats == old(db.levelStats)
    ensures r == Ok ==>
              var k := FirstIndex(old(db.levelStats), StatsLevelKey, levelId).value;
              && old(db.levelStats)[k].levelId == levelId
              && db.levelStats == RemoveAt(old(db.levelStats), k)
              && multiset(db.levelStats) == multiset(old(db.levelStats)) - multiset{old(db.levelStats)[k]}
  {
    if db.sessionUserId.None? {
      return Unauthorized;
    }
    if !IsAdmin(db.users, db.sessionUserId.value) {
      return Forbidden;
    }
    var k := FirstIndex(db.levelStats, StatsLevelKey, levelId);
    if k.None? {
      assert forall s :: s in db.levelStats ==> StatsLevelKey(s) != levelId;
      return NotFound;
    }
    RemoveAtDropsRow(db.levelStats, StatsKey, k.value);
    db.levelStats := RemoveAt(db.levelStats, k.value);
    r := Ok;
  }
}
