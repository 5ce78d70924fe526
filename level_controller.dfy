/** The level endpoints: listing, lookup, creation with a name check,
    renaming and deletion. None of them looks at the session. */
module LevelController {
  import opened Tables
  import opened Database

  /** GET api/Level: NotFound when there are no levels, otherwise all of them. */
  function GetLevels(db: Store): (r: Reply<seq<Level>>)
    reads db
    ensures r.Failure? <==> |db.levels| == 0
    ensures r.Failure? ==> r.status == NotFound
    ensures r.Success? ==> r.value == db.levels
  {
    if |db.levels| == 0 then Failure(NotFound) else Success(db.levels)
  }

  /** GET api/Level/{id}: the level with this id, NotFound when there is none. */
  function GetLevel(db: Store, id: int): (r: Reply<Level>)
    reads db
    ensures r.Failure? <==> forall l :: l in db.levels ==> l.id != id
    ensures r.Failure? ==> r.status == NotFound
    ensures r.Success? ==> r.value in db.levels && r.value.id == id
  {
    match FirstIndex(db.levels, LevelKey, id)
    case None =>
      assert forall l :: l in db.levels ==> LevelKey(l) != id;
      Failure(NotFound)
    case Some(k) => Success(db.levels[k])
  }

  /** With a primary key on levels, a lookup by id finds the one level with that id. */
  lemma GetLevelFindsTheLevel(db: Store, l: Level)
    requires UniqueKeys(db.levels, LevelKey) && l in db.levels
    ensures GetLevel(db, l.id) == Success(l)
  {
    var j :| 0 <= j < |db.levels| && db.levels[j] == l;
    var k := FirstIndex(db.levels, LevelKey, l.id).value;
    assert !(k < j) && !(j < k);
  }

  /** Every level has a name that is not blank. */
  ghost predicate AllNamed(levels: seq<Level>)
  {
    forall i :: 0 <= i < |levels| ==> !IsBlank(levels[i].name)
  }

  /** POST api/Level: BadRequest, adding nothing, for a missing body or a
      blank name; otherwise exactly one level with that name is added under
      the next id (Created). */
  method CreateLevel(db: Store, body: Option<Level>) returns (r: Status)
    requires db.Valid()
    modifies db`levels, db`nextLevelId
    ensures db.Valid()
    ensures r == Created || r == BadRequest
    ensures r == BadRequest <==> body.None? || IsBlank(body.value.name)
    ensures r == BadRequest ==> db.levels == old(db.levels) && db.nextLevelId == old(db.nextLevelId)
    ensures r == Created ==> db.levels == old(db.levels) + [Level(old(db.nextLevelId), body.value.name)]
    ensures r == Created ==> db.nextLevelId == old(db.nextLevelId) + 1
    ensures AllNamed(old(db.levels)) ==> AllNamed(db.levels)
  {
    if body.None? {
      return BadRequest;
    }
    if IsBlank(body.value.name) {
      return BadRequest;
    }
    var level := Level(db.nextLevelId, body.value.name);
    AppendFreshKey(db.levels, LevelKey, db.nextLevelId, level);
    db.levels := db.levels + [level];
    db.nextLevelId := db.nextLevelId + 1;
    r := Created;
  }

  /** PUT api/Level/{id}: BadRequest for a missing body or a body whose id is
      not the route's id, NotFound when no level has the id, and in each
      case nothing changes; otherwise only that level's name changes, to the
      body's name, which is not checked for blankness (NoContent). */
  method UpdateLevel(db: Store, id: int, body: Option<Level>) returns (r: Status)
    requires db.Valid()
    modifies db`levels
    ensures db.Valid()
    ensures r == NoContent || r == BadRequest || r == NotFound
    ensures r == BadRequest <==> body.None? || body.value.id != id
    ensures r == NotFound <==> body.Some? && body.value.id == id && forall l :: l in old(db.levels) ==> l.id != id
    ensures r != NoContent ==> db.levels == old(db.levels)
    ensures r == NoContent ==>
              var k := FirstIndex(old(db.levels), LevelKey, id).value;
              && |db.levels| == |old(db.levels)|
              && db.levels[k] == Level(id, body.value.name)
              && forall i :: 0 <= i < |db.levels| && i != k ==> db.levels[i] == old(db.levels)[i]
  {
    if body.None? || id != body.value.id {
      return BadRequest;
    }
    var k := FirstIndex(db.levels, LevelKey, id);
    if k.None? {
      assert forall l :: l in db.levels ==> LevelKey(l) != id;
      return NotFound;
    }
    var level := db.levels[k.value].(name := body.value.name);
    ReplaceSameKey(db.levels, LevelKey, db.nextLevelId, k.value, level);
    db.levels := db.levels[k.value := level];
    r := NoContent;
  }

  /** DELETE api/Level/{id}: NotFound, changing nothing, when no level has
      the id; otherwise exactly that level is removed (NoContent). */
  method DeleteLevel(db: Store, id: int) returns (r: Status)
    requires db.Valid()
    modifies db`levels
    ensures db.Valid()
    ensures r == NoContent || r == NotFound
    ensures r == NotFound <==> forall l :: l in old(db.levels) ==> l.id != id
    ensures r == NotFound ==> db.levels == old(db.levels)
    ensures r == NoContent ==> db.levels == RemoveAt(old(db.levels), FirstIndex(old(db.levels), LevelKey, id).value)
    ensures r == NoContent ==> forall l :: l in db.levels ==> l.id != id
    ensures AllNamed(old(db.levels)) ==> AllNamed(db.levels)
  {
    var k := FirstIndex(db.levels, LevelKey, id);
    if k.None? {
      assert forall l :: l in db.levels ==> LevelKey(l) != id;
      return NotFound;
    }
    RemoveAtDropsRow(db.levels, LevelKey, k.value);
    db.levels := RemoveAt(db.levels, k.value);
    r := NoContent;
  }
}
