/** Rows of the leaderboard database, the result kinds the endpoints answer
    with, and the table lookups the controllers perform. A table is a
    sequence of rows in primary-key order. */
module Tables {

  datatype Option<+T> = None | Some(value: T)

  /** The kind of answer an endpoint gives (the HTTP status, without its message). */
  datatype Status = Ok | Created | NoContent | NotFound | BadRequest | Unauthorized | Forbidden

  /** The answer of a read endpoint: a body with Ok, or a failure kind. */
  datatype Reply<T> = Success(value: T) | Failure(status: Status)

  /** A registered account. `createdAt` is a timestamp supplied by the caller. */
  datatype User = User(id: int, username: string, fullname: string, emailAddress: string,
                       passwordHash: string, createdAt: int, role: string)

  datatype Level = Level(id: int, name: string)

  datatype Highscore = Highscore(id: int, userId: int, levelId: int, highscoreValue: int)

  datatype Review = Review(id: int, userId: int, rating: int, comment: string, createdAt: int)

  datatype LevelStats = LevelStats(id: int, levelId: int, completionCount: int)

  /** The role that unlocks the administrative endpoints, and the role a new user gets. */
  const AdminRole: string := "Admin"
  const DefaultRole: string := "User"

  // Column selectors, used as keys for lookups and filters.
  function UserKey(u: User): int { u.id }
  function LevelKey(l: Level): int { l.id }
  function HighscoreKey(h: Highscore): int { h.id }
  function HighscoreUserKey(h: Highscore): int { h.userId }
  function HighscoreLevelKey(h: Highscore): int { h.levelId }
  function ReviewKey(r: Review): int { r.id }
  function StatsKey(s: LevelStats): int { s.id }
  function StatsLevelKey(s: LevelStats): int { s.levelId }

  /** The position of the first row whose key is `k` (FirstOrDefault / Find). */
  function FirstIndex<T>(s: seq<T>, key: T -> int, k: int): (r: Option<nat>)
    ensures r.Some? ==> r.value < |s| && key(s[r.value]) == k
    ensures r.Some? ==> forall j :: 0 <= j < r.value ==> key(s[j]) != k
    ensures r.None? <==> forall j :: 0 <= j < |s| ==> key(s[j]) != k
  {
    if |s| == 0 then None
    else if key(s[0]) == k then Some(0)
    else match FirstIndex(s[1..], key, k)
      case None => None
      case Some(i) => Some(i + 1)
  }

  /** The rows whose key is `k`, in table order (a Where clause). */
  function Where<T(!new)>(s: seq<T>, key: T -> int, k: int): (r: seq<T>)
    ensures forall x :: multiset(r)[x] == if key(x) == k then multiset(s)[x] else 0
    ensures forall x :: x in r ==> key(x) == k
  {
    if |s| == 0 then []
    else
      assert s == [s[0]] + s[1..];
      (if key(s[0]) == k then [s[0]] else []) + Where(s[1..], key, k)
  }

  /** The table without the row at position `i` (a Remove). */
  function RemoveAt<T>(s: seq<T>, i: nat): seq<T>
    requires i < |s|
  {
    s[..i] + s[i + 1..]
  }

  /** A primary key: no two rows share a key. */
  ghost predicate UniqueKeys<T>(s: seq<T>, key: T -> int)
  {
    forall i, j :: 0 <= i < j < |s| ==> key(s[i]) != key(s[j])
  }

  /** Every key is below the table's next auto-increment value. */
  ghost predicate KeysBelow<T>(s: seq<T>, key: T -> int, bound: int)
  {
    forall i :: 0 <= i < |s| ==> key(s[i]) < bound
  }

  /** Removing a row by primary key removes exactly that row: it is gone,
      every other row stays, and the key stays a primary key. */
  lemma RemoveAtDropsRow<T>(s: seq<T>, key: T -> int, i: nat)
    requires UniqueKeys(s, key) && i < |s|
    ensures multiset(RemoveAt(s, i)) == multiset(s) - multiset{s[i]}
    ensures forall x :: x in RemoveAt(s, i) ==> key(x) != key(s[i])
    ensures UniqueKeys(RemoveAt(s, i), key)
  {
    assert s == s[..i] + [s[i]] + s[i + 1..];
    var r := RemoveAt(s, i);
    forall x | x in r ensures key(x) != key(s[i]) {
      var j :| 0 <= j < |r| && r[j] == x;
      if j < i { assert r[j] == s[j]; } else { assert r[j] == s[j + 1]; }
    }
    forall a, b | 0 <= a < b < |r| ensures key(r[a]) != key(r[b]) {
      var a' := if a < i then a else a + 1;
      var b' := if b < i then b else b + 1;
      assert r[a] == s[a'] && r[b] == s[b'];
    }
  }

  /** Appending a row whose key is the next auto-increment value keeps the key primary. */
  lemma AppendFreshKey<T>(s: seq<T>, key: T -> int, bound: int, x: T)
    requires UniqueKeys(s, key) && KeysBelow(s, key, bound) && key(x) == bound
    ensures UniqueKeys(s + [x], key) && KeysBelow(s + [x], key, bound + 1)
  {
  }

  /** Replacing a row by one with the same key keeps the key primary. */
  lemma ReplaceSameKey<T>(s: seq<T>, key: T -> int, bound: int, i: nat, x: T)
    requires UniqueKeys(s, key) && KeysBelow(s, key, bound) && i < |s| && key(x) == key(s[i])
    ensures UniqueKeys(s[i := x], key) && KeysBelow(s[i := x], key, bound)
  {
  }

  /** The username of the user with this id, None when no such user exists
      (the result of following a Highscore's or a Review's User reference). */
  function UsernameOf(users: seq<User>, id: int): (r: Option<string>)
    ensures r.None? <==> forall u :: u in users ==> u.id != id
    ensures r.Some? ==> exists u :: u in users && u.id == id && u.username == r.value
  {
    match FirstIndex(users, UserKey, id)
    case None => None
    case Some(k) => Some(users[k].username)
  }

  /** The name of the level with this id, None when no such level exists. */
  function LevelNameOf(levels: seq<Level>, id: int): (r: Option<string>)
    ensures r.None? <==> forall l :: l in levels ==> l.id != id
    ensures r.Some? ==> exists l :: l in levels && l.id == id && l.name == r.value
  {
    match FirstIndex(levels, LevelKey, id)
    case None => None
    case Some(k) => Some(levels[k].name)
  }

  /** The user with this id is an administrator. */
  predicate IsAdmin(users: seq<User>, id: int)
  {
    match FirstIndex(users, UserKey, id)
    case None => false
    case Some(k) => users[k].role == AdminRole
  }

  /** With a primary key on users, the admin check asks whether the user row
      with that id carries the "Admin" role. */
  lemma IsAdminMeansAdminRow(users: seq<User>, id: int)
    requires UniqueKeys(users, UserKey)
    ensures IsAdmin(users, id) <==> exists u :: u in users && u.id == id && u.role == AdminRole
  {
    match FirstIndex(users, UserKey, id)
    case None =>
    case Some(k) =>
      forall u | u in users && u.id == id ensures u == users[k] {
        var j :| 0 <= j < |users| && users[j] == u;
        assert UserKey(users[j]) == UserKey(users[k]);
      }
  }

  /** The character set of .NET's Char.IsWhiteSpace: the Unicode space,
      line and paragraph separators, U+0009 to U+000D and U+0085. */
  predicate IsWhiteSpace(c: char)
  {
    var n := c as int;
    n == 0x20 || (0x09 <= n <= 0x0D) || n == 0x85 || n == 0xA0 || n == 0x1680
    || (0x2000 <= n <= 0x200A) || n == 0x2028 || n == 0x2029 || n == 0x202F
    || n == 0x205F || n == 0x3000
  }

  /** string.IsNullOrWhiteSpace, with a null string modelled as the empty one. */
  predicate IsBlank(s: string)
  {
    forall i :: 0 <= i < |s| ==> IsWhiteSpace(s[i])
  }
}
