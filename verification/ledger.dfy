/**
 * The points ledger and leaderboard of src/index.js: the `users` table,
 * the `addUserPoints` upsert, `getUser` behind the points command,
 * `getTopUsers` and the medal labels of the leaderboard command.
 */
module Ledger {
  import opened Wrappers
  import Decimal

  /** Range of a PostgreSQL INTEGER column (`total_points`). */
  const IntegerMin: int := -0x8000_0000
  const IntegerMax: int := 0x7FFF_FFFF
  /** `discord_id VARCHAR(20)` and `username VARCHAR(100)`. */
  const DiscordIdMaxLength: nat := 20
  const UsernameMaxLength: nat := 100

  predicate FitsInteger(x: int) {
    IntegerMin <= x <= IntegerMax
  }

  /** A `users` row, keyed in `Users` by its `discord_id`. */
  datatype User = User(username: string, totalPoints: int, lastRoll: int)

  type Users = map<string, User>

  /** The points command's figure: the stored total, or 0 for an unknown user. */
  function PointsOf(users: Users, userId: string): (points: int)
    ensures userId !in users ==> points == 0
    ensures userId in users ==> points == users[userId].totalPoints
  {
    if userId in users then users[userId].totalPoints else 0
  }

  /** The total the upsert stores: the previous total (0 if none) plus `points`. */
  function UpsertTotal(users: Users, userId: string, points: int): int {
    PointsOf(users, userId) + points
  }

  /**
   * How PostgreSQL stores a text parameter in a `VARCHAR(n)` column:
   * a NUL character is refused outright; a longer string is refused
   * unless everything past the first `n` characters is spaces, in which
   * case those spaces are cut off. `None` is the refusal.
   */
  function VarcharValue(s: string, n: nat): (v: Option<string>)
    ensures v.Some? <==> '\0' !in s && forall i :: n <= i < |s| ==> s[i] == ' '
    ensures v.Some? ==> |v.value| <= n && v.value <= s
    ensures v.Some? ==> forall i :: |v.value| <= i < |s| ==> s[i] == ' '
    ensures v.Some? && |s| <= n ==> v.value == s
    ensures v.Some? && |s| > n ==> |v.value| == n
  {
    if '\0' in s then None
    else if |s| <= n then Some(s)
    else if forall i :: n <= i < |s| ==> s[i] == ' ' then Some(s[..n])
    else None
  }

  /** Storing an already stored value changes nothing. */
  lemma VarcharValueIdempotent(s: string, n: nat)
    requires VarcharValue(s, n).Some?
    ensures VarcharValue(VarcharValue(s, n).value, n) == VarcharValue(s, n)
  {
  }

  /**
   * Whether PostgreSQL accepts the upsert's values without raising. An id
   * longer than the column is taken as refused (see README).
   */
  predicate UpsertAccepted(users: Users, userId: string, username: string, points: int) {
    && '\0' !in userId && |userId| <= DiscordIdMaxLength
    && VarcharValue(username, UsernameMaxLength).Some?
    && FitsInteger(points)
    && FitsInteger(UpsertTotal(users, userId, points))
  }

  /**
   * `INSERT … ON CONFLICT (discord_id) DO UPDATE`: a new user starts at
   * `points`, a known one gains `points` and takes the new username (as
   * the column stores it); both paths stamp `last_roll`. `None` is the
   * query raising (value too long, NUL character, integer out of range),
   * which leaves the table as it was.
   */
  function AddUserPoints(users: Users, userId: string, username: string, points: int, now: int): (r: Option<Users>)
    ensures r.Some? <==> UpsertAccepted(users, userId, username, points)
    ensures r.Some? ==> r.value.Keys == users.Keys + {userId}
    ensures r.Some? && userId !in users ==>
      r.value[userId] == User(VarcharValue(username, UsernameMaxLength).value, points, now)
    ensures r.Some? && userId in users ==>
      r.value[userId] == User(VarcharValue(username, UsernameMaxLength).value, users[userId].totalPoints + points, now)
    ensures r.Some? ==> forall other :: other in users && other != userId ==> r.value[other] == users[other]
  {
    if UpsertAccepted(users, userId, username, points) then
      var stored := VarcharValue(username, UsernameMaxLength).value;
      Some(users[userId := User(stored, UpsertTotal(users, userId, points), now)])
    else
      None
  }

  /** After a successful upsert the points command reports exactly `points` more. */
  lemma PointsAfterAdd(users: Users, userId: string, username: string, points: int, now: int, asker: string)
    requires AddUserPoints(users, userId, username, points, now).Some?
    ensures var after := AddUserPoints(users, userId, username, points, now).value;
      PointsOf(after, asker) == PointsOf(users, asker) + (if asker == userId then points else 0)
  {
  }

  /** Two upserts for one user amount to one upsert of the sum, with the later name and time. */
  lemma {:induction false} AddTwice(users: Users, userId: string, n1: string, p1: int, t1: int, n2: string, p2: int, t2: int)
    requires AddUserPoints(users, userId, n1, p1, t1).Some?
    requires AddUserPoints(AddUserPoints(users, userId, n1, p1, t1).value, userId, n2, p2, t2).Some?
    requires FitsInteger(p1 + p2)
    ensures AddUserPoints(AddUserPoints(users, userId, n1, p1, t1).value, userId, n2, p2, t2)
         == AddUserPoints(users, userId, n2, p1 + p2, t2)
  {
    var once := AddUserPoints(users, userId, n1, p1, t1).value;
    assert PointsOf(once, userId) == PointsOf(users, userId) + p1;
    var name := VarcharValue(n2, UsernameMaxLength).value;
    assert once[userId := User(name, PointsOf(once, userId) + p2, t2)]
        == users[userId := User(name, PointsOf(users, userId) + (p1 + p2), t2)];
  }

  predicate NoNegativeTotals(users: Users) {
    forall id :: id in users ==> users[id].totalPoints >= 0
  }

  /** Awards are never negative, so no total ever goes below zero. */
  lemma AddKeepsTotalsNonNegative(users: Users, userId: string, username: string, points: int, now: int)
    requires NoNegativeTotals(users) && points >= 0
    requires AddUserPoints(users, userId, username, points, now).Some?
    ensures NoNegativeTotals(AddUserPoints(users, userId, username, points, now).value)
  {
  }

  datatype PointsReply = Points(total: int) | PointsFailed

  /** `handlePointsCommand`: `dbUp` is whether the `getUser` query succeeds. */
  function HandlePoints(users: Users, userId: string, dbUp: bool): (r: PointsReply)
    ensures r.Points? <==> dbUp
    ensures r.Points? && userId !in users ==> r.total == 0
    ensures r.Points? && userId in users ==> r.total == users[userId].totalPoints
  {
    if dbUp then Points(PointsOf(users, userId)) else PointsFailed
  }

  /** A row of `SELECT username, total_points`. */
  datatype LeaderRow = LeaderRow(username: string, totalPoints: int)

  function RowOf(u: User): LeaderRow {
    LeaderRow(u.username, u.totalPoints)
  }

  /** The user among `candidates` with the largest total (any one, on ties). */
  method PickTop(users: Users, candidates: set<string>) returns (best: string)
    requires candidates != {} && candidates <= users.Keys
    ensures best in candidates
    ensures forall k :: k in candidates ==> users[k].totalPoints <= users[best].totalPoints
  {
    best :| best in candidates;
    var rest := candidates - {best};
    while rest != {}
      invariant rest <= candidates && best in candidates
      invariant forall k :: k in candidates && k !in rest ==> users[k].totalPoints <= users[best].totalPoints
      decreases rest
    {
      var k :| k in rest;
      if users[k].totalPoints > users[best].totalPoints {
        best := k;
      }
      rest := rest - {k};
    }
  }

  /**
   * What `SELECT … ORDER BY total_points DESC LIMIT limit` may return:
   * the `limit` users with the highest totals (all of them if there are
   * fewer), highest first. `ids` are the `discord_id`s behind the rows;
   * the order among equal totals is left open, as in the query.
   */
  predicate TopRanking(users: Users, limit: nat, ids: seq<string>, rows: seq<LeaderRow>) {
    && |rows| == |ids| == (if limit < |users| then limit else |users|)
    && (forall i :: 0 <= i < |ids| ==> ids[i] in users && rows[i] == RowOf(users[ids[i]]))
    && (forall i, j :: 0 <= i < j < |ids| ==> ids[i] != ids[j])
    && (forall i, j :: 0 <= i < j < |rows| ==> rows[i].totalPoints >= rows[j].totalPoints)
    && (forall k, i :: k in users && k !in ids && 0 <= i < |rows| ==>
          users[k].totalPoints <= rows[i].totalPoints)
  }

  /** `getTopUsers(limit)`. */
  method GetTopUsers(users: Users, limit: nat) returns (ids: seq<string>, rows: seq<LeaderRow>)
    ensures TopRanking(users, limit, ids, rows)
  {
    ids := RankUsers(users, limit);
    rows := seq(|ids|, i requires 0 <= i < |ids| => RowOf(users[ids[i]]));
  }

  /** The `discord_id`s of the top `limit` totals, highest first. */
  method RankUsers(users: Users, limit: nat) returns (ids: seq<string>)
    ensures |ids| == (if limit < |users| then limit else |users|)
    ensures forall i :: 0 <= i < |ids| ==> ids[i] in users
    ensures forall i, j :: 0 <= i < j < |ids| ==> ids[i] != ids[j]
    ensures forall i, j :: 0 <= i < j < |ids| ==> users[ids[i]].totalPoints >= users[ids[j]].totalPoints
    ensures forall k, i :: k in users && k !in ids && 0 <= i < |ids| ==>
      users[k].totalPoints <= users[ids[i]].totalPoints
  {
    ids := [];
    var remaining := users.Keys;
    while |ids| < limit && remaining != {}
      invariant remaining <= users.Keys
      invariant forall k :: k in users ==> (k in remaining <==> k !in ids)
      invariant |remaining| + |ids| == |users.Keys|
      invariant |ids| <= limit
      invariant forall i :: 0 <= i < |ids| ==> ids[i] in users
      invariant forall i, j :: 0 <= i < j < |ids| ==> ids[i] != ids[j]
      invariant forall i, j :: 0 <= i < j < |ids| ==> users[ids[i]].totalPoints >= users[ids[j]].totalPoints
      invariant forall k, i :: k in remaining && 0 <= i < |ids| ==> users[k].totalPoints <= users[ids[i]].totalPoints
      decreases remaining
    {
      var top := PickTop(users, remaining);
      ids := ids + [top];
      remaining := remaining - {top};
    }
    assert |users.Keys| == |users|;
  }

  /** The three medals for ranks 1 to 3. */
  const Medals: seq<string> := ["\U{1F947}", "\U{1F948}", "\U{1F949}"]

  /** The rank text of leaderboard position `index` (0-based): a medal, then "4.", "5.", … */
  function MedalLabel(index: nat): (text: string)
    ensures index < 3 ==> text == Medals[index]
    ensures index >= 3 ==>
              && |text| >= 2 && text[|text| - 1] == '.'
              && Decimal.AllDigits(text[..|text| - 1])
              && Decimal.ParseNat(text[..|text| - 1]) == index + 1
              && text[0] != '0'
  {
    if index < 3 then Medals[index]
    else
      Decimal.ParseNatToString(index + 1);
      var text := Decimal.NatToString(index + 1) + ".";
      assert text[..|text| - 1] == Decimal.NatToString(index + 1);
      text
  }

  /** No two leaderboard positions carry the same text. */
  lemma MedalLabelsDistinct(i: nat, j: nat)
    requires i != j
    ensures MedalLabel(i) != MedalLabel(j)
  {
  }

  /**
   * One line of the leaderboard description: the rank label, the bold
   * username, the total and " points".
   */
  function LeaderboardLine(index: nat, row: LeaderRow): (line: string)
    ensures var head := MedalLabel(index) + " **" + row.username + "** - ";
      && |head| + |" points\n"| < |line|
      && line[..|head|] == head
      && line[|line| - |" points\n"|..] == " points\n"
  {
    MedalLabel(index) + " **" + row.username + "** - " + Decimal.IntToString(row.totalPoints) + " points\n"
  }

  /**
   * A leaderboard line can be read back: after the rank label and the
   * bold name comes the total, which parses to the row's total, and the
   * line ends in " points" and a newline.
   */
  lemma {:induction false} LeaderboardLineReadsBack(index: nat, row: LeaderRow)
    ensures var line := LeaderboardLine(index, row);
      var head := MedalLabel(index) + " **" + row.username + "** - ";
      var tail := " points\n";
      && |head| + |tail| < |line|
      && line[..|head|] == head
      && line[|line| - |tail|..] == tail
      && Decimal.ParseInt(line[|head|..|line| - |tail|]) == row.totalPoints
  {
    var line := LeaderboardLine(index, row);
    var head := MedalLabel(index) + " **" + row.username + "** - ";
    var total := Decimal.IntToString(row.totalPoints);
    var tail := " points\n";
    assert line == head + total + tail;
    assert line[|head|..|line| - |tail|] == total;
    Decimal.ParseIntToString(row.totalPoints);
  }

  datatype LeaderboardReply = NoUsersYet | Board(lines: seq<string>) | LeaderboardFailed

  /** The leaderboard command's reply for the rows `getTopUsers(10)` returned. */
  function LeaderboardFor(rows: seq<LeaderRow>): (r: LeaderboardReply)
    ensures r.NoUsersYet? <==> |rows| == 0
    ensures !r.LeaderboardFailed?
    ensures r.Board? ==> |r.lines| == |rows|
    // Row i is shown as "<rank> **<username>** - <total> points".
    ensures r.Board? ==> forall i :: 0 <= i < |rows| ==>
              r.lines[i] == MedalLabel(i) + " **" + rows[i].username + "** - "
                            + Decimal.IntToString(rows[i].totalPoints) + " points\n"
  {
    if |rows| == 0 then NoUsersYet
    else Board(seq(|rows|, i requires 0 <= i < |rows| => LeaderboardLine(i, rows[i])))
  }

  const LeaderboardSize: nat := 10

  /**
   * `handleLeaderboardCommand`: `dbUp` is whether the `getTopUsers` query
   * succeeds; `ids` and `rows` are what it returned.
   */
  method HandleLeaderboard(users: Users, dbUp: bool)
    returns (r: LeaderboardReply, ids: seq<string>, rows: seq<LeaderRow>)
    ensures !dbUp <==> r.LeaderboardFailed?
    ensures dbUp ==> TopRanking(users, LeaderboardSize, ids, rows) && r == LeaderboardFor(rows)
    ensures dbUp ==> (r.NoUsersYet? <==> |users| == 0)
    ensures r.Board? ==> |r.lines| == (if |users| < LeaderboardSize then |users| else LeaderboardSize)
  {
    if !dbUp {
      return LeaderboardFailed, [], [];
    }
    ids, rows := GetTopUsers(users, LeaderboardSize);
    r := LeaderboardFor(rows);
  }
}
