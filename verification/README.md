# WaifuBot roll/points core and character-uniqueness migration, in Dafny

This project models two pieces of the waifu-bot repository:

- **The roll and points core of `WaifuBot`** (`src/index.js`). A roll draws a character id in
  `1..maxCharacterId`. It looks the character up through a Redis cache in front of the Jikan
  catalog. It awards points by the favorites step function through an upsert into the `users`
  table. The points command reads a user's total, with 0 for unknown users. The leaderboard lists
  the top 10 totals with medals for the first three ranks. The character embed cuts the `about`
  text to 300 characters.
- **The global-uniqueness migration** (`src/database/migrate_unique_characters.js`). It finds the
  `character_id`s owned more than once. For each, it deletes every ownership row except the
  earliest claimed. Then it adds a unique constraint on `character_id`.

Everything is pure data. The `users` table is a `map<string, User>` keyed by `discord_id`. The
Redis cache is a `map<string, Option<Character>>` keyed by `character:<id>`. The
`user_characters` table is a `seq<OwnershipRow>` in table order. Redis, Jikan and PostgreSQL are
never called. Their answers are parameters: whether a cache read or write succeeds, what the
catalog replies, whether the database answers. The draw `Math.floor(Math.random() * max)` is the
integer `draw` in `0..max-1`. `NOW()` is the parameter `now`.

Modules, one per component: `Wrappers` (Option), `Decimal` (JavaScript's decimal rendering of
integers and its inverse), `Points`, `Catalog`, `Ledger`, `Embed`, `Roll`, `UniqueCharacters`.

`getCharacter` turns every failure into `null`: a 404, any other HTTP status, a network error,
and a failed Redis read or write. It does not tell "not found" apart from a transient error. The
roll command makes one attempt and does not retry with a new id. The roll path has no claim,
snipe, trade, lucky-roll, duplicate bonus or rate limit.

## Model

| member | source | states |
|---|---|---|
| Points.CalculatePoints | src/index.js:160-170 | the award is always one of 1, 2, 5, 10, 25, 50, 100, 250; it is 1 exactly for 0 favorites, 2 exactly for a non-zero count below 10, and 250 exactly from 5000 favorites up |
| Points.PointTiers | src/index.js:162-169 | the full tier table for non-negative counts: 0→1, 1..9→2, 10..49→5, 50..99→10, 100..499→25, 500..999→50, 1000..4999→100, ≥5000→250 |
| Points.PointsMonotone | src/index.js:162-169 | more favorites never earn fewer points |
| Decimal.IntToString | src/index.js:120 | `${n}` for an integer: the digits of a non-negative number without sign or leading zero, and '-' before the non-zero magnitude's digits for a negative one; the rendering parses back to the number (Decimal.ParseIntToString) |
| Decimal.IntToStringInjective | src/index.js:133 | distinct integers render to distinct decimal strings, shown by parsing the rendering back |
| Catalog.CacheKey | src/index.js:133 | the key is `character:` followed by exactly the id's decimal rendering |
| Catalog.CacheKeyInjective | src/index.js:133 | distinct character ids never share a `character:<id>` cache key |
| Catalog.GetCharacter | src/index.js:132-158 | on a hit it returns the cached value and leaves the cache alone. On a miss it returns the fetched value and caches it, exactly when the fetch and the write both succeed. On any failure (404 or other, read or write) it returns null and leaves the cache as it was. Existing entries are never overwritten, a successful miss adds exactly the one new entry, and a returned character is always cached under its id |
| Catalog.LookupMemoised | src/index.js:136-149 | once a lookup has returned a character, a second lookup of the same id returns it again, whatever the catalog would now answer, and changes nothing |
| Catalog.LookupIsolated | src/index.js:133-147 | looking up one id never changes what a lookup of a different id returns |
| Ledger.PointsOf | src/index.js:94 | a user without a row has 0 points; a user with a row has its stored total |
| Ledger.HandlePoints | src/index.js:91-101 | the points command reports the stored total, or 0 for an unknown user, and fails only when the query fails |
| Ledger.VarcharValue | src/index.js:197-207 | how a VARCHAR(n) column stores the bound text: refused when it holds a NUL or has anything but spaces past `n` characters; otherwise it is a prefix of the text, text that fits is stored as is, and longer text is cut to exactly `n` characters, all of them followed only by spaces |
| Ledger.VarcharValueIdempotent | src/index.js:197-207 | storing an already stored value stores the same value |
| Ledger.AddUserPoints | src/index.js:197-209 | the upsert succeeds exactly when the values fit the column types: an id of at most 20 characters without NUL, a name the VARCHAR(100) column accepts, INTEGER points and total. A new user gets `total = points`; a known one gets `old + points` and the new username as the column stores it; both get `last_roll = now`. Every other user is unchanged, and a failed upsert changes nothing |
| Ledger.PointsAfterAdd | src/index.js:197-209 | after an upsert the points command reports exactly `points` more for that user and the same for everybody else |
| Ledger.AddTwice | src/index.js:197-209 | two upserts for one user equal one upsert of the sum, carrying the later name and time |
| Ledger.AddKeepsTotalsNonNegative | src/index.js:197-209 | with non-negative awards no total goes below zero |
| Ledger.PickTop | src/index.js:221 | picks a user whose total is at least every other candidate's |
| Ledger.RankUsers | src/index.js:221-222 | the `discord_id`s of the top `min(limit, #users)` totals: distinct, highest first, and no user left out outranks one returned |
| Ledger.GetTopUsers | src/index.js:217-226 | returns `min(limit, #users)` distinct users with their username and total, ordered by non-increasing total; no user left out has a higher total than any user returned |
| Ledger.MedalLabel | src/index.js:119 | ranks 0-2 get the three medals; rank `i ≥ 3` gets `i + 1` in decimal without leading zeros, followed by '.' |
| Ledger.MedalLabelsDistinct | src/index.js:118-120 | no two leaderboard positions share a label |
| Ledger.LeaderboardLine | src/index.js:120 | the line opens with the rank label, a space and the username in bold followed by " - ", and closes with " points" and a newline |
| Ledger.LeaderboardLineReadsBack | src/index.js:119-120 | a leaderboard line is the rank label and bold name, then a number that parses back to the row's total, then " points" and a newline |
| Ledger.LeaderboardFor | src/index.js:107-121 | an empty result gives the "no users yet" reply; otherwise there is one line per row, line `i` being `<label of rank i> **<username>** - <total> points` and a newline |
| Ledger.HandleLeaderboard | src/index.js:103-130 | the reply fails exactly when the query fails; otherwise it is the reply for a top-10 ranking of the users as `getTopUsers` returns it, empty exactly when there are no users and with `min(10, #users)` lines otherwise |
| Embed.TruncateAbout | src/index.js:187-191 | text of at most 300 characters is unchanged; longer text becomes its 300-character prefix followed by "..."; the result never exceeds 303 characters |
| Embed.TruncateIdempotent | src/index.js:188-190 | cutting an already cut text changes nothing |
| Embed.CharacterEmbed | src/index.js:172-195 | the title is the name, or "Unknown Character" when the name is missing or empty; the thumbnail is the JPEG image URL, or the plain image URL when that is missing or empty; the description is set exactly for a non-empty `about` and is then the cut text; the favorites field shows the count or 0, the points field the award, and the footer reads "Rolled by " and the roller's username |
| Embed.EmbedNumbersReadBack | src/index.js:178-179 | the favorites and points fields parse back to the favorites count (0 if missing) and the award |
| Roll.EnvIntOr | src/index.js:31-32 | `parseInt(env) \|\| default`: a parsed non-zero value wins, NaN or 0 gives the default, so the setting is never 0 |
| Roll.AwardFor | src/index.js:79 | a character without a favorites count earns what 0 favorites earn (1 point); otherwise it earns `calculatePoints` of its count |
| Roll.RollId | src/index.js:71 | the rolled id lies in `1..maxCharacterId` |
| Roll.EveryIdCanBeRolled | src/index.js:71 | every id in `1..maxCharacterId` is the result of some draw |
| Roll.ConfiguredMaxAllowsRoll | src/index.js:31 | with `MAX_CHARACTER_ID` unset, unparsable or positive the maximum is at least 1, so a draw exists |
| Roll.HandleRoll | src/index.js:69-89 | the reply is the failed-fetch reply exactly when the lookup of the drawn id yields null. The roll is announced exactly when the lookup yields a character and the database accepts the upsert of its award; otherwise the ledger is unchanged. On a roll the ledger is exactly the result of that one upsert, stamped with `now`, so no other row changes or appears. On a roll the award equals `calculatePoints(favorites or 0)`, the roller's total grows by exactly that, the roller's row carries the username as stored, everybody else's total is unchanged, and the reply is the character embed for that character, award and roller. The cache always ends as the lookup left it |
| Roll.RollNeverLowersTotals | src/index.js:69-89 | a roll never lowers any user's total |
| UniqueCharacters.DuplicateIds | src/database/migrate_unique_characters.js:17-22 | every reported id is a `character_id` of the table with more than one row |
| UniqueCharacters.DeleteDuplicatesOf | src/database/migrate_unique_characters.js:34-43 | one DELETE keeps exactly the rows of other characters and, of the given character's rows, the one the `ORDER BY claimed_at ASC LIMIT 1` subquery picks; it only deletes |
| UniqueCharacters.DuplicateIdsExactly | src/database/migrate_unique_characters.js:17-22 | the duplicate query reports exactly the `character_id`s that two different rows carry |
| UniqueCharacters.DuplicateCounts | src/database/migrate_unique_characters.js:17-22 | one entry per duplicated id, holding that id's row count, which is at least 2 |
| UniqueCharacters.TwoRowsIff | src/database/migrate_unique_characters.js:18-21 | `COUNT(*) > 1` for an id holds exactly when two distinct rows carry it |
| UniqueCharacters.EarliestOf | src/database/migrate_unique_characters.js:38-41 | the row picked by `ORDER BY claimed_at ASC LIMIT 1` is one of the id's rows, with the smallest claim time |
| UniqueCharacters.PruneMembers | src/database/migrate_unique_characters.js:35-42 | a DELETE keeps exactly the rows it does not match: rows of other ids, and the row whose id the subquery picks |
| UniqueCharacters.CleanupStep | src/database/migrate_unique_characters.js:33-46 | one more DELETE on the partly cleaned table equals cleaning the larger set of ids at once, so the order of the ids does not matter |
| UniqueCharacters.CleanEach | src/database/migrate_unique_characters.js:33-46 | the DELETE loop, run in any order over distinct ids, leaves the table cleaned for exactly that set of ids |
| UniqueCharacters.RemoveDuplicates | src/database/migrate_unique_characters.js:17-49 | for any order in which the query lists the duplicated ids, it reports those ids and ends with the same cleaned table; with no duplicates it deletes nothing |
| UniqueCharacters.UnduplicatedRowsKept | src/database/migrate_unique_characters.js:33-37 | an id that was not duplicated has the same rows afterwards, in the same order |
| UniqueCharacters.DuplicatedRowsCut | src/database/migrate_unique_characters.js:34-43 | a duplicated id has exactly one row afterwards: the one `ORDER BY claimed_at ASC LIMIT 1` picks |
| UniqueCharacters.AtMostOneRowEach | src/database/migrate_unique_characters.js:65-69 | when each id has at most one row, no two rows share a `character_id`, which is what `UNIQUE (character_id)` demands |
| UniqueCharacters.CleanedIsUnique | src/database/migrate_unique_characters.js:33-46 | after the cleanup every `character_id` occurs in at most one row, and the duplicate query finds nothing |
| UniqueCharacters.SurvivorIsEarliest | src/database/migrate_unique_characters.js:34-43 | for a duplicated id exactly one row survives, and its `claimed_at` is minimal among that id's rows |
| UniqueCharacters.CleanupKeepsEveryCharacter | src/database/migrate_unique_characters.js:36-42 | the set of `character_id`s is unchanged; no character loses all of its rows |
| UniqueCharacters.CleanupKeepsSingles | src/database/migrate_unique_characters.js:33-37 | every row of an id that was not duplicated survives |
| UniqueCharacters.CleanupOnlyDeletes | src/database/migrate_unique_characters.js:34-43 | the cleaned table is a sub-multiset of the input: rows are deleted, never changed or added |
| UniqueCharacters.CleanupIdempotent | src/database/migrate_unique_characters.js:24-49 | a table without duplicates is left as it is, so cleaning twice is cleaning once |
| UniqueCharacters.MigrateUniqueCharacters | src/database/migrate_unique_characters.js:13-69 | the rows end cleaned. The new constraint is added exactly when its name is not yet taken. The old per-user constraint is dropped when the DROP succeeds; a failing DROP is ignored and the constraint stays. The deletions persist even when adding the constraint fails, since no transaction wraps them. The result carries every `character_id` at most once |

## Left out

- Discord wiring: the client, `messageCreate` dispatch, `reply`, `EmbedBuilder` colours,
  timestamps and avatar URLs, `login` and `shutdown`. These are I/O. A failing `message.reply` is
  not modelled.
- Connections: Redis, PostgreSQL and HTTP are foreign libraries. In `src/index.js` their outcomes
  are parameters. `connectToServices` and `process.exit` are process plumbing.
- Cache expiry: the TTL of `setEx` (`CACHE_TTL`, one hour by default, src/index.js:32) needs a
  clock, and no entry ever expires in the model. The JSON stringify/parse round trip through
  Redis is taken to be the identity. A catalog body whose `data` is `undefined` is not modelled.
- `Math.random` as a float: the draw is an integer, as described above.
- Roll.RollId: requires `maxCharacterId ≥ 1`. A negative `MAX_CHARACTER_ID` would make the source
  draw ids at or below 1, and that misconfiguration is not modelled.
- Embed.TruncateAbout: counts Unicode characters. JavaScript counts UTF-16 code units. The two
  agree for text inside the Basic Multilingual Plane.
- Ledger.GetTopUsers: leaves the order among equal totals open, because
  `ORDER BY total_points DESC` has no tiebreak. `LIMIT` is taken as a natural number, because the source always passes 10.
- UniqueCharacters.EarliestOf: breaks ties between equal `claimed_at` by table order. PostgreSQL
  leaves that choice open. The properties about the survivor hold for any minimal row. A NULL
  `claimed_at` is not modelled, because the column defaults to the current time.
- UniqueCharacters.MigrateUniqueCharacters: requires distinct row ids, which `id SERIAL PRIMARY
  KEY` guarantees. With repeated ids, a DELETE could keep several rows of one character.
- The points reply text (`src/index.js:96`) is modelled only as the reported number.
- Ledger.AddUserPoints: an id longer than 20 characters is always refused, although PostgreSQL
  would store it cut to 20 characters when the excess is only spaces. Discord ids are digit
  strings of at most 20 characters, so such an id does not arise.
- Roll.HandleRoll: building and sending the embed are taken to succeed. Were `EmbedBuilder`'s
  own validation (a title over 256 characters, say) to throw after the upsert, the source would
  send the error reply with the award already stored.
- UniqueCharacters.MigrateUniqueCharacters: the duplicate query and every DELETE are taken to
  succeed. In the source a failing one is logged and rethrown (lines 74-76), and the DELETEs
  already done stay, since no transaction wraps them.
- Schema bootstrap and column scripts (`src/database/setup.js`, `src/database/migrate.js`,
  `add_lucky_column.js`, `test_db.js`) are DDL or connection checks. `src/database/refund_user.js`
  is a one-off admin script with a hard-coded user.
- Claim, snipe, trade, lucky-roll counting, roll locks and rate limiting have no implementation in
  the modelled source files.
