/**
 * The roll command (`handleRollCommand` in src/index.js) and the
 * configuration it reads: draw an id, look the character up, and award
 * points for it through the ledger.
 */
module Roll {
  import opened Wrappers
  import Catalog
  import Points
  import Ledger
  import Embed

  const DefaultMaxCharacterId: int := 276935

  /**
   * `parseInt(env) || fallback`: `parsed` is `None` when parsing yields
   * NaN. A parsed 0 is falsy too, so the setting is never 0.
   */
  function EnvIntOr(parsed: Option<int>, fallback: int): (setting: int)
    ensures fallback != 0 ==> setting != 0
    ensures parsed.Some? && parsed.value != 0 ==> setting == parsed.value
    ensures parsed.None? || parsed.value == 0 ==> setting == fallback
  {
    if parsed.Some? && parsed.value != 0 then parsed.value else fallback
  }

  /**
   * `Math.floor(Math.random() * maxCharacterId) + 1`, with
   * `floor(random * max)` taken as the integer `draw`.
   */
  function RollId(draw: int, maxCharacterId: int): (id: int)
    requires 0 <= draw < maxCharacterId
    ensures 1 <= id <= maxCharacterId
  {
    draw + 1
  }

  /** Every catalog id from 1 to the maximum can come up. */
  lemma EveryIdCanBeRolled(id: int, maxCharacterId: int)
    requires 1 <= id <= maxCharacterId
    ensures 0 <= id - 1 < maxCharacterId && RollId(id - 1, maxCharacterId) == id
  {
  }

  /**
   * With `MAX_CHARACTER_ID` unset, unparsable or positive, the configured
   * maximum is at least 1, so a draw `0 <= draw < max` exists and the
   * roll's precondition can be met; a negative setting is kept as is.
   */
  lemma ConfiguredMaxAllowsRoll(parsed: Option<int>)
    requires parsed.None? || parsed.value > 0
    ensures EnvIntOr(parsed, DefaultMaxCharacterId) >= 1
  {
  }

  datatype BotState = BotState(users: Ledger.Users, cache: Catalog.Cache)

  datatype Author = Author(id: string, username: string)

  /** The roll command's replies: failed lookup, a rolled character, or the catch-all error. */
  datatype RollReply =
    | FetchFailed
    | Rolled(character: Catalog.Character, points: int, embed: Embed.EmbedView)
    | RollFailed

  datatype RollStep = RollStep(reply: RollReply, state: BotState)

  /** The points a rolled character is worth: `calculatePoints(character.favorites || 0)`. */
  function AwardFor(c: Catalog.Character): (points: int)
    // A missing favorites count earns what no favorites earn.
    ensures c.favorites.None? ==> points == Points.CalculatePoints(0) == 1
    ensures c.favorites.Some? ==> points == Points.CalculatePoints(c.favorites.value)
  {
    Points.CalculatePoints(Catalog.FavoritesOrZero(c))
  }

  /**
   * One roll. `io` and `reply` are what Redis and the catalog do for the
   * drawn id; `dbUp` is whether PostgreSQL answers at all.
   */
  function HandleRoll(st: BotState, author: Author, draw: int, maxCharacterId: int, now: int,
                      io: Catalog.CacheIo, reply: Catalog.FetchReply, dbUp: bool): (r: RollStep)
    requires 0 <= draw < maxCharacterId
    // The cache ends as the lookup of the drawn id left it.
    ensures r.state.cache == Catalog.GetCharacter(st.cache, RollId(draw, maxCharacterId), io, reply).cache
    // A lookup that yields null awards nothing.
    ensures r.reply.FetchFailed? <==>
      Catalog.GetCharacter(st.cache, RollId(draw, maxCharacterId), io, reply).character.None?
    // The roll is announced exactly when the lookup yields a character and
    // the ledger accepts the upsert of its award.
    ensures r.reply.Rolled? <==>
              && Catalog.GetCharacter(st.cache, RollId(draw, maxCharacterId), io, reply).character.Some?
              && dbUp
              && Ledger.UpsertAccepted(st.users, author.id, author.username,
                   AwardFor(Catalog.GetCharacter(st.cache, RollId(draw, maxCharacterId), io, reply).character.value))
    ensures !r.reply.Rolled? ==> r.state.users == st.users
    // Otherwise the award is the step function of the favorites (0 if missing).
    ensures r.reply.Rolled? ==>
              && Some(r.reply.character) == Catalog.GetCharacter(st.cache, RollId(draw, maxCharacterId), io, reply).character
              && r.reply.points == Points.CalculatePoints(Catalog.FavoritesOrZero(r.reply.character))
              && Ledger.PointsOf(r.state.users, author.id) == Ledger.PointsOf(st.users, author.id) + r.reply.points
              && author.id in r.state.users
              && Some(r.state.users[author.id].username) == Ledger.VarcharValue(author.username, Ledger.UsernameMaxLength)
              && forall other :: other != author.id ==> Ledger.PointsOf(r.state.users, other) == Ledger.PointsOf(st.users, other)
    // The ledger is exactly the roller's upsert: no other row changes or appears.
    ensures r.reply.Rolled? ==>
              Some(r.state.users) == Ledger.AddUserPoints(st.users, author.id, author.username, r.reply.points, now)
    // The reply shows that character, its award and the roller's name.
    ensures r.reply.Rolled? ==>
              r.reply.embed == Embed.CharacterEmbed(r.reply.character, r.reply.points, author.username)
  {
    var lookup := Catalog.GetCharacter(st.cache, RollId(draw, maxCharacterId), io, reply);
    match lookup.character
    case None => RollStep(FetchFailed, BotState(st.users, lookup.cache))
    case Some(c) =>
      var points := AwardFor(c);
      var added := if dbUp then Ledger.AddUserPoints(st.users, author.id, author.username, points, now) else None;
      match added
      case None => RollStep(RollFailed, BotState(st.users, lookup.cache))
      case Some(users) =>
        RollStep(Rolled(c, points, Embed.CharacterEmbed(c, points, author.username)), BotState(users, lookup.cache))
  }

  /** A roll never lowers anybody's total. */
  lemma RollNeverLowersTotals(st: BotState, author: Author, draw: int, maxCharacterId: int, now: int,
                              io: Catalog.CacheIo, reply: Catalog.FetchReply, dbUp: bool, who: string)
    requires 0 <= draw < maxCharacterId
    ensures var r := HandleRoll(st, author, draw, maxCharacterId, now, io, reply, dbUp);
      Ledger.PointsOf(r.state.users, who) >= Ledger.PointsOf(st.users, who)
  {
  }
}
