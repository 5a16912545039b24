/**
 * The character catalog client: the cache-then-fetch lookup of
 * `getCharacter` in src/index.js. Redis and the HTTP catalog are not
 * called; what they answer is passed in.
 */
module Catalog {
  import opened Wrappers
  import Decimal

  /** The catalog's character JSON, reduced to the fields the bot reads. */
  datatype Character = Character(
    name: Option<string>,
    favorites: Option<int>,
    about: Option<string>,
    jpgImageUrl: Option<string>,
    imageUrl: Option<string>)

  /** `character.favorites || 0`: a missing count reads as zero. */
  function FavoritesOrZero(c: Character): int {
    c.favorites.GetOr(0)
  }

  const KeyPrefix: string := "character:"

  /** The Redis key `character:${id}`. */
  function CacheKey(id: int): (key: string)
    ensures |key| > |KeyPrefix| && key[..|KeyPrefix|] == KeyPrefix
    ensures key[|KeyPrefix|..] == Decimal.IntToString(id)
  {
    KeyPrefix + Decimal.IntToString(id)
  }

  /** Distinct character ids never share a cache entry. */
  lemma {:induction false} CacheKeyInjective(a: int, b: int)
    ensures CacheKey(a) == CacheKey(b) ==> a == b
  {
    if CacheKey(a) == CacheKey(b) {
      assert CacheKey(a)[|KeyPrefix|..] == Decimal.IntToString(a);
      assert CacheKey(b)[|KeyPrefix|..] == Decimal.IntToString(b);
      Decimal.IntToStringInjective(a, b);
    }
  }

  /**
   * The cache: key to the JSON value stored there. `None` is JSON `null`:
   * its text "null" is truthy, so such an entry is a hit that yields null.
   */
  type Cache = map<string, Option<Character>>

  /** Whether the cache read (`redis.get`) and write (`redis.setEx`) succeed. */
  datatype CacheIo = CacheIo(readOk: bool, writeOk: bool)

  /**
   * What the catalog answers for the requested id: a 2xx response whose
   * `data.data` is the character or null, a non-2xx status (404 included)
   * which axios throws, or no response at all.
   */
  datatype FetchReply = Fetched(data: Option<Character>) | HttpError(status: int) | NetworkError

  datatype Lookup = Lookup(character: Option<Character>, cache: Cache)

  /**
   * Cache-then-fetch. Every exception (cache read, fetch, cache write) is
   * caught and turned into `null`; the cache is written only after a
   * successful fetch.
   */
  function GetCharacter(cache: Cache, id: int, io: CacheIo, reply: FetchReply): (r: Lookup)
    // An existing entry is never overwritten or dropped; at most the
    // requested key is added.
    ensures forall k :: k in cache ==> k in r.cache && r.cache[k] == cache[k]
    ensures forall k :: k in r.cache ==> k in cache || k == CacheKey(id)
    // A character that is returned is cached under its id afterwards.
    ensures r.character.Some? ==> CacheKey(id) in r.cache && r.cache[CacheKey(id)] == r.character
    // Hit: the cached value, no fetch.
    ensures io.readOk && CacheKey(id) in cache ==> r.character == cache[CacheKey(id)]
    // Miss: the fetched value, cached, exactly when fetch and write succeed.
    ensures io.readOk && CacheKey(id) !in cache ==>
      (CacheKey(id) in r.cache <==> reply.Fetched? && io.writeOk)
    ensures io.readOk && CacheKey(id) !in cache && reply.Fetched? && io.writeOk ==>
      r.character == reply.data && r.cache == cache[CacheKey(id) := reply.data]
    // Any failure, 404 or otherwise: null, cache untouched.
    ensures !io.readOk ==> r == Lookup(None, cache)
    ensures io.readOk && CacheKey(id) !in cache && !(reply.Fetched? && io.writeOk) ==>
      r == Lookup(None, cache)
  {
    var key := CacheKey(id);
    if !io.readOk then Lookup(None, cache)
    else if key in cache then Lookup(cache[key], cache)
    else match reply
      case Fetched(data) =>
        if io.writeOk then Lookup(data, cache[key := data]) else Lookup(None, cache)
      case HttpError(_) => Lookup(None, cache)
      case NetworkError => Lookup(None, cache)
  }

  /**
   * Memoisation: once a lookup has returned a character, asking again for
   * the same id returns it again whatever the catalog would now answer.
   */
  lemma LookupMemoised(cache: Cache, id: int, io: CacheIo, first: FetchReply, later: FetchReply)
    requires io.readOk
    requires GetCharacter(cache, id, io, first).character.Some?
    ensures var once := GetCharacter(cache, id, io, first);
      GetCharacter(once.cache, id, io, later) == once
  {
  }

  /**
   * Isolation: looking up one id never changes what a lookup of a
   * different id returns.
   */
  lemma {:induction false} LookupIsolated(cache: Cache, id: int, other: int, io: CacheIo, reply: FetchReply, otherReply: FetchReply)
    requires id != other
    ensures var after := GetCharacter(cache, id, io, reply).cache;
      GetCharacter(after, other, io, otherReply).character
        == GetCharacter(cache, other, io, otherReply).character
  {
    CacheKeyInjective(id, other);
  }
}
