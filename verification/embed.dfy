/**
 * The character embed of `createCharacterEmbed` in src/index.js, reduced
 * to the text it shows; colours, timestamps and avatars are left out.
 */
module Embed {
  import opened Wrappers
  import Decimal
  import Catalog

  /** Longest description shown before it is cut. */
  const AboutLimit: nat := 300
  const Ellipsis: string := "..."

  /**
   * `about.length > 300 ? about.substring(0, 300) + '...' : about`.
   * Lengths count characters.
   */
  function TruncateAbout(about: string): (shown: string)
    ensures |about| <= AboutLimit ==> shown == about
    ensures |about| > AboutLimit ==>
              && |shown| == AboutLimit + |Ellipsis|
              && shown[..AboutLimit] == about[..AboutLimit]
              && shown[AboutLimit..] == Ellipsis
    ensures |shown| <= AboutLimit + |Ellipsis|
  {
    if |about| > AboutLimit then about[..AboutLimit] + Ellipsis else about
  }

  /** Cutting an already cut description changes nothing. */
  lemma TruncateIdempotent(about: string)
    ensures TruncateAbout(TruncateAbout(about)) == TruncateAbout(about)
  {
  }

  /** What the embed shows; `thumbnail` and `description` may be unset. */
  datatype EmbedView = EmbedView(
    title: string,
    thumbnail: Option<string>,
    favoritesField: string,
    pointsField: string,
    footer: string,
    description: Option<string>)

  const UnknownName: string := "Unknown Character"

  /** A JavaScript string is truthy when present and non-empty. */
  predicate Truthy(s: Option<string>) {
    s.Some? && |s.value| > 0
  }

  function CharacterEmbed(c: Catalog.Character, points: int, rollerName: string): (e: EmbedView)
    // `character.name || 'Unknown Character'`: never an empty title.
    ensures |e.title| > 0
    ensures Truthy(c.name) ==> e.title == c.name.value
    ensures !Truthy(c.name) ==> e.title == UnknownName
    // `images.jpg.image_url || image_url`.
    ensures Truthy(c.jpgImageUrl) ==> e.thumbnail == c.jpgImageUrl
    ensures !Truthy(c.jpgImageUrl) ==> e.thumbnail == c.imageUrl
    // The description is set only for a non-empty `about`, and is then cut.
    ensures e.description.Some? <==> Truthy(c.about)
    ensures e.description.Some? ==> e.description.value == TruncateAbout(c.about.value)
    ensures e.favoritesField == Decimal.IntToString(Catalog.FavoritesOrZero(c))
    ensures e.pointsField == Decimal.IntToString(points)
    // `Rolled by ${user.username}`.
    ensures e.footer == "Rolled by " + rollerName
  {
    EmbedView(
      if Truthy(c.name) then c.name.value else UnknownName,
      if Truthy(c.jpgImageUrl) then c.jpgImageUrl else c.imageUrl,
      Decimal.IntToString(Catalog.FavoritesOrZero(c)),
      Decimal.IntToString(points),
      "Rolled by " + rollerName,
      if Truthy(c.about) then Some(TruncateAbout(c.about.value)) else None)
  }

  /** The two number fields read back as the favorites count (0 if missing) and the award. */
  lemma {:induction false} EmbedNumbersReadBack(c: Catalog.Character, points: int, rollerName: string)
    ensures var e := CharacterEmbed(c, points, rollerName);
      && Decimal.ParseInt(e.favoritesField) == Catalog.FavoritesOrZero(c)
      && Decimal.ParseInt(e.pointsField) == points
  {
    Decimal.ParseIntToString(Catalog.FavoritesOrZero(c));
    Decimal.ParseIntToString(points);
  }
}
