/**
 * The records the game works with: what the music catalogue's search returns (artists and
 * tracks) and the rows the track cache stores (tracks, artists, and a track joined with its
 * artists).
 */
module Catalog {
  import opened Wrappers

  /**
   * An artist as the catalogue returns it. Artists credited on a track carry `id`, `name`
   * and `href`; the artist search also fills the follower count and the image URLs, largest
   * first.
   */
  datatype CatalogArtist = CatalogArtist(id: string, name: string, href: string, followers: nat, images: seq<string>)

  /** A track search item: the album's image URLs, its release date, the preview URL when there is one, and the credited artists in order. */
  datatype SearchTrack = SearchTrack(
    id: string,
    name: string,
    albumImages: seq<string>,
    releaseDate: string,
    previewUrl: Option<string>,
    artists: seq<CatalogArtist>)

  /** A stored artist: the spellings that identify it in a guess, and its picture URL ("" for none). */
  datatype Artist = Artist(id: string, name: string, acceptedNames: seq<string>, artistImage: string)

  /** A stored track, linked to its artists by id. */
  datatype Track = Track(
    id: string,
    name: string,
    trackImage: string,
    releaseDate: string,
    previewUrl: Option<string>,
    artistIds: seq<string>)

  /** A track read back with its artists included. */
  datatype TrackWithArtists = TrackWithArtists(track: Track, artists: seq<Artist>)

  /** Every artist row the game writes lists its own name first and no spelling twice. */
  predicate WellFormed(a: Artist) {
    && |a.acceptedNames| > 0
    && a.acceptedNames[0] == a.name
    && forall i, j | 0 <= i < j < |a.acceptedNames| :: a.acceptedNames[i] != a.acceptedNames[j]
  }
}
