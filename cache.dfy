/**
 * The track cache and a guess against it. The store holds track rows in insertion order
 * and artist rows by id; a track links to its artists by id. A guess is first looked up in
 * the store by the spellings stored for its artists; only on a miss is the catalogue
 * searched, and the selected track is then checked and upserted.
 */
module Cache {
  import opened Wrappers
  import opened Seqs
  import opened Catalog
  import opened Matching

  /** The contents of the store: track rows in insertion order and artist rows by id. */
  datatype Db = Db(tracks: seq<Track>, artists: map<string, Artist>)

  /** Every artist id a track links to has a row. */
  predicate Linked(tracks: seq<Track>, table: map<string, Artist>) {
    forall i | 0 <= i < |tracks| :: forall id | id in tracks[i].artistIds :: id in table
  }

  /** Track ids are unique, links resolve, and each artist row sits under its own id and is well formed. */
  ghost predicate Consistent(db: Db) {
    && (forall i, j | 0 <= i < j < |db.tracks| :: db.tracks[i].id != db.tracks[j].id)
    && Linked(db.tracks, db.artists)
    && (forall id | id in db.artists :: db.artists[id].id == id && WellFormed(db.artists[id]))
  }

  /** The artist rows behind a list of links, in link order. */
  function Resolve(ids: seq<string>, table: map<string, Artist>): (r: seq<Artist>)
    requires forall id | id in ids :: id in table
    ensures |r| == |ids|
    ensures forall i | 0 <= i < |ids| :: r[i] == table[ids[i]]
  {
    if ids == [] then [] else [table[ids[0]]] + Resolve(ids[1..], table)
  }

  /** A track read back with its artists included. */
  function Join(t: Track, table: map<string, Artist>): (r: TrackWithArtists)
    requires forall id | id in t.artistIds :: id in table
    ensures r.track == t && r.artists == Resolve(t.artistIds, table)
  {
    TrackWithArtists(t, Resolve(t.artistIds, table))
  }

  /** Some artist of the track lists `guess` among its accepted names, verbatim. */
  predicate Accepts(artists: seq<Artist>, guess: string) {
    exists i | 0 <= i < |artists| :: guess in artists[i].acceptedNames
  }

  /**
   * The cache filter on a track's artists: one of them accepts the first guess and one of
   * them, possibly the same, accepts the second. With no second guess its condition is
   * dropped and only "the track has an artist" is left.
   */
  predicate IsHit(artists: seq<Artist>, first: string, second: Option<string>) {
    && Accepts(artists, first)
    && match second
       case None => |artists| > 0
       case Some(g) => Accepts(artists, g)
  }

  /** The cache filter on a stored track. */
  function HitTest(table: map<string, Artist>, first: string, second: Option<string>): Track -> bool {
    (t: Track) => (forall id | id in t.artistIds :: id in table) && IsHit(Resolve(t.artistIds, table), first, second)
  }

  function TrackPart(r: Option<TrackWithArtists>): Option<Track> {
    match r
    case None => None
    case Some(x) => Some(x.track)
  }

  /**
   * The cache lookup: the first stored track, in insertion order, that passes the cache
   * filter, read back with its artists.
   */
  function Lookup(db: Db, first: string, second: Option<string>): (r: Option<TrackWithArtists>)
    ensures IsFirst(db.tracks, HitTest(db.artists, first, second), TrackPart(r))
    ensures r.Some? ==> IsHit(r.value.artists, first, second)
  {
    FindFirstIsFirst(db.tracks, HitTest(db.artists, first, second));
    match FindFirst(db.tracks, HitTest(db.artists, first, second))
    case None => None
    case Some(t) => Some(Join(t, db.artists))
  }

  /** The order of the two guessed artists does not matter to the cache. */
  lemma LookupSymmetric(db: Db, a: string, b: string)
    ensures Lookup(db, a, Some(b)) == Lookup(db, b, Some(a))
  {
    var p, q := HitTest(db.artists, a, Some(b)), HitTest(db.artists, b, Some(a));
    forall i | 0 <= i < |db.tracks| ensures p(db.tracks[i]) == q(db.tracks[i]) {
    }
    FindFirstAgrees(db.tracks, p, q);
  }

  /** `connectOrCreate` for one artist: link the row with that id when there is one, or create it from `a`. */
  function ConnectOrCreate(table: map<string, Artist>, a: Artist): (r: map<string, Artist>)
    ensures r.Keys == table.Keys + {a.id}
    ensures forall id | id in table :: r[id] == table[id]
    ensures a.id !in table ==> r[a.id] == a
  {
    if a.id in table then table else table[a.id := a]
  }

  /** The links of a new track to the artists in its two slots (one link when both slots hold the same artist). */
  function Links(id0: string, id1: string): seq<string> {
    if id0 == id1 then [id0] else [id0, id1]
  }

  function HasId(id: string): Track -> bool {
    (t: Track) => t.id == id
  }

  /**
   * The upsert by track id with an empty update: a track already stored is read back as it
   * is, artists and all; otherwise both artists are connected or created, in slot order, and
   * the new track is appended.
   */
  function Upserted(db: Db, row: Track, a0: Artist, a1: Artist): (r: (TrackWithArtists, Db))
    requires Linked(db.tracks, db.artists)
    requires row.artistIds == Links(a0.id, a1.id)
  {
    FindFirstIsFirst(db.tracks, HasId(row.id));
    match FindFirst(db.tracks, HasId(row.id))
    case Some(t) => (Join(t, db.artists), db)
    case None =>
      var table := ConnectOrCreate(ConnectOrCreate(db.artists, a0), a1);
      (Join(row, table), Db(db.tracks + [row], table))
  }

  /**
   * The upsert keeps the store consistent and returns the row with the requested id; it
   * never changes or removes an artist row that was already stored, so an existing artist
   * keeps its accepted names, and it adds no row other than the two artists'.
   */
  lemma UpsertKeepsConsistent(db: Db, row: Track, a0: Artist, a1: Artist)
    requires Consistent(db) && WellFormed(a0) && WellFormed(a1)
    requires row.artistIds == Links(a0.id, a1.id)
    ensures Consistent(Upserted(db, row, a0, a1).1)
    ensures Upserted(db, row, a0, a1).0.track.id == row.id
    ensures forall id | id in db.artists ::
      id in Upserted(db, row, a0, a1).1.artists && Upserted(db, row, a0, a1).1.artists[id] == db.artists[id]
    ensures Upserted(db, row, a0, a1).1.artists.Keys <= db.artists.Keys + {a0.id, a1.id}
  {
    FindFirstIsFirst(db.tracks, HasId(row.id));
    if FindFirst(db.tracks, HasId(row.id)).None? {
      var after := Upserted(db, row, a0, a1).1;
      assert after.tracks == db.tracks + [row];
      forall i | 0 <= i < |db.tracks| ensures db.tracks[i].id != row.id {
        assert !HasId(row.id)(db.tracks[i]);
      }
    }
  }

  /** A second upsert of the same track id changes nothing, whatever artist rows it carries. */
  lemma UpsertIdempotent(db: Db, row: Track, a0: Artist, a1: Artist, b0: Artist, b1: Artist)
    requires Linked(db.tracks, db.artists)
    requires row.artistIds == Links(a0.id, a1.id) && row.artistIds == Links(b0.id, b1.id)
    ensures Linked(Upserted(db, row, a0, a1).1.tracks, Upserted(db, row, a0, a1).1.artists)
    ensures Upserted(Upserted(db, row, a0, a1).1, row, b0, b1).1 == Upserted(db, row, a0, a1).1
  {
    var after := Upserted(db, row, a0, a1).1;
    FindFirstIsFirst(db.tracks, HasId(row.id));
    if FindFirst(db.tracks, HasId(row.id)).None? {
      assert after.tracks == db.tracks + [row];
      assert after.tracks[|db.tracks|] == row;
    }
    assert exists i | 0 <= i < |after.tracks| :: HasId(row.id)(after.tracks[i]);
    FindFirstIsFirst(after.tracks, HasId(row.id));
  }

  /**
   * The upsert of a track id that is already stored, by an earlier guess and with whatever
   * artists, changes nothing and reads the stored row back.
   */
  lemma UpsertStoredTrack(db: Db, row: Track, a0: Artist, a1: Artist)
    requires Linked(db.tracks, db.artists)
    requires row.artistIds == Links(a0.id, a1.id)
    requires exists i | 0 <= i < |db.tracks| :: db.tracks[i].id == row.id
    ensures Upserted(db, row, a0, a1).1 == db
    ensures Upserted(db, row, a0, a1).0.track in db.tracks
    ensures Upserted(db, row, a0, a1).0.track.id == row.id
  {
    FindFirstIsFirst(db.tracks, HasId(row.id));
    var i :| 0 <= i < |db.tracks| && db.tracks[i].id == row.id;
    assert HasId(row.id)(db.tracks[i]);
  }

  /**
   * Storing a new track whose two artists are both new and distinct makes the guess a cache
   * hit from then on, as long as each artist accepts its guess.
   */
  lemma UpsertThenHit(db: Db, row: Track, a0: Artist, a1: Artist, first: string, second: string)
    requires Linked(db.tracks, db.artists)
    requires row.artistIds == Links(a0.id, a1.id)
    requires forall i | 0 <= i < |db.tracks| :: db.tracks[i].id != row.id
    requires a0.id != a1.id && a0.id !in db.artists && a1.id !in db.artists
    requires first in a0.acceptedNames && second in a1.acceptedNames
    ensures Lookup(Upserted(db, row, a0, a1).1, first, Some(second)).Some?
  {
    FindFirstIsFirst(db.tracks, HasId(row.id));
    if FindFirst(db.tracks, HasId(row.id)).Some? {
      assert false;
    }
    var after := Upserted(db, row, a0, a1).1;
    assert after.tracks == db.tracks + [row];
    var p := HitTest(after.artists, first, Some(second));
    var artists := Resolve(row.artistIds, after.artists);
    assert artists[0] == a0 && artists[1] == a1;
    assert IsHit(artists, first, Some(second));
    assert p(after.tracks[|db.tracks|]);
  }

  /** What `getArtistPicture` hands back: the first image's URL, `{}` when the artist has no image, or nothing when the request failed. */
  datatype Picture = ImageUrl(url: string) | EmptyObject | Undefined

  /** The value of `picture?.url`: a string and `{}` have no `url` property, and `?.` stops at undefined. */
  function UrlProperty(picture: Picture): Option<string> {
    match picture
    case ImageUrl(_) => None
    case EmptyObject => None
    case Undefined => None
  }

  /** `picture?.url || ""`: the stored artist image as the upsert computes it. */
  function ArtistImageAsWritten(picture: Picture): (r: string)
    ensures r == ""
  {
    match UrlProperty(picture)
    case Some(u) => if u == "" then "" else u
    case None => ""
  }

  /** The stored artist image as intended: the picture's URL, or "" when there is none. */
  function ArtistImage(picture: Picture): (r: string)
    ensures picture.ImageUrl? ==> r == picture.url
    ensures !picture.ImageUrl? ==> r == ""
  {
    match picture
    case ImageUrl(u) => u
    case _ => ""
  }

  /** As written, an artist's picture never reaches the store: a real URL is replaced by "". */
  lemma ArtistImageAlwaysEmpty(url: string)
    requires url != ""
    ensures ArtistImageAsWritten(ImageUrl(url)) == "" != ArtistImage(ImageUrl(url))
  {
  }

  /**
   * The artist row created for a matched artist: its catalogue id and name, the spellings
   * that identify it, and its picture as intended (the source stores "" instead).
   */
  function NewArtist(a: CatalogArtist, guess: string, picture: Picture): (r: Artist)
    ensures WellFormed(r)
    ensures r.id == a.id && r.name == a.name && guess in r.acceptedNames
    ensures picture.ImageUrl? ==> r.artistImage == picture.url
    ensures !picture.ImageUrl? ==> r.artistImage == ""
  {
    Artist(a.id, a.name, AcceptedNames(a.name, guess), ArtistImage(picture))
  }

  /** The result of checking a track: the stored row, no track, or a failure before anything is stored. */
  datatype Outcome = Found(row: TrackWithArtists) | NotFound | Failed

  /** The two slots `IsValid` filled for a track, one per guess. */
  type Slots = (Option<CatalogArtist>, Option<CatalogArtist>)

  /**
   * Checking a search item whose credits filled `slots` for the two guesses: no track unless
   * both slots are filled; a failure when the album has no image (its first image's URL is
   * read while the row is built); otherwise the upsert of the track with both matched artists.
   */
  function Checked(db: Db, track: SearchTrack, slots: Slots, first: string, second: string, pictureOf: string -> Picture): (r: (Outcome, Db))
    requires Linked(db.tracks, db.artists)
    ensures r.0 == NotFound <==> slots.0.None? || slots.1.None?
    ensures r.0 == Failed <==> slots.0.Some? && slots.1.Some? && track.albumImages == []
    ensures !r.0.Found? ==> r.1 == db
  {
    if slots.0.None? || slots.1.None? then (NotFound, db)
    else if track.albumImages == [] then (Failed, db)
    else
      var a0 := NewArtist(slots.0.value, first, pictureOf(slots.0.value.href));
      var a1 := NewArtist(slots.1.value, second, pictureOf(slots.1.value.href));
      var row := Track(track.id, track.name, track.albumImages[0], track.releaseDate, track.previewUrl, Links(a0.id, a1.id));
      var u := Upserted(db, row, a0, a1);
      (Found(u.0), u.1)
  }

  /** Checking keeps the store consistent, and a found row is the checked track's. */
  lemma CheckedKeepsConsistent(db: Db, track: SearchTrack, slots: Slots, first: string, second: string, pictureOf: string -> Picture)
    requires Consistent(db)
    ensures Consistent(Checked(db, track, slots, first, second, pictureOf).1)
    ensures Checked(db, track, slots, first, second, pictureOf).0.Found? ==>
      Checked(db, track, slots, first, second, pictureOf).0.row.track.id == track.id
  {
    if slots.0.Some? && slots.1.Some? && track.albumImages != [] {
      var a0 := NewArtist(slots.0.value, first, pictureOf(slots.0.value.href));
      var a1 := NewArtist(slots.1.value, second, pictureOf(slots.1.value.href));
      var row := Track(track.id, track.name, track.albumImages[0], track.releaseDate, track.previewUrl, Links(a0.id, a1.id));
      UpsertKeepsConsistent(db, row, a0, a1);
    }
  }

  /**
   * Checking a track that is already stored, with both slots filled and an album image,
   * finds the stored row and leaves the store unchanged.
   */
  lemma CheckedStoredTrack(db: Db, track: SearchTrack, slots: Slots, first: string, second: string, pictureOf: string -> Picture)
    requires Linked(db.tracks, db.artists)
    requires slots.0.Some? && slots.1.Some? && track.albumImages != []
    requires exists i | 0 <= i < |db.tracks| :: db.tracks[i].id == track.id
    ensures Checked(db, track, slots, first, second, pictureOf).1 == db
    ensures Checked(db, track, slots, first, second, pictureOf).0.Found?
    ensures Checked(db, track, slots, first, second, pictureOf).0.row.track in db.tracks
    ensures Checked(db, track, slots, first, second, pictureOf).0.row.track.id == track.id
  {
    var a0 := NewArtist(slots.0.value, first, pictureOf(slots.0.value.href));
    var a1 := NewArtist(slots.1.value, second, pictureOf(slots.1.value.href));
    var row := Track(track.id, track.name, track.albumImages[0], track.releaseDate, track.previewUrl, Links(a0.id, a1.id));
    UpsertStoredTrack(db, row, a0, a1);
  }

  /**
   * A solved guess is cached: once a new track is stored with two distinct artists that were
   * not stored before, the same guess is a cache hit.
   */
  lemma CheckedThenHit(db: Db, track: SearchTrack, slots: Slots, first: string, second: string, pictureOf: string -> Picture)
    requires Consistent(db)
    requires Checked(db, track, slots, first, second, pictureOf).0.Found?
    requires forall i | 0 <= i < |db.tracks| :: db.tracks[i].id != track.id
    requires slots.0.value.id != slots.1.value.id
    requires slots.0.value.id !in db.artists && slots.1.value.id !in db.artists
    ensures Lookup(Checked(db, track, slots, first, second, pictureOf).1, first, Some(second)).Some?
  {
    var a0 := NewArtist(slots.0.value, first, pictureOf(slots.0.value.href));
    var a1 := NewArtist(slots.1.value, second, pictureOf(slots.1.value.href));
    var row := Track(track.id, track.name, track.albumImages[0], track.releaseDate, track.previewUrl, Links(a0.id, a1.id));
    UpsertThenHit(db, row, a0, a1, first, second);
  }

  /** The store, held in place: `guess` and `CheckTrack` read and update it. */
  class Store {
    var tracks: seq<Track>
    var artists: map<string, Artist>

    function State(): Db
      reads this
    {
      Db(tracks, artists)
    }

    ghost predicate Valid()
      reads this
    {
      Consistent(State())
    }

    constructor ()
      ensures Valid() && tracks == [] && artists == map[]
    {
      tracks := [];
      artists := map[];
    }

    /** `CheckTrack`: match both guesses on the track's credits, then store the match. */
    method CheckTrack(track: SearchTrack, first: string, second: string, pictureOf: string -> Picture) returns (r: Outcome)
      requires Valid()
      modifies this
      ensures Valid()
      ensures (r, State()) == Checked(old(State()), track, IsValid(first, second, track.artists), first, second, pictureOf)
    {
      var feat := IsValid(first, second, track.artists);
      r := StoreMatch(track, feat, first, second, pictureOf);
    }

    /**
     * The rest of `CheckTrack` once the slots are known: when both are filled, build the two
     * artist rows and the track row and upsert the track.
     */
    method StoreMatch(track: SearchTrack, feat: Slots, first: string, second: string, pictureOf: string -> Picture) returns (r: Outcome)
      requires Valid()
      modifies this
      ensures Valid()
      ensures (r, State()) == Checked(old(State()), track, feat, first, second, pictureOf)
    {
      if feat.0.None? || feat.1.None? {
        return NotFound;
      }
      var feat0, feat1 := feat.0.value, feat.1.value;
      var image0, image1 := pictureOf(feat0.href), pictureOf(feat1.href);
      var names0 := AcceptedNames(feat0.name, first);
      var names1 := AcceptedNames(feat1.name, second);
      if track.albumImages == [] {
        return Failed;
      }
      var a0 := Artist(feat0.id, feat0.name, names0, ArtistImage(image0));
      var a1 := Artist(feat1.id, feat1.name, names1, ArtistImage(image1));
      var row := Track(track.id, track.name, track.albumImages[0], track.releaseDate, track.previewUrl, Links(a0.id, a1.id));
      UpsertKeepsConsistent(State(), row, a0, a1);
      FindFirstIsFirst(tracks, HasId(row.id));
      var stored := FindFirst(tracks, HasId(row.id));
      if stored.Some? {
        r := Found(Join(stored.value, artists));
      } else {
        artists := ConnectOrCreate(ConnectOrCreate(artists, a0), a1);
        tracks := tracks + [row];
        r := Found(Join(row, artists));
      }
    }

    /**
     * `guess`: split the input, answer from the store on a hit without searching; on a miss,
     * search, and check the first item crediting both guessed artists, if any.
     */
    method Guess(input: string, search: Option<seq<SearchTrack>>, pictureOf: string -> Picture) returns (r: Outcome, searched: bool)
      requires Valid()
      modifies this
      ensures Valid()
      ensures var split := SplitGuess(input);
        var db := old(State());
        match Lookup(db, split.0, split.1)
        case Some(hit) => r == Found(hit) && !searched && State() == db
        case None =>
          && searched
          && match SelectTrack(search, split.0, split.1)
             case None => r == NotFound && State() == db
             case Some(item) =>
               && r != NotFound
               && (r, State()) == Checked(db, item, IsValid(split.0, split.1.value, item.artists), split.0, split.1.value, pictureOf)
    {
      var split := SplitGuess(input);
      var first, second := split.0, split.1;
      var cached := Lookup(State(), first, second);
      if cached.Some? {
        return Found(cached.value), false;
      }
      searched := true;
      var item := SelectTrack(search, first, second);
      if item.None? {
        return NotFound, searched;
      }
      SelectedTrackFillsBothSlots(search, first, second);
      r := CheckTrack(item.value, first, second.value, pictureOf);
    }
  }
}
