# Guessing a track from two artists, and artist autocompletion

This project models the game logic of a music-guessing server in Dafny:

- **A guess.** A player names two artists, as `"first,second"`. The server answers with a track on which both artists appear.
  - It first looks in its own store of tracks. A track is a hit when its stored artists accept both spellings verbatim.
  - On a miss, it asks the music catalogue's search. It keeps the first result on which both names match a credited artist, with a tolerance of two edits after normalisation (lower case, first space removed, accents stripped).
  - It then stores that track and both artists (an upsert by track id). Each artist is stored under its catalogue name and the player's spelling.
- **Autocompletion.** The catalogue's artist search is post-processed in three steps:
  - a splicing loop drops same-named artists with fewer followers;
  - the artists whose normalised name starts with the normalised input are kept;
  - each one is projected to an artist row.

Modules:

- `Wrappers`: `Option`.
- `Seqs`: index search, splicing, filtering, subsequences, and "first entry satisfying a test".
- `Names`: the name normalisation.
- `EditDistance`: the Levenshtein distance as a recursive definition, and the matcher's single-array dynamic programme, proved to compute it.
- `Catalog`: the catalogue's records and the stored rows.
- `Matching`: the pure steps of a guess.
- `Cache`: the store, the lookup, the upsert, and the class `Store` whose methods `Guess`, `CheckTrack` and `StoreMatch` update it in place.
- `Autocomplete`: the post-processing of the artist search.

The network responses are parameters:

- the search result (`Option<seq<SearchTrack>>`, `None` when the response carries no item list);
- the artist search result (`seq<CatalogArtist>`);
- the artist-picture request (a function `pictureOf` from the artist's href to a `Picture`).

The code is followed where it differs from the project's stated design:

- Name normalisation removes only the first space.
- The autocompletion loop can leave several artists with the same name.
- An artist who is already stored never gains the new spelling.
- A guess without a comma never leads to a search hit.

One place departs from the code on purpose. As written, the source never stores an artist's picture (see Findings). The model stores the intended picture URL; "## Left out" records the members concerned.

## Model

| member | source | states |
|---|---|---|
| EditDistance.Levenshtein | music/guess.ts:207-301 | `levenshtein(s, t)` returns exactly the edit distance `Distance(s, t)`, including the early returns for equal strings and for an empty string |
| EditDistance.FourColumnPass | music/guess.ts:221-275 | one pass of the unrolled loop turns the column for `t[..x]` held in `p` into the column for `t[..x+4]` and returns the bottom cell, the distance from `s` to `t[..x+4]` |
| EditDistance.ColumnPass | music/guess.ts:277-298 | one pass of the tail loop turns the column for `t[..x]` into the column for `t[..x+1]` and returns the distance from `s` to `t[..x+1]` |
| EditDistance.NextCell | music/guess.ts:234-241 | the branchy cell update (the smaller neighbour plus one when it undercuts the diagonal, else the diagonal plus one on a mismatch) equals the minimum of the three ways into the cell |
| EditDistance.CellStep | music/guess.ts:243-250 | applied to the three neighbouring distances, the cell update yields the distance of the next pair of prefixes |
| EditDistance.DistanceToSelf | music/guess.ts:208-210 | a string is at distance 0 from itself, matching the early return for equal strings |
| EditDistance.DistanceZeroMeansEqual | music/guess.ts:208-210 | distance 0 holds only for equal strings, so the early return is the only way to get 0 |
| EditDistance.DistanceSymmetric | music/guess.ts:187 | the distance does not depend on which name is the credited one and which is the guess |
| EditDistance.DistanceBounds | music/guess.ts:212-214 | the distance lies between the length difference and the longer length; with an empty string it is the other's length |
| Names.FormatName | music/guess.ts:194-205 | the normal form has no upper-case letter and no combining accent; it has one space fewer than the input when the input has a space, and no spaces otherwise (the same function is `FormatName` in music/autocomplete.ts:43-54) |
| Names.LowerCase | music/guess.ts:196 | lower-casing maps each character, leaves no upper-case letter, keeps every space and leaves a lower-case string unchanged |
| Names.RemoveFirst | music/guess.ts:199 | `replace(' ', '')` deletes exactly the first space and nothing else; a string without one is unchanged |
| Names.Decompose | music/guess.ts:202 | a precomposed letter becomes exactly two characters, its base letter then a combining mark; any other character is kept as it is |
| Names.Nfd | music/guess.ts:202 | decomposition keeps every space and leaves ASCII text unchanged |
| Names.NfdSplitsAccents | music/guess.ts:202 | after decomposition no precomposed letter of the input is left, and the base letter of each one is present |
| Names.StripMarks | music/guess.ts:202 | deleting U+0300..U+036F removes every combining mark, keeps every other character with its multiplicity, and keeps their order (the result is a subsequence of the input) |
| Names.StripNfdUnaccents | music/guess.ts:202 | on text with no combining mark of its own, decomposing and deleting the marks maps each character to one character, in order: a precomposed letter to its base letter, anything else to itself |
| Names.FormatNameByLetter | music/guess.ts:194-205 | a name without spaces or combining marks normalises one character for one, each lower-cased and then stripped of its accent |
| Names.FormatNameTakesAccentsOff | music/guess.ts:194-205 | a capital, a plain lower-case word and an accented letter, as in "Beyoncé", normalise to the lower-case word with the accent taken off, as in "beyonce" |
| Names.FormatNameFixesNormalised | music/guess.ts:194-205 | a lower-case ASCII name without spaces is its own normal form |
| Names.FormatNameKeepsLaterSpaces | music/guess.ts:199 | for `"a b c"` with plain lower-case parts the normal form is `"ab c"`: only the first space goes |
| Matching.IsValidFirstMatch | music/guess.ts:185-192 | each slot holds the first credited artist, in credit order, whose name is within two edits of its guess after normalisation; it is empty exactly when none is, and for each slot no other value satisfies this |
| Matching.NameMatchesItself | music/guess.ts:187 | a credited name always matches itself, whatever its case, accents or spaces |
| Matching.SameNormalFormSameSlot | music/guess.ts:185-192 | two guesses with the same normal form fill both slots with the same artist |
| Matching.SoloArtistFillsBothSlots | music/guess.ts:185-192 | on a track crediting one artist, that artist fills both slots when it matches both guesses, so a solo track can solve a guess |
| Matching.SelectTrack | music/guess.ts:148-175 | the search step yields the first item in catalogue order whose credits fill both slots, and nothing when no item does, when the response has no item list, or when the second guess is missing |
| Matching.SelectedTrackFillsBothSlots | music/guess.ts:148-153 | a selected item fills both slots again when it is checked, and there was a second guess |
| Matching.AcceptedNames | music/guess.ts:66-74 | the stored spellings start with the catalogue name and include the guess; there are two exactly when the guess differs from the name, with no duplicates |
| Matching.SplitGuess | music/guess.ts:9-11 | the first guess is the text before the first comma (the whole input when there is none); the second is the text between the first and second commas, absent exactly when there is no comma; neither contains a comma |
| Matching.SplitJoin | music/guess.ts:9-11 | joining two comma-free names with a comma, then anything that starts with a comma, splits back into the two names |
| Cache.Resolve | music/guess.ts:37-39 | reading a track with its artists yields one artist row per link, in link order |
| Cache.Lookup | music/guess.ts:14-40 | the cache answer is the first stored track, in insertion order, one of whose artists accepts the first guess verbatim and one of whose artists accepts the second; that track is returned with its artists, and there is none exactly when no stored track passes |
| Cache.LookupSymmetric | music/guess.ts:14-40 | swapping the two guesses does not change the cache answer |
| Cache.ConnectOrCreate | music/guess.ts:88-113 | linking an artist adds its id, keeps every stored artist row unchanged, and creates the row only when the id is new |
| Cache.UpsertKeepsConsistent | music/guess.ts:77-118 | the upsert keeps track ids unique and every link resolved, returns the row with the requested id, never alters a stored artist row (so accepted names are never extended), and adds no artist but the two |
| Cache.UpsertIdempotent | music/guess.ts:77-81 | upserting the same row a second time, right after the first, leaves the store unchanged, whichever artist rows carry the same ids |
| Cache.UpsertStoredTrack | music/guess.ts:77-81 | upserting a track id that is already stored, whatever artists came with it, leaves the store unchanged and returns the stored row, which has that id (the update part is empty) |
| Cache.UpsertThenHit | music/guess.ts:77-118 | after storing a new track with two new, distinct artists that accept the two guesses, the cache lookup for that guess hits |
| Cache.ArtistImage | music/guess.ts:98 | the stored artist image is the picture's URL when there is one, else "" |
| Cache.ArtistImageAsWritten | music/guess.ts:98 | as written, `image?.url \|\| ""` is "" for every picture the request can return |
| Cache.ArtistImageAlwaysEmpty | music/guess.ts:98 | for a real URL, the image as written is "" while the intended one is the URL |
| Cache.NewArtist | music/guess.ts:91-110 | the created artist row has the catalogue id and name, is well formed, accepts the guess that matched it, and carries the picture's URL, or "" when there is none |
| Cache.Checked | music/guess.ts:59-122 | checking a track gives no track exactly when a slot is empty; it fails exactly when both slots are filled and the album has no image; in both cases the store is unchanged |
| Cache.CheckedKeepsConsistent | music/guess.ts:59-122 | checking keeps the store consistent, and a returned row is the checked track's |
| Cache.CheckedStoredTrack | music/guess.ts:59-122 | checking a track that is already stored, with both slots filled and an album image, returns the stored row with that id and leaves the store unchanged |
| Cache.CheckedThenHit | music/guess.ts:77-118 | once a new track with two new, distinct artists is checked successfully, the same guess is a cache hit |
| Cache.Store.constructor | music/guess.ts:5 | a store with no rows is consistent; it is one state the database may start in, and every method is proved from any consistent store |
| Cache.Store.CheckTrack | music/guess.ts:59-122 | `CheckTrack` matches the guesses on the credits and then behaves as `Checked`, returning its outcome and leaving the store in its new state, which stays consistent |
| Cache.Store.StoreMatch | music/guess.ts:62-121 | building the two artist rows and the track row and upserting them step by step gives exactly `Checked` for the given slots |
| Cache.Store.Guess | music/guess.ts:7-57 | a cache hit is returned without searching and without changing the store; on a miss the search runs; when it selects no track the answer is "no track" and the store is unchanged; otherwise the selected item is checked, which never yields "no track" |
| Seqs.FilterIsSubsequence | music/autocomplete.ts:28 | filtering keeps entries in their order |
| Autocomplete.Sweep | music/autocomplete.ts:15-24 | one sweep of the inner loop never empties the list past position `i` and never grows it |
| Autocomplete.Loser | music/autocomplete.ts:17-22 | of two same-named artists at `i` and `j`, the one spliced out is `j` exactly when the artist at `i` has strictly more followers, and `i` otherwise (ties included) |
| Autocomplete.SweepEmbeds | music/autocomplete.ts:15-24 | a sweep only deletes: a list embedded in the search result stays embedded, in order |
| Autocomplete.SweepDominated | music/autocomplete.ts:15-24 | a sweep only deletes the artist with fewer (or equal) followers of a same-named pair, so every searched artist keeps a same-named listed artist with at least as many followers |
| Autocomplete.SweepUnique | music/autocomplete.ts:15-24 | a sweep never deletes an artist whose name no other search result shares |
| Autocomplete.SweepKeeps | music/autocomplete.ts:15-24 | one pass of the inner loop preserves all three facts together: subsequence of the search result, dominated, uniquely named artists still listed |
| Autocomplete.SweepFor | music/autocomplete.ts:15-24 | the inner loop, deleting entries from the list as `splice` does, ends with exactly the list the sweep for `i` defines |
| Autocomplete.DedupByName | music/autocomplete.ts:14-25 | the splicing loop only deletes, keeping order; every deleted artist leaves a same-named one with at least as many followers; an artist whose name no other result shares is never deleted |
| Autocomplete.TwoNamesakesLeaveOne | music/autocomplete.ts:14-25 | of two same-named artists, the one with strictly more followers is kept, and on a tie the later one |
| Autocomplete.ThreeNamesakesLeaveTwo | music/autocomplete.ts:14-25 | three same-named artists with 1000, 5000 and 2000 followers leave the last two: the loop does not leave one artist per name |
| Autocomplete.KeepMatching | music/autocomplete.ts:28 | exactly the artists whose normalised name starts with the normalised input are kept, in order |
| Autocomplete.Project | music/autocomplete.ts:31-38 | an entry keeps the artist's id and name, takes its first image or "", and accepts only its name |
| Autocomplete.ProjectAll | music/autocomplete.ts:31-38 | every artist is projected, in order |
| Autocomplete.AutoComplete | music/autocomplete.ts:5-41 | an empty input gives no entries; otherwise the entries are the projection of the prefix-filtered result of the splicing loop; there are no more entries than search results, and each entry is well formed and starts with the input after normalisation |

## Left out

- Network access is not modelled. This covers `fetch`, URL building with `encodeURI`, the market and limit query parameters, and JSON decoding. The catalogue's responses are parameters of `Guess` and `AutoComplete`. The artist-picture request is the parameter `pictureOf`.
- The retry on a 400 or 401 response is left out (music/guess.ts:143-146, music/autocomplete.ts:73-76). Note that the track search retries with the same token, so it repeats for as long as the error does.
- Token handling (`getToken`, `spToken` in music/utils.ts) is left out.
- Exceptions caught by `try`/`catch` are not modelled separately. They are folded into the outcomes:
  - a failing search gives no track;
  - a failing artist search gives no results;
  - a failing picture request is `Picture.Undefined`.
- Console logging is not modelled.
- Names.LowerCase: lowercases only ASCII and Latin-1 capitals, not the full Unicode case mapping of `toLowerCase`.
- Names.Nfd: decomposes only the Latin-1 lower-case accented letters, not full Unicode canonical decomposition.
- Cache.NewArtist: stores the picture's URL, the intended value, where music/guess.ts:98 and :109 store "" for every picture (see Findings).
- Cache.Store.StoreMatch: builds the artist rows with the intended picture URL, not the "" that music/guess.ts:98 and :109 store. `Cache.Checked`, `Cache.Store.CheckTrack` and `Cache.Store.Guess` inherit this.
- Cache.Store.constructor: the store starts with no rows. A database that already holds rows is covered only because every method is proved for any consistent store.
- Autocomplete.DedupByName: the source splices the array in place; the model reassigns a local sequence. Nothing else holds a reference to that array, so no aliasing is lost.
- Strings are sequences of characters, not UTF-16 code units. Lengths and `charCodeAt` comparisons differ from the source on characters outside the Basic Multilingual Plane.
- Cache.Lookup: the database's `findFirst` order is taken to be insertion order. Without an `orderBy`, the database does not promise any order.
- Cache.Upserted: when both slots hold the same artist, the track gets a single link to it. Two `connectOrCreate` entries for the same id are not modelled as a database error.
- Transactions and concurrent guesses against the same database are not modelled.
- The artist search's input being `undefined` is not modelled: the input is a string.
- EditDistance.Distance: the triangle inequality is not proved.

## Findings

| source | as written | input that shows it | evidently intended | confidence | as-written member | corrected member |
|---|---|---|---|---|---|---|
| music/guess.ts:98 | the artist image is `feat0Image?.url \|\| ""`, but the picture request returns the URL string itself (or `{}`, or nothing), and a string has no `url` property | an artist whose first image has URL `"https://i.example/a.jpg"`: the image is stored as `""` (`Cache.ArtistImageAlwaysEmpty`) | store the URL the picture request returned, or "" when there is none | high, not executed | Cache.ArtistImageAsWritten | Cache.ArtistImage |
