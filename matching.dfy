/**
 * The pure part of a guess: splitting "first,second", the fuzzy test that pairs a guessed
 * name with a credited artist, the choice of the first search item crediting both guessed
 * artists, and the spellings an artist is stored under.
 */
module Matching {
  import opened Wrappers
  import opened Seqs
  import opened Names
  import opened EditDistance
  import opened Catalog

  /** Largest edit distance between normalised names that still counts as the same artist. */
  const Threshold: nat := 2

  /** A credited name and a guessed name match when their normal forms are within `Threshold` edits. */
  predicate Matches(name: string, guess: string) {
    Distance(FormatName(name), FormatName(guess)) <= Threshold
  }

  /** The test `IsValid` applies to each credited artist for one guess. */
  function MatcherFor(guess: string): CatalogArtist -> bool {
    (a: CatalogArtist) => Matches(a.name, guess)
  }

  /** The first credited artist, in credit order, that matches `guess` (`artists.find`). */
  function FindArtist(artists: seq<CatalogArtist>, guess: string): Option<CatalogArtist> {
    FindFirst(artists, MatcherFor(guess))
  }

  /** `IsValid`: one slot per guess, each searched for independently over the same credits. */
  function IsValid(first: string, second: string, artists: seq<CatalogArtist>): (Option<CatalogArtist>, Option<CatalogArtist>) {
    (FindArtist(artists, first), FindArtist(artists, second))
  }

  /**
   * Each slot of `IsValid` holds the first credited artist that matches its guess, and is
   * empty exactly when no credited artist does; no other value meets that description.
   */
  lemma IsValidFirstMatch(first: string, second: string, artists: seq<CatalogArtist>)
    ensures IsFirst(artists, MatcherFor(first), IsValid(first, second, artists).0)
    ensures IsFirst(artists, MatcherFor(second), IsValid(first, second, artists).1)
    ensures forall slot | IsFirst(artists, MatcherFor(first), slot) :: slot == IsValid(first, second, artists).0
    ensures forall slot | IsFirst(artists, MatcherFor(second), slot) :: slot == IsValid(first, second, artists).1
  {
    FindFirstIsFirst(artists, MatcherFor(first));
    FindFirstIsFirst(artists, MatcherFor(second));
    forall slot | IsFirst(artists, MatcherFor(first), slot) ensures slot == IsValid(first, second, artists).0 {
      IsFirstUnique(artists, MatcherFor(first), slot);
    }
    forall slot | IsFirst(artists, MatcherFor(second), slot) ensures slot == IsValid(first, second, artists).1 {
      IsFirstUnique(artists, MatcherFor(second), slot);
    }
  }

  /** A credited name always matches itself, whatever its case, accents or spaces. */
  lemma NameMatchesItself(name: string)
    ensures Matches(name, name)
  {
    DistanceToSelf(FormatName(name));
  }

  /** Guesses with the same normal form fill the same slot, so nothing stops one artist from filling both. */
  lemma SameNormalFormSameSlot(first: string, second: string, artists: seq<CatalogArtist>)
    requires FormatName(first) == FormatName(second)
    ensures IsValid(first, second, artists).0 == IsValid(first, second, artists).1
  {
    forall i | 0 <= i < |artists|
      ensures MatcherFor(first)(artists[i]) == MatcherFor(second)(artists[i])
    {
    }
    FindFirstAgrees(artists, MatcherFor(first), MatcherFor(second));
  }

  /** A track crediting a single artist fills both slots with that artist when both guesses match it. */
  lemma SoloArtistFillsBothSlots(first: string, second: string, a: CatalogArtist)
    requires Matches(a.name, first) && Matches(a.name, second)
    ensures IsValid(first, second, [a]) == (Some(a), Some(a))
  {
    assert MatcherFor(first)(a) && MatcherFor(second)(a);
  }

  /** Both slots of `IsValid` are filled for this item. */
  predicate FullMatch(first: string, second: string, item: SearchTrack) {
    var slots := IsValid(first, second, item.artists);
    slots.0.Some? && slots.1.Some?
  }

  /** The test the search step filters the items with. */
  function FullMatcherFor(first: string, second: string): SearchTrack -> bool {
    (item: SearchTrack) => FullMatch(first, second, item)
  }

  /**
   * The search step's choice: the first item, in catalogue order, that credits both guessed
   * artists. There is none when the response holds no item list, or when the second guess is
   * missing (the name test then fails on the first credited artist, or no item has any).
   */
  function SelectTrack(items: Option<seq<SearchTrack>>, first: string, second: Option<string>): (r: Option<SearchTrack>)
    ensures items.None? || second.None? ==> r.None?
    ensures items.Some? && second.Some? ==> IsFirst(items.value, FullMatcherFor(first, second.value), r)
  {
    match (items, second)
    case (Some(xs), Some(g)) =>
      var res := Filter(xs, FullMatcherFor(first, g));
      FilterHeadIsFind(xs, FullMatcherFor(first, g));
      FindFirstIsFirst(xs, FullMatcherFor(first, g));
      if |res| == 0 then None else Some(res[0])
    case _ => None
  }

  /** A selected item credits both guessed artists, so `IsValid` fills both slots again when the track is checked. */
  lemma SelectedTrackFillsBothSlots(items: Option<seq<SearchTrack>>, first: string, second: Option<string>)
    requires SelectTrack(items, first, second).Some?
    ensures second.Some?
    ensures IsValid(first, second.value, SelectTrack(items, first, second).value.artists).0.Some?
    ensures IsValid(first, second.value, SelectTrack(items, first, second).value.artists).1.Some?
  {
    var item := SelectTrack(items, first, second).value;
    var i :| 0 <= i < |items.value| && items.value[i] == item && FullMatcherFor(first, second.value)(item);
  }

  /**
   * The spellings a matched artist is stored under: its catalogue name, then the guess when
   * the guess differs from that name character for character.
   */
  function AcceptedNames(name: string, guess: string): (r: seq<string>)
    ensures |r| > 0 && r[0] == name
    ensures guess in r && forall x | x in r :: x == name || x == guess
    ensures |r| == 2 <==> guess != name
    ensures |r| <= 2
    ensures forall i, j | 0 <= i < j < |r| :: r[i] != r[j]
  {
    [name] + if guess != name then [guess] else []
  }

  /**
   * The guess split on ',': the text before the first comma, and the text between the first
   * and the second comma, absent when there is no comma. Nothing is trimmed, and whatever
   * follows a second comma is ignored.
   */
  function SplitGuess(input: string): (r: (string, Option<string>))
    ensures ',' !in r.0
    ensures r.1.None? <==> ',' !in input
    ensures r.1.None? ==> r.0 == input
    ensures r.1.Some? ==>
      && ',' !in r.1.value
      && r.0 + [','] + r.1.value <= input
      && (|input| > |r.0| + 1 + |r.1.value| ==> input[|r.0| + 1 + |r.1.value|] == ',')
  {
    var i := IndexOf(input, ',');
    if i == |input| then (input, None)
    else
      var rest := input[i + 1..];
      var k := IndexOf(rest, ',');
      SplitAt(input, i, k);
      (input[..i], Some(rest[..k]))
  }

  /** The facts `SplitGuess` needs about the two cut points. */
  lemma SplitAt(input: string, i: nat, k: nat)
    requires i < |input| && input[i] == ',' && forall j | 0 <= j < i :: input[j] != ','
    requires k == IndexOf(input[i + 1..], ',')
    ensures ',' in input && ',' !in input[..i] && ',' !in input[i + 1..][..k]
    ensures input[..i] + [','] + input[i + 1..][..k] <= input
    ensures |input| > i + 1 + k ==> input[i + 1 + k] == ','
  {
    var rest := input[i + 1..];
    assert input[i] in input;
    assert ',' !in input[..i] by {
      forall x | x in input[..i] ensures x != ',' {
        var j :| 0 <= j < i && input[..i][j] == x;
        assert input[j] == x;
      }
    }
    assert ',' !in rest[..k] by {
      forall x | x in rest[..k] ensures x != ',' {
        var j :| 0 <= j < k && rest[..k][j] == x;
        assert rest[j] == x;
      }
    }
    assert input[..i] + [','] + rest[..k] == input[..i + 1 + k];
  }

  /** Joining two comma-free names with ',' and anything that starts with a comma splits back into the two names. */
  lemma SplitJoin(a: string, b: string, tail: string)
    requires ',' !in a && ',' !in b
    requires tail == [] || tail[0] == ','
    ensures SplitGuess(a + [','] + b + tail) == (a, Some(b))
  {
    var input := a + [','] + b + tail;
    assert input[|a|] == ',';
    assert input[..|a|] == a;
    var rest := input[|a| + 1..];
    assert rest == b + tail;
    assert IndexOf(input, ',') == |a|;
    if tail != [] {
      assert rest[|b|] == ',';
    }
    assert IndexOf(rest, ',') == |b|;
    assert rest[..|b|] == b;
  }
}
