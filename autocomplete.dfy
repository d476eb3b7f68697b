/**
 * Post-processing of the artist search behind autocompletion: drop same-named artists
 * with fewer followers, keep the artists whose normalised name starts with the normalised
 * input, and turn each into an artist row with a single accepted name.
 */
module Autocomplete {
  import opened Seqs
  import opened Names
  import opened Catalog

  /**
   * One sweep of the inner loop for position `i`, from position `j` on: on each name clash
   * the entry with fewer followers is spliced out (the one at `i` on a tie), and `j` moves on
   * either way, so the entry that slides into a vacated place is skipped.
   */
  function Sweep(list: seq<CatalogArtist>, i: nat, j: nat): (r: seq<CatalogArtist>)
    requires i < |list| && i < j <= |list| + 1
    ensures i < |r| <= |list|
    decreases |list| + 1 - j
  {
    if j >= |list| then list
    else if list[i].name == list[j].name && i != j then
      if list[i].followers > list[j].followers then Sweep(Remove(list, j), i, j + 1)
      else Sweep(Remove(list, i), i, j + 1)
    else Sweep(list, i, j + 1)
  }

  /** The outer loop from position `i` on: sweep for `i`, then move to the next position of the shortened list. */
  function Dedup(list: seq<CatalogArtist>, i: nat): seq<CatalogArtist>
    decreases |list| - i
  {
    if i >= |list| then list else Dedup(Sweep(list, i, i + 1), i + 1)
  }

  /** No other entry of `s` has the name of entry `k`. */
  ghost predicate UniqueName(s: seq<CatalogArtist>, k: nat)
    requires k < |s|
  {
    forall j | 0 <= j < |s| && j != k :: s[j].name != s[k].name
  }

  /** Some entry of `kept` has the name of `e` and at least as many followers. */
  ghost predicate DominatedIn(e: CatalogArtist, kept: seq<CatalogArtist>) {
    exists k | 0 <= k < |kept| :: kept[k].name == e.name && kept[k].followers >= e.followers
  }

  /** Every entry of `found` is dominated by an entry of `kept`. */
  ghost predicate Dominated(found: seq<CatalogArtist>, kept: seq<CatalogArtist>) {
    forall i | 0 <= i < |found| :: DominatedIn(found[i], kept)
  }

  /** Every searched entry with a name of its own is still listed. */
  ghost predicate UniqueKept(found: seq<CatalogArtist>, list: seq<CatalogArtist>) {
    forall k {:trigger UniqueName(found, k)} | 0 <= k < |found| && UniqueName(found, k) :: found[k] in list
  }

  /**
   * What the loop preserves about the current list with respect to the search result: it is
   * embedded in it by `idx`, every searched entry is dominated by a listed one, and every
   * searched entry with a name of its own is still listed.
   */
  ghost predicate Keeps(found: seq<CatalogArtist>, list: seq<CatalogArtist>, idx: seq<nat>) {
    && Embeds(idx, list, found)
    && Dominated(found, list)
    && UniqueKept(found, list)
  }

  /** Splicing out an entry that a different, same-named entry with at least as many followers dominates keeps every searched entry dominated. */
  lemma RemoveKeepsDominated(found: seq<CatalogArtist>, list: seq<CatalogArtist>, r: nat, s: nat)
    requires Dominated(found, list)
    requires r < |list| && s < |list| && r != s
    requires list[r].name == list[s].name && list[r].followers <= list[s].followers
    ensures Dominated(found, Remove(list, r))
  {
    var list' := Remove(list, r);
    RemoveIndices(list, r);
    forall i | 0 <= i < |found| ensures DominatedIn(found[i], list') {
      var k :| 0 <= k < |list| && list[k].name == found[i].name && list[k].followers >= found[i].followers;
      var k' := if k == r then s else k;
      var shifted := if k' < r then k' else k' - 1;
      assert list'[shifted] == list[k'];
    }
  }

  /** Two listed entries with the same name come from two searched entries with that name, so neither has a name of its own. */
  lemma SharedNameNotUnique(found: seq<CatalogArtist>, list: seq<CatalogArtist>, idx: seq<nat>, r: nat, s: nat, k: nat)
    requires Embeds(idx, list, found)
    requires r < |list| && s < |list| && r != s && list[r].name == list[s].name
    requires k < |found| && UniqueName(found, k)
    ensures list[r].name != found[k].name
  {
    assert idx[r] != idx[s] by {
      if r < s { assert idx[r] < idx[s]; } else { assert idx[s] < idx[r]; }
    }
    assert found[idx[r]].name == list[r].name && found[idx[s]].name == list[s].name;
  }

  /** Splicing out an entry that shares its name with another listed entry keeps every searched entry with a name of its own. */
  lemma RemoveKeepsUnique(found: seq<CatalogArtist>, list: seq<CatalogArtist>, idx: seq<nat>, r: nat, s: nat)
    requires Embeds(idx, list, found) && UniqueKept(found, list)
    requires r < |list| && s < |list| && r != s && list[r].name == list[s].name
    ensures UniqueKept(found, Remove(list, r))
  {
    var list' := Remove(list, r);
    RemoveIndices(list, r);
    forall k | 0 <= k < |found| && UniqueName(found, k) ensures found[k] in list' {
      SharedNameNotUnique(found, list, idx, r, s, k);
      var p :| 0 <= p < |list| && list[p] == found[k];
      var shifted := if p < r then p else p - 1;
      assert list'[shifted] == found[k];
    }
  }

  /** Before the loop the list is the search result itself. */
  lemma KeepsAtStart(found: seq<CatalogArtist>) returns (identity: seq<nat>)
    ensures Keeps(found, found, identity)
  {
    identity := seq(|found|, k requires 0 <= k < |found| => k);
    forall i | 0 <= i < |found| ensures DominatedIn(found[i], found) {
      assert found[i].name == found[i].name;
    }
    assert Embeds(identity, found, found);
  }

  /** One step of a sweep, as the loop body takes it. */
  lemma SweepStep(list: seq<CatalogArtist>, i: nat, j: nat)
    requires i < |list| && i < j < |list|
    ensures Sweep(list, i, j) ==
      if list[i].name == list[j].name && i != j then
        if list[i].followers > list[j].followers then Sweep(Remove(list, j), i, j + 1)
        else Sweep(Remove(list, i), i, j + 1)
      else Sweep(list, i, j + 1)
  {
  }

  /** Of two same-named entries at `i` and `j`, the one the loop splices out: the one at `j` only when it has fewer followers. */
  function Loser(list: seq<CatalogArtist>, i: nat, j: nat): (k: nat)
    requires i < |list| && j < |list| && i != j
    ensures k == i || k == j
    ensures k == j <==> list[i].followers > list[j].followers
  {
    if list[i].followers > list[j].followers then j else i
  }

  /** A sweep that has passed the end of the list leaves it as it is. */
  lemma SweepDone(list: seq<CatalogArtist>, i: nat, j: nat)
    requires i < |list| && |list| <= j <= |list| + 1
    ensures Sweep(list, i, j) == list
  {
  }

  /** A sweep moves past an entry whose name differs from the one at `i`. */
  lemma SweepSkip(list: seq<CatalogArtist>, i: nat, j: nat)
    requires i < j < |list| && list[i].name != list[j].name
    ensures Sweep(list, i, j) == Sweep(list, i, j + 1)
  {
  }

  /** On a name clash a sweep splices out the loser and moves on. */
  lemma SweepDrop(list: seq<CatalogArtist>, i: nat, j: nat)
    requires i < j < |list| && list[i].name == list[j].name
    ensures Sweep(list, i, j) == Sweep(Remove(list, Loser(list, i, j)), i, j + 1)
  {
  }

  /** A sweep only deletes entries: the embedding into the search result carries over to its result `out`. */
  lemma {:induction false} SweepEmbeds(found: seq<CatalogArtist>, list: seq<CatalogArtist>, idx: seq<nat>, i: nat, j: nat, out: seq<CatalogArtist>)
    returns (idx': seq<nat>)
    requires i < |list| && i < j <= |list| + 1 && Embeds(idx, list, found)
    requires out == Sweep(list, i, j)
    ensures Embeds(idx', out, found)
    decreases |list| + 1 - j
  {
    if j >= |list| {
      SweepDone(list, i, j);
      idx' := idx;
    } else if list[i].name == list[j].name {
      SweepDrop(list, i, j);
      var k := Loser(list, i, j);
      EmbedsRemove(idx, list, found, k);
      idx' := SweepEmbeds(found, Remove(list, k), Remove(idx, k), i, j + 1, out);
    } else {
      SweepSkip(list, i, j);
      idx' := SweepEmbeds(found, list, idx, i, j + 1, out);
    }
  }

  /** A sweep only deletes dominated entries: every searched entry stays dominated by an entry of its result `out`. */
  lemma {:induction false} SweepDominated(found: seq<CatalogArtist>, list: seq<CatalogArtist>, i: nat, j: nat, out: seq<CatalogArtist>)
    requires i < |list| && i < j <= |list| + 1 && Dominated(found, list)
    requires out == Sweep(list, i, j)
    ensures Dominated(found, out)
    decreases |list| + 1 - j
  {
    if j >= |list| {
      SweepDone(list, i, j);
    } else if list[i].name == list[j].name {
      SweepDrop(list, i, j);
      var k := Loser(list, i, j);
      RemoveKeepsDominated(found, list, k, if k == j then i else j);
      SweepDominated(found, Remove(list, k), i, j + 1, out);
    } else {
      SweepSkip(list, i, j);
      SweepDominated(found, list, i, j + 1, out);
    }
  }

  /** A sweep only deletes entries whose name another listed entry shares: entries with a name of their own stay in its result `out`. */
  lemma {:induction false} SweepUnique(found: seq<CatalogArtist>, list: seq<CatalogArtist>, idx: seq<nat>, i: nat, j: nat, out: seq<CatalogArtist>)
    requires i < |list| && i < j <= |list| + 1 && Embeds(idx, list, found) && UniqueKept(found, list)
    requires out == Sweep(list, i, j)
    ensures UniqueKept(found, out)
    decreases |list| + 1 - j
  {
    if j >= |list| {
      SweepDone(list, i, j);
    } else if list[i].name == list[j].name {
      SweepDrop(list, i, j);
      var k := Loser(list, i, j);
      RemoveKeepsUnique(found, list, idx, k, if k == j then i else j);
      EmbedsRemove(idx, list, found, k);
      SweepUnique(found, Remove(list, k), Remove(idx, k), i, j + 1, out);
    } else {
      SweepSkip(list, i, j);
      SweepUnique(found, list, idx, i, j + 1, out);
    }
  }

  /** A whole sweep keeps what the splicing loop preserves. */
  lemma SweepKeeps(found: seq<CatalogArtist>, list: seq<CatalogArtist>, idx: seq<nat>, i: nat)
    returns (idx': seq<nat>)
    requires i < |list| && Keeps(found, list, idx)
    ensures Keeps(found, Sweep(list, i, i + 1), idx')
  {
    var out := Sweep(list, i, i + 1);
    idx' := SweepEmbeds(found, list, idx, i, i + 1, out);
    SweepDominated(found, list, i, i + 1, out);
    SweepUnique(found, list, idx, i, i + 1, out);
  }

  /**
   * The inner loop for position `i`: each later same-named entry is compared with the one at
   * `i` and the one with fewer followers is spliced out, `j` moving on either way.
   */
  method SweepFor(list: seq<CatalogArtist>, i: nat) returns (list': seq<CatalogArtist>)
    requires i < |list|
    ensures list' == Sweep(list, i, i + 1)
  {
    list' := list;
    var j := i + 1;
    while j < |list'|
      invariant i < |list'| && i < j <= |list'| + 1
      invariant Sweep(list', i, j) == Sweep(list, i, i + 1)
      decreases |list'| + 1 - j
    {
      SweepStep(list', i, j);
      if list'[i].name == list'[j].name && i != j {
        if list'[i].followers > list'[j].followers {
          list' := Remove(list', j);
        } else {
          list' := Remove(list', i);
        }
      }
      j := j + 1;
    }
  }

  /**
   * The splicing loop, on the list the search returned. Besides computing `Dedup`, it only
   * deletes entries, keeping the rest in order; every deleted artist leaves behind a
   * same-named one with at least as many followers; and an artist whose name no other
   * result shares is never deleted.
   */
  method DedupByName(found: seq<CatalogArtist>) returns (r: seq<CatalogArtist>)
    ensures r == Dedup(found, 0)
    ensures |r| <= |found|
    ensures IsSubsequence(r, found)
    ensures Dominated(found, r)
    ensures forall i | 0 <= i < |found| && UniqueName(found, i) :: found[i] in r
  {
    var list := found;
    ghost var idx := KeepsAtStart(found);
    var i := 0;
    while i < |list|
      invariant |list| <= |found|
      invariant Dedup(list, i) == Dedup(found, 0)
      invariant Keeps(found, list, idx)
      decreases |list| - i
    {
      idx := SweepKeeps(found, list, idx, i);
      list := SweepFor(list, i);
      i := i + 1;
    }
    r := list;
    assert Embeds(idx, r, found);
  }

  /**
   * The loop does not leave one artist per name: of three artists called "Drake" with 1000,
   * 5000 and 2000 followers, the first is spliced out in favour of the second, the third
   * slides into the place the sweep has already passed, and two remain.
   */
  lemma ThreeNamesakesLeaveTwo(d1: CatalogArtist, d2: CatalogArtist, d3: CatalogArtist)
    requires d1.name == d2.name == d3.name
    requires d1.followers == 1000 && d2.followers == 5000 && d3.followers == 2000
    ensures Dedup([d1, d2, d3], 0) == [d2, d3]
  {
    var list := [d1, d2, d3];
    assert Remove(list, 0) == [d2, d3];
    assert Sweep([d2, d3], 0, 2) == [d2, d3];
    assert Sweep(list, 0, 1) == [d2, d3];
    assert Sweep([d2, d3], 1, 2) == [d2, d3];
    assert Dedup([d2, d3], 2) == [d2, d3];
    assert Dedup([d2, d3], 1) == [d2, d3];
  }

  /** Of two same-named artists, the one with strictly more followers stays; on a tie the later one stays. */
  lemma TwoNamesakesLeaveOne(x: CatalogArtist, y: CatalogArtist)
    requires x.name == y.name
    ensures Dedup([x, y], 0) == [if x.followers > y.followers then x else y]
  {
    var list, kept := [x, y], if x.followers > y.followers then x else y;
    assert Remove(list, if x.followers > y.followers then 1 else 0) == [kept];
    assert Sweep([kept], 0, 2) == [kept];
    assert Sweep(list, 0, 1) == [kept];
    assert Dedup([kept], 1) == [kept];
  }

  /** The autocompletion filter: the normalised name starts with the normalised input. */
  predicate StartsWithInput(input: string, a: CatalogArtist) {
    FormatName(input) <= FormatName(a.name)
  }

  function PrefixTest(input: string): CatalogArtist -> bool {
    (a: CatalogArtist) => StartsWithInput(input, a)
  }

  /** The artists whose normalised name starts with the normalised input, in their order. */
  function KeepMatching(artists: seq<CatalogArtist>, input: string): (r: seq<CatalogArtist>)
    ensures |r| <= |artists|
    ensures forall k | 0 <= k < |r| :: StartsWithInput(input, r[k]) && r[k] in artists
    ensures forall k | 0 <= k < |artists| && StartsWithInput(input, artists[k]) :: artists[k] in r
    ensures IsSubsequence(r, artists)
  {
    FilterIsSubsequence(artists, PrefixTest(input));
    Filter(artists, PrefixTest(input))
  }

  /** An autocompletion entry: the artist's id and name, its first image or "", and its name as the only accepted spelling. */
  function Project(a: CatalogArtist): (r: Artist)
    ensures WellFormed(r) && r.acceptedNames == [a.name]
    ensures r.id == a.id && r.name == a.name
    ensures r.artistImage == if |a.images| > 0 then a.images[0] else ""
  {
    Artist(a.id, a.name, [a.name], if |a.images| > 0 then a.images[0] else "")
  }

  function ProjectAll(artists: seq<CatalogArtist>): (r: seq<Artist>)
    ensures |r| == |artists|
    ensures forall k | 0 <= k < |r| :: r[k] == Project(artists[k])
  {
    if artists == [] then [] else [Project(artists[0])] + ProjectAll(artists[1..])
  }

  /**
   * `autoComplete`: nothing for an empty input; otherwise the search results after the
   * splicing loop, filtered by prefix and projected to artist rows.
   */
  method AutoComplete(input: string, found: seq<CatalogArtist>) returns (r: seq<Artist>)
    ensures input == [] ==> r == []
    ensures input != [] ==> r == ProjectAll(KeepMatching(Dedup(found, 0), input))
    ensures |r| <= |found|
    ensures forall k | 0 <= k < |r| :: WellFormed(r[k]) && FormatName(input) <= FormatName(r[k].name)
  {
    if input == [] {
      return [];
    }
    var artists := DedupByName(found);
    var kept := KeepMatching(artists, input);
    r := ProjectAll(kept);
  }
}
