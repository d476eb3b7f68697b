/**
 * `FormatName`, the normalisation applied to artist names and guesses before they are
 * compared: lower-case, delete the first space, decompose accented letters (NFD) and
 * delete the combining diacritical marks U+0300..U+036F.
 *
 * Characters are Unicode scalar values. Lower-casing covers ASCII and the Latin-1
 * capitals; decomposition covers the precomposed Latin-1 lower-case letters, which is
 * everything the lower-casing step can leave behind from Latin-1 input.
 */
module Names {
  import opened Seqs

  predicate IsUpper(c: char) {
    ('A' <= c <= 'Z') || ('\U{C0}' <= c <= '\U{DE}' && c != '\U{D7}')
  }

  /** The block of combining diacritical marks that the accent-stripping regular expression deletes. */
  predicate IsCombiningMark(c: char) {
    '\U{300}' <= c <= '\U{36F}'
  }

  function ToLower(c: char): (r: char)
    ensures !IsUpper(r)
    ensures r == ' ' <==> c == ' '
    ensures !IsUpper(c) ==> r == c
  {
    if IsUpper(c) then (c as int + 32) as char else c
  }

  /** `toLowerCase`: one character for one, and no capital letter survives. */
  function LowerCase(s: string): (r: string)
    ensures |r| == |s| && forall i | 0 <= i < |s| :: r[i] == ToLower(s[i])
    ensures forall x | x in r :: !IsUpper(x)
    ensures multiset(r)[' '] == multiset(s)[' ']
    ensures (forall x | x in s :: !IsUpper(x)) ==> r == s
  {
    if s == [] then []
    else
      assert s == [s[0]] + s[1..];
      [ToLower(s[0])] + LowerCase(s[1..])
  }

  /**
   * `replace(c, "")` with a string pattern: only the first occurrence of `c` is deleted;
   * a string without `c` comes back unchanged.
   */
  function RemoveFirst(s: string, c: char): (r: string)
    ensures c !in s ==> r == s
    ensures c in s ==> exists i | 0 <= i < |s| :: s[i] == c && c !in s[..i] && r == s[..i] + s[i + 1..]
    ensures multiset(r) == multiset(s) - multiset{c}
  {
    var i := IndexOf(s, c);
    if i == |s| then s
    else
      assert s == s[..i] + [c] + s[i + 1..];
      s[..i] + s[i + 1..]
  }

  /** The precomposed Latin-1 lower-case letters: a base letter carrying one accent. */
  predicate IsPrecomposed(c: char) {
    '\U{E0}' <= c <= '\U{FF}' && c != '\U{E6}' && c != '\U{F0}' && c != '\U{F7}' && c != '\U{F8}' && c != '\U{FE}'
  }

  /** The base letter of a precomposed letter (`é` gives `e`). */
  function BaseLetter(c: char): (r: char)
    requires IsPrecomposed(c)
    ensures 'a' <= r <= 'z'
  {
    if c <= '\U{E5}' then 'a'
    else if c == '\U{E7}' then 'c'
    else if c <= '\U{EB}' then 'e'
    else if c <= '\U{EF}' then 'i'
    else if c == '\U{F1}' then 'n'
    else if c <= '\U{F6}' then 'o'
    else if c <= '\U{FC}' then 'u'
    else 'y'
  }

  /**
   * The accent of a precomposed letter, as its offset in the combining block: 0 grave,
   * 1 acute, 2 circumflex, 3 tilde, 8 diaeresis, 0xA ring above, 0x27 cedilla.
   */
  function AccentOffset(c: char): (r: nat)
    requires IsPrecomposed(c)
    ensures r <= 0x6F
  {
    var k := c as int;
    if k <= 0xE5 then (if k - 0xE0 < 4 then k - 0xE0 else if k == 0xE4 then 8 else 0xA)
    else if k == 0xE7 then 0x27
    else if k <= 0xEB then (if k - 0xE8 < 3 then k - 0xE8 else 8)
    else if k <= 0xEF then (if k - 0xEC < 3 then k - 0xEC else 8)
    else if k == 0xF1 then 3
    else if k <= 0xF6 then (if k - 0xF2 < 4 then k - 0xF2 else 8)
    else if k <= 0xFC then (if k - 0xF9 < 3 then k - 0xF9 else 8)
    else if k == 0xFD then 1
    else 8
  }

  /** Canonical decomposition of one character: a precomposed letter becomes its base letter and one combining mark. */
  function Decompose(c: char): (r: string)
    ensures IsPrecomposed(c) ==> |r| == 2 && r[0] == BaseLetter(c) && IsCombiningMark(r[1])
    ensures !IsPrecomposed(c) ==> r == [c]
  {
    if IsPrecomposed(c) then [BaseLetter(c), (0x300 + AccentOffset(c)) as char] else [c]
  }

  /** `normalize('NFD')`: every character is replaced by its decomposition. */
  function Nfd(s: string): (r: string)
    ensures forall x | x in r :: x in s || 'a' <= x <= 'z' || IsCombiningMark(x)
    ensures multiset(r)[' '] == multiset(s)[' ']
    ensures (forall i | 0 <= i < |s| :: s[i] < '\U{80}') ==> r == s
  {
    if s == [] then []
    else
      assert s == [s[0]] + s[1..];
      Decompose(s[0]) + Nfd(s[1..])
  }

  /** Decomposition takes every precomposed letter apart: the letter is gone and its base letter is there. */
  lemma {:induction false} NfdSplitsAccents(s: string)
    ensures forall x | x in s && IsPrecomposed(x) :: x !in Nfd(s) && BaseLetter(x) in Nfd(s)
  {
    if s != [] {
      NfdSplitsAccents(s[1..]);
      var head, tail := Decompose(s[0]), Nfd(s[1..]);
      assert Nfd(s) == head + tail;
      forall x | x in s && IsPrecomposed(x) ensures x !in head + tail && BaseLetter(x) in head + tail {
        assert x !in head;
        if x == s[0] {
          assert BaseLetter(x) == head[0];
        } else {
          assert x in s[1..];
        }
      }
    }
  }

  predicate NotMark(c: char) {
    !IsCombiningMark(c)
  }

  /** `replace(/[̀-ͯ]/g, "")`: every combining mark is deleted, everything else kept in order. */
  function StripMarks(s: string): (r: string)
    ensures forall x | x in r :: x in s && !IsCombiningMark(x)
    ensures forall x | !IsCombiningMark(x) :: multiset(r)[x] == multiset(s)[x]
    ensures (forall x | x in s :: !IsCombiningMark(x)) ==> r == s
    ensures IsSubsequence(r, s)
  {
    var r := Filter(s, NotMark);
    forall x | !IsCombiningMark(x) ensures multiset(r)[x] == multiset(s)[x] {
      FilterCount(s, NotMark, x);
    }
    FilterIsSubsequence(s, NotMark);
    r
  }

  /** A character with its accent taken off: the base letter of a precomposed letter, any other character as it is. */
  function Unaccented(c: char): char {
    if IsPrecomposed(c) then BaseLetter(c) else c
  }

  /** Decomposing a character that is not a mark in front of `tail` and deleting the marks leaves the character without its accent in front of what is left of `tail`. */
  lemma StripDecompose(c: char, tail: string)
    requires !IsCombiningMark(c)
    ensures Filter(Decompose(c) + tail, NotMark) == [Unaccented(c)] + Filter(tail, NotMark)
  {
    var s := Decompose(c) + tail;
    if IsPrecomposed(c) {
      assert s[1..][1..] == tail;
      assert NotMark(s[0]) && !NotMark(s[1..][0]);
    } else {
      assert s[1..] == tail;
    }
  }

  /** A character without its accent in front of the unaccented rest of `s` is the unaccented `s`. */
  lemma UnaccentedCons(s: string, rest: string)
    requires s != [] && |rest| == |s| - 1
    requires forall i | 0 <= i < |rest| :: rest[i] == Unaccented(s[1..][i])
    ensures forall i | 0 <= i < |s| :: ([Unaccented(s[0])] + rest)[i] == Unaccented(s[i])
  {
    forall i | 0 < i < |s| ensures ([Unaccented(s[0])] + rest)[i] == Unaccented(s[i]) {
      assert s[1..][i - 1] == s[i];
    }
  }

  /** The induction behind `StripNfdUnaccents`, on the filter that `StripMarks` applies. */
  lemma {:induction false} FilterNfd(s: string)
    requires forall i | 0 <= i < |s| :: !IsCombiningMark(s[i])
    ensures |Filter(Nfd(s), NotMark)| == |s|
    ensures forall i | 0 <= i < |s| :: Filter(Nfd(s), NotMark)[i] == Unaccented(s[i])
  {
    if s != [] {
      var tail := Nfd(s[1..]);
      FilterNfd(s[1..]);
      assert Nfd(s) == Decompose(s[0]) + tail;
      StripDecompose(s[0], tail);
      UnaccentedCons(s, Filter(tail, NotMark));
    }
  }

  /**
   * Decomposing and then deleting the marks takes the accent off each precomposed letter
   * and keeps every other character, one for one and in order, when the text holds no
   * combining mark of its own.
   */
  lemma StripNfdUnaccents(s: string)
    requires forall i | 0 <= i < |s| :: !IsCombiningMark(s[i])
    ensures |StripMarks(Nfd(s))| == |s|
    ensures forall i | 0 <= i < |s| :: StripMarks(Nfd(s))[i] == Unaccented(s[i])
  {
    FilterNfd(s);
  }

  /**
   * The normalised form of a name: it has no capital letter and no combining mark, and it
   * holds exactly one space fewer than the name when the name has a space (only the first
   * space is deleted), and no space otherwise.
   */
  function FormatName(name: string): (r: string)
    ensures forall x | x in r :: !IsUpper(x) && !IsCombiningMark(x)
    ensures multiset(r)[' '] == if ' ' in name then multiset(name)[' '] - 1 else 0
  {
    var spaced := RemoveFirst(LowerCase(name), ' ');
    LowerThenRemove(name);
    var decomposed := Nfd(spaced);
    assert forall x | x in decomposed :: !IsUpper(x) || IsCombiningMark(x);
    assert !IsCombiningMark(' ');
    StripMarks(decomposed)
  }

  /** The first two steps of `FormatName`: no capital is left, and the space count drops by one when there was a space. */
  lemma LowerThenRemove(name: string)
    ensures forall x | x in RemoveFirst(LowerCase(name), ' ') :: !IsUpper(x)
    ensures multiset(RemoveFirst(LowerCase(name), ' '))[' '] == if ' ' in name then multiset(name)[' '] - 1 else 0
  {
    var lowered := LowerCase(name);
    var spaced := RemoveFirst(lowered, ' ');
    forall x | x in spaced ensures !IsUpper(x) {
      assert multiset(spaced)[x] > 0;
      assert x in lowered;
    }
    assert ' ' in name <==> multiset(lowered)[' '] > 0;
  }

  /**
   * A name without spaces or combining marks is normalised one character for one: each
   * character is lower-cased and then loses its accent.
   */
  lemma FormatNameByLetter(name: string)
    requires ' ' !in name
    requires forall i | 0 <= i < |name| :: !IsCombiningMark(name[i])
    ensures |FormatName(name)| == |name|
    ensures forall i | 0 <= i < |name| :: FormatName(name)[i] == Unaccented(ToLower(name[i]))
  {
    var lowered := LowerCase(name);
    assert multiset(lowered)[' '] == 0;
    assert RemoveFirst(lowered, ' ') == lowered;
    forall i | 0 <= i < |lowered| ensures !IsCombiningMark(lowered[i]) {
      assert lowered[i] == ToLower(name[i]);
    }
    StripNfdUnaccents(lowered);
  }

  /** A name without spaces or combining marks normalises to `expected` when each character, lower-cased and unaccented, gives the character of `expected` at its place. */
  lemma FormatNameIs(name: string, expected: string)
    requires ' ' !in name && |expected| == |name|
    requires forall i | 0 <= i < |name| :: !IsCombiningMark(name[i]) && Unaccented(ToLower(name[i])) == expected[i]
    ensures FormatName(name) == expected
  {
    FormatNameByLetter(name);
    PointwiseEqual(FormatName(name), expected);
  }

  /** Character by character, a capital, a lower-case ASCII word and an accented letter lose their case and accent as expected. */
  lemma CapitalWordAccent(first: char, word: string, last: char)
    requires 'A' <= first <= 'Z' && IsPlain(word) && ' ' !in word && IsPrecomposed(last)
    ensures var name := [first] + word + [last];
      && ' ' !in name
      && (forall i | 0 <= i < |name| :: !IsCombiningMark(name[i]))
      && forall i | 0 <= i < |name| ::
           Unaccented(ToLower(name[i])) == ([ToLower(first)] + word + [BaseLetter(last)])[i]
  {
    var name := [first] + word + [last];
    var expected := [ToLower(first)] + word + [BaseLetter(last)];
    forall i | 0 <= i < |name|
      ensures name[i] != ' ' && !IsCombiningMark(name[i]) && Unaccented(ToLower(name[i])) == expected[i]
    {
      if 0 < i <= |word| {
        assert name[i] == word[i - 1] && expected[i] == word[i - 1];
      }
    }
  }

  /**
   * A capitalised name ending in an accented letter, such as "Beyoncé", normalises to its
   * lower-case form with the accent taken off ("beyonce").
   */
  lemma FormatNameTakesAccentsOff(first: char, word: string, last: char)
    requires 'A' <= first <= 'Z' && IsPlain(word) && ' ' !in word && IsPrecomposed(last)
    ensures FormatName([first] + word + [last]) == [ToLower(first)] + word + [BaseLetter(last)]
  {
    CapitalWordAccent(first, word, last);
    FormatNameIs([first] + word + [last], [ToLower(first)] + word + [BaseLetter(last)]);
  }

  /** A name that is already lower-case ASCII without spaces is its own normal form. */
  lemma FormatNameFixesNormalised(name: string)
    requires forall i | 0 <= i < |name| :: name[i] < '\U{80}' && !IsUpper(name[i]) && name[i] != ' '
    ensures FormatName(name) == name
  {
    assert LowerCase(name) == name;
    assert RemoveFirst(name, ' ') == name;
    assert Nfd(name) == name;
  }

  /** Lower-case ASCII text, which every step of the normalisation leaves alone except the space deletion. */
  predicate IsPlain(s: string) {
    forall i | 0 <= i < |s| :: s[i] < '\U{80}' && !IsUpper(s[i])
  }

  lemma PlainConcat(x: string, y: string)
    requires IsPlain(x) && IsPlain(y)
    ensures IsPlain(x + y)
  {
    forall k | 0 <= k < |x + y| ensures (x + y)[k] < '\U{80}' && !IsUpper((x + y)[k]) {
      if k >= |x| {
        assert (x + y)[k] == y[k - |x|];
      }
    }
  }

  lemma LowerCasePlain(s: string)
    requires IsPlain(s)
    ensures LowerCase(s) == s
  {
    assert forall x | x in s :: !IsUpper(x);
  }

  lemma StripNfdPlain(s: string)
    requires IsPlain(s)
    ensures StripMarks(Nfd(s)) == s
  {
    assert Nfd(s) == s;
    assert forall x | x in s :: !IsCombiningMark(x);
  }

  /** Deleting the first space of "a rest", where `a` has none, gives "arest". */
  lemma RemoveFirstSpaceAfter(a: string, rest: string)
    requires ' ' !in a
    ensures RemoveFirst(a + " " + rest, ' ') == a + rest
  {
    var name := a + " " + rest;
    assert name[|a|] == ' ';
    assert IndexOf(name, ' ') == |a|;
    assert name[..|a|] == a;
    assert name[|a| + 1..] == rest;
  }

  /**
   * Only the first space goes: for lower-case ASCII words `a`, `b` without spaces and
   * lower-case ASCII text `c`, "a b c" normalises to "ab c".
   */
  lemma FormatNameKeepsLaterSpaces(a: string, b: string, c: string)
    requires IsPlain(a) && IsPlain(b) && IsPlain(c)
    requires ' ' !in a && ' ' !in b
    ensures FormatName(a + " " + b + " " + c) == a + b + " " + c
  {
    var rest := b + " " + c;
    assert a + " " + b + " " + c == a + " " + rest;
    assert a + b + " " + c == a + rest;
    PlainConcat(b, " ");
    PlainConcat(b + " ", c);
    PlainConcat(a, " ");
    PlainConcat(a + " ", rest);
    PlainConcat(a, rest);
    LowerCasePlain(a + " " + rest);
    RemoveFirstSpaceAfter(a, rest);
    StripNfdPlain(a + rest);
  }
}
