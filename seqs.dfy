/**
 * Sequence operations that the source borrows from JavaScript's arrays and strings:
 * `indexOf`, `splice(k, 1)`, `filter`, `findIndex` and `find`, together with the
 * notion of a subsequence used to say that an operation only removes entries.
 */
module Seqs {
  import opened Wrappers

  /** Position of the first `x` in `s`, or `|s|` when `s` holds none (`indexOf`, with -1 read as `|s|`). */
  function IndexOf<T(==)>(s: seq<T>, x: T): (r: nat)
    ensures r <= |s|
    ensures r < |s| ==> s[r] == x
    ensures forall i | 0 <= i < r :: s[i] != x
    ensures r == |s| <==> x !in s
  {
    if s == [] then 0
    else if s[0] == x then 0
    else 1 + IndexOf(s[1..], x)
  }

  /** `s` with the entry at `k` taken out and the later entries shifted down (`splice(k, 1)`). */
  function Remove<T>(s: seq<T>, k: nat): (r: seq<T>)
    requires k < |s|
    ensures |r| == |s| - 1
  {
    s[..k] + s[k + 1..]
  }

  /** The entries before `k` stay in place and the later ones move down by one. */
  lemma RemoveIndices<T>(s: seq<T>, k: nat)
    requires k < |s|
    ensures forall i | 0 <= i < k :: Remove(s, k)[i] == s[i]
    ensures forall i | k <= i < |s| - 1 :: Remove(s, k)[i] == s[i + 1]
  {
  }

  /** `idx` lists, in increasing order, the positions in `b` that the entries of `a` come from. */
  ghost predicate Embeds<T>(idx: seq<nat>, a: seq<T>, b: seq<T>) {
    && |idx| == |a|
    && (forall i {:trigger idx[i]} | 0 <= i < |idx| :: idx[i] < |b| && a[i] == b[idx[i]])
    && (forall i, j | 0 <= i < j < |idx| :: idx[i] < idx[j])
  }

  /** `a` is `b` with some entries deleted and the rest kept in their order. */
  ghost predicate IsSubsequence<T>(a: seq<T>, b: seq<T>) {
    exists idx :: Embeds(idx, a, b)
  }

  /** Deleting one entry of `a` keeps it embedded in `b`. */
  lemma EmbedsRemove<T>(idx: seq<nat>, a: seq<T>, b: seq<T>, k: nat)
    requires Embeds(idx, a, b) && k < |a|
    ensures Embeds(Remove(idx, k), Remove(a, k), b)
  {
    var idx', a' := Remove(idx, k), Remove(a, k);
    RemoveIndices(idx, k);
    RemoveIndices(a, k);
    forall i, j | 0 <= i < j < |idx'| ensures idx'[i] < idx'[j] {
      var i0 := if i < k then i else i + 1;
      var j0 := if j < k then j else j + 1;
      assert idx'[i] == idx[i0] && idx'[j] == idx[j0];
    }
  }

  /** The entries of `s` that satisfy `p`, in their order (`filter`). */
  function Filter<T>(s: seq<T>, p: T -> bool): (r: seq<T>)
    ensures |r| <= |s|
    ensures forall i | 0 <= i < |r| :: p(r[i])
    ensures forall i | 0 <= i < |r| :: r[i] in s
    ensures forall i | 0 <= i < |s| && p(s[i]) :: s[i] in r
    ensures r == [] <==> forall i | 0 <= i < |s| :: !p(s[i])
    ensures (forall i | 0 <= i < |s| :: p(s[i])) ==> r == s
  {
    if s == [] then []
    else if p(s[0]) then [s[0]] + Filter(s[1..], p)
    else Filter(s[1..], p)
  }

  /** An embedding into `b` carries over to `[x] + b`, every position moving up by one, and extends to `[x] + a`. */
  lemma EmbedsPrepend<T>(idx: seq<nat>, a: seq<T>, b: seq<T>, x: T) returns (shifted: seq<nat>)
    requires Embeds(idx, a, b)
    ensures Embeds(shifted, a, [x] + b)
    ensures Embeds([0] + shifted, [x] + a, [x] + b)
  {
    shifted := seq(|idx|, i requires 0 <= i < |idx| => idx[i] + 1);
    var cons := [0] + shifted;
    forall i | 0 <= i < |idx| ensures shifted[i] < |[x] + b| && a[i] == ([x] + b)[shifted[i]] {
      assert shifted[i] == idx[i] + 1;
    }
    forall i | 0 <= i < |cons| ensures cons[i] < |[x] + b| && ([x] + a)[i] == ([x] + b)[cons[i]] {
      if i > 0 {
        assert cons[i] == shifted[i - 1];
      }
    }
    forall i, j | 0 <= i < j < |cons| ensures cons[i] < cons[j] {
      assert cons[j] == idx[j - 1] + 1;
      if i > 0 {
        assert cons[i] == idx[i - 1] + 1;
      }
    }
  }

  /** Filtering only deletes entries. */
  lemma {:induction false} FilterIsSubsequence<T>(s: seq<T>, p: T -> bool)
    ensures IsSubsequence(Filter(s, p), s)
  {
    if s == [] {
      assert Embeds([], Filter(s, p), s);
    } else {
      FilterIsSubsequence(s[1..], p);
      var tail := Filter(s[1..], p);
      var rest :| Embeds(rest, tail, s[1..]);
      var shifted := EmbedsPrepend(rest, tail, s[1..], s[0]);
      assert [s[0]] + s[1..] == s;
      if p(s[0]) {
        assert Filter(s, p) == [s[0]] + tail;
        assert Embeds([0] + shifted, Filter(s, p), s);
      } else {
        assert Filter(s, p) == tail;
        assert Embeds(shifted, Filter(s, p), s);
      }
    }
  }

  /** Sequences that agree at every position are equal. */
  lemma PointwiseEqual<T>(a: seq<T>, b: seq<T>)
    requires |a| == |b| && forall i | 0 <= i < |a| :: a[i] == b[i]
    ensures a == b
  {
  }

  /** Filtering keeps, for each value, as many copies as `s` has when `p` accepts it, and none otherwise. */
  lemma {:induction false} FilterCount<T>(s: seq<T>, p: T -> bool, x: T)
    ensures multiset(Filter(s, p))[x] == if p(x) then multiset(s)[x] else 0
  {
    if s != [] {
      FilterCount(s[1..], p, x);
      assert s == [s[0]] + s[1..];
    }
  }

  /** `r` is the first entry of `s` that satisfies `p`, or `None` when no entry does. */
  ghost predicate IsFirst<T>(s: seq<T>, p: T -> bool, r: Option<T>) {
    match r
    case None => forall i | 0 <= i < |s| :: !p(s[i])
    case Some(x) => exists i | 0 <= i < |s| :: s[i] == x && p(x) && forall j | 0 <= j < i :: !p(s[j])
  }

  /** The first entry that satisfies `p`, if any (`find`). */
  function FindFirst<T>(s: seq<T>, p: T -> bool): Option<T> {
    if s == [] then None
    else if p(s[0]) then Some(s[0])
    else FindFirst(s[1..], p)
  }

  lemma {:induction false} FindFirstIsFirst<T>(s: seq<T>, p: T -> bool)
    ensures IsFirst(s, p, FindFirst(s, p))
  {
    if s != [] && !p(s[0]) {
      var rest := s[1..];
      FindFirstIsFirst(rest, p);
      match FindFirst(rest, p)
      case None =>
        forall i | 0 <= i < |s| ensures !p(s[i]) {
          if i > 0 {
            assert s[i] == rest[i - 1];
          }
        }
      case Some(x) =>
        var i :| 0 <= i < |rest| && rest[i] == x && p(x) && forall j | 0 <= j < i :: !p(rest[j]);
        assert s[i + 1] == x;
        forall j | 0 <= j < i + 1 ensures !p(s[j]) {
          if j > 0 {
            assert s[j] == rest[j - 1];
          }
        }
    }
  }

  /** `find`'s result is the only value that is the first entry satisfying `p`. */
  lemma IsFirstUnique<T>(s: seq<T>, p: T -> bool, r: Option<T>)
    requires IsFirst(s, p, r)
    ensures r == FindFirst(s, p)
  {
    FindFirstIsFirst(s, p);
    var found := FindFirst(s, p);
    if r.Some? && found.Some? {
      var i :| 0 <= i < |s| && s[i] == r.value && p(r.value) && forall j | 0 <= j < i :: !p(s[j]);
      var k :| 0 <= k < |s| && s[k] == found.value && p(found.value) && forall j | 0 <= j < k :: !p(s[j]);
      assert !(i < k) && !(k < i);
    }
  }

  /** The head of a filter is what `find` returns (`filter(p)[0]` is `find(p)`). */
  lemma {:induction false} FilterHeadIsFind<T>(s: seq<T>, p: T -> bool)
    ensures (if Filter(s, p) == [] then None else Some(Filter(s, p)[0])) == FindFirst(s, p)
  {
    if s != [] && !p(s[0]) {
      FilterHeadIsFind(s[1..], p);
    }
  }

  /** Two predicates that agree on every entry find the same entry. */
  lemma {:induction false} FindFirstAgrees<T>(s: seq<T>, p: T -> bool, q: T -> bool)
    requires forall i | 0 <= i < |s| :: p(s[i]) == q(s[i])
    ensures FindFirst(s, p) == FindFirst(s, q)
  {
    if s != [] && !p(s[0]) {
      FindFirstAgrees(s[1..], p, q);
    }
  }
}
