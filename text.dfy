/** Optional values, as Rust's `Option`. */
module Options {
  datatype Option<+T> = None | Some(value: T)
}

/**
 * The text of a row seen at three granularities: extended grapheme
 * clusters (the unit of every column), characters (Unicode scalar values,
 * what `chars()` yields) and UTF-8 bytes (what `str::len` counts).
 *
 * Grapheme segmentation itself is not modelled: a row carries the clusters
 * its text segments into, and `Segments` says when a sequence of clusters
 * is a segmentation of a string.
 */
module Text {
  import opened Options

  /** The text a sequence of clusters spells out. */
  function Concat(gs: seq<seq<char>>): seq<char>
  {
    if gs == [] then [] else Concat(gs[..|gs| - 1]) + gs[|gs| - 1]
  }

  /**
   * The text of the clusters `lo` up to `hi`, collected one cluster after
   * the other, as the window of `find` is collected cluster by cluster;
   * `CollectIsConcat` proves it is the concatenation of that slice.
   */
  function Collect(gs: seq<seq<char>>, lo: nat, hi: nat): seq<char>
    requires lo <= hi <= |gs|
    decreases hi - lo
  {
    if lo == hi then [] else Collect(gs, lo, hi - 1) + gs[hi - 1]
  }

  /** Every cluster holds at least one character. */
  ghost predicate AllNonEmpty(gs: seq<seq<char>>)
  {
    forall i :: 0 <= i < |gs| ==> gs[i] != []
  }

  /** `gs` is a segmentation of `s` into clusters. */
  ghost predicate Segments(gs: seq<seq<char>>, s: seq<char>)
  {
    AllNonEmpty(gs) && Concat(gs) == s
  }

  /** The character offset at which cluster `j` starts: the lengths of the clusters before it, added up. */
  function Offset(gs: seq<seq<char>>, j: nat): nat
    requires j <= |gs|
  {
    if j == 0 then 0 else Offset(gs, j - 1) + |gs[j - 1]|
  }

  lemma {:induction false} ConcatAppend(a: seq<seq<char>>, b: seq<seq<char>>)
    ensures Concat(a + b) == Concat(a) + Concat(b)
    decreases |b|
  {
    if b == [] {
      assert a + b == a;
    } else {
      var ab, b' := a + b, b[..|b| - 1];
      assert ab[..|ab| - 1] == a + b' && ab[|ab| - 1] == b[|b| - 1];
      assert Concat(ab) == Concat(a + b') + b[|b| - 1];
      assert Concat(b) == Concat(b') + b[|b| - 1];
      ConcatAppend(a, b');
      assert Concat(a) + Concat(b) == (Concat(a) + Concat(b')) + b[|b| - 1];
    }
  }

  /** Extending a run of clusters by one more cluster extends its text by that cluster. */
  lemma ConcatExtend(gs: seq<seq<char>>, lo: nat, i: nat)
    requires lo <= i < |gs|
    ensures Concat(gs[lo..i + 1]) == Concat(gs[lo..i]) + gs[i]
  {
    assert gs[lo..i + 1][..i - lo] == gs[lo..i];
  }

  /** Extending a prefix of the clusters by one more cluster extends its text by that cluster. */
  lemma ConcatPrefixStep(gs: seq<seq<char>>, i: nat)
    requires i < |gs|
    ensures Concat(gs[..i + 1]) == Concat(gs[..i]) + gs[i]
  {
    ConcatExtend(gs, 0, i);
    assert gs[0..i] == gs[..i] && gs[0..i + 1] == gs[..i + 1];
  }

  /** Collecting a run of clusters spells out the run. */
  lemma {:induction false} CollectIsConcat(gs: seq<seq<char>>, lo: nat, hi: nat)
    requires lo <= hi <= |gs|
    ensures Collect(gs, lo, hi) == Concat(gs[lo..hi])
    decreases hi - lo
  {
    if lo < hi {
      CollectIsConcat(gs, lo, hi - 1);
      ConcatExtend(gs, lo, hi - 1);
    }
  }

  /** Cluster `j` starts right after the text of the clusters before it. */
  lemma {:induction false} OffsetIsConcat(gs: seq<seq<char>>, j: nat)
    requires j <= |gs|
    ensures Offset(gs, j) == |Concat(gs[..j])|
    decreases j
  {
    if j > 0 {
      OffsetIsConcat(gs, j - 1);
      ConcatExtend(gs, 0, j - 1);
      assert gs[0..j - 1] == gs[..j - 1] && gs[0..j] == gs[..j];
    }
  }

  /** The clusters of a contiguous run spell out the matching slice of the text. */
  lemma ConcatSlice(gs: seq<seq<char>>, lo: nat, hi: nat)
    requires lo <= hi <= |gs|
    ensures Offset(gs, lo) <= Offset(gs, hi) <= |Concat(gs)|
    ensures Concat(gs[lo..hi]) == Concat(gs)[Offset(gs, lo)..Offset(gs, hi)]
  {
    assert gs == gs[..lo] + gs[lo..hi] + gs[hi..];
    assert gs[..hi] == gs[..lo] + gs[lo..hi];
    ConcatAppend(gs[..lo], gs[lo..hi]);
    ConcatAppend(gs[..hi], gs[hi..]);
    OffsetIsConcat(gs, lo);
    OffsetIsConcat(gs, hi);
  }

  /** Offsets taken inside a run are offsets of the whole sequence, shifted. */
  lemma {:induction false} OffsetInSlice(gs: seq<seq<char>>, lo: nat, hi: nat, j: nat)
    requires lo <= hi <= |gs| && j <= hi - lo
    ensures Offset(gs, lo) <= Offset(gs, lo + j)
    ensures Offset(gs[lo..hi], j) == Offset(gs, lo + j) - Offset(gs, lo)
    decreases j
  {
    if j > 0 {
      OffsetInSlice(gs, lo, hi, j - 1);
      assert gs[lo..hi][j - 1] == gs[lo + j - 1];
    }
  }

  /** With non-empty clusters, offsets strictly increase with the cluster index. */
  lemma {:induction false} OffsetStrict(gs: seq<seq<char>>, i: nat, j: nat)
    requires AllNonEmpty(gs) && i < j <= |gs|
    ensures Offset(gs, i) < Offset(gs, j)
    decreases j - i
  {
    if i < j - 1 {
      OffsetStrict(gs, i, j - 1);
    }
  }

  /** With non-empty clusters, column `j` starts at least `j` characters in. */
  lemma {:induction false} OffsetAtLeast(gs: seq<seq<char>>, j: nat)
    requires AllNonEmpty(gs) && j <= |gs|
    ensures j <= Offset(gs, j)
    decreases j
  {
    if j > 0 {
      OffsetAtLeast(gs, j - 1);
    }
  }

  /** A segmentation never has more clusters than its text has characters. */
  lemma {:induction false} ClusterCountBound(gs: seq<seq<char>>)
    requires AllNonEmpty(gs)
    ensures |gs| <= |Concat(gs)|
    decreases |gs|
  {
    if gs != [] {
      ClusterCountBound(gs[..|gs| - 1]);
    }
  }

  /** Bytes taken by one character in UTF-8. */
  function Utf8Width(c: char): (w: nat)
    ensures 1 <= w <= 4
    ensures w == 1 <==> (c as int) < 0x80
  {
    if (c as int) < 0x80 then 1
    else if (c as int) < 0x800 then 2
    else if (c as int) < 0x1_0000 then 3
    else 4
  }

  /** Length in UTF-8 bytes, what `str::len` returns. */
  function ByteLen(s: seq<char>): (n: nat)
    ensures |s| <= n <= 4 * |s|
  {
    if s == [] then 0 else ByteLen(s[..|s| - 1]) + Utf8Width(s[|s| - 1])
  }

  /** `q` occurs in `s` starting at character offset `p`. */
  predicate OccursAt(s: seq<char>, q: seq<char>, p: nat)
  {
    p + |q| <= |s| && s[p..p + |q|] == q
  }

  /** `q` occurs at `p` entirely inside the character window `[lo, hi)` of `s`. */
  ghost predicate OccursWithin(s: seq<char>, q: seq<char>, lo: nat, hi: nat, p: nat)
  {
    lo <= p && p + |q| <= hi <= |s| && s[p..p + |q|] == q
  }

  /** `p` is the first occurrence of `q` inside the window `[lo, hi)`. */
  ghost predicate FirstWithin(s: seq<char>, q: seq<char>, lo: nat, hi: nat, p: nat)
  {
    OccursWithin(s, q, lo, hi, p) && forall p' :: lo <= p' < p ==> !OccursWithin(s, q, lo, hi, p')
  }

  /** `p` is the last occurrence of `q` inside the window `[lo, hi)`. */
  ghost predicate LastWithin(s: seq<char>, q: seq<char>, lo: nat, hi: nat, p: nat)
  {
    OccursWithin(s, q, lo, hi, p) && forall p' :: p < p' ==> !OccursWithin(s, q, lo, hi, p')
  }

  /** An occurrence in the slice `s[L..H]` is an occurrence in the window `[L, H)` of `s`, shifted by `L`. */
  lemma SliceOccurrence(s: seq<char>, q: seq<char>, L: nat, H: nat, b: nat)
    requires L <= H <= |s|
    ensures OccursAt(s[L..H], q, b) <==> OccursWithin(s, q, L, H, L + b)
  {
    if b + |q| <= H - L {
      var u, v := s[L..H][b..b + |q|], s[L + b..L + b + |q|];
      forall k | 0 <= k < |q| ensures u[k] == v[k] {
        assert u[k] == s[L + b + k];
      }
      assert u == v;
    }
  }

  /** Leftmost occurrence of `q` in `s` at offset `p` or later. */
  function IndexFrom(s: seq<char>, q: seq<char>, p: nat): (r: Option<nat>)
    ensures r.Some? ==> p <= r.value && OccursAt(s, q, r.value)
    ensures r.Some? ==> forall p' :: p <= p' < r.value ==> !OccursAt(s, q, p')
    ensures r.None? ==> forall p' :: p <= p' ==> !OccursAt(s, q, p')
    decreases |s| - p
  {
    if p + |q| > |s| then None
    else if s[p..p + |q|] == q then Some(p)
    else IndexFrom(s, q, p + 1)
  }

  /** Leftmost occurrence, as `str::find` returns it (in characters rather than bytes). */
  function IndexOf(s: seq<char>, q: seq<char>): (r: Option<nat>)
    ensures r.Some? ==> OccursAt(s, q, r.value) && forall p': nat :: p' < r.value ==> !OccursAt(s, q, p')
    ensures r.None? ==> forall p': nat :: !OccursAt(s, q, p')
  {
    IndexFrom(s, q, 0)
  }

  /** Rightmost occurrence of `q` in `s` at offset `p` or earlier. */
  function LastIndexFrom(s: seq<char>, q: seq<char>, p: nat): (r: Option<nat>)
    ensures r.Some? ==> r.value <= p && OccursAt(s, q, r.value)
    ensures r.Some? ==> forall p' :: r.value < p' <= p ==> !OccursAt(s, q, p')
    ensures r.None? ==> forall p': nat :: p' <= p ==> !OccursAt(s, q, p')
  {
    if OccursAt(s, q, p) then Some(p)
    else if p == 0 then None
    else LastIndexFrom(s, q, p - 1)
  }

  /** Rightmost occurrence, as `str::rfind` returns it (in characters rather than bytes). */
  function LastIndexOf(s: seq<char>, q: seq<char>): (r: Option<nat>)
    ensures r.Some? ==> OccursAt(s, q, r.value) && forall p': nat :: r.value < p' ==> !OccursAt(s, q, p')
    ensures r.None? ==> forall p': nat :: !OccursAt(s, q, p')
  {
    if |q| > |s| then None else LastIndexFrom(s, q, |s| - |q|)
  }

  /**
   * `found` is what a search of the window `[L, H)` of `s` for `q` should
   * report, relative to `L`: nothing when `q` does not occur there, else
   * the first occurrence (`forward`) or the last one.
   */
  ghost predicate Extreme(s: seq<char>, q: seq<char>, L: nat, H: nat, forward: bool, found: Option<nat>)
  {
    match found
    case None => forall p: nat :: !OccursWithin(s, q, L, H, p)
    case Some(b) => if forward then FirstWithin(s, q, L, H, L + b) else LastWithin(s, q, L, H, L + b)
  }

  /** Searching the slice `s[L..H]` finds the extreme occurrence in the window `[L, H)` of `s`, or finds none when there is none. */
  lemma SliceSearch(s: seq<char>, q: seq<char>, L: nat, H: nat, forward: bool, found: Option<nat>)
    requires L <= H <= |s|
    requires found == if forward then IndexOf(s[L..H], q) else LastIndexOf(s[L..H], q)
    ensures Extreme(s, q, L, H, forward, found)
  {
    forall p: nat | OccursWithin(s, q, L, H, p)
      ensures p >= L && OccursAt(s[L..H], q, p - L)
    {
      SliceOccurrence(s, q, L, H, p - L);
    }
    if found.Some? {
      SliceOccurrence(s, q, L, H, found.value);
    }
  }
}
