/**
 * A row of the document: its text, the number of grapheme clusters in it
 * (cached), and the tag vector of the last highlighting pass. Every
 * column is a cluster index.
 */
module Rows {
  import opened Options
  import opened Text
  import Highlighting

  datatype SearchDirection = Forward | Backward

  /**
   * One unit of `render`'s output: a visible character, a change of
   * foreground colour to the colour of a tag, or the final colour reset.
   */
  datatype Piece = Char(c: char) | Color(tag: Highlighting.Type) | Reset

  /** The tag of column `i`; columns past the tag vector count as `None`. */
  function TagAt(hl: seq<Highlighting.Type>, i: nat): Highlighting.Type
  {
    if i < |hl| then hl[i] else Highlighting.None
  }

  /** The colour in effect before column `i` when rendering starts at `lower`. */
  function TagBefore(hl: seq<Highlighting.Type>, lower: nat, i: nat): Highlighting.Type
  {
    if i <= lower then Highlighting.None else TagAt(hl, i - 1)
  }

  /** A tab is shown as one space; every other character as itself. */
  function Shown(c: char): char
  {
    if c == '\t' then ' ' else c
  }

  /** The pieces for column `i`: a colour change if its tag differs from the one in effect, then its first character. */
  function Painted(gs: seq<seq<char>>, hl: seq<Highlighting.Type>, lower: nat, i: nat): seq<Piece>
    requires i < |gs| && gs[i] != []
  {
    (if TagAt(hl, i) != TagBefore(hl, lower, i) then [Color(TagAt(hl, i))] else [])
    + [Char(Shown(gs[i][0]))]
  }

  /** The pieces for the columns `[lower, upper)`, in order. */
  function Pieces(gs: seq<seq<char>>, hl: seq<Highlighting.Type>, lower: nat, upper: nat): seq<Piece>
    requires lower <= upper <= |gs| && AllNonEmpty(gs)
    decreases upper - lower
  {
    if upper == lower then [] else Pieces(gs, hl, lower, upper - 1) + Painted(gs, hl, lower, upper - 1)
  }

  /** The characters among the pieces, without the colour changes. */
  function Visible(ps: seq<Piece>): seq<char>
  {
    if ps == [] then []
    else Visible(ps[..|ps| - 1]) + (if ps[|ps| - 1].Char? then [ps[|ps| - 1].c] else [])
  }

  lemma {:induction false} VisibleAppend(a: seq<Piece>, b: seq<Piece>)
    ensures Visible(a + b) == Visible(a) + Visible(b)
    decreases |b|
  {
    if b == [] {
      assert a + b == a;
    } else {
      assert (a + b)[..|a + b| - 1] == a + b[..|b| - 1];
      assert (a + b)[|a + b| - 1] == b[|b| - 1];
      VisibleAppend(a, b[..|b| - 1]);
    }
  }

  /**
   * The columns `render(start, end)` visits: `end` is first clamped to the
   * byte length of the text and `start` to `end`; the cluster iterator then
   * stops at the last cluster. Because a text has at least as many bytes as
   * clusters, the byte clamp never hides a column: the visible columns are
   * those from `start` up to `min(end, len)`.
   */
  function VisibleColumns(start: nat, end: nat, byteLen: nat, len: nat): (bounds: (nat, nat))
    ensures bounds.0 <= bounds.1 <= len
    ensures byteLen >= len ==> bounds.1 == (if end < len then end else len)
    ensures byteLen >= len ==> bounds.0 == (if start < bounds.1 then start else bounds.1)
  {
    var end' := if end < byteLen then end else byteLen;
    var start' := if start < end' then start else end';
    var upper := if end' < len then end' else len;
    (if start' < upper then start' else upper, upper)
  }

  /** The pieces of one column show exactly its first character. */
  lemma PaintedVisible(gs: seq<seq<char>>, hl: seq<Highlighting.Type>, lower: nat, i: nat)
    requires i < |gs| && gs[i] != []
    ensures Visible(Painted(gs, hl, lower, i)) == [Shown(gs[i][0])]
  {
    var marker: seq<Piece> := if TagAt(hl, i) != TagBefore(hl, lower, i) then [Color(TagAt(hl, i))] else [];
    var shown := [Char(Shown(gs[i][0]))];
    VisibleAppend(marker, shown);
    assert marker == [] || marker[..0] == [];
    assert shown[..0] == [];
  }

  /** The first characters of the columns `[lower, upper)`, tabs shown as spaces. */
  function ShownFirsts(gs: seq<seq<char>>, lower: nat, upper: nat): (r: seq<char>)
    requires lower <= upper <= |gs| && AllNonEmpty(gs)
    ensures |r| == upper - lower
  {
    seq(upper - lower, k requires 0 <= k < upper - lower => Shown(gs[lower + k][0]))
  }

  /** One more column adds its shown first character at the end. */
  lemma ShownFirstsStep(gs: seq<seq<char>>, lower: nat, upper: nat)
    requires lower < upper <= |gs| && AllNonEmpty(gs)
    ensures ShownFirsts(gs, lower, upper) == ShownFirsts(gs, lower, upper - 1) + [Shown(gs[upper - 1][0])]
  {
  }

  /** Rendering shows, for each visible column in order, the first character of its cluster, tabs as spaces. */
  lemma {:induction false} RenderedText(gs: seq<seq<char>>, hl: seq<Highlighting.Type>, lower: nat, upper: nat)
    requires lower <= upper <= |gs| && AllNonEmpty(gs)
    ensures Visible(Pieces(gs, hl, lower, upper)) == ShownFirsts(gs, lower, upper)
    decreases upper - lower
  {
    if upper > lower {
      var i := upper - 1;
      RenderedText(gs, hl, lower, i);
      VisibleAppend(Pieces(gs, hl, lower, i), Painted(gs, hl, lower, i));
      PaintedVisible(gs, hl, lower, i);
      ShownFirstsStep(gs, lower, upper);
    }
  }

  /** A row whose tags are all `None` (never highlighted, say) renders without any colour change. */
  lemma {:induction false} NoColorWithoutTags(gs: seq<seq<char>>, hl: seq<Highlighting.Type>, lower: nat, upper: nat)
    requires lower <= upper <= |gs| && AllNonEmpty(gs)
    requires forall i :: 0 <= i < |hl| ==> hl[i] == Highlighting.None
    ensures forall p :: p in Pieces(gs, hl, lower, upper) ==> !p.Color?
    decreases upper - lower
  {
    if upper > lower {
      NoColorWithoutTags(gs, hl, lower, upper - 1);
    }
  }

  /** Only the final piece of a rendering is a reset. */
  lemma {:induction false} NoResetInside(gs: seq<seq<char>>, hl: seq<Highlighting.Type>, lower: nat, upper: nat)
    requires lower <= upper <= |gs| && AllNonEmpty(gs)
    ensures Reset !in Pieces(gs, hl, lower, upper)
    decreases upper - lower
  {
    if upper > lower {
      NoResetInside(gs, hl, lower, upper - 1);
    }
  }

  /**
   * The columns of `text` at which a search for `query` in the column
   * window `[lo, hi)` reports column `j`: the match must lie entirely within
   * the window, start exactly where cluster `j` starts, and be the first
   * (forward) or last (backward) occurrence in the window.
   */
  ghost predicate Hit(s: seq<char>, gs: seq<seq<char>>, query: seq<char>, lo: nat, hi: nat, forward: bool, j: nat)
    requires lo <= hi <= |gs|
  {
    && lo <= j < hi
    && (if forward then FirstWithin(s, query, Offset(gs, lo), Offset(gs, hi), Offset(gs, j))
        else LastWithin(s, query, Offset(gs, lo), Offset(gs, hi), Offset(gs, j)))
  }

  /** `r` names exactly the column `Hit` describes, and nothing when there is none. */
  ghost predicate Reports(s: seq<char>, gs: seq<seq<char>>, query: seq<char>, lo: nat, hi: nat, forward: bool, r: Option<nat>)
    requires lo <= hi <= |gs|
  {
    forall j: nat :: r == Some(j) <==> Hit(s, gs, query, lo, hi, forward, j)
  }

  /** A leftmost or rightmost occurrence in a window is unique. */
  lemma ExtremeUnique(s: seq<char>, q: seq<char>, lo: nat, hi: nat, forward: bool, p1: nat, p2: nat)
    requires forward ==> FirstWithin(s, q, lo, hi, p1) && FirstWithin(s, q, lo, hi, p2)
    requires !forward ==> LastWithin(s, q, lo, hi, p1) && LastWithin(s, q, lo, hi, p2)
    ensures p1 == p2
  {
  }

  /** Searching the text of the clusters `[lo, hi)` finds the extreme occurrence in the window of the row text they cover. */
  lemma WindowSearch(gs: seq<seq<char>>, query: seq<char>, lo: nat, hi: nat, forward: bool, found: Option<nat>)
    requires lo <= hi <= |gs|
    requires found == if forward then IndexOf(Concat(gs[lo..hi]), query) else LastIndexOf(Concat(gs[lo..hi]), query)
    ensures Extreme(Concat(gs), query, Offset(gs, lo), Offset(gs, hi), forward, found)
  {
    ConcatSlice(gs, lo, hi);
    SliceSearch(Concat(gs), query, Offset(gs, lo), Offset(gs, hi), forward, found);
  }

  /** Given the extreme occurrence at `Offset(gs, lo) + b`, the hit is the column that starts there. */
  lemma HitIsOccurrenceStart(gs: seq<seq<char>>, query: seq<char>, lo: nat, hi: nat, forward: bool, b: nat, j: nat)
    requires lo <= j < hi <= |gs|
    requires Extreme(Concat(gs), query, Offset(gs, lo), Offset(gs, hi), forward, Some(b))
    ensures Offset(gs, j) == Offset(gs, lo) + b <==> Hit(Concat(gs), gs, query, lo, hi, forward, j)
  {
    var s, L, H := Concat(gs), Offset(gs, lo), Offset(gs, hi);
    if Hit(s, gs, query, lo, hi, forward, j) {
      ExtremeUnique(s, query, L, H, forward, Offset(gs, j), L + b);
    }
  }

  /** With non-empty clusters, distinct columns start at distinct offsets. */
  lemma ColumnOffsetsDistinct(gs: seq<seq<char>>, i: nat, j: nat)
    requires AllNonEmpty(gs) && i <= |gs| && j <= |gs| && Offset(gs, i) == Offset(gs, j)
    ensures i == j
  {
    if i < j {
      OffsetStrict(gs, i, j);
    } else if j < i {
      OffsetStrict(gs, j, i);
    }
  }

  /** At most one column is the hit. */
  lemma HitUnique(s: seq<char>, gs: seq<seq<char>>, query: seq<char>, lo: nat, hi: nat, forward: bool, j1: nat, j2: nat)
    requires AllNonEmpty(gs) && lo <= hi <= |gs|
    requires Hit(s, gs, query, lo, hi, forward, j1) && Hit(s, gs, query, lo, hi, forward, j2)
    ensures j1 == j2
  {
    ExtremeUnique(s, query, Offset(gs, lo), Offset(gs, hi), forward, Offset(gs, j1), Offset(gs, j2));
    ColumnOffsetsDistinct(gs, j1, j2);
  }

  /** What a search reports is determined by the hit. */
  lemma ReportsUnique(s: seq<char>, gs: seq<seq<char>>, query: seq<char>, lo: nat, hi: nat, forward: bool,
                      r1: Option<nat>, r2: Option<nat>)
    requires lo <= hi <= |gs|
    requires Reports(s, gs, query, lo, hi, forward, r1) && Reports(s, gs, query, lo, hi, forward, r2)
    ensures r1 == r2
  {
    if r1.Some? {
      assert Hit(s, gs, query, lo, hi, forward, r1.value);
    } else if r2.Some? {
      assert Hit(s, gs, query, lo, hi, forward, r2.value);
    }
  }

  /** The first column from `j` on that is the hit of the window `[lo, hi)` of the row, if there is one. */
  ghost function Locate(s: seq<char>, gs: seq<seq<char>>, query: seq<char>, lo: nat, hi: nat, forward: bool, j: nat): (r: Option<nat>)
    requires lo <= j <= hi <= |gs|
    ensures r.Some? ==> j <= r.value < hi
    decreases hi - j
  {
    if j == hi then None
    else if Hit(s, gs, query, lo, hi, forward, j) then Some(j)
    else Locate(s, gs, query, lo, hi, forward, j + 1)
  }

  /** Scanning from `j` when no column before `j` is the hit reports the hit, and nothing when there is none. */
  lemma {:induction false} LocateReports(s: seq<char>, gs: seq<seq<char>>, query: seq<char>, lo: nat, hi: nat, forward: bool, j: nat)
    requires AllNonEmpty(gs) && lo <= j <= hi <= |gs|
    requires forall i: nat :: lo <= i < j ==> !Hit(s, gs, query, lo, hi, forward, i)
    ensures Reports(s, gs, query, lo, hi, forward, Locate(s, gs, query, lo, hi, forward, j))
    decreases hi - j
  {
    var r := Locate(s, gs, query, lo, hi, forward, j);
    if j < hi {
      if Hit(s, gs, query, lo, hi, forward, j) {
        forall i: nat | Hit(s, gs, query, lo, hi, forward, i)
          ensures i == j
        {
          HitUnique(s, gs, query, lo, hi, forward, i, j);
        }
      } else {
        LocateReports(s, gs, query, lo, hi, forward, j + 1);
      }
    }
  }

  /** Where the search loop of `highlight` resumes after finding the matches `ms[..k]`, having begun at `from`. */
  function ResumeAt(from: nat, wordLen: nat, ms: seq<nat>, k: nat): nat
    requires k <= |ms|
  {
    if k == 0 then from else ms[k - 1] + wordLen
  }

  /** A window cluster found at offset `b` is the column of the row that starts `b` characters into the window. */
  lemma WindowColumn(gs: seq<seq<char>>, lo: nat, hi: nat, b: nat, g: nat)
    requires AllNonEmpty(gs) && lo <= hi <= |gs| && g < hi - lo
    requires Offset(gs[lo..hi], g) == b
    ensures forall j: nat :: Some(lo + g) == Some(j) <==> lo <= j < hi && Offset(gs, j) == Offset(gs, lo) + b
  {
    OffsetInSlice(gs, lo, hi, g);
    forall j: nat | lo <= j < hi && Offset(gs, j) == Offset(gs, lo) + b
      ensures j == lo + g
    {
      ColumnOffsetsDistinct(gs, j, lo + g);
    }
  }

  /** When no window cluster starts at offset `b`, no column of the row starts `b` characters into the window. */
  lemma NoWindowColumn(gs: seq<seq<char>>, lo: nat, hi: nat, b: nat)
    requires lo <= hi <= |gs|
    requires forall g :: 0 <= g < hi - lo ==> Offset(gs[lo..hi], g) != b
    ensures forall j: nat :: !(lo <= j < hi && Offset(gs, j) == Offset(gs, lo) + b)
  {
    forall j: nat | lo <= j < hi
      ensures Offset(gs, j) != Offset(gs, lo) + b
    {
      OffsetInSlice(gs, lo, hi, j - lo);
    }
  }

  /**
   * What `find(query, at, direction)` reports on a row with text `s` and
   * clusters `gs`: nothing for an empty query or a start past the end;
   * otherwise the column of the first occurrence at or after column `at`
   * (forward) or of the last occurrence that ends before column `at`
   * (backward), provided that occurrence starts on a cluster boundary;
   * when it does not, there is no hit at all.
   */
  ghost function Search(s: seq<char>, gs: seq<seq<char>>, query: seq<char>, at: nat, direction: SearchDirection): (r: Option<nat>)
    ensures at > |gs| || query == [] ==> r == None
    ensures r.Some? ==> if direction == Forward then at <= r.value < |gs| else r.value < at
  {
    if at > |gs| || query == [] then None
    else
      var lo := if direction == Forward then at else 0;
      var hi := if direction == Forward then |gs| else at;
      Locate(s, gs, query, lo, hi, direction == Forward, lo)
  }

  /**
   * A search with a non-empty query from a column inside the row reports
   * the hit of its window, and nothing when there is none.
   */
  lemma SearchReports(s: seq<char>, gs: seq<seq<char>>, query: seq<char>, at: nat, direction: SearchDirection)
    requires AllNonEmpty(gs) && at <= |gs| && query != []
    ensures Reports(s, gs, query, if direction == Forward then at else 0,
                    if direction == Forward then |gs| else at, direction == Forward,
                    Search(s, gs, query, at, direction))
  {
    var lo := if direction == Forward then at else 0;
    LocateReports(s, gs, query, lo, if direction == Forward then |gs| else at, direction == Forward, lo);
  }

  /**
   * The match columns the search loop of `highlight` collects for a
   * query of `wordLen` clusters, starting at column `from`: each forward
   * search resumes right after the previous match, until a search
   * finds nothing.
   */
  ghost function MatchesFrom(s: seq<char>, gs: seq<seq<char>>, query: seq<char>, wordLen: nat, from: nat): seq<nat>
    requires wordLen >= 1 || query == []
    decreases |gs| + 1 - from
  {
    match Search(s, gs, query, from, Forward)
    case None => []
    case Some(m) => [m] + MatchesFrom(s, gs, query, wordLen, m + wordLen)
  }

  /** One round of the search loop: the match found joins the collected ones and the search resumes a word later. */
  lemma CollectStep(s: seq<char>, gs: seq<seq<char>>, query: seq<char>, wordLen: nat,
                    matches: seq<nat>, from: nat, m: nat, goal: seq<nat>)
    requires wordLen >= 1 || query == []
    requires matches + MatchesFrom(s, gs, query, wordLen, from) == goal
    requires Search(s, gs, query, from, Forward) == Some(m)
    ensures (matches + [m]) + MatchesFrom(s, gs, query, wordLen, m + wordLen) == goal
    ensures from <= |gs| && from < m + wordLen
  {
    var rest := MatchesFrom(s, gs, query, wordLen, m + wordLen);
    assert MatchesFrom(s, gs, query, wordLen, from) == [m] + rest;
    assert matches + ([m] + rest) == (matches + [m]) + rest;
  }

  /** When the search finds nothing, no more matches are collected. */
  lemma CollectEnd(s: seq<char>, gs: seq<seq<char>>, query: seq<char>, wordLen: nat,
                   matches: seq<nat>, from: nat, goal: seq<nat>)
    requires wordLen >= 1 || query == []
    requires matches + MatchesFrom(s, gs, query, wordLen, from) == goal
    requires Search(s, gs, query, from, Forward) == None
    ensures matches == goal
  {
    assert MatchesFrom(s, gs, query, wordLen, from) == [];
    assert matches + [] == matches;
  }

  /** The collected columns lie in the row from `from` on, increase and are at least a word apart. */
  lemma {:induction false} MatchesFromSpaced(s: seq<char>, gs: seq<seq<char>>, query: seq<char>, wordLen: nat, from: nat)
    requires wordLen >= 1 || query == []
    ensures forall k :: 0 <= k < |MatchesFrom(s, gs, query, wordLen, from)| ==>
              from <= MatchesFrom(s, gs, query, wordLen, from)[k] < |gs|
    ensures Highlighting.Spaced(MatchesFrom(s, gs, query, wordLen, from), wordLen)
    decreases |gs| + 1 - from
  {
    var r := Search(s, gs, query, from, Forward);
    if r.Some? {
      var next := r.value + wordLen;
      MatchesFromSpaced(s, gs, query, wordLen, next);
      var ms, rest := MatchesFrom(s, gs, query, wordLen, from), MatchesFrom(s, gs, query, wordLen, next);
      assert ms == [r.value] + rest;
      forall i, j | 0 <= i < j < |ms|
        ensures ms[i] + wordLen <= ms[j]
      {
        assert ms[j] == rest[j - 1];
        if i > 0 {
          assert ms[i] == rest[i - 1];
        }
      }
    }
  }

  /**
   * `ms` are the successive forward hits of `query` from column `from`:
   * the first search starts at `from`, each later one right after the
   * previous match, and the search after the last match finds nothing.
   */
  ghost predicate Chain(s: seq<char>, gs: seq<seq<char>>, query: seq<char>, wordLen: nat, from: nat, ms: seq<nat>)
  {
    && (forall k :: 0 <= k < |ms| ==> Search(s, gs, query, ResumeAt(from, wordLen, ms, k), Forward) == Some(ms[k]))
    && Search(s, gs, query, ResumeAt(from, wordLen, ms, |ms|), Forward) == None
  }

  /** A hit at `from` followed by a chain from right after it is a chain from `from`. */
  lemma ChainStep(s: seq<char>, gs: seq<seq<char>>, query: seq<char>, wordLen: nat, from: nat, ms: seq<nat>)
    requires ms != []
    requires Search(s, gs, query, from, Forward) == Some(ms[0])
    requires Chain(s, gs, query, wordLen, ms[0] + wordLen, ms[1..])
    ensures Chain(s, gs, query, wordLen, from, ms)
  {
    var rest := ms[1..];
    forall k | 1 <= k <= |ms|
      ensures ResumeAt(from, wordLen, ms, k) == ResumeAt(ms[0] + wordLen, wordLen, rest, k - 1)
    {
    }
    forall k | 1 <= k < |ms|
      ensures Search(s, gs, query, ResumeAt(from, wordLen, ms, k), Forward) == Some(ms[k])
    {
      assert ms[k] == rest[k - 1];
    }
  }

  /** The columns the search loop collects are exactly the successive forward hits. */
  lemma {:induction false} MatchesFromSearches(s: seq<char>, gs: seq<seq<char>>, query: seq<char>, wordLen: nat, from: nat)
    requires wordLen >= 1 || query == []
    ensures Chain(s, gs, query, wordLen, from, MatchesFrom(s, gs, query, wordLen, from))
    decreases |gs| + 1 - from
  {
    var ms := MatchesFrom(s, gs, query, wordLen, from);
    var r := Search(s, gs, query, from, Forward);
    if r.Some? {
      var next := r.value + wordLen;
      MatchesFromSearches(s, gs, query, wordLen, next);
      assert ms[0] == r.value && ms[1..] == MatchesFrom(s, gs, query, wordLen, next);
      ChainStep(s, gs, query, wordLen, from, ms);
    } else {
      assert ms == [];
    }
  }

  /**
   * Every collected match column plus the query's cluster count stays
   * within the character text: the occurrence lies inside the text, starts
   * at least as many characters in as its column, and the query has at
   * least `wordLen` characters.
   */
  lemma {:induction false} MatchesFit(s: seq<char>, gs: seq<seq<char>>, query: seq<char>, wordLen: nat, from: nat)
    requires AllNonEmpty(gs) && (wordLen >= 1 || query == []) && wordLen <= |query|
    ensures forall k :: 0 <= k < |MatchesFrom(s, gs, query, wordLen, from)| ==>
              MatchesFrom(s, gs, query, wordLen, from)[k] + wordLen <= |s|
    decreases |gs| + 1 - from
  {
    var r := Search(s, gs, query, from, Forward);
    if r.Some? {
      var m := r.value;
      SearchReports(s, gs, query, from, Forward);
      assert Hit(s, gs, query, from, |gs|, true, m);
      OffsetAtLeast(gs, m);
      MatchesFit(s, gs, query, wordLen, m + wordLen);
      var ms, rest := MatchesFrom(s, gs, query, wordLen, from), MatchesFrom(s, gs, query, wordLen, m + wordLen);
      assert ms == [m] + rest;
      forall k | 0 < k < |ms|
        ensures ms[k] + wordLen <= |s|
      {
        assert ms[k] == rest[k - 1];
      }
    }
  }

  /** The number of clusters of the word, zero without one. */
  function WordLen(word: Option<seq<seq<char>>>): nat
  {
    if word.Some? then |word.value| else 0
  }

  /**
   * The match columns of the word, in increasing order and a word apart;
   * none without a word.
   */
  ghost function WordMatches(s: seq<char>, gs: seq<seq<char>>, word: Option<seq<seq<char>>>): (ms: seq<nat>)
    ensures word.None? ==> ms == []
    ensures WordLen(word) >= 1 || ms == []
    ensures forall k :: 0 <= k < |ms| ==> ms[k] < |gs|
    ensures Highlighting.Spaced(ms, WordLen(word))
  {
    if word.None? then []
    else
      MatchesFromSpaced(s, gs, Concat(word.value), |word.value|, 0);
      MatchesFrom(s, gs, Concat(word.value), |word.value|, 0)
  }

  /** A word's run starting at any of its match columns ends within the character text. */
  lemma WordMatchesFit(s: seq<char>, gs: seq<seq<char>>, word: Option<seq<seq<char>>>)
    requires AllNonEmpty(gs)
    requires word.Some? ==> AllNonEmpty(word.value)
    ensures forall k :: 0 <= k < |WordMatches(s, gs, word)| ==> WordMatches(s, gs, word)[k] + WordLen(word) <= |s|
  {
    if word.Some? {
      ClusterCountBound(word.value);
      MatchesFit(s, gs, Concat(word.value), |word.value|, 0);
    }
  }

  /**
   * The loop of `insert` before column `at`: every cluster is copied and
   * counted, and `c` is pushed and counted right before cluster `at`.
   */
  method InsertScan(gs: seq<seq<char>>, at: nat, c: char) returns (result: seq<char>, length: nat)
    requires at < |gs|
    ensures result == Concat(gs[..at] + [[c]] + gs[at..])
    ensures length == |gs| + 1
  {
    ghost var target := gs[..at] + [[c]] + gs[at..];
    result := [];
    length := 0;
    for index := 0 to |gs|
      invariant length == index + (if index > at then 1 else 0)
      invariant result == Concat(target[..length])
    {
      length := length + 1;
      if index == at {
        ConcatPrefixStep(target, at);
        length := length + 1;
        result := result + [c];
      }
      assert target[length - 1] == gs[index];
      ConcatPrefixStep(target, length - 1);
      result := result + gs[index];
    }
    assert target[..length] == target;
  }

  /** The clusters after an insertion segment the new text: `c` is a cluster of its own. */
  lemma InsertedSegments(gs: seq<seq<char>>, at: nat, c: char)
    requires AllNonEmpty(gs) && at <= |gs|
    ensures AllNonEmpty(gs[..at] + [[c]] + gs[at..])
  {
    var target := gs[..at] + [[c]] + gs[at..];
    forall i | 0 <= i < |target|
      ensures target[i] != []
    {
      if i > at {
        assert target[i] == gs[i - 1];
      }
    }
  }

  /** The loop of `delete(at)`: every cluster but cluster `at` is copied and counted. */
  method DeleteScan(gs: seq<seq<char>>, at: nat) returns (result: seq<char>, length: nat)
    requires at < |gs|
    ensures result == Concat(gs[..at] + gs[at + 1..])
    ensures length == |gs| - 1
  {
    result := [];
    length := 0;
    for index := 0 to |gs|
      invariant length == index - (if index > at then 1 else 0)
      invariant index <= at ==> result == Concat(gs[..index])
      invariant index > at ==> result == Concat(gs[..at]) + Concat(gs[at + 1..index])
    {
      if index < at {
        ConcatPrefixStep(gs, index);
      } else if index == at {
        assert gs[at + 1..index + 1] == [];
      } else {
        ConcatExtend(gs, at + 1, index);
      }
      if index != at {
        length := length + 1;
        result := result + gs[index];
      }
    }
    assert gs[at + 1..|gs|] == gs[at + 1..];
    ConcatAppend(gs[..at], gs[at + 1..]);
  }

  /**
   * The loop of `split(at)`: the clusters before column `at` go to the
   * row that stays, the others to the new row, each side counted.
   */
  method SplitScan(gs: seq<seq<char>>, at: nat) returns (row: seq<char>, length: nat, splittedRow: seq<char>, splittedLength: nat)
    ensures length == if at < |gs| then at else |gs|
    ensures row == Concat(gs[..length]) && splittedRow == Concat(gs[length..])
    ensures splittedLength == |gs| - length
  {
    ghost var cut := if at < |gs| then at else |gs|;
    row, length, splittedRow, splittedLength := [], 0, [], 0;
    for index := 0 to |gs|
      invariant length == (if index < cut then index else cut)
      invariant splittedLength == (if index < cut then 0 else index - cut)
      invariant row == Concat(gs[..length])
      invariant splittedRow == Concat(gs[cut..cut + splittedLength])
    {
      if index < at {
        ConcatPrefixStep(gs, index);
        length := length + 1;
        row := row + gs[index];
      } else {
        ConcatExtend(gs, cut, index);
        splittedLength := splittedLength + 1;
        splittedRow := splittedRow + gs[index];
      }
    }
    assert gs[cut..|gs|] == gs[cut..];
  }

  /**
   * A search that reports the column starting at the extreme occurrence
   * of the window, if a column starts there, reports exactly the column
   * `Hit` describes.
   */
  lemma SearchReportsHit(gs: seq<seq<char>>, query: seq<char>, lo: nat, hi: nat, forward: bool,
                         found: Option<nat>, r: Option<nat>)
    requires lo <= hi <= |gs|
    requires Extreme(Concat(gs), query, Offset(gs, lo), Offset(gs, hi), forward, found)
    requires found.None? ==> r.None?
    requires found.Some? ==>
               forall j: nat :: r == Some(j) <==> lo <= j < hi && Offset(gs, j) == Offset(gs, lo) + found.value
    ensures Reports(Concat(gs), gs, query, lo, hi, forward, r)
  {
    forall j: nat ensures r == Some(j) <==> Hit(Concat(gs), gs, query, lo, hi, forward, j) {
      if lo <= j < hi && found.Some? {
        HitIsOccurrenceStart(gs, query, lo, hi, forward, found.value, j);
      }
    }
  }

  class Row {
    /** The text of the line, without its terminator. */
    var text: seq<char>
    /** The tags of the last highlighting pass; mutations leave it as it was. */
    var highlighting: seq<Highlighting.Type>
    /** The cached number of grapheme clusters. */
    var len: nat
    /** The grapheme clusters `text` segments into, as `graphemes(true)` yields them. */
    var graphemes: seq<seq<char>>

    /** The clusters spell out the text and the cached length counts them. */
    ghost predicate Valid()
      reads this`text, this`graphemes, this`len
    {
      Segments(graphemes, text) && len == |graphemes|
    }

    /** `Row::from`: the text as given, no tags, and as many columns as clusters. */
    constructor From(slice: seq<char>, clusters: seq<seq<char>>)
      requires Segments(clusters, slice)
      ensures Valid()
      ensures text == slice && graphemes == clusters && highlighting == [] && len == |clusters|
    {
      text := slice;
      highlighting := [];
      len := |clusters|;
      graphemes := clusters;
    }

    /** The number of columns: the cached length is the cluster count. */
    function Len(): (n: nat)
      reads this
      requires Valid()
      ensures n == |graphemes|
    {
      len
    }

    /** A row is empty exactly when its text is. */
    function IsEmpty(): (b: bool)
      reads this
      requires Valid()
      ensures b <==> Len() == 0
      ensures b <==> text == []
    {
      ClusterCountBound(graphemes);
      len == 0
    }

    /**
     * `render(start, end)`: each visible column contributes its first
     * character (a tab as a space), preceded by a colour change whenever
     * its tag differs from the colour in effect, and a reset closes the
     * output.
     */
    method Render(start: nat, end: nat) returns (result: seq<Piece>)
      requires Valid()
      ensures var bounds := VisibleColumns(start, end, ByteLen(text), len);
              result == Pieces(graphemes, highlighting, bounds.0, bounds.1) + [Reset]
      ensures var upper := if end < len then end else len;
              result == Pieces(graphemes, highlighting, if start < upper then start else upper, upper) + [Reset]
    {
      ClusterCountBound(graphemes);
      var end' := if end < ByteLen(text) then end else ByteLen(text);
      var start' := if start < end' then start else end';
      // The iterator skips `start'` clusters and then stops at `end'` or at the last cluster.
      var upper := if end' < len then end' else len;
      var index := if start' < upper then start' else upper;
      ghost var lower := index;
      result := [];
      var current := Highlighting.None;
      while index < upper
        invariant lower <= index <= upper
        invariant result == Pieces(graphemes, highlighting, lower, index)
        invariant current == TagBefore(highlighting, lower, index)
      {
        var c := graphemes[index][0];
        var highlightingType := if index < |highlighting| then highlighting[index] else Highlighting.None;
        if current != highlightingType {
          result := result + [Color(highlightingType)];
          current := highlightingType;
        }
        if c == '\t' {
          result := result + [Char(' ')];
        } else {
          result := result + [Char(c)];
        }
        index := index + 1;
      }
      result := result + [Reset];
    }

    /**
     * `insert(at, c)`: past the last column the character is pushed at
     * the end; otherwise it becomes a cluster of its own right before
     * column `at`. Either way there is one more column.
     */
    method Insert(at: nat, c: char)
      requires Valid()
      modifies this
      ensures Valid()
      ensures len == old(len) + 1
      ensures at >= old(len) ==> graphemes == old(graphemes) + [[c]] && text == old(text) + [c]
      ensures at < old(len) ==> graphemes == old(graphemes)[..at] + [[c]] + old(graphemes)[at..]
      ensures highlighting == old(highlighting)
    {
      if at >= len {
        text := text + [c];
        len := len + 1;
        graphemes := graphemes + [[c]];
        return;
      }
      var gs := graphemes;
      var result, length := InsertScan(gs, at, c);
      InsertedSegments(gs, at, c);
      len := length;
      text := result;
      graphemes := gs[..at] + [[c]] + gs[at..];
    }

    /**
     * `delete(at)`: nothing happens at or past the last column; otherwise
     * exactly cluster `at` goes and the others keep their order.
     */
    method Delete(at: nat)
      requires Valid()
      modifies this
      ensures Valid()
      ensures at >= old(len) ==> graphemes == old(graphemes) && text == old(text) && len == old(len)
      ensures at < old(len) ==> graphemes == old(graphemes)[..at] + old(graphemes)[at + 1..] && len == old(len) - 1
      ensures highlighting == old(highlighting)
    {
      if at >= len {
        return;
      }
      var gs := graphemes;
      var result, length := DeleteScan(gs, at);
      len := length;
      text := result;
      graphemes := gs[..at] + gs[at + 1..];
    }

    /** `append(other)`: the other row's text and clusters follow this row's; the lengths add up. */
    method Append(other: Row)
      requires Valid() && other.Valid() && other != this
      modifies this
      ensures Valid()
      ensures text == old(text) + other.text
      ensures graphemes == old(graphemes) + other.graphemes
      ensures len == old(len) + other.len
      ensures highlighting == old(highlighting)
    {
      ConcatAppend(graphemes, other.graphemes);
      text := text + other.text;
      len := len + other.len;
      graphemes := graphemes + other.graphemes;
    }

    /**
     * `split(at)`: the first `min(at, len)` clusters stay, the rest move,
     * in order, to a new row without tags.
     */
    method Split(at: nat) returns (rest: Row)
      requires Valid()
      modifies this
      ensures Valid() && rest.Valid() && fresh(rest)
      ensures var cut := if at < old(len) then at else old(len);
              && graphemes == old(graphemes)[..cut] && len == cut
              && rest.graphemes == old(graphemes)[cut..] && rest.len == old(len) - cut
      ensures rest.highlighting == []
      ensures highlighting == old(highlighting)
    {
      var gs := graphemes;
      var row, length, splittedRow, splittedLength := SplitScan(gs, at);
      text := row;
      len := length;
      graphemes := gs[..length];
      rest := new Row.From(splittedRow, gs[length..]);
      assert rest.len == splittedLength;
    }

    /**
     * `find(query, at, direction)`: searches the text of the clusters in
     * the window and walks the window's cluster offsets looking for the
     * one the match starts at.
     */
    method Find(query: seq<char>, at: nat, direction: SearchDirection) returns (r: Option<nat>)
      requires Valid()
      ensures r == Search(text, graphemes, query, at, direction)
    {
      if at > len || query == [] {
        return None;
      }
      var start := if direction == Forward then at else 0;
      var end := if direction == Forward then len else at;
      var substring := Collect(graphemes, start, end);
      var matchingIndex := if direction == Forward then IndexOf(substring, query) else LastIndexOf(substring, query);
      CollectIsConcat(graphemes, start, end);
      WindowSearch(graphemes, query, start, end, direction == Forward, matchingIndex);
      if matchingIndex.Some? {
        var index := matchingIndex.value;
        var window := graphemes[start..end];
        var offset := 0;
        for graphemeIndex := 0 to |window|
          invariant offset == Offset(window, graphemeIndex)
          invariant forall g :: 0 <= g < graphemeIndex ==> Offset(window, g) != index
        {
          if index == offset {
            r := Some(start + graphemeIndex);
            WindowColumn(graphemes, start, end, index, graphemeIndex);
            SearchReportsHit(graphemes, query, start, end, direction == Forward, matchingIndex, r);
            SearchReports(text, graphemes, query, at, direction);
            ReportsUnique(text, graphemes, query, start, end, direction == Forward, r, Search(text, graphemes, query, at, direction));
            return;
          }
          offset := offset + |window[graphemeIndex]|;
        }
        NoWindowColumn(graphemes, start, end, index);
      }
      r := None;
      SearchReportsHit(graphemes, query, start, end, direction == Forward, matchingIndex, r);
      SearchReports(text, graphemes, query, at, direction);
      ReportsUnique(text, graphemes, query, start, end, direction == Forward, r, Search(text, graphemes, query, at, direction));
    }

    /**
     * The search loop of `highlight`: repeated forward searches for the
     * query, each resuming `wordLen` columns after the previous match.
     */
    method CollectMatches(query: seq<char>, wordLen: nat) returns (matches: seq<nat>)
      requires Valid()
      requires wordLen >= 1 || query == []
      ensures matches == MatchesFrom(text, graphemes, query, wordLen, 0)
    {
      ghost var goal := MatchesFrom(text, graphemes, query, wordLen, 0);
      matches := [];
      var searchIndex: nat := 0;
      while true
        invariant matches + MatchesFrom(text, graphemes, query, wordLen, searchIndex) == goal
        decreases len + 1 - searchIndex
      {
        var searchMatch := Find(query, searchIndex, Forward);
        if searchMatch.None? {
          CollectEnd(text, graphemes, query, wordLen, matches, searchIndex, goal);
          return;
        }
        var m := searchMatch.value;
        CollectStep(text, graphemes, query, wordLen, matches, searchIndex, m, goal);
        matches := matches + [m];
        searchIndex := m + wordLen;
      }
    }

    /**
     * `highlight(opts, word)`: the new tag vector is the character walk
     * over the text with the match columns of the word; text, clusters
     * and length stay as they were.
     */
    method Highlight(numbers: bool, word: Option<seq<seq<char>>>)
      requires Valid()
      requires word.Some? ==> AllNonEmpty(word.value)
      modifies this
      ensures Valid()
      ensures text == old(text) && graphemes == old(graphemes) && len == old(len)
      ensures highlighting == Highlighting.Tags(text, WordMatches(text, graphemes, word), WordLen(word), numbers)
      ensures |highlighting| == |text|
    {
      WordMatchesFit(text, graphemes, word);
      Highlighting.TagsLength(text, WordMatches(text, graphemes, word), WordLen(word), numbers);
      var matches: seq<nat> := [];
      if word.Some? {
        matches := CollectMatches(Concat(word.value), |word.value|);
      }
      highlighting := Highlighting.Walk(text, matches, WordLen(word), numbers);
    }
  }

  /** Splitting a row and appending the part split off gives the row back: text, clusters, length and tags. */
  method SplitThenAppend(row: Row, at: nat)
    requires row.Valid()
    modifies row
    ensures row.Valid()
    ensures row.text == old(row.text) && row.graphemes == old(row.graphemes) && row.len == old(row.len)
    ensures row.highlighting == old(row.highlighting)
  {
    ghost var gs := row.graphemes;
    var rest := row.Split(at);
    row.Append(rest);
    assert row.graphemes == gs;
  }

  /** Inserting a character at a column up to the row's length and deleting at that column gives the row back. */
  method InsertThenDelete(row: Row, at: nat, c: char)
    requires row.Valid() && at <= row.len
    modifies row
    ensures row.Valid()
    ensures row.text == old(row.text) && row.graphemes == old(row.graphemes) && row.len == old(row.len)
    ensures row.highlighting == old(row.highlighting)
  {
    ghost var gs := row.graphemes;
    row.Insert(at, c);
    if at == |gs| {
      assert (gs + [[c]])[..at] == gs && (gs + [[c]])[at + 1..] == [];
    } else {
      assert (gs[..at] + [[c]] + gs[at..])[..at] == gs[..at];
      assert (gs[..at] + [[c]] + gs[at..])[at + 1..] == gs[at..];
    }
    row.Delete(at);
    assert row.graphemes == gs;
  }
}
