/**
 * The highlighting classifier that `Row::highlight` runs over a row's
 * characters: search matches are tagged first and win; every other
 * character goes through the numeric-literal rule.
 */
module Highlighting {
  /** The tag kinds the classifier produces (`highlighting::Type`). */
  datatype Type = None | Number | Match

  /** `char::is_ascii_digit`. */
  predicate IsAsciiDigit(c: char)
  {
    '0' <= c <= '9'
  }

  /** `char::is_ascii_punctuation`: the four ASCII punctuation ranges. */
  predicate IsAsciiPunctuation(c: char)
  {
    ('!' <= c <= '/') || (':' <= c <= '@') || ('[' <= c <= '`') || ('{' <= c <= '~')
  }

  /** `char::is_ascii_whitespace`: space, tab, line feed, form feed, carriage return. */
  predicate IsAsciiWhitespace(c: char)
  {
    c == ' ' || c == '\t' || c == '\n' || (c as int) == 0x0C || c == '\r'
  }

  /** What may stand before a numeric literal. */
  predicate IsSeparator(c: char)
  {
    IsAsciiPunctuation(c) || IsAsciiWhitespace(c)
  }

  /**
   * The tag of one character outside a match: a digit after a separator or
   * after a number, or a dot after a number, is a number when numbers are
   * highlighted; anything else is plain.
   */
  function Classify(numbers: bool, c: char, prevIsSeparator: bool, previous: Type): (t: Type)
    ensures t != Match
    ensures t == Number <==>
              numbers && ((IsAsciiDigit(c) && (prevIsSeparator || previous == Number))
                          || (c == '.' && previous == Number))
  {
    if numbers && ((IsAsciiDigit(c) && (prevIsSeparator || previous == Number))
                   || (c == '.' && previous == Number))
    then Number
    else None
  }

  /**
   * The tags the walk produces from character `index` on, given the
   * separator flag and the previous tag at that point. A character index
   * that is one of the match columns starts a run of `wordLen` match tags
   * and the walk jumps past it; any other character is classified.
   */
  function TagsFrom(chars: seq<char>, matches: seq<nat>, wordLen: nat, numbers: bool,
                    index: nat, prevIsSeparator: bool, previous: Type): (tags: seq<Type>)
    requires wordLen >= 1 || matches == []
    ensures |tags| >= |chars| - index
    ensures matches == [] ==> |tags| == if index <= |chars| then |chars| - index else 0
    decreases |chars| - index
  {
    if index >= |chars| then []
    else if index in matches then
      seq(wordLen, _ => Match) + TagsFrom(chars, matches, wordLen, numbers, index + wordLen, prevIsSeparator, Match)
    else
      var t := Classify(numbers, chars[index], prevIsSeparator, previous);
      [t] + TagsFrom(chars, matches, wordLen, numbers, index + 1, IsSeparator(chars[index]), t)
  }

  /** The whole walk: it starts at the first character, as if after a separator. */
  function Tags(chars: seq<char>, matches: seq<nat>, wordLen: nat, numbers: bool): seq<Type>
    requires wordLen >= 1 || matches == []
  {
    TagsFrom(chars, matches, wordLen, numbers, 0, true, None)
  }

  /**
   * The walk loop of `highlight`: a match column pushes one `Match` per
   * cluster of the word and skips past them; any other character is
   * classified against the separator flag and the tag before it.
   */
  method Walk(chars: seq<char>, matches: seq<nat>, wordLen: nat, numbers: bool) returns (tags: seq<Type>)
    requires wordLen >= 1 || matches == []
    ensures tags == Tags(chars, matches, wordLen, numbers)
  {
    ghost var goal := Tags(chars, matches, wordLen, numbers);
    tags := [];
    var prevIsSeparator := true;
    var index: nat := 0;
    while index < |chars|
      invariant |tags| == index
      invariant tags + TagsFrom(chars, matches, wordLen, numbers, index, prevIsSeparator, LastTag(tags)) == goal
      decreases |chars| - index
    {
      var c := chars[index];
      if index in matches {
        ghost var before := tags;
        tags, index := PushRun(tags, index, wordLen);
        WalkRun(chars, matches, wordLen, numbers, prevIsSeparator, before, tags, goal);
        continue;
      }
      var previousHighlight := if index > 0 && index - 1 < |tags| then tags[index - 1] else None;
      var t := Classify(numbers, c, prevIsSeparator, previousHighlight);
      WalkChar(chars, matches, wordLen, numbers, prevIsSeparator, tags, t, goal);
      tags := tags + [t];
      prevIsSeparator := IsAsciiPunctuation(c) || IsAsciiWhitespace(c);
      index := index + 1;
    }
    WalkEnd(chars, matches, wordLen, numbers, prevIsSeparator, tags, goal);
  }

  /** The inner loop at a match column: one match tag per cluster of the word, the index moving with them. */
  method PushRun(tags: seq<Type>, index: nat, wordLen: nat) returns (tags': seq<Type>, index': nat)
    requires index == |tags|
    ensures tags' == tags + seq(wordLen, _ => Match)
    ensures index' == |tags'| == index + wordLen
  {
    tags', index' := tags, index;
    for k := 0 to wordLen
      invariant index' == |tags'| == |tags| + k
      invariant tags'[..|tags|] == tags
      invariant forall i :: |tags| <= i < |tags'| ==> tags'[i] == Match
    {
      index' := index' + 1;
      tags' := tags' + [Match];
    }
    RunFilled(tags, tags', wordLen);
  }

  /** The tag pushed last, `None` before any. */
  function LastTag(tags: seq<Type>): Type
  {
    if tags == [] then None else tags[|tags| - 1]
  }

  /** A round of the walk at a match column: the run of match tags, then the walk resumed past the run. */
  lemma WalkRun(chars: seq<char>, matches: seq<nat>, wordLen: nat, numbers: bool, prevIsSeparator: bool,
                before: seq<Type>, tags: seq<Type>, goal: seq<Type>)
    requires wordLen >= 1 || matches == []
    requires |before| < |chars| && |before| in matches
    requires before + TagsFrom(chars, matches, wordLen, numbers, |before|, prevIsSeparator, LastTag(before))
             == goal
    requires tags == before + seq(wordLen, _ => Match)
    ensures tags + TagsFrom(chars, matches, wordLen, numbers, |tags|, prevIsSeparator, LastTag(tags))
            == goal
  {
    var run := seq(wordLen, _ => Match);
    var rest := TagsFrom(chars, matches, wordLen, numbers, |before| + wordLen, prevIsSeparator, Match);
    TagsAtMatch(chars, matches, wordLen, numbers, |before|, prevIsSeparator, LastTag(before));
    Regroup(before, run, rest, tags, goal);
    assert wordLen >= 1 && tags[|tags| - 1] == run[wordLen - 1];
  }

  /** Tags that are `before` then `run`, followed by `rest`, spell out `before` then `run + rest`. */
  lemma Regroup(before: seq<Type>, run: seq<Type>, rest: seq<Type>, tags: seq<Type>, goal: seq<Type>)
    requires tags == before + run && before + (run + rest) == goal
    ensures tags + rest == goal
  {
  }

  /** At a match column the walk pushes a run of match tags and resumes past it, the separator flag untouched. */
  lemma TagsAtMatch(chars: seq<char>, matches: seq<nat>, wordLen: nat, numbers: bool,
                    index: nat, prevIsSeparator: bool, previous: Type)
    requires wordLen >= 1 || matches == []
    requires index < |chars| && index in matches
    ensures TagsFrom(chars, matches, wordLen, numbers, index, prevIsSeparator, previous)
            == seq(wordLen, _ => Match) + TagsFrom(chars, matches, wordLen, numbers, index + wordLen, prevIsSeparator, Match)
  {
  }

  /** Tags that extend `before` by `wordLen` match tags are `before` followed by a match run. */
  lemma RunFilled(before: seq<Type>, tags: seq<Type>, wordLen: nat)
    requires |tags| == |before| + wordLen && tags[..|before|] == before
    requires forall i :: |before| <= i < |tags| ==> tags[i] == Match
    ensures tags == before + seq(wordLen, _ => Match)
  {
    var run := seq(wordLen, _ => Match);
    forall i | 0 <= i < |tags|
      ensures tags[i] == (before + run)[i]
    {
      if i < |before| {
        assert tags[i] == tags[..|before|][i];
      }
    }
  }

  /** A round of the walk at any other character: its classification, then the walk resumed after it. */
  lemma WalkChar(chars: seq<char>, matches: seq<nat>, wordLen: nat, numbers: bool, prevIsSeparator: bool,
                 tags: seq<Type>, t: Type, goal: seq<Type>)
    requires wordLen >= 1 || matches == []
    requires |tags| < |chars| && |tags| !in matches
    requires tags + TagsFrom(chars, matches, wordLen, numbers, |tags|, prevIsSeparator, LastTag(tags))
             == goal
    requires t == Classify(numbers, chars[|tags|], prevIsSeparator, LastTag(tags))
    ensures (tags + [t]) + TagsFrom(chars, matches, wordLen, numbers, |tags| + 1, IsSeparator(chars[|tags|]), LastTag(tags + [t]))
            == goal
  {
    var rest := TagsFrom(chars, matches, wordLen, numbers, |tags| + 1, IsSeparator(chars[|tags|]), t);
    assert TagsFrom(chars, matches, wordLen, numbers, |tags|, prevIsSeparator, LastTag(tags)) == [t] + rest;
    assert tags + ([t] + rest) == (tags + [t]) + rest;
  }

  /** The walk is over once it has passed the last character. */
  lemma WalkEnd(chars: seq<char>, matches: seq<nat>, wordLen: nat, numbers: bool, prevIsSeparator: bool, tags: seq<Type>, goal: seq<Type>)
    requires wordLen >= 1 || matches == []
    requires |tags| >= |chars|
    requires tags + TagsFrom(chars, matches, wordLen, numbers, |tags|, prevIsSeparator, LastTag(tags))
             == goal
    ensures tags == goal
  {
    assert tags + [] == tags;
  }

  /** Each match column is at least a word after every earlier one, so matches increase and never overlap. */
  ghost predicate Spaced(matches: seq<nat>, wordLen: nat)
  {
    forall i, j :: 0 <= i < j < |matches| ==> matches[i] + wordLen <= matches[j]
  }

  /** Character `i` lies in the run of a match that the walk reaches. */
  ghost predicate InMatch(matches: seq<nat>, wordLen: nat, n: nat, i: nat)
  {
    exists k :: 0 <= k < |matches| && matches[k] < n && matches[k] <= i < matches[k] + wordLen
  }

  /** With neither a word nor numbers, the walk yields exactly one plain tag per character. */
  lemma {:induction false} PlainWithoutWordOrNumbers(chars: seq<char>, index: nat, prevIsSeparator: bool, previous: Type)
    requires index <= |chars|
    ensures TagsFrom(chars, [], 0, false, index, prevIsSeparator, previous) == seq(|chars| - index, _ => None)
    decreases |chars| - index
  {
    if index < |chars| {
      PlainWithoutWordOrNumbers(chars, index + 1, IsSeparator(chars[index]), None);
    }
  }

  /** With numbers off no tag is a number, whatever the word. */
  lemma {:induction false} NoNumbersWhenOff(chars: seq<char>, matches: seq<nat>, wordLen: nat,
                                            index: nat, prevIsSeparator: bool, previous: Type)
    requires wordLen >= 1 || matches == []
    ensures forall t :: t in TagsFrom(chars, matches, wordLen, false, index, prevIsSeparator, previous) ==> t != Number
    decreases |chars| - index
  {
    if index < |chars| {
      if index in matches {
        NoNumbersWhenOff(chars, matches, wordLen, index + wordLen, prevIsSeparator, Match);
      } else {
        NoNumbersWhenOff(chars, matches, wordLen, index + 1, IsSeparator(chars[index]), None);
      }
    }
  }

  /** No match run that started before `index` reaches `index` or beyond. */
  ghost predicate NoRunAcross(matches: seq<nat>, wordLen: nat, index: nat)
  {
    forall k :: 0 <= k < |matches| && matches[k] < index ==> matches[k] + wordLen <= index
  }

  /** Tag `j` of `r`, standing for character `index + j`, is a match exactly inside a match run. */
  ghost predicate MatchExactlyInRuns(r: seq<Type>, matches: seq<nat>, wordLen: nat, n: nat, index: nat)
  {
    forall j :: 0 <= j < |r| ==> (r[j] == Match <==> InMatch(matches, wordLen, n, index + j))
  }

  /**
   * The separator flag the walk holds on reaching tag `j` of `r` (tag `j`
   * standing for character `index + j`): that of the last classified
   * character before it, or the flag the walk started with when there is
   * none. A match run leaves the flag as it was.
   */
  ghost function FlagIn(r: seq<Type>, chars: seq<char>, index: nat, prevIsSeparator: bool, j: nat): bool
    requires j <= |r|
    decreases j
  {
    if j == 0 then prevIsSeparator
    else if r[j - 1] == Match then FlagIn(r, chars, index, prevIsSeparator, j - 1)
    else index + j - 1 < |chars| && IsSeparator(chars[index + j - 1])
  }

  /**
   * Every tag of `r` that is not a match stands for a character (`r[j]` for
   * `chars[index + j]`) and is its classification, with the flag the walk
   * holds there and the tag before it (`previous` for the first).
   */
  ghost predicate ClassifiedOutsideRuns(r: seq<Type>, chars: seq<char>, numbers: bool, index: nat,
                                        prevIsSeparator: bool, previous: Type)
  {
    forall j :: 0 <= j < |r| && r[j] != Match ==>
      && index + j < |chars|
      && r[j] == Classify(numbers, chars[index + j], FlagIn(r, chars, index, prevIsSeparator, j),
                          if j == 0 then previous else r[j - 1])
  }

  /** Inside a leading run of matches the flag is still the one the walk started with. */
  lemma {:induction false} FlagInMatches(r: seq<Type>, chars: seq<char>, index: nat, prevIsSeparator: bool, j: nat)
    requires j <= |r| && forall i :: 0 <= i < j ==> r[i] == Match
    ensures FlagIn(r, chars, index, prevIsSeparator, j) == prevIsSeparator
    decreases j
  {
    if j > 0 {
      FlagInMatches(r, chars, index, prevIsSeparator, j - 1);
    }
  }

  /** Past a leading run of `wordLen` matches, the flag is the one of the walk resumed after the run. */
  lemma {:induction false} FlagInRun(r': seq<Type>, chars: seq<char>, index: nat, wordLen: nat, prevIsSeparator: bool, j: nat)
    requires j <= |r'|
    ensures FlagIn(seq(wordLen, _ => Match) + r', chars, index, prevIsSeparator, wordLen + j)
            == FlagIn(r', chars, index + wordLen, prevIsSeparator, j)
    decreases j
  {
    var r := seq(wordLen, _ => Match) + r';
    if j == 0 {
      FlagInMatches(r, chars, index, prevIsSeparator, wordLen);
    } else {
      FlagInRun(r', chars, index, wordLen, prevIsSeparator, j - 1);
      assert r[wordLen + j - 1] == r'[j - 1];
      assert index + (wordLen + j) - 1 == index + wordLen + j - 1;
    }
  }

  /** Past a leading classified character, the flag is the one of the walk resumed after it. */
  lemma {:induction false} FlagInChar(t: Type, r': seq<Type>, chars: seq<char>, index: nat, prevIsSeparator: bool, j: nat)
    requires t != Match && index < |chars| && 1 <= j <= |r'| + 1
    ensures FlagIn([t] + r', chars, index, prevIsSeparator, j)
            == FlagIn(r', chars, index + 1, IsSeparator(chars[index]), j - 1)
    decreases j
  {
    var r := [t] + r';
    if j > 1 {
      FlagInChar(t, r', chars, index, prevIsSeparator, j - 1);
      assert r[j - 1] == r'[j - 2];
      assert index + j - 1 == index + 1 + (j - 1) - 1;
    }
  }

  /** A run that starts at a match column ends where no other run crosses. */
  lemma NoRunAcrossRunEnd(matches: seq<nat>, wordLen: nat, index: nat, k0: nat)
    requires Spaced(matches, wordLen) && NoRunAcross(matches, wordLen, index)
    requires k0 < |matches| && matches[k0] == index
    ensures NoRunAcross(matches, wordLen, index + wordLen)
  {
    forall k | 0 <= k < |matches| && matches[k] < index + wordLen
      ensures matches[k] + wordLen <= index + wordLen
    {
      assert k < k0 ==> matches[k] + wordLen <= matches[k0];
    }
  }

  /** A match run: the run's tags are matches, the tags after it are the walk resumed past the run. */
  lemma MatchRunStep(chars: seq<char>, matches: seq<nat>, wordLen: nat, numbers: bool,
                     index: nat, prevIsSeparator: bool, previous: Type, k0: nat)
    requires index < |chars| && k0 < |matches| && matches[k0] == index
    requires wordLen >= 1 || matches == []
    requires MatchExactlyInRuns(TagsFrom(chars, matches, wordLen, numbers, index + wordLen, prevIsSeparator, Match),
                                matches, wordLen, |chars|, index + wordLen)
    ensures MatchExactlyInRuns(TagsFrom(chars, matches, wordLen, numbers, index, prevIsSeparator, previous),
                               matches, wordLen, |chars|, index)
  {
    var n := |chars|;
    var next := index + wordLen;
    var r' := TagsFrom(chars, matches, wordLen, numbers, next, prevIsSeparator, Match);
    var r := seq(wordLen, _ => Match) + r';
    assert r == TagsFrom(chars, matches, wordLen, numbers, index, prevIsSeparator, previous);
    forall j | 0 <= j < |r|
      ensures r[j] == Match <==> InMatch(matches, wordLen, n, index + j)
    {
      if j < wordLen {
        assert matches[k0] < n && matches[k0] <= index + j < matches[k0] + wordLen;
      } else {
        assert r[j] == r'[j - wordLen];
        assert next + (j - wordLen) == index + j;
      }
    }
  }

  /** A classified character: its tag is not a match, the tags after it are the walk resumed at the next character. */
  lemma ClassifiedCharStep(chars: seq<char>, matches: seq<nat>, wordLen: nat, numbers: bool,
                           index: nat, prevIsSeparator: bool, previous: Type)
    requires index < |chars| && index !in matches
    requires wordLen >= 1 || matches == []
    requires NoRunAcross(matches, wordLen, index)
    requires MatchExactlyInRuns(TagsFrom(chars, matches, wordLen, numbers, index + 1, IsSeparator(chars[index]),
                                         Classify(numbers, chars[index], prevIsSeparator, previous)),
                                matches, wordLen, |chars|, index + 1)
    ensures MatchExactlyInRuns(TagsFrom(chars, matches, wordLen, numbers, index, prevIsSeparator, previous),
                               matches, wordLen, |chars|, index)
  {
    var n := |chars|;
    var t := Classify(numbers, chars[index], prevIsSeparator, previous);
    var r' := TagsFrom(chars, matches, wordLen, numbers, index + 1, IsSeparator(chars[index]), t);
    var r := [t] + r';
    assert r == TagsFrom(chars, matches, wordLen, numbers, index, prevIsSeparator, previous);
    assert !InMatch(matches, wordLen, n, index);
    forall j | 0 < j < |r|
      ensures r[j] == Match <==> InMatch(matches, wordLen, n, index + j)
    {
      assert r[j] == r'[j - 1];
      assert index + 1 + (j - 1) == index + j;
    }
  }

  /** Past a character that is not a match column, no run crosses the next index either. */
  lemma NoRunAcrossNext(matches: seq<nat>, wordLen: nat, index: nat)
    requires index !in matches && NoRunAcross(matches, wordLen, index)
    ensures NoRunAcross(matches, wordLen, index + 1)
  {
    forall k | 0 <= k < |matches| && matches[k] < index + 1
      ensures matches[k] + wordLen <= index + 1
    {
      assert matches[k] != index;
    }
  }

  /**
   * Tags from `index` on are `Match` exactly at the characters that lie in
   * the run of a match column.
   */
  lemma {:induction false} MatchRunsFrom(chars: seq<char>, matches: seq<nat>, wordLen: nat, numbers: bool,
                                         index: nat, prevIsSeparator: bool, previous: Type)
    requires wordLen >= 1 || matches == []
    requires Spaced(matches, wordLen) && NoRunAcross(matches, wordLen, index)
    ensures MatchExactlyInRuns(TagsFrom(chars, matches, wordLen, numbers, index, prevIsSeparator, previous),
                               matches, wordLen, |chars|, index)
    decreases |chars| - index
  {
    if index >= |chars| {
      return;
    }
    if index in matches {
      var k0 :| 0 <= k0 < |matches| && matches[k0] == index;
      NoRunAcrossRunEnd(matches, wordLen, index, k0);
      MatchRunsFrom(chars, matches, wordLen, numbers, index + wordLen, prevIsSeparator, Match);
      MatchRunStep(chars, matches, wordLen, numbers, index, prevIsSeparator, previous, k0);
    } else {
      var t := Classify(numbers, chars[index], prevIsSeparator, previous);
      NoRunAcrossNext(matches, wordLen, index);
      MatchRunsFrom(chars, matches, wordLen, numbers, index + 1, IsSeparator(chars[index]), t);
      ClassifiedCharStep(chars, matches, wordLen, numbers, index, prevIsSeparator, previous);
    }
  }

  /** A match run followed by the classified rest keeps the rest's classification. */
  lemma ClassifiedRunStep(chars: seq<char>, matches: seq<nat>, wordLen: nat, numbers: bool,
                          index: nat, prevIsSeparator: bool, previous: Type)
    requires index < |chars| && index in matches
    requires wordLen >= 1 || matches == []
    requires ClassifiedOutsideRuns(TagsFrom(chars, matches, wordLen, numbers, index + wordLen, prevIsSeparator, Match),
                                   chars, numbers, index + wordLen, prevIsSeparator, Match)
    ensures ClassifiedOutsideRuns(TagsFrom(chars, matches, wordLen, numbers, index, prevIsSeparator, previous),
                                  chars, numbers, index, prevIsSeparator, previous)
  {
    var next := index + wordLen;
    var r' := TagsFrom(chars, matches, wordLen, numbers, next, prevIsSeparator, Match);
    var r := seq(wordLen, _ => Match) + r';
    assert r == TagsFrom(chars, matches, wordLen, numbers, index, prevIsSeparator, previous);
    forall j | 0 <= j < |r| && r[j] != Match
      ensures index + j < |chars|
      ensures r[j] == Classify(numbers, chars[index + j], FlagIn(r, chars, index, prevIsSeparator, j),
                               if j == 0 then previous else r[j - 1])
    {
      var j' := j - wordLen;
      assert j >= wordLen && r[j] == r'[j'];
      assert next + j' == index + j;
      FlagInRun(r', chars, index, wordLen, prevIsSeparator, j');
      if j' == 0 {
        assert r[j - 1] == Match;
      } else {
        assert r[j - 1] == r'[j' - 1];
      }
    }
  }

  /** A classified character followed by the classified rest keeps the rest's classification. */
  lemma ClassifiedCharRest(chars: seq<char>, matches: seq<nat>, wordLen: nat, numbers: bool,
                           index: nat, prevIsSeparator: bool, previous: Type)
    requires index < |chars| && index !in matches
    requires wordLen >= 1 || matches == []
    requires ClassifiedOutsideRuns(TagsFrom(chars, matches, wordLen, numbers, index + 1, IsSeparator(chars[index]),
                                            Classify(numbers, chars[index], prevIsSeparator, previous)),
                                   chars, numbers, index + 1, IsSeparator(chars[index]),
                                   Classify(numbers, chars[index], prevIsSeparator, previous))
    ensures ClassifiedOutsideRuns(TagsFrom(chars, matches, wordLen, numbers, index, prevIsSeparator, previous),
                                  chars, numbers, index, prevIsSeparator, previous)
  {
    var t := Classify(numbers, chars[index], prevIsSeparator, previous);
    var r' := TagsFrom(chars, matches, wordLen, numbers, index + 1, IsSeparator(chars[index]), t);
    var r := [t] + r';
    assert r == TagsFrom(chars, matches, wordLen, numbers, index, prevIsSeparator, previous);
    forall j | 0 <= j < |r| && r[j] != Match
      ensures index + j < |chars|
      ensures r[j] == Classify(numbers, chars[index + j], FlagIn(r, chars, index, prevIsSeparator, j),
                               if j == 0 then previous else r[j - 1])
    {
      if j == 0 {
        assert r[0] == t;
      } else {
        assert r[j] == r'[j - 1];
        assert index + 1 + (j - 1) == index + j;
        FlagInChar(t, r', chars, index, prevIsSeparator, j);
        if j > 1 {
          assert r[j - 1] == r'[j - 2];
        }
      }
    }
    assert ClassifiedOutsideRuns(r, chars, numbers, index, prevIsSeparator, previous);
  }

  /** The walk classifies every character it does not tag as a match. */
  lemma {:induction false} ClassifiedFrom(chars: seq<char>, matches: seq<nat>, wordLen: nat, numbers: bool,
                                          index: nat, prevIsSeparator: bool, previous: Type)
    requires wordLen >= 1 || matches == []
    ensures ClassifiedOutsideRuns(TagsFrom(chars, matches, wordLen, numbers, index, prevIsSeparator, previous),
                                  chars, numbers, index, prevIsSeparator, previous)
    decreases |chars| - index
  {
    if index >= |chars| {
      return;
    }
    if index in matches {
      ClassifiedFrom(chars, matches, wordLen, numbers, index + wordLen, prevIsSeparator, Match);
      ClassifiedRunStep(chars, matches, wordLen, numbers, index, prevIsSeparator, previous);
    } else {
      var t := Classify(numbers, chars[index], prevIsSeparator, previous);
      ClassifiedFrom(chars, matches, wordLen, numbers, index + 1, IsSeparator(chars[index]), t);
      ClassifiedCharRest(chars, matches, wordLen, numbers, index, prevIsSeparator, previous);
    }
  }

  /**
   * Whether the last character before character `i` that lies outside
   * every match run is a separator; true when there is none, as the start
   * of the line counts as a separator.
   */
  ghost function SeparatorBefore(chars: seq<char>, matches: seq<nat>, wordLen: nat, i: nat): bool
    requires i <= |chars|
    decreases i
  {
    if i == 0 then true
    else if InMatch(matches, wordLen, |chars|, i - 1) then SeparatorBefore(chars, matches, wordLen, i - 1)
    else IsSeparator(chars[i - 1])
  }

  /** Over the whole row, the flag the walk holds at character `i` is the separator flag before `i`. */
  lemma {:induction false} FlagIsSeparatorBefore(chars: seq<char>, matches: seq<nat>, wordLen: nat, t: seq<Type>, i: nat)
    requires i <= |chars| <= |t|
    requires forall j :: 0 <= j < |t| ==> (t[j] == Match <==> InMatch(matches, wordLen, |chars|, j))
    ensures FlagIn(t, chars, 0, true, i) == SeparatorBefore(chars, matches, wordLen, i)
    decreases i
  {
    if i > 0 {
      FlagIsSeparatorBefore(chars, matches, wordLen, t, i - 1);
      assert 0 + i - 1 == i - 1;
    }
  }

  /** Over the whole row, a tag is a match exactly inside the runs the walk reaches. */
  lemma MatchRow(chars: seq<char>, matches: seq<nat>, wordLen: nat, numbers: bool, t: seq<Type>)
    requires wordLen >= 1 || matches == []
    requires Spaced(matches, wordLen)
    requires t == Tags(chars, matches, wordLen, numbers)
    ensures |t| >= |chars|
    ensures forall i :: 0 <= i < |t| ==> (t[i] == Match <==> InMatch(matches, wordLen, |chars|, i))
  {
    MatchRunsFrom(chars, matches, wordLen, numbers, 0, true, None);
    forall i | 0 <= i < |t|
      ensures t[i] == Match <==> InMatch(matches, wordLen, |chars|, i)
    {
      assert 0 + i == i;
    }
  }

  /** Over the whole row, every tag outside the match runs is classified with the separator flag before it. */
  lemma ClassifiedRow(chars: seq<char>, matches: seq<nat>, wordLen: nat, numbers: bool, t: seq<Type>)
    requires wordLen >= 1 || matches == []
    requires t == Tags(chars, matches, wordLen, numbers) && |t| >= |chars|
    requires forall i :: 0 <= i < |t| ==> (t[i] == Match <==> InMatch(matches, wordLen, |chars|, i))
    ensures forall i :: 0 <= i < |t| && !InMatch(matches, wordLen, |chars|, i) ==> i < |chars|
    ensures forall i :: 0 <= i < |chars| && !InMatch(matches, wordLen, |chars|, i) ==>
              t[i] == Classify(numbers, chars[i], SeparatorBefore(chars, matches, wordLen, i),
                               if i == 0 then None else t[i - 1])
  {
    ClassifiedFrom(chars, matches, wordLen, numbers, 0, true, None);
    forall i | 0 <= i < |t| && !InMatch(matches, wordLen, |chars|, i)
      ensures i < |chars|
    {
      assert 0 + i == i && t[i] != Match;
    }
    forall i | 0 <= i < |chars| && !InMatch(matches, wordLen, |chars|, i)
      ensures t[i] == Classify(numbers, chars[i], SeparatorBefore(chars, matches, wordLen, i),
                               if i == 0 then None else t[i - 1])
    {
      assert 0 + i == i && t[i] != Match;
      FlagIsSeparatorBefore(chars, matches, wordLen, t, i);
    }
  }

  /**
   * The classifier's rules over a whole row, given match columns that do
   * not overlap: a column is tagged `Match` exactly when it lies in a match
   * run (so a match always wins over the number rule); every other tag
   * stands for a character and is the number rule applied to it, with the
   * separator flag of the last character before it outside the match runs
   * (a run leaves the flag untouched) and the tag before it; so right
   * after a match run the previous tag is `Match`, a dot there is never a
   * number and a number there is a digit.
   */
  lemma TagRules(chars: seq<char>, matches: seq<nat>, wordLen: nat, numbers: bool)
    requires wordLen >= 1 || matches == []
    requires Spaced(matches, wordLen)
    ensures var t := Tags(chars, matches, wordLen, numbers);
            && |t| >= |chars|
            && (forall i :: 0 <= i < |t| ==> (t[i] == Match <==> InMatch(matches, wordLen, |chars|, i)))
            && (forall i :: 0 <= i < |t| && !InMatch(matches, wordLen, |chars|, i) ==> i < |chars|)
            && (0 < |chars| && !InMatch(matches, wordLen, |chars|, 0) ==> t[0] == Classify(numbers, chars[0], true, None))
            && (forall i :: 0 < i < |chars| && !InMatch(matches, wordLen, |chars|, i) ==>
                  t[i] == Classify(numbers, chars[i], SeparatorBefore(chars, matches, wordLen, i), t[i - 1]))
            && (forall i :: 0 < i < |chars| && !InMatch(matches, wordLen, |chars|, i)
                               && InMatch(matches, wordLen, |chars|, i - 1)
                  ==> (chars[i] == '.' ==> t[i] == None) && (t[i] == Number ==> numbers && IsAsciiDigit(chars[i])))
  {
    var t := Tags(chars, matches, wordLen, numbers);
    MatchRow(chars, matches, wordLen, numbers, t);
    ClassifiedRow(chars, matches, wordLen, numbers, t);
    forall i | 0 < i < |chars| && !InMatch(matches, wordLen, |chars|, i) && InMatch(matches, wordLen, |chars|, i - 1)
      ensures (chars[i] == '.' ==> t[i] == None) && (t[i] == Number ==> numbers && IsAsciiDigit(chars[i]))
    {
      assert t[i - 1] == Match;
      assert t[i] == Classify(numbers, chars[i], SeparatorBefore(chars, matches, wordLen, i), Match);
    }
  }

  /** When every run fits inside the row, the walk yields exactly one tag per character from `index` on. */
  lemma {:induction false} TagsFromLength(chars: seq<char>, matches: seq<nat>, wordLen: nat, numbers: bool,
                                          index: nat, prevIsSeparator: bool, previous: Type)
    requires wordLen >= 1 || matches == []
    requires forall k :: 0 <= k < |matches| ==> matches[k] + wordLen <= |chars|
    requires index <= |chars|
    ensures |TagsFrom(chars, matches, wordLen, numbers, index, prevIsSeparator, previous)| == |chars| - index
    decreases |chars| - index
  {
    if index < |chars| {
      if index in matches {
        TagsFromLength(chars, matches, wordLen, numbers, index + wordLen, prevIsSeparator, Match);
      } else {
        var t := Classify(numbers, chars[index], prevIsSeparator, previous);
        TagsFromLength(chars, matches, wordLen, numbers, index + 1, IsSeparator(chars[index]), t);
      }
    }
  }

  /** When no match run reaches past the last character, there is exactly one tag per character. */
  lemma TagsLength(chars: seq<char>, matches: seq<nat>, wordLen: nat, numbers: bool)
    requires wordLen >= 1 || matches == []
    requires forall k :: 0 <= k < |matches| ==> matches[k] + wordLen <= |chars|
    ensures |Tags(chars, matches, wordLen, numbers)| == |chars|
  {
    TagsFromLength(chars, matches, wordLen, numbers, 0, true, None);
  }

  /** Inside a match run the separator flag is the one from before the run. */
  lemma {:induction false} SeparatorAcrossRun(chars: seq<char>, matches: seq<nat>, wordLen: nat, k: nat, j: nat)
    requires k < |matches| && matches[k] + wordLen < |chars| && j <= wordLen
    ensures SeparatorBefore(chars, matches, wordLen, matches[k] + j) == SeparatorBefore(chars, matches, wordLen, matches[k])
    decreases j
  {
    if j > 0 {
      assert InMatch(matches, wordLen, |chars|, matches[k] + j - 1);
      SeparatorAcrossRun(chars, matches, wordLen, k, j - 1);
    }
  }

  /**
   * Right after a match run, with numbers on, a digit is a number exactly
   * when the separator flag from before the run is set: the run keeps the
   * flag of the last character before it outside every run, or the start
   * of the line; a non-digit there is never a number.
   */
  lemma NumberAfterRun(chars: seq<char>, matches: seq<nat>, wordLen: nat, numbers: bool, k: nat)
    requires wordLen >= 1 && Spaced(matches, wordLen)
    requires k < |matches| && matches[k] + wordLen < |chars|
    requires !InMatch(matches, wordLen, |chars|, matches[k] + wordLen)
    ensures Tags(chars, matches, wordLen, numbers)[matches[k] + wordLen] == Number
            <==> numbers && IsAsciiDigit(chars[matches[k] + wordLen]) && SeparatorBefore(chars, matches, wordLen, matches[k])
  {
    var i := matches[k] + wordLen;
    TagRules(chars, matches, wordLen, numbers);
    assert InMatch(matches, wordLen, |chars|, i - 1);
    SeparatorAcrossRun(chars, matches, wordLen, k, wordLen);
  }

  /**
   * A run leaves the separator flag as it was before the run: a digit right
   * after a run is a number when the character before the run is a
   * separator (or the run starts the line), whatever the run holds; and
   * across two adjacent runs the flag is the one from before the first.
   */
  lemma SeparatorSurvivesRuns()
    ensures Tags(['x', '1'], [0], 1, true) == [Match, Number]
    ensures Tags(['a', 'x', '1'], [1], 1, true) == [None, Match, None]
    ensures Tags(['.', 'x', 'y', '1'], [1, 2], 1, true) == [None, Match, Match, Number]
  {
  }

  /**
   * With no match columns (no word, or a word that never occurs, whatever
   * its length) the tag vector has one tag per character and follows the
   * number rule alone, the start of the line counting as a separator.
   */
  lemma NumberRuleWithoutMatches(chars: seq<char>, wordLen: nat, numbers: bool)
    ensures var t := Tags(chars, [], wordLen, numbers);
            && |t| == |chars|
            && forall i :: 0 <= i < |t| ==>
                 t[i] == Classify(numbers, chars[i], i == 0 || IsSeparator(chars[i - 1]), if i == 0 then None else t[i - 1])
  {
    var t := Tags(chars, [], wordLen, numbers);
    TagRules(chars, [], wordLen, numbers);
    forall i | 0 <= i < |t|
      ensures t[i] == Classify(numbers, chars[i], i == 0 || IsSeparator(chars[i - 1]), if i == 0 then None else t[i - 1])
    {
      assert !InMatch([], wordLen, |chars|, i);
      if i > 0 {
        assert !InMatch([], wordLen, |chars|, i - 1);
      }
    }
  }
}
