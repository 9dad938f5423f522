/**
 * The document: the rows of a file's contents, one per line, in order.
 *
 * Reading the file is not modelled; `Open` starts from the contents
 * already read into a string and splits them the way `str::lines` does.
 */
module Documents {
  import opened Options
  import opened Text
  import Rows

  /** The index of the first line feed in `s`, or `|s|` when there is none. */
  function NewlineIndex(s: seq<char>): (n: nat)
    ensures n <= |s|
    ensures forall i :: 0 <= i < n ==> s[i] != '\n'
    ensures n < |s| ==> s[n] == '\n'
  {
    if s == [] then 0
    else if s[0] == '\n' then 0
    else 1 + NewlineIndex(s[1..])
  }

  /** A line without its carriage return, when it has one right before the line feed. */
  function StripCr(line: seq<char>): seq<char>
  {
    if line != [] && line[|line| - 1] == '\r' then line[..|line| - 1] else line
  }

  /**
   * `str::lines`: the text is cut after every line feed; a line that was
   * ended by `\r\n` loses the `\r` as well; a last line without a
   * terminator is kept as it is, and no empty line follows a final
   * terminator.
   */
  function Lines(s: seq<char>): seq<seq<char>>
    decreases |s|
  {
    if s == [] then []
    else
      var n := NewlineIndex(s);
      if n == |s| then [s]
      else [StripCr(s[..n])] + Lines(s[n + 1..])
  }

  /** The number of line feeds in `s`. */
  function Newlines(s: seq<char>): nat
  {
    if s == [] then 0 else (if s[0] == '\n' then 1 else 0) + Newlines(s[1..])
  }

  /** `s` ends in a character other than a line feed: its last line has no terminator. */
  predicate Unterminated(s: seq<char>)
  {
    s != [] && s[|s| - 1] != '\n'
  }

  /** Cutting `s` at its first line feed splits its line feeds into that one and those after it. */
  lemma {:induction false} NewlinesAtFirst(s: seq<char>, n: nat)
    requires n == NewlineIndex(s) < |s|
    ensures Newlines(s) == 1 + Newlines(s[n + 1..])
    decreases n
  {
    if n > 0 {
      NewlinesAtFirst(s[1..], n - 1);
      assert s[1..][n..] == s[n + 1..];
    }
  }

  /** Text without line feeds has none to count. */
  lemma {:induction false} NoNewlines(s: seq<char>)
    requires '\n' !in s
    ensures Newlines(s) == 0
    decreases |s|
  {
    if s != [] {
      NoNewlines(s[1..]);
    }
  }

  /** One line per line feed, plus one for a last line without a terminator; never an extra empty line. */
  lemma {:induction false} LinesCount(s: seq<char>)
    ensures |Lines(s)| == Newlines(s) + (if Unterminated(s) then 1 else 0)
    decreases |s|
  {
    if s != [] {
      var n := NewlineIndex(s);
      if n == |s| {
        NoNewlines(s);
      } else {
        var rest := s[n + 1..];
        LinesCount(rest);
        NewlinesAtFirst(s, n);
        if rest != [] {
          assert rest[|rest| - 1] == s[|s| - 1];
        }
      }
    }
  }

  /** No line holds a line feed. */
  lemma {:induction false} LinesHaveNoNewline(s: seq<char>)
    ensures forall i :: 0 <= i < |Lines(s)| ==> '\n' !in Lines(s)[i]
    decreases |s|
  {
    if s != [] {
      var n := NewlineIndex(s);
      if n == |s| {
        assert '\n' !in s;
      } else {
        LinesHaveNoNewline(s[n + 1..]);
        var line := s[..n];
        assert '\n' !in line;
        assert StripCr(line) == line || StripCr(line) == line[..|line| - 1];
        assert forall c :: c in StripCr(line) ==> c in line;
        assert forall i :: 1 <= i < |Lines(s)| ==> Lines(s)[i] == Lines(s[n + 1..])[i - 1];
      }
    }
  }

  /** The text of the lines, each followed by the terminator `eol`. */
  function Joined(lines: seq<seq<char>>, eol: seq<char>): seq<char>
  {
    if lines == [] then [] else lines[0] + eol + Joined(lines[1..], eol)
  }

  /**
   * `eol` is a line terminator `str::lines` strips from after `line`
   * without touching the line: `\r\n` always, `\n` unless the line ends
   * in a carriage return.
   */
  predicate EndsCleanly(line: seq<char>, eol: seq<char>)
  {
    eol == ['\r', '\n'] || (eol == ['\n'] && (line == [] || line[|line| - 1] != '\r'))
  }

  /** Splitting the text at the line that leads it off. */
  lemma LinesOfLeading(line: seq<char>, eol: seq<char>, rest: seq<char>)
    requires '\n' !in line
    requires EndsCleanly(line, eol)
    ensures Lines(line + eol + rest) == [line] + Lines(rest)
  {
    var s := line + eol + rest;
    LeadingNewline(line, eol, rest);
    LeadingCut(line, eol, rest);
    LinesAtFirst(s, |line| + |eol| - 1);
  }

  /** The first line feed of the text is the one that ends its leading line. */
  lemma LeadingNewline(line: seq<char>, eol: seq<char>, rest: seq<char>)
    requires '\n' !in line
    requires EndsCleanly(line, eol)
    ensures NewlineIndex(line + eol + rest) == |line| + |eol| - 1
  {
    var s := line + eol + rest;
    forall i | 0 <= i < |line| + |eol| - 1
      ensures s[i] != '\n'
    {
      if i < |line| {
        assert s[i] == line[i];
      }
    }
    NewlineIndexIsFirst(s, |line| + |eol| - 1);
  }

  /** Cut at the line feed that ends it, the leading line loses its terminator and the rest follows. */
  lemma LeadingCut(line: seq<char>, eol: seq<char>, rest: seq<char>)
    requires EndsCleanly(line, eol)
    ensures var s, n := line + eol + rest, |line| + |eol| - 1;
            StripCr(s[..n]) == line && s[n + 1..] == rest
  {
    var s, n := line + eol + rest, |line| + |eol| - 1;
    assert s[n + 1..] == rest;
    if eol == ['\r', '\n'] {
      assert s[..n] == line + ['\r'];
      assert (line + ['\r'])[..|line|] == line;
    } else {
      assert s[..n] == line;
    }
  }

  /** `Lines` cuts at the first line feed. */
  lemma LinesAtFirst(s: seq<char>, n: nat)
    requires n == NewlineIndex(s) < |s|
    ensures Lines(s) == [StripCr(s[..n])] + Lines(s[n + 1..])
  {
  }

  /** A line feed with none before it is the first one. */
  lemma {:induction false} NewlineIndexIsFirst(s: seq<char>, n: nat)
    requires n < |s| && s[n] == '\n'
    requires forall i :: 0 <= i < n ==> s[i] != '\n'
    ensures NewlineIndex(s) == n
    decreases n
  {
    if n > 0 {
      NewlineIndexIsFirst(s[1..], n - 1);
    }
  }

  /**
   * Round trip: lines without line feeds, each ended by `\n`, come back as
   * they were, provided none ends in a carriage return (which `\r\n` would
   * swallow); each ended by `\r\n`, they come back whatever they end in.
   */
  lemma {:induction false} LinesOfJoined(lines: seq<seq<char>>, eol: seq<char>)
    requires forall i :: 0 <= i < |lines| ==> '\n' !in lines[i]
    requires forall i :: 0 <= i < |lines| ==> EndsCleanly(lines[i], eol)
    ensures Lines(Joined(lines, eol)) == lines
    decreases |lines|
  {
    if lines != [] {
      LinesOfJoined(lines[1..], eol);
      LinesOfLeading(lines[0], eol, Joined(lines[1..], eol));
    }
  }

  /**
   * A final terminator adds no line: the text with a `\r\n` after its
   * unterminated last line splits as the text without it, and so does
   * the text with a `\n` after it, unless that last line ends in `\r`.
   */
  lemma {:induction false} TrailingTerminator(s: seq<char>, eol: seq<char>)
    requires Unterminated(s)
    requires EndsCleanly(s, eol)
    ensures Lines(s + eol) == Lines(s)
    decreases |s|
  {
    var n := NewlineIndex(s);
    if n == |s| {
      TerminatedLastLine(s, eol);
    } else {
      TerminatedAfterFirst(s, eol, n);
      RestEndsAlike(s, eol, n);
      TrailingTerminator(s[n + 1..], eol);
    }
  }

  /** A terminator after text without line feeds leaves it one line. */
  lemma TerminatedLastLine(s: seq<char>, eol: seq<char>)
    requires s != [] && NewlineIndex(s) == |s|
    requires EndsCleanly(s, eol)
    ensures Lines(s + eol) == Lines(s) == [s]
  {
    assert '\n' !in s;
    LinesOfLeading(s, eol, []);
    assert s + eol + [] == s + eol;
  }

  /** With a line feed in `s`, `s` and `s` followed by a terminator split alike at the first one. */
  lemma TerminatedAfterFirst(s: seq<char>, eol: seq<char>, n: nat)
    requires n == NewlineIndex(s) < |s|
    ensures Lines(s) == [StripCr(s[..n])] + Lines(s[n + 1..])
    ensures Lines(s + eol) == [StripCr(s[..n])] + Lines(s[n + 1..] + eol)
  {
    NewlineIndexPrefix(s, eol);
    LinesAtFirst(s, n);
    LinesAtFirst(s + eol, n);
    CutBeforeTail(s, eol, n);
  }

  /** What follows a line feed of `s` ends as `s` does. */
  lemma RestEndsAlike(s: seq<char>, eol: seq<char>, n: nat)
    requires Unterminated(s) && EndsCleanly(s, eol)
    requires n < |s| && s[n] == '\n'
    ensures Unterminated(s[n + 1..]) && EndsCleanly(s[n + 1..], eol)
  {
    var rest := s[n + 1..];
    assert rest[|rest| - 1] == s[|s| - 1];
  }

  /** Cutting at a position inside `s` leaves the tail appended to the second part. */
  lemma CutBeforeTail(s: seq<char>, tail: seq<char>, n: nat)
    requires n < |s|
    ensures (s + tail)[..n] == s[..n] && (s + tail)[n + 1..] == s[n + 1..] + tail
  {
  }

  /** Text after the first line feed does not move it. */
  lemma NewlineIndexPrefix(s: seq<char>, tail: seq<char>)
    requires NewlineIndex(s) < |s| || '\n' in tail
    ensures NewlineIndex(s) < |s| ==> NewlineIndex(s + tail) == NewlineIndex(s)
    ensures NewlineIndex(s) == |s| ==> NewlineIndex(s + tail) == |s| + NewlineIndex(tail)
  {
    var n := NewlineIndex(s);
    var t := s + tail;
    if n < |s| {
      assert t[n] == '\n';
      NewlineIndexIsFirst(t, n);
    } else {
      var m := NewlineIndex(tail);
      assert m < |tail|;
      assert t[|s| + m] == '\n';
      forall i | 0 <= i < |s| + m
        ensures t[i] != '\n'
      {
        if i >= |s| {
          assert t[i] == tail[i - |s|];
        }
      }
      NewlineIndexIsFirst(t, |s| + m);
    }
  }

  class Document {
    /** The rows, in the order of the lines they were read from. */
    var rows: seq<Rows.Row>

    /** Every row is a valid row, and no two rows are the same object: the document owns each of its rows. */
    ghost predicate Valid()
      reads this, rows
    {
      && (forall i :: 0 <= i < |rows| ==> rows[i].Valid())
      && (forall i, j :: 0 <= i < j < |rows| ==> rows[i] != rows[j])
    }

    /** `Document::default()`: no rows. */
    constructor ()
      ensures Valid() && rows == []
    {
      rows := [];
    }

    /**
     * `open`, once the contents are read: one fresh row per line of
     * `str::lines`, in order, each built by `Row::from` from the line and
     * its clusters as the segmentation `segment` gives them.
     */
    constructor Open(contents: seq<char>, segment: seq<char> -> seq<seq<char>>)
      requires forall s :: Segments(segment(s), s)
      ensures Valid()
      ensures |rows| == |Lines(contents)|
      ensures forall i :: 0 <= i < |rows| ==>
                && fresh(rows[i])
                && rows[i].text == Lines(contents)[i]
                && rows[i].graphemes == segment(Lines(contents)[i])
                && rows[i].highlighting == []
      ensures forall i :: 0 <= i < |rows| ==> '\n' !in rows[i].text
    {
      var lines := Lines(contents);
      var rs: seq<Rows.Row> := [];
      for i := 0 to |lines|
        invariant |rs| == i
        invariant forall j :: 0 <= j < i ==>
                    && fresh(rs[j]) && rs[j].Valid()
                    && rs[j].text == lines[j] && rs[j].graphemes == segment(lines[j])
                    && rs[j].highlighting == []
        invariant forall j, k :: 0 <= j < k < i ==> rs[j] != rs[k]
      {
        var row := new Rows.Row.From(lines[i], segment(lines[i]));
        rs := rs + [row];
      }
      rows := rs;
      LinesHaveNoNewline(contents);
    }

    /** `row(index)`: the row at `index`, and nothing past the last row. */
    function Row(index: nat): (r: Option<Rows.Row>)
      reads this
      ensures index < |rows| <==> r.Some?
      ensures r.Some? ==> r.value == rows[index]
    {
      if index < |rows| then Some(rows[index]) else None
    }

    /** `row_len(index)`: the column count of the row at `index`, and 0 past the last row. */
    function RowLen(index: nat): (n: nat)
      reads this, rows
      requires Valid()
      ensures Row(index).Some? ==> n == |Row(index).value.graphemes|
      ensures Row(index).None? ==> n == 0
    {
      match Row(index)
      case None => 0
      case Some(row) => row.Len()
    }

    /** `is_empty()`: there are no rows. */
    function IsEmpty(): (b: bool)
      reads this
      ensures b <==> Len() == 0
    {
      |rows| == 0
    }

    /** `len()`: the number of rows. */
    function Len(): (n: nat)
      reads this
      ensures n == |rows|
    {
      |rows|
    }
  }
}
