/**
  The delimiter tokenizer `split` of main.cpp.  It cuts a string at every
  occurrence of one delimiter character and keeps every segment, empty ones
  included, so a string with k delimiters always gives k + 1 segments.
*/
module Tokenizer {
  import opened Wrappers

  /** Number of occurrences of `d` in `s`. */
  function Occurrences(s: string, d: char): nat
  {
    if s == [] then 0 else (if s[0] == d then 1 else 0) + Occurrences(s[1..], d)
  }

  /**
    `std::string::find_first_of(d, from)`: the first position at or after
    `from` that holds `d`, or None (the library's `npos`).
  */
  function FindFirstOf(s: string, d: char, from: nat): (r: Option<nat>)
    ensures r.Some? ==> from <= r.value < |s| && s[r.value] == d
    decreases |s| - from
  {
    if from >= |s| then None
    else if s[from] == d then Some(from)
    else FindFirstOf(s, d, from + 1)
  }

  /** The search skips no delimiter: none lies between `from` and its result. */
  lemma {:induction false} FindFirstOfFirst(s: string, d: char, from: nat)
    ensures forall k :: from <= k < |s| && FindFirstOf(s, d, from) == None ==> s[k] != d
    ensures forall k :: from <= k < |s| && FindFirstOf(s, d, from).Some? && k < FindFirstOf(s, d, from).value ==> s[k] != d
    decreases |s| - from
  {
    if from < |s| && s[from] != d {
      FindFirstOfFirst(s, d, from + 1);
    }
  }

  /**
    The segments of `s` between occurrences of `d`, left to right.  There is
    always at least one, so `v.at(0)` on the result of `split` never throws.
  */
  function Split(s: string, d: char): (r: seq<string>)
    ensures |r| >= 1
    decreases |s|
  {
    match FindFirstOf(s, d, 0)
    case None => [s]
    case Some(i) => [s[..i]] + Split(s[i + 1..], d)
  }

  /** Segments glued back together with `d` between neighbours. */
  function Join(pieces: seq<string>, d: char): string
  {
    if pieces == [] then []
    else if |pieces| == 1 then pieces[0]
    else pieces[0] + [d] + Join(pieces[1..], d)
  }

  /**
    The segments from the cursor `start` on, read straight off `s` the way
    the loop of `split` reads them.
  */
  function SegmentsFrom(s: string, d: char, start: nat): seq<string>
    requires start <= |s|
    decreases |s| - start
  {
    match FindFirstOf(s, d, start)
    case None => [s[start..]]
    case Some(i) => [s[start..i]] + SegmentsFrom(s, d, i + 1)
  }

  /** The loop invariant of `split` survives one segment being pushed. */
  lemma SegmentsStep(s: string, d: char, start: nat, r: seq<string>)
    requires start <= |s| && FindFirstOf(s, d, start).Some?
    ensures var stop := FindFirstOf(s, d, start).value;
      r + SegmentsFrom(s, d, start) == (r + [s[start..stop]]) + SegmentsFrom(s, d, stop + 1)
  {
  }

  /** The segments from a cursor are the segments of the suffix it starts. */
  lemma {:induction false} SegmentsFromSuffix(s: string, d: char, start: nat)
    requires start <= |s|
    ensures SegmentsFrom(s, d, start) == Split(s[start..], d)
    decreases |s| - start
  {
    match FindFirstOf(s, d, start)
    case None =>
      SplitFromLast(s, d, start);
    case Some(i) =>
      SegmentsFromSuffix(s, d, i + 1);
      SplitFromFound(s, d, start, i);
  }

  /**
    The loop of `split`: `start` is the beginning of the current segment and
    `stop` the next delimiter at or after it.
  */
  method SplitLoop(s: string, d: char) returns (r: seq<string>)
    ensures r == Split(s, d)
  {
    SegmentsFromSuffix(s, d, 0);
    assert s[0..] == s;
    r := [];
    var start: nat := 0;
    var stop := FindFirstOf(s, d, 0);
    while stop.Some?
      invariant start <= |s|
      invariant stop == FindFirstOf(s, d, start)
      invariant r + SegmentsFrom(s, d, start) == Split(s, d)
      decreases |s| - start
    {
      var segment := s[start..stop.value];
      SegmentsStep(s, d, start, r);
      r := r + [segment];
      start := stop.value + 1;
      stop := FindFirstOf(s, d, start);
    }
    assert SegmentsFrom(s, d, start) == [s[start..]];
    r := r + [s[start..]];
  }

  /** The segments of a suffix whose first delimiter is at `i`. */
  lemma SplitFromFound(s: string, d: char, start: nat, i: nat)
    requires start <= |s|
    requires FindFirstOf(s, d, start) == Some(i)
    ensures Split(s[start..], d) == [s[start..i]] + Split(s[i + 1..], d)
  {
    var t := s[start..];
    var j := i - start;
    assert FindFirstOf(t, d, 0) == Some(j) by {
      FindFirstOfShift(s, d, start);
    }
    var head, tail := t[..j], t[j + 1..];
    assert head == s[start..i];
    assert tail == s[i + 1..];
    SplitUnfold(t, d, j);
  }

  /** `Split` of a string whose first delimiter is at `j`, one step unfolded. */
  lemma SplitUnfold(t: string, d: char, j: nat)
    requires FindFirstOf(t, d, 0) == Some(j)
    ensures Split(t, d) == [t[..j]] + Split(t[j + 1..], d)
  {
  }

  /** A suffix without delimiter is one segment. */
  lemma SplitFromLast(s: string, d: char, start: nat)
    requires start <= |s|
    requires FindFirstOf(s, d, start) == None
    ensures Split(s[start..], d) == [s[start..]]
  {
    FindFirstOfShift(s, d, start);
  }

  /** Searching a suffix from its start is searching the whole from its offset. */
  lemma {:induction false} FindFirstOfShift(s: string, d: char, start: nat)
    requires start <= |s|
    ensures FindFirstOf(s[start..], d, 0) ==
            match FindFirstOf(s, d, start)
            case None => None
            case Some(i) => Some(i - start)
  {
    var b := FindFirstOf(s, d, start);
    FindFirstOfFirst(s, d, start);
    match b
    case None =>
      FindFirstOfNone(s[start..], d, 0);
    case Some(i) =>
      FindFirstOfAt(s[start..], d, 0, i - start);
  }

  lemma {:induction false} FindFirstOfNone(s: string, d: char, from: nat)
    requires forall k :: from <= k < |s| ==> s[k] != d
    ensures FindFirstOf(s, d, from) == None
    decreases |s| - from
  {
    if from < |s| {
      FindFirstOfNone(s, d, from + 1);
    }
  }

  lemma {:induction false} FindFirstOfAt(s: string, d: char, from: nat, i: nat)
    requires from <= i < |s| && s[i] == d
    requires forall k :: from <= k < i ==> s[k] != d
    ensures FindFirstOf(s, d, from) == Some(i)
    decreases i - from
  {
    if from < i {
      FindFirstOfAt(s, d, from + 1, i);
    }
  }

  /** `split` returns one more segment than there are delimiters. */
  lemma {:induction false} SplitCount(s: string, d: char)
    ensures |Split(s, d)| == Occurrences(s, d) + 1
    decreases |s|
  {
    FindFirstOfFirst(s, d, 0);
    match FindFirstOf(s, d, 0)
    case None =>
      NoOccurrences(s, d);
    case Some(i) =>
      SplitCount(s[i + 1..], d);
      OccurrencesAppend(s[..i + 1], s[i + 1..], d);
      OccurrencesAppend(s[..i], [d], d);
      NoOccurrences(s[..i], d);
      assert s[..i + 1] == s[..i] + [d];
      assert s == s[..i + 1] + s[i + 1..];
  }

  lemma {:induction false} NoOccurrences(s: string, d: char)
    requires forall k :: 0 <= k < |s| ==> s[k] != d
    ensures Occurrences(s, d) == 0
  {
    if s != [] {
      NoOccurrences(s[1..], d);
    }
  }

  lemma {:induction false} OccurrencesAppend(a: string, b: string, d: char)
    ensures Occurrences(a + b, d) == Occurrences(a, d) + Occurrences(b, d)
  {
    if a == [] {
      assert a + b == b;
    } else {
      assert (a + b)[1..] == a[1..] + b;
      OccurrencesAppend(a[1..], b, d);
    }
  }

  /** No segment contains the delimiter. */
  lemma {:induction false} SplitPiecesFree(s: string, d: char)
    ensures forall p :: p in Split(s, d) ==> d !in p
    decreases |s|
  {
    FindFirstOfFirst(s, d, 0);
    match FindFirstOf(s, d, 0)
    case None =>
    case Some(i) =>
      SplitPiecesFree(s[i + 1..], d);
      assert d !in s[..i] by {
        forall k | 0 <= k < i ensures s[..i][k] != d { }
      }
  }

  /** Joining the segments with the delimiter gives the string back. */
  lemma {:induction false} JoinSplit(s: string, d: char)
    ensures Join(Split(s, d), d) == s
    decreases |s|
  {
    match FindFirstOf(s, d, 0)
    case None =>
    case Some(i) =>
      var rest := Split(s[i + 1..], d);
      JoinSplit(s[i + 1..], d);
      assert ([s[..i]] + rest)[1..] == rest;
      assert s == s[..i] + [d] + s[i + 1..];
  }

  /** Splitting a join of delimiter-free segments gives the segments back. */
  lemma {:induction false} SplitJoin(pieces: seq<string>, d: char)
    requires |pieces| >= 1
    requires forall p :: p in pieces ==> d !in p
    ensures Split(Join(pieces, d), d) == pieces
    decreases |pieces|
  {
    var p := pieces[0];
    assert p in pieces;
    if |pieces| == 1 {
      FindFirstOfNone(p, d, 0);
    } else {
      var s := Join(pieces, d);
      assert s == p + [d] + Join(pieces[1..], d);
      assert s[|p|] == d;
      assert forall k :: 0 <= k < |p| ==> s[k] == p[k] && p[k] != d;
      FindFirstOfAt(s, d, 0, |p|);
      assert pieces[1..][0] == pieces[1];
      SplitJoin(pieces[1..], d);
      assert s[..|p|] == p;
      assert s[|p| + 1..] == Join(pieces[1..], d);
      assert pieces == [p] + pieces[1..];
    }
  }

  /** A string without the delimiter is its own single segment. */
  lemma SplitWithoutDelimiter(s: string, d: char)
    requires d !in s
    ensures Split(s, d) == [s]
  {
    FindFirstOfNone(s, d, 0);
  }

  /** The worked examples written above `split` without a delimiter. */
  lemma SplitExamplesPlain()
    ensures Split("", '.') == [""]
    ensures Split("11", '.') == ["11"]
  {
    SplitWithoutDelimiter("", '.');
    SplitWithoutDelimiter("11", '.');
  }

  /** Worked example above `split`: two delimiters alone give three empty segments. */
  lemma SplitExampleDelimitersOnly()
    ensures Split("..", '.') == ["", "", ""]
  {
    assert Join(["", "", ""], '.') == "..";
    SplitExample("..", ["", "", ""]);
  }

  /** Worked example above `split`: a trailing delimiter gives an empty last segment. */
  lemma SplitExampleTrailing()
    ensures Split("11.", '.') == ["11", ""]
  {
    assert Join(["11", ""], '.') == "11.";
    SplitExample("11.", ["11", ""]);
  }

  /** Worked example above `split`: a leading delimiter gives an empty first segment. */
  lemma SplitExampleLeading()
    ensures Split(".11", '.') == ["", "11"]
  {
    assert Join(["", "11"], '.') == ".11";
    SplitExample(".11", ["", "11"]);
  }

  /** The worked example written above `split` with two non-empty segments. */
  lemma SplitExampleTwoFields()
    ensures Split("11.22", '.') == ["11", "22"]
  {
    assert Join(["11", "22"], '.') == "11.22";
    SplitExample("11.22", ["11", "22"]);
  }

  lemma SplitExample(s: string, pieces: seq<string>)
    requires |pieces| >= 1
    requires forall p :: p in pieces ==> '.' !in p
    requires s == Join(pieces, '.')
    ensures Split(s, '.') == pieces
  {
    SplitJoin(pieces, '.');
  }
}
