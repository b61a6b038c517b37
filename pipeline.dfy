/**
  The body of `main` in main.cpp: every line becomes a record (first tab
  field, split at ".", converted), the pool is sorted descending, and four
  blocks are printed: the whole pool, then the three selections.  Reading the
  lines and writing the blocks are left to the caller: the lines come in as a
  sequence and the blocks go out as a `Report` and its text `Output`.
*/
module Pipeline {
  import opened Wrappers
  import opened IpTypes
  import opened Tokenizer
  import opened Parser
  import opened Printer
  import opened Ordering
  import opened Filters

  /** Why a run stops without printing anything. */
  datatype Failure =
    | ParseError    // `std::stoi` threw on some field
    | ShortAddress  // some record has fewer than the four octets the comparator reads

  /** The four printed blocks, in printing order. */
  datatype Report = Report(
    sorted: seq<Address>,
    firstOctet1: seq<Address>,
    firstOctets46And70: seq<Address>,
    anyOctet46: seq<Address>)

  datatype Outcome = Done(report: Report) | Failed(reason: Failure)

  /**
    The record of one line: its first tab-separated field, split at "." and
    converted.  A line without a tab is its own first field.
  */
  function ParseLine(line: string): (r: Option<seq<Octet>>)
    ensures '\t' !in line ==> r == Converted(Split(line, '.'))
  {
    var fields := Split(line, '\t');
    assert '\t' !in line ==> fields == [line] by {
      if '\t' !in line {
        SplitWithoutDelimiter(line, '\t');
      }
    }
    Converted(Split(fields[0], '.'))
  }

  /** The fields after the first tab are ignored: only the address field is read. */
  lemma ParseLineIgnoresExtraFields(address: string, rest: string)
    requires '\t' !in address
    ensures ParseLine(address + "\t" + rest) == ParseLine(address)
  {
    var line := address + "\t" + rest;
    assert forall k :: 0 <= k < |address| ==> line[k] == address[k];
    FindFirstOfAt(line, '\t', 0, |address|);
    assert line[..|address|] == address;
  }

  predicate AllParse(lines: seq<string>)
  {
    forall i :: 0 <= i < |lines| ==> ParseLine(lines[i]).Some?
  }

  /** The pool before sorting: one record per line, in input order. */
  function Parsed(lines: seq<string>): (pool: seq<seq<Octet>>)
    requires AllParse(lines)
  {
    seq(|lines|, i requires 0 <= i < |lines| => ParseLine(lines[i]).value)
  }

  /** Everything written to standard output, one string per line. */
  function Output(report: Report): (text: seq<string>)
    ensures |text| == |report.sorted| + |report.firstOctet1| +
                      |report.firstOctets46And70| + |report.anyOctet46|
    ensures text[..|report.sorted|] == Lines(report.sorted)
  {
    Lines(report.sorted) + Lines(report.firstOctet1) +
    Lines(report.firstOctets46And70) + Lines(report.anyOctet46)
  }

  /**
    The read loop of `main`: one record per line, in input order, or None
    when a field of some line does not parse (the exception ends the loop).
  */
  method ReadPool(lines: seq<string>) returns (r: Option<seq<seq<Octet>>>)
    ensures r.None? <==> !AllParse(lines)
    ensures r.Some? ==> AllParse(lines) && r.value == Parsed(lines)
  {
    var raw: seq<seq<Octet>> := [];
    for i := 0 to |lines|
      invariant |raw| == i
      invariant forall k :: 0 <= k < i ==> ParseLine(lines[k]) == Some(raw[k])
    {
      var fields := SplitLoop(lines[i], '\t');
      var octets := SplitLoop(fields[0], '.');
      var record := Convert(octets);
      if record.None? {
        return None;
      }
      raw := raw + [record.value];
    }
    return Some(raw);
  }

  /** The `std::sort` call of `main`: the pool in descending order, the same records. */
  method SortPool(raw: seq<Address>) returns (sorted: seq<Address>)
    ensures SortedDesc(sorted)
    ensures multiset(sorted) == multiset(raw)
  {
    // `ip_pool` itself is sorted in place; here the records move into an array for that.
    var pool := new Address[|raw|];
    for k := 0 to |raw|
      invariant forall m :: 0 <= m < k ==> pool[m] == raw[m]
    {
      pool[k] := raw[k];
    }
    assert pool[..] == raw;
    SortDescending(pool);
    sorted := pool[..];
  }

  /**
    One run.  A field that does not parse fails the whole run, whichever line
    it is on (the exception leaves the read loop before anything is printed);
    otherwise a record shorter than four octets fails it; otherwise the pool
    is printed in descending order, followed by the three selections of it.
  */
  method Run(lines: seq<string>) returns (r: Outcome)
    ensures r == Failed(ParseError) <==> !AllParse(lines)
    ensures r == Failed(ShortAddress) <==>
              AllParse(lines) && exists i :: 0 <= i < |lines| && |Parsed(lines)[i]| < 4
    ensures r.Done? ==> AllParse(lines) && multiset(r.report.sorted) == multiset(Parsed(lines))
    ensures r.Done? ==> SortedDesc(r.report.sorted)
    ensures r.Done? ==> r.report.firstOctet1 == Select(r.report.sorted, FirstOctetIs1)
    ensures r.Done? ==> r.report.firstOctets46And70 == Select(r.report.sorted, FirstOctetsAre46And70)
    ensures r.Done? ==> r.report.anyOctet46 == Select(r.report.sorted, Containing(46))
    ensures lines == [] ==> r == Done(Report([], [], [], []))
  {
    var read := ReadPool(lines);
    if read.None? {
      return Failed(ParseError);
    }
    var raw := read.value;

    for k := 0 to |raw|
      invariant forall m :: 0 <= m < k ==> |raw[m]| >= 4
    {
      if |raw[k]| < 4 {
        return Failed(ShortAddress);
      }
    }

    var sorted := SortPool(raw);
    var res1 := CopyIf(sorted, FirstOctetIs1);
    var res2 := CopyIf(sorted, FirstOctetsAre46And70);
    var res3 := FilterAny(sorted, 46);
    r := Done(Report(sorted, res1, res2, res3));
  }

  /** A printed line, read back as an input line, gives the record it was printed from. */
  lemma ReparsePrintedLine(a: seq<Octet>)
    requires |a| >= 1
    ensures ParseLine(FormatAddress(a)) == Some(a)
  {
    assert '\t' !in FormatAddress(a);
    FormatParseRoundTrip(a);
  }

  /**
    A printed block, fed back as input, parses to the same pool; with the
    sorting lemmas this makes a second run on the first block reproduce it.
  */
  lemma ReparseBlock(pool: seq<Address>)
    ensures AllParse(Lines(pool)) && Parsed(Lines(pool)) == pool
  {
    forall k | 0 <= k < |pool|
      ensures ParseLine(Lines(pool)[k]) == Some(pool[k])
    {
      ReparsePrintedLine(pool[k]);
    }
  }
}
