/**
  The text `print_ip_addresses` of main.cpp writes for one record: every
  octet as a decimal `int`, with "." between neighbours.  The stream writes
  themselves are not modelled; a printed block is the sequence of its lines.
*/
module Printer {
  import opened Wrappers
  import opened IpTypes
  import opened Tokenizer
  import opened Parser

  /** The decimal digit character for `n`. */
  function DigitChar(n: nat): (c: char)
    requires n < 10
    ensures IsDigit(c) && c as int - '0' as int == n
  {
    ('0' as int + n) as char
  }

  /** `n` written in decimal, as `operator<<` writes an `int`: no leading zero. */
  function Decimal(n: nat): (r: string)
    ensures r != [] && AllDigits(r)
  {
    if n < 10 then [DigitChar(n)] else Decimal(n / 10) + [DigitChar(n % 10)]
  }

  /** The decimal text of every octet of `a`, in order. */
  function Decimals(a: seq<Octet>): seq<string>
  {
    seq(|a|, k requires 0 <= k < |a| => Decimal(a[k]))
  }

  /** One output line: the octets in decimal, separated by "."; nothing else is written. */
  function FormatAddress(a: seq<Octet>): (r: string)
    ensures forall k :: 0 <= k < |r| ==> IsDigit(r[k]) || r[k] == '.'
  {
    JoinChars(Decimals(a), '.');
    Join(Decimals(a), '.')
  }

  /** The lines of one printed block, one per record, in pool order; none holds a tab. */
  function Lines(pool: seq<seq<Octet>>): (r: seq<string>)
    ensures |r| == |pool|
    ensures forall k :: 0 <= k < |r| ==> '\t' !in r[k]
  {
    seq(|pool|, k requires 0 <= k < |pool| => FormatAddress(pool[k]))
  }

  /** Decimal text has no leading zero and reads back as `n`. */
  lemma {:induction false} DecimalDigits(n: nat)
    ensures |Decimal(n)| > 1 ==> Decimal(n)[0] != '0'
    ensures DigitsValue(Decimal(n)) == n
  {
    if n >= 10 {
      DecimalDigits(n / 10);
      var s := Decimal(n);
      assert s[..|s| - 1] == Decimal(n / 10);
      assert s[0] == Decimal(n / 10)[0];
    }
  }

  /** Printing a number and reading it back with the decimal parser is the identity. */
  lemma DecimalRoundTrip(n: nat)
    requires n <= INT_MAX
    ensures ParseDecimal(Decimal(n)) == Some(n)
  {
    DecimalDigits(n);
  }

  /** No octet's decimal text contains the separator. */
  lemma DecimalsWithoutDot(a: seq<Octet>)
    ensures forall p :: p in Decimals(a) ==> '.' !in p
  {
    var pieces := Decimals(a);
    forall p | p in pieces
      ensures '.' !in p
    {
      var k :| 0 <= k < |a| && pieces[k] == p;
      assert AllDigits(Decimal(a[k]));
    }
  }

  /** Converting the decimal texts of a record gives the record back. */
  lemma ConvertDecimals(a: seq<Octet>)
    ensures Converted(Decimals(a)) == Some(a)
  {
    var pieces := Decimals(a);
    forall k | 0 <= k < |a|
      ensures ParseDecimal(pieces[k]) == Some(a[k] as nat)
    {
      DecimalRoundTrip(a[k]);
    }
    var r := Converted(pieces);
    assert r.Some?;
    assert r.value == a;
  }

  /**
    Print/parse round trip: the line printed for a record, split at "." and
    converted, gives back the record.
  */
  lemma FormatParseRoundTrip(a: seq<Octet>)
    requires |a| >= 1
    ensures Converted(Split(FormatAddress(a), '.')) == Some(a)
  {
    DecimalsWithoutDot(a);
    SplitJoin(Decimals(a), '.');
    ConvertDecimals(a);
  }

  /** A join of digit strings holds digits and the separator only. */
  lemma {:induction false} JoinChars(pieces: seq<string>, d: char)
    requires forall p :: p in pieces ==> AllDigits(p)
    ensures forall k :: 0 <= k < |Join(pieces, d)| ==> IsDigit(Join(pieces, d)[k]) || Join(pieces, d)[k] == d
  {
    if |pieces| > 1 {
      assert pieces[0] in pieces;
      assert forall p :: p in pieces[1..] ==> p in pieces;
      JoinChars(pieces[1..], d);
    } else if |pieces| == 1 {
      assert pieces[0] in pieces;
    }
  }
}
