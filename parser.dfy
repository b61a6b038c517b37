/**
  `convert` of main.cpp: every field of a dotted address becomes an octet,
  read as a decimal number by `std::stoi` and cut to eight bits.  There is no
  check of the number of fields nor of the 0..255 range.
*/
module Parser {
  import opened Wrappers
  import opened IpTypes

  /** The largest value `std::stoi` returns (a 32-bit `int`). */
  const INT_MAX: nat := 0x7fff_ffff

  predicate IsDigit(c: char)
  {
    '0' <= c <= '9'
  }

  predicate AllDigits(s: string)
  {
    forall k :: 0 <= k < |s| ==> IsDigit(s[k])
  }

  /** The number written by a string of decimal digits, most significant first. */
  function DigitsValue(s: string): nat
    requires AllDigits(s)
  {
    if s == [] then 0
    else DigitsValue(s[..|s| - 1]) * 10 + (s[|s| - 1] as int - '0' as int)
  }

  /**
    The part of `std::stoi` this model keeps: a non-empty run of decimal
    digits denotes its value; anything else, and a value beyond `INT_MAX`,
    is a failure (the library throws `invalid_argument` or `out_of_range`).
  */
  function ParseDecimal(s: string): (r: Option<nat>)
    ensures s == [] ==> r.None?
    ensures r.Some? ==> AllDigits(s) && r.value <= INT_MAX
  {
    if s != [] && AllDigits(s) && DigitsValue(s) <= INT_MAX then Some(DigitsValue(s))
    else None
  }

  /**
    What `convert` computes: None when some field does not parse (the
    exception), otherwise one octet per field, in field order, each the
    parsed value modulo 256.
  */
  function Converted(fields: seq<string>): (r: Option<seq<Octet>>)
    ensures r.Some? <==> forall k :: 0 <= k < |fields| ==> ParseDecimal(fields[k]).Some?
    ensures r.Some? ==> |r.value| == |fields|
    ensures r.Some? ==> forall k :: 0 <= k < |fields| ==>
              r.value[k] == ParseDecimal(fields[k]).value % 256
  {
    if fields == [] then Some([])
    else
      var init := Converted(fields[..|fields| - 1]);
      var last := ParseDecimal(fields[|fields| - 1]);
      if init.None? || last.None? then None
      else Some(init.value + [ToOctet(last.value)])
  }

  /** The range loop of `convert`, appending one octet per field. */
  method Convert(fields: seq<string>) returns (r: Option<seq<Octet>>)
    ensures r == Converted(fields)
  {
    var result: seq<Octet> := [];
    for i := 0 to |fields|
      invariant Converted(fields[..i]) == Some(result)
    {
      var v := ParseDecimal(fields[i]);
      assert fields[..i + 1][..i] == fields[..i];
      if v.None? {
        return None;
      }
      result := result + [ToOctet(v.value)];
    }
    assert fields[..|fields|] == fields;
    return Some(result);
  }

  /** Fields of the worked conversions below, read by the decimal parser. */
  lemma ParseDecimalExamples()
    ensures ParseDecimal("0") == Some(0) && ParseDecimal("1") == Some(1)
    ensures ParseDecimal("2") == Some(2) && ParseDecimal("3") == Some(3)
    ensures ParseDecimal("4") == Some(4) && ParseDecimal("256") == Some(256)
    ensures ParseDecimal("x") == None && ParseDecimal("") == None
  {
    assert "25"[..1] == "2" && "256"[..2] == "25";
  }

  /** A field above 255 wraps: there is no range check. */
  lemma ConvertWraps()
    ensures Converted(["256", "0", "0", "0"]) == Some([0, 0, 0, 0])
  {
    ParseDecimalExamples();
    var r := Converted(["256", "0", "0", "0"]);
    assert |r.value| == 4;
    assert r.value[0] == 0 && r.value[1] == 0 && r.value[2] == 0 && r.value[3] == 0;
    assert r.value == [0, 0, 0, 0];
  }

  /** The well-formed example converts octet by octet. */
  lemma ConvertFourFields()
    ensures Converted(["1", "2", "3", "4"]) == Some([1, 2, 3, 4])
  {
    ParseDecimalExamples();
    var r := Converted(["1", "2", "3", "4"]);
    assert |r.value| == 4;
    assert r.value[0] == 1 && r.value[1] == 2 && r.value[2] == 3 && r.value[3] == 4;
    assert r.value == [1, 2, 3, 4];
  }

  /** The number of fields is not checked either. */
  lemma ConvertThreeFields()
    ensures Converted(["1", "2", "3"]) == Some([1, 2, 3])
  {
    ParseDecimalExamples();
    var r := Converted(["1", "2", "3"]);
    assert |r.value| == 3;
    assert r.value[0] == 1 && r.value[1] == 2 && r.value[2] == 3;
    assert r.value == [1, 2, 3];
  }

  /** One non-numeric field fails the whole conversion. */
  lemma ConvertRejects()
    ensures Converted(["10", "x", "0", "0"]) == None
  {
    ParseDecimalExamples();
    assert ["10", "x", "0", "0"][1] == "x";
  }
}
