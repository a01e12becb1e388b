/**
 * The numeric text conversions the collection relies on when a column is
 * searched by Id or by Value: `std::stoull`, and `std::stoul` followed by a
 * cast to 32 bits. Only plain decimal digit strings are accepted; an empty or
 * non-digit string is an invalid argument, and a number of 2^64 or more is
 * out of range (`unsigned long` is taken to be 64 bits wide).
 */
module Parsing {
  import opened Wrappers
  import opened QBRecords

  /** The two exceptions the standard conversions throw. */
  datatype ParseError = InvalidArgument | OutOfRange

  predicate IsDigit(c: char) {
    '0' <= c <= '9'
  }

  predicate AllDigits(s: string) {
    forall i :: 0 <= i < |s| ==> IsDigit(s[i])
  }

  function DigitValue(c: char): nat
    requires IsDigit(c)
  {
    c as int - '0' as int
  }

  function DigitChar(d: nat): char
    requires d < 10
  {
    ('0' as int + d) as char
  }

  /** The number a string of decimal digits denotes, most significant digit first. */
  function DecimalValue(s: string): nat
    requires AllDigits(s)
  {
    if s == [] then 0 else DecimalValue(s[..|s| - 1]) * 10 + DigitValue(s[|s| - 1])
  }

  /** The decimal text of a number, as `std::to_string` writes it. */
  function Decimal(n: nat): (s: string)
    ensures s != [] && AllDigits(s)
  {
    if n < 10 then [DigitChar(n)] else Decimal(n / 10) + [DigitChar(n % 10)]
  }

  /**
   * `static_cast<uint64_t>(std::stoull(s))`: the unsigned 64-bit number the
   * text denotes. Text that is not a non-empty digit string is an invalid
   * argument; a number of 2^64 or more is out of range.
   */
  function ParseValue(s: string): (r: Result<u64, ParseError>)
    ensures r.Success? <==> s != [] && AllDigits(s) && DecimalValue(s) < U64_LIMIT
    ensures r.Success? ==> r.value == DecimalValue(s)
    ensures r == Failure(OutOfRange) ==> s != [] && AllDigits(s)
  {
    if s == [] || !AllDigits(s) then Failure(InvalidArgument)
    else if DecimalValue(s) >= U64_LIMIT then Failure(OutOfRange)
    else Success(DecimalValue(s))
  }

  /**
   * `static_cast<uint32_t>(std::stoul(s))`, with `unsigned long` 64 bits wide:
   * the same conversion as `ParseValue`, after which the cast keeps the value
   * modulo 2^32.
   */
  function ParseId(s: string): (r: Result<u32, ParseError>)
    ensures r.Success? <==> ParseValue(s).Success?
    ensures r.Failure? ==> r.error == ParseValue(s).error
    ensures r.Success? ==> r.value == ParseValue(s).value % U32_LIMIT
  {
    var n :- ParseValue(s);
    Success(n % U32_LIMIT)
  }

  /** Reading back the decimal text of a number gives the number. */
  lemma {:induction false} DecimalRoundTrip(n: nat)
    ensures DecimalValue(Decimal(n)) == n
  {
    if n >= 10 {
      DecimalRoundTrip(n / 10);
      var s := Decimal(n);
      assert s[..|s| - 1] == Decimal(n / 10);
    }
  }

  /** The 64-bit parser accepts the decimal text of every 64-bit number. */
  lemma ParseValueOfDecimal(n: u64)
    ensures ParseValue(Decimal(n)) == Success(n)
  {
    DecimalRoundTrip(n);
  }

  /**
   * The Id parser accepts the decimal text of every number below 2^64 and
   * yields it modulo 2^32: "4294967297" selects id 1.
   */
  lemma ParseIdOfDecimal(n: nat)
    requires n < U64_LIMIT
    ensures ParseId(Decimal(n)) == Success(n % U32_LIMIT)
  {
    DecimalRoundTrip(n);
  }

  /** A string with a non-digit character is rejected by both parsers as an invalid argument. */
  lemma NonDigitRejected(s: string, i: nat)
    requires i < |s| && !IsDigit(s[i])
    ensures ParseId(s) == Failure(InvalidArgument)
    ensures ParseValue(s) == Failure(InvalidArgument)
  {
  }

  /** A number of 2^64 or more is out of range for both parsers. */
  lemma TooLargeRejected(n: nat)
    requires n >= U64_LIMIT
    ensures ParseId(Decimal(n)) == Failure(OutOfRange)
    ensures ParseValue(Decimal(n)) == Failure(OutOfRange)
  {
    DecimalRoundTrip(n);
  }
}
