/** Hex printing and parsing of big integers: demo/main.go and BigIntToHex of ponos/pkg/util/utils.go. */
module NumberText {
  import opened HexText
  import opened Wrappers

  function Digit(n: nat): (c: char)
    requires n < 16
    ensures IsHexDigit(c) && Nibble(c) == n
  {
    if n < 10 then ('0' as int + n) as char else ('a' as int + n - 10) as char
  }

  /** big.Int.Text(16) of a natural number. */
  function Digits(n: nat): (s: string)
    ensures |s| > 0 && AllHex(s)
  {
    if n < 16 then [Digit(n)] else Digits(n / 16) + [Digit(n % 16)]
  }

  function Text16(i: int): string {
    if i < 0 then "-" + Digits(-i) else Digits(i)
  }

  /** big.Int.SetString(s, 16): an optional sign, then at least one hex digit and nothing else. */
  function SetString16(s: string): Option<int> {
    var signed := |s| > 0 && (s[0] == '-' || s[0] == '+');
    var digits := if signed then s[1..] else s;
    if digits == "" || !AllHex(digits) then None
    else var magnitude: int := ValueOf(digits);
         Some(if signed && s[0] == '-' then -magnitude else magnitude)
  }

  function TrimPrefix0x(s: string): string {
    if |s| >= 2 && s[..2] == "0x" then s[2..] else s
  }

  function ParseHex(payload: string): Option<int> {
    if |payload| == 0 then None else SetString16(TrimPrefix0x(payload))
  }

  function EvenLength(t: string): string {
    if |t| % 2 != 0 then "0" + t else t
  }

  /** parseBigIntToHex and BigIntToHex of a non-nil number. */
  function PrintHex(i: int): string {
    "0x" + EvenLength(Text16(i))
  }

  /** HandleTask: the result payload, or None when the payload does not parse. */
  function HandleTask(payload: string): Option<string> {
    match ParseHex(payload)
    case None => None
    case Some(i) => Some(PrintHex(i * i))
  }

  lemma {:induction false} DigitsValue(n: nat)
    ensures ValueOf(Digits(n)) == n
  {
    if n >= 16 {
      DigitsValue(n / 16);
      assert Digits(n)[..|Digits(n)| - 1] == Digits(n / 16);
    } else {
      assert Digits(n)[..0] == "";
    }
  }

  // ----- which payloads parse

  /** Hex digits, behind a sign or not, that spell i. */
  predicate Spells(t: string, signed: bool, i: int) {
    && (signed ==> t != "" && (t[0] == '-' || t[0] == '+'))
    && var body := if signed then t[1..] else t;
       body != "" && AllHex(body)
       && var magnitude: int := ValueOf(body); i == (if signed && t[0] == '-' then -magnitude else magnitude)
  }

  predicate StartsWith0x(p: string) {
    |p| >= 2 && p[0] == '0' && p[1] == 'x'
  }

  /** A payload parses to i exactly when it, or what comes after one 0x, consists of hex digits behind at
      most one sign and spells i. */
  lemma ParseHexIff(p: string, i: int)
    ensures ParseHex(p) == Some(i) <==>
            || Spells(p, false, i) || Spells(p, true, i)
            || (StartsWith0x(p) && (Spells(p[2..], false, i) || Spells(p[2..], true, i)))
  {
    if |p| >= 2 {
      assert p[..2] == "0x" <==> StartsWith0x(p) by {
        if StartsWith0x(p) { assert p[..2] == ['0', 'x']; } else { assert p[..2][0] == p[0] && p[..2][1] == p[1]; }
      }
    }
    if StartsWith0x(p) {
      assert !IsHexDigit(p[1]);
    } else {
      assert TrimPrefix0x(p) == p;
    }
  }

  /** Printed digits are in lower case and without needless zeros. */
  lemma {:induction false} DigitsAreCanonical(n: nat)
    ensures forall i :: 0 <= i < |Digits(n)| ==> Lower(Digits(n)[i]) == Digits(n)[i]
    ensures n > 0 ==> Digits(n)[0] != '0'
    ensures n == 0 ==> Digits(n) == "0"
  {
    if n >= 16 {
      DigitsAreCanonical(n / 16);
      assert Digits(n)[0] == Digits(n / 16)[0];
    }
  }

  lemma ParsePlain(body: string)
    requires body != "" && AllHex(body)
    ensures ParseHex("0x" + body) == Some(ValueOf(body))
  {
    var p := "0x" + body;
    assert p[..2] == "0x" && p[2..] == body;
    assert IsHexDigit(body[0]);
  }

  lemma ParseNegated(body: string)
    requires body != "" && AllHex(body)
    ensures var magnitude: int := ValueOf(body); ParseHex("0x" + ("-" + body)) == Some(-magnitude)
  {
    var p := "0x" + ("-" + body);
    assert p[..2] == "0x" && p[2..] == "-" + body;
    assert ("-" + body)[1..] == body;
  }

  lemma ParseMisplacedSign(body: string)
    ensures ParseHex("0x" + ("0" + ("-" + body))) == None
  {
    var t := "0" + ("-" + body);
    var p := "0x" + t;
    assert p[..2] == "0x" && p[2..] == t;
    assert t[0] == '0' && t[1] == '-' && !IsHexDigit(t[1]);
  }

  lemma PaddingIsHarmless(t: string)
    requires t != "" && AllHex(t)
    ensures var e := EvenLength(t); e != "" && AllHex(e) && ValueOf(e) == ValueOf(t)
  {
    if |t| % 2 != 0 {
      LeadingZeroDigit(t);
      assert EvenLength(t) == "0" + t;
    } else {
      assert EvenLength(t) == t;
    }
  }

  lemma PaddedLength(t: string)
    ensures |EvenLength(t)| % 2 == 0
  {
    assert |"0" + t| == |t| + 1;
  }

  /** Whole bytes: the printed length is even, for every integer. */
  lemma PrintedLengthEven(i: int)
    ensures |PrintHex(i)| % 2 == 0
  {
    var e := EvenLength(Text16(i));
    PaddedLength(Text16(i));
    assert |PrintHex(i)| == 2 + |e|;
  }

  lemma PrintedParses(n: nat)
    ensures ParseHex(PrintHex(n)) == Some(n)
  {
    var t := Digits(n);
    var e := EvenLength(t);
    assert e != "" && AllHex(e) && ValueOf(e) == n by {
      DigitsValue(n);
      PaddingIsHarmless(t);
    }
    ParsePlain(e);
    assert Text16(n) == t;
  }

  lemma NegativeRoundTrip(m: int)
    requires m > 0
    ensures ParseHex(PrintHex(-m)) == (if |Digits(m)| % 2 == 1 then Some(-m) else None)
  {
    var t := Digits(m);
    assert Text16(-m) == "-" + t && |"-" + t| == |t| + 1;
    if |t| % 2 == 1 {
      assert PrintHex(-m) == "0x" + ("-" + t);
      assert ValueOf(t) == m by { DigitsValue(m); }
      ParseNegated(t);
    } else {
      assert PrintHex(-m) == "0x" + ("0" + ("-" + t));
      ParseMisplacedSign(t);
    }
  }

  /** Printing then parsing gives the number back exactly when no zero is put in front of a minus sign:
      for every natural number, and for a negative one with an odd number of hex digits. */
  lemma RoundTripIff(i: int)
    ensures ParseHex(PrintHex(i)) == Some(i) <==> i >= 0 || |Digits(-i)| % 2 == 1
  {
    if i >= 0 {
      PrintedParses(i);
    } else {
      NegativeRoundTrip(-i);
    }
  }

  /** A task succeeds exactly when its payload parses, and its printed result is the square. */
  lemma HandleTaskSquares(payload: string)
    ensures HandleTask(payload).Some? <==> ParseHex(payload).Some?
    ensures HandleTask(payload).Some? ==>
              var n := ParseHex(payload).value;
              HandleTask(payload).value == PrintHex(n * n) && ParseHex(HandleTask(payload).value) == Some(n * n)
  {
    if ParseHex(payload).Some? {
      var n := ParseHex(payload).value;
      assert n * n >= 0;
      PrintedParses(n * n);
    }
  }

  /** Hence chaining the worker on its own output keeps squaring. */
  lemma PrintedNumberSquares(n: nat)
    ensures HandleTask(PrintHex(n)).Some? && ParseHex(HandleTask(PrintHex(n)).value) == Some(n * n)
  {
    PrintedParses(n);
    HandleTaskSquares(PrintHex(n));
  }
}
