/** The fixed-point decoder `parse_number`: an optional `-`, one or two
    digits, `.`, one digit; the value is in tenths of a degree. */
module Decoder {
  import opened Bytes

  predicate IsDigit(b: byte)
  {
    ZERO <= b <= NINE
  }

  function DigitValue(b: byte): (d: nat)
    requires IsDigit(b)
    ensures d <= 9
  {
    (b - ZERO) as nat
  }

  /** The two slice patterns of `parse_number`, applied to what follows the
      optional sign: `d.d` or `dd.d`, giving the magnitude in tenths. */
  function Magnitude(body: seq<byte>): (r: Option<nat>)
    ensures r.Some? ==> (|body| == 3 || |body| == 4) && body[|body| - 2] == DOT
    ensures r.Some? ==> forall i :: 0 <= i < |body| && i != |body| - 2 ==> IsDigit(body[i])
    ensures r.Some? ==> r.value <= 999
  {
    if |body| == 3 && IsDigit(body[0]) && body[1] == DOT && IsDigit(body[2]) then
      Some(DigitValue(body[0]) * 10 + DigitValue(body[2]))
    else if |body| == 4 && IsDigit(body[0]) && IsDigit(body[1]) && body[2] == DOT && IsDigit(body[3]) then
      Some(DigitValue(body[0]) * 100 + DigitValue(body[1]) * 10 + DigitValue(body[3]))
    else
      None
  }

  predicate HasSign(data: seq<byte>)
  {
    |data| > 0 && data[0] == MINUS
  }

  function Unsigned(data: seq<byte>): seq<byte>
  {
    if HasSign(data) then data[1..] else data
  }

  /** `parse_number` as written: the magnitude is multiplied by
      `i16::from(negative) * 2 - 1`, which is 1 when the `-` is present and
      -1 when it is absent. */
  function ParseNumberAsWritten(data: seq<byte>): (r: Option<int>)
    ensures r.Some? ==> -999 <= r.value <= 999
    ensures r.Some? ==> (HasSign(data) ==> r.value >= 0) && (!HasSign(data) ==> r.value <= 0)
  {
    match Magnitude(Unsigned(data))
    case None => None
    case Some(m) => Some(m * ((if HasSign(data) then 1 else 0) * 2 - 1))
  }

  /** `parse_number` as intended: the magnitude, negated when the `-` is present. */
  function ParseNumber(data: seq<byte>): (r: Option<int>)
    ensures r.Some? ==> -999 <= r.value <= 999
    ensures r.Some? ==> (HasSign(data) ==> r.value <= 0) && (!HasSign(data) ==> r.value >= 0)
    ensures r.Some? ==> 3 <= |data| <= 5 && data[|data| - 2] == DOT
    ensures r.Some? ==> forall i :: 0 <= i < |data| ==>
                          IsDigit(data[i]) || (i == |data| - 2 && data[i] == DOT) || (i == 0 && data[i] == MINUS)
  {
    match Magnitude(Unsigned(data))
    case None => None
    case Some(m) => Some(if HasSign(data) then -(m as int) else m as int)
  }

  // ---------------------------------------------------------------------
  // The grammar the decoder accepts, stated as the set of spelled shapes.

  /** A temperature as written: sign, integer digits, one fractional digit. */
  datatype Shape = Shape(negative: bool, digits: seq<byte>, frac: byte)

  predicate WellFormed(s: Shape)
  {
    1 <= |s.digits| <= 2 && (forall i :: 0 <= i < |s.digits| ==> IsDigit(s.digits[i])) && IsDigit(s.frac)
  }

  function Spell(s: Shape): seq<byte>
  {
    (if s.negative then [MINUS] else []) + s.digits + [DOT, s.frac]
  }

  /** The positional value of a digit string. */
  function DigitsValue(ds: seq<byte>): nat
    requires forall i :: 0 <= i < |ds| ==> IsDigit(ds[i])
  {
    if |ds| == 0 then 0 else DigitsValue(ds[..|ds| - 1]) * 10 + DigitValue(ds[|ds| - 1])
  }

  /** What a well-formed temperature means, in tenths of a degree. */
  function Value(s: Shape): int
    requires WellFormed(s)
  {
    var m := DigitsValue(s.digits) * 10 + DigitValue(s.frac);
    if s.negative then -m else m
  }

  /** Every well-formed spelling decodes, to its value. */
  lemma ParseSpelled(s: Shape)
    requires WellFormed(s)
    ensures ParseNumber(Spell(s)) == Some(Value(s))
  {
    var data := Spell(s);
    assert HasSign(data) == s.negative;
    assert Unsigned(data) == s.digits + [DOT, s.frac];
    var ds := s.digits;
    assert DigitsValue(ds[..1]) == DigitValue(ds[0]) by {
      assert ds[..1][..0] == [];
    }
    if |ds| == 2 {
      assert DigitsValue(ds) == DigitValue(ds[0]) * 10 + DigitValue(ds[1]);
    } else {
      assert ds[..1] == ds;
    }
  }

  /** Whatever decodes is a well-formed spelling, and decodes to its value. */
  lemma ParseSound(data: seq<byte>)
    requires ParseNumber(data).Some?
    ensures exists s :: WellFormed(s) && Spell(s) == data && Value(s) == ParseNumber(data).value
  {
    var body := Unsigned(data);
    var s := Shape(HasSign(data), body[..|body| - 2], body[|body| - 1]);
    assert body == s.digits + [DOT, s.frac];
    assert Spell(s) == data;
    ParseSpelled(s);
  }

  // ---------------------------------------------------------------------
  // Inputs the decoder refuses, beyond what the contract of ParseNumber says.

  /** An explicit `+` sign is refused. */
  lemma RejectsPlus(data: seq<byte>)
    requires |data| > 0 && data[0] == PLUS
    ensures ParseNumber(data).None?
  {
  }

  /** Three integer digits are refused. */
  lemma RejectsThreeIntegerDigits(data: seq<byte>)
    requires |Unsigned(data)| >= 3
    requires IsDigit(Unsigned(data)[0]) && IsDigit(Unsigned(data)[1]) && IsDigit(Unsigned(data)[2])
    ensures ParseNumber(data).None?
  {
  }

  /** Two fractional digits are refused. */
  lemma RejectsTwoFractionalDigits(data: seq<byte>)
    requires |data| >= 2 && IsDigit(data[|data| - 2]) && IsDigit(data[|data| - 1])
    ensures ParseNumber(data).None?
  {
  }

  /** The edge values: `-0.0` is zero, `99.9` and `-99.9` are the extremes. */
  lemma DecodesEdgeValues()
    ensures ParseNumber([MINUS, ZERO, DOT, ZERO]) == Some(0)
    ensures ParseNumber([NINE, NINE, DOT, NINE]) == Some(999)
    ensures ParseNumber([MINUS, NINE, NINE, DOT, NINE]) == Some(-999)
    ensures ParseNumber([]) == None
  {
  }

  // ---------------------------------------------------------------------
  // The sign inversion of the code as written.

  /** The code as written decodes every accepted input to the negation of its value. */
  lemma AsWrittenNegates(data: seq<byte>)
    ensures ParseNumberAsWritten(data).Some? <==> ParseNumber(data).Some?
    ensures ParseNumber(data).Some? ==> ParseNumberAsWritten(data).value == -ParseNumber(data).value
  {
  }

  /** `3.2` is decoded as -32 by the code as written, and as 32 as intended. */
  lemma AsWrittenInvertsSign()
    ensures ParseNumberAsWritten([ZERO + 3, DOT, ZERO + 2]) == Some(-32)
    ensures ParseNumber([ZERO + 3, DOT, ZERO + 2]) == Some(32)
    ensures ParseNumberAsWritten([MINUS, ZERO + 3, DOT, ZERO + 2]) == Some(32)
  {
  }
}
