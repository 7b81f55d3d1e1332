/** Numbers: the window parse_number copies, the part of it strtod accepts, integer printing. */
module CJsonNumber {
  import opened Text
  import opened Digits
  import opened CJsonValue

  const WINDOW: nat := 63

  predicate NumberChar(c: byte) {
    IsDigit(c) || c == PLUS || c == MINUS || c == 101 || c == 69 || c == DOT
  }

  /** Length of the run of number characters at the front of s, at most `limit`. */
  function Window(s: Bytes, limit: nat): (n: nat)
    ensures n <= limit && n <= |s| && forall i | 0 <= i < n :: NumberChar(s[i])
    ensures n < limit && n < |s| ==> !NumberChar(s[n])
  {
    if limit == 0 || s == [] || !NumberChar(s[0]) then 0 else 1 + Window(s[1..], limit - 1)
  }

  function SignLength(s: Bytes): nat {
    if s != [] && (s[0] == MINUS || s[0] == PLUS) then 1 else 0
  }

  function Signed(s: Bytes, n: nat): int { if s != [] && s[0] == MINUS then -(n as int) else n }

  datatype Scanned = Scanned(length: nat, num: Decimal) | NoNumber

  /** The exponent part at the front of s: its length (0 if absent or incomplete) and value. */
  function Exponent(s: Bytes): (r: (nat, int))
    ensures r.0 <= |s|
  {
    if s == [] || (s[0] != 101 && s[0] != 69) then (0, 0)
    else
      var sign := SignLength(s[1..]);
      var n := DigitRun(s[1 + sign..]);
      if n == 0 then (0, 0)
      else (1 + sign + n, Signed(s[1..], RadixValue(s[1 + sign..1 + sign + n], 10)))
  }

  /** strtod on text made of number characters: the longest prefix of the form
      sign digits . digits exponent, with at least one digit before the exponent. */
  function Strtod(s: Bytes): (r: Scanned)
    ensures r.Scanned? ==> 0 < r.length <= |s|
  {
    var sign := SignLength(s);
    var whole := DigitRun(s[sign..]);
    var dot := if sign + whole < |s| && s[sign + whole] == DOT then 1 else 0;
    var frac := if dot == 1 then DigitRun(s[sign + whole + 1..]) else 0;
    if whole + frac == 0 then NoNumber
    else
      var digits := s[sign..sign + whole] + s[sign + whole + dot..sign + whole + dot + frac];
      var len := sign + whole + dot + frac;
      var e := Exponent(s[len..]);
      Scanned(len + e.0, Decimal(Signed(s, RadixValue(digits, 10)), e.1 - frac))
  }

  function ParseNumber(s: Bytes): (p: Parsed<Decimal>)
    ensures |p.rest| <= |s| && (p.Ok? ==> |p.rest| < |s|)
    ensures Terminated(s) ==> Terminated(p.rest)
  {
    match Strtod(s[..Window(s, WINDOW)])
    case NoNumber => Fail(s)
    case Scanned(k, d) => Ok(d, s[k..])
  }

  /** "%1.15g" of an integer of at most 15 digits. */
  function IntegerText(n: int): Bytes {
    if n < 0 then [MINUS] + Radix(-n, 10) else Radix(n, 10)
  }

  /** The decimal digits of n, the k-th from the right after k divisions by ten, without leading zeros;
      a minus sign in front of a negative number. */
  lemma IntegerDigits(n: nat, k: nat)
    ensures var s := IntegerText(n);
      && (if k < |s| then s[|s| - 1 - k] as int == 48 + Divided(n, 10, k) % 10 else Divided(n, 10, k) == 0)
      && (s[0] == 48 ==> n == 0 && |s| == 1)
      && (n > 0 ==> IntegerText(-(n as int)) == [45] + s)
  {
    RadixDigit(n, 10, k);
    RadixDenotes(n, 10);
  }

  lemma {:induction false} WindowEnds(s: Bytes, r: Bytes, limit: nat)
    requires |s| <= limit && (forall c <- s :: NumberChar(c))
    requires r != [] ==> !NumberChar(r[0])
    ensures Window(s + r, limit) == |s|
  {
    if s == [] {
      assert s + r == r;
    } else {
      assert (s + r)[1..] == s[1..] + r;
      WindowEnds(s[1..], r, limit - 1);
    }
  }

  lemma {:induction false} IntegerScanned(n: int)
    ensures Strtod(IntegerText(n)) == Scanned(|IntegerText(n)|, Decimal(n, 0))
  {
    hide Radix, RadixValue;
    var s := IntegerText(n);
    var sign := SignLength(s);
    var digits := Radix(if n < 0 then -n else n, 10);
    assert digits[0] in digits;
    assert s[sign..] == digits;
    AllDigits(digits);
    RadixDenotes(if n < 0 then -n else n, 10);
    assert s[sign..|s|] + s[|s|..|s|] == digits;
    assert s[|s|..] == [];
  }

  lemma IntegerTextLength(d: Decimal)
    requires PlainInteger(d)
    ensures |IntegerText(d.mant)| <= 16
  {
    assert Power(10, 4) == 10_000;
    assert Power(10, 8) == 100_000_000;
    assert Power(10, 12) == 1_000_000_000_000;
    assert Power(10, 15) == 1_000_000_000_000_000;
    RadixLength(if d.mant < 0 then -d.mant else d.mant, 10, 15);
  }

  /** parse_number undoes print_number on integers of at most 15 digits. */
  lemma NumberRoundTrip(d: Decimal, r: Bytes)
    requires PlainInteger(d)
    requires r != [] ==> !NumberChar(r[0])
    ensures ParseNumber(IntegerText(d.mant) + r) == Ok(d, r)
  {
    var s := IntegerText(d.mant);
    IntegerTextLength(d);
    WindowEnds(s, r, WINDOW);
    assert (s + r)[..|s|] == s && (s + r)[|s|..] == r;
    IntegerScanned(d.mant);
  }
}
