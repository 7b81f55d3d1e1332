/** Positional notation: what sprintf's %d/%x and the hand-written digit loops produce. */
module Digits {
  import opened Text

  /** The digit characters "0123456789abcdef". */
  function Digit(d: nat): (c: byte)
    requires d < 16
    ensures c != NUL
  {
    if d < 10 then 48 + d else 87 + d
  }

  function DigitValue(c: byte): nat {
    if 48 <= c <= 57 then c - 48 else if 97 <= c <= 102 then c - 87 else 0
  }

  predicate Base(b: nat) { b == 10 || b == 16 }

  function Radix(n: nat, base: nat): (s: Bytes)
    requires Base(base)
    ensures s != [] && forall c <- s :: 48 <= c <= 57 || (base == 16 && 97 <= c <= 102)
  {
    if n < base then [Digit(n)] else Radix(n / base, base) + [Digit(n % base)]
  }

  function RadixValue(s: Bytes, base: nat): nat
    requires Base(base)
  {
    if s == [] then 0 else RadixValue(s[..|s| - 1], base) * base + DigitValue(s[|s| - 1])
  }

  function Power(base: nat, k: nat): nat
    requires Base(base)
  {
    if k == 0 then 1 else base * Power(base, k - 1)
  }

  /** The digits denote the number and none is wasted on a leading zero. */
  lemma {:induction false} RadixDenotes(n: nat, base: nat)
    requires Base(base)
    ensures RadixValue(Radix(n, base), base) == n
    ensures Radix(n, base)[0] == ZERO ==> n == 0
  {
    var s := Radix(n, base);
    if n < base {
      assert s[..0] == [];
    } else {
      RadixDenotes(n / base, base);
      assert s[..|s| - 1] == Radix(n / base, base);
    }
  }

  /** n divided by the base k times. */
  function Divided(n: nat, base: nat, k: nat): nat
    requires Base(base)
  {
    if k == 0 then n else Divided(n / base, base, k - 1)
  }

  /** The k-th digit from the right is the remainder after k divisions, in 0..9 and a..f. */
  lemma {:induction false} RadixDigit(n: nat, base: nat, k: nat)
    requires Base(base)
    ensures var s := Radix(n, base);
      if k < |s| then
        var d := Divided(n, base, k) % base;
        s[|s| - 1 - k] as int == if d < 10 then 48 + d else 87 + d
      else Divided(n, base, k) == 0
  {
    var s := Radix(n, base);
    if n < base {
      if k > 0 {
        DividedZero(base, k - 1);
      }
    } else if k > 0 {
      RadixDigit(n / base, base, k - 1);
    }
  }

  lemma {:induction false} DividedZero(base: nat, k: nat)
    requires Base(base)
    ensures Divided(0, base, k) == 0
  {
    if k > 0 {
      DividedZero(base, k - 1);
    }
  }

  lemma {:induction false} RadixLength(n: nat, base: nat, k: nat)
    requires Base(base) && k > 0 && n < Power(base, k)
    ensures |Radix(n, base)| <= k
  {
    if n >= base {
      assert k > 1;
      RadixLength(n / base, base, k - 1);
    }
  }

  // ---- reading digits back ----

  predicate IsDigit(c: byte) { 48 <= c <= 57 }

  function DigitRun(s: Bytes): (n: nat)
    ensures n <= |s| && forall i | 0 <= i < n :: IsDigit(s[i])
    ensures n < |s| ==> !IsDigit(s[n])
  {
    if s == [] || !IsDigit(s[0]) then 0 else 1 + DigitRun(s[1..])
  }

  lemma {:induction false} AllDigits(s: Bytes)
    requires forall c <- s :: IsDigit(c)
    ensures DigitRun(s) == |s|
  {
    if s != [] {
      AllDigits(s[1..]);
    }
  }

  /** "%0*d" of a number that is not negative. */
  function ZeroPadded(digits: Bytes, width: nat): Bytes {
    if width > |digits| then Repeat(ZERO, width - |digits|) + digits else digits
  }

  /** The digits at the end, and zeros in front up to the width. */
  lemma PaddedDigits(digits: Bytes, width: nat)
    ensures var s := ZeroPadded(digits, width);
      && |s| == (if width > |digits| then width else |digits|)
      && s[|s| - |digits|..] == digits && forall i | 0 <= i < |s| - |digits| :: s[i] == 48
  {
  }

  lemma {:induction false} RunEnds(s: Bytes, r: Bytes)
    requires (forall c <- s :: IsDigit(c)) && (r != [] ==> !IsDigit(r[0]))
    ensures DigitRun(s + r) == |s|
  {
    if s == [] {
      assert s + r == r;
    } else {
      assert (s + r)[1..] == s[1..] + r;
      RunEnds(s[1..], r);
    }
  }
}
