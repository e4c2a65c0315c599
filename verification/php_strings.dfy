/** The handful of PHP string operations the modelled classes rely on. */
module PhpStrings {

  /** PCRE's \d and the [0-9] class (ASCII digits only). */
  predicate IsDigit(c: char) {
    '0' <= c <= '9'
  }

  predicate AllDigits(s: string) {
    forall i | 0 <= i < |s| :: IsDigit(s[i])
  }

  function DigitValue(c: char): (d: nat)
    requires IsDigit(c)
    ensures d < 10
  {
    c as int - '0' as int
  }

  function DigitChar(d: nat): (c: char)
    requires d < 10
    ensures IsDigit(c) && DigitValue(c) == d
  {
    ('0' as int + d) as char
  }

  /** The number a string of decimal digits denotes. */
  function DecimalValue(s: string): nat
    requires AllDigits(s)
  {
    if |s| == 0 then 0 else 10 * DecimalValue(s[..|s| - 1]) + DigitValue(s[|s| - 1])
  }

  /**
   * PHP's conversion of a non-negative integer to a string ("{$n}"): decimal
   * digits, no leading zero, denoting n.
   */
  function NatToString(n: nat): (s: string)
    ensures 1 <= |s| && AllDigits(s)
    ensures s[0] == '0' ==> n == 0
    ensures DecimalValue(s) == n
    decreases n
  {
    if n < 10 then [DigitChar(n)]
    else
      var prefix := NatToString(n / 10);
      var s := prefix + [DigitChar(n % 10)];
      assert s[..|s| - 1] == prefix;
      s
  }

  /** strtolower in the C locale: only A-Z change. */
  function LowerChar(c: char): char {
    if 'A' <= c <= 'Z' then (c as int + 32) as char else c
  }

  function ToLower(s: string): (r: string)
    ensures |r| == |s|
    ensures forall i | 0 <= i < |s| :: r[i] == LowerChar(s[i])
  {
    seq(|s|, i requires 0 <= i < |s| => LowerChar(s[i]))
  }

  /** implode($glue, $pieces): the pieces in order, glue between neighbours. */
  function Implode(glue: string, pieces: seq<string>): (r: string)
    ensures |pieces| > 0 ==> pieces[0] <= r
  {
    if |pieces| == 0 then ""
    else if |pieces| == 1 then pieces[0]
    else pieces[0] + glue + Implode(glue, pieces[1..])
  }

  /** Imploding one more piece appends the glue and that piece at the end. */
  lemma {:induction false} ImplodeSnoc(glue: string, pieces: seq<string>, last: string)
    ensures Implode(glue, pieces + [last]) ==
            if |pieces| == 0 then last else Implode(glue, pieces) + glue + last
  {
    if |pieces| > 1 {
      ImplodeSnoc(glue, pieces[1..], last);
      assert (pieces + [last])[1..] == pieces[1..] + [last];
    } else if |pieces| == 1 {
      assert (pieces + [last])[1..] == [last];
    }
  }

  /** Imploding non-empty pieces gives the empty string only for no pieces. */
  lemma ImplodeEmpty(glue: string, pieces: seq<string>)
    requires forall i | 0 <= i < |pieces| :: pieces[i] != ""
    ensures Implode(glue, pieces) == "" <==> |pieces| == 0
  {
    if |pieces| > 0 {
      assert |pieces[0]| <= |Implode(glue, pieces)|;
    }
  }

  /** The sum of the lengths of the pieces. */
  function TotalLength(pieces: seq<string>): nat {
    if |pieces| == 0 then 0 else |pieces[0]| + TotalLength(pieces[1..])
  }

  /** Imploding with no glue is plain concatenation: no character is added or lost. */
  lemma {:induction false} ImplodeNoGlueLength(pieces: seq<string>)
    ensures |Implode("", pieces)| == TotalLength(pieces)
  {
    if |pieces| > 1 {
      ImplodeNoGlueLength(pieces[1..]);
    }
  }
}
