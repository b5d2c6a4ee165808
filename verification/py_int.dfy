/**
  Decimal integer text as the game code reads it with Python's int(...) and
  writes it with an f-string.  Only an optional sign followed by one or more
  ASCII digits is modelled (see README, "Left out").
 */
module PyInt {
  import opened Wrappers

  predicate IsDigit(ch: char) {
    '0' <= ch <= '9'
  }

  predicate AllDigits(s: string) {
    forall i :: 0 <= i < |s| ==> IsDigit(s[i])
  }

  function DigitValue(ch: char): (d: nat)
    requires IsDigit(ch)
    ensures d < 10
  {
    ch as int - '0' as int
  }

  function DigitChar(d: nat): (ch: char)
    requires d < 10
    ensures IsDigit(ch) && DigitValue(ch) == d
  {
    ('0' as int + d) as char
  }

  /** The value of a string of decimal digits, most significant digit first. */
  function DigitsValue(s: string): nat
    requires AllDigits(s)
  {
    if s == [] then 0 else DigitsValue(s[..|s| - 1]) * 10 + DigitValue(s[|s| - 1])
  }

  /** int(s): an optional '+' or '-' followed by at least one digit; anything else raises. */
  function ParseInt(s: string): Option<int> {
    if |s| > 0 && (s[0] == '-' || s[0] == '+') then
      if |s| > 1 && AllDigits(s[1..]) then
        Some(if s[0] == '-' then 0 - DigitsValue(s[1..]) else DigitsValue(s[1..]) as int)
      else
        None
    else if |s| > 0 && AllDigits(s) then
      Some(DigitsValue(s))
    else
      None
  }

  /** The index of the first occurrence of ch in s, if any. */
  function FindFirst(s: string, ch: char): (i: Option<nat>)
    ensures i.Some? ==> i.value < |s| && s[i.value] == ch && forall j :: 0 <= j < i.value ==> s[j] != ch
    ensures i.None? ==> forall j :: 0 <= j < |s| ==> s[j] != ch
  {
    if |s| == 0 then None
    else if s[0] == ch then Some(0)
    else match FindFirst(s[1..], ch)
      case None => None
      case Some(j) => Some(j + 1)
  }

  /** s.split(ch)[0]: the text before the first ch, or all of s when there is none. */
  function SplitHead(s: string, ch: char): (head: string)
    ensures ch !in head
    ensures head == s || (|head| < |s| && s[..|head| + 1] == head + [ch])
  {
    match FindFirst(s, ch)
    case None => s
    case Some(i) => s[..i]
  }

  /** str(n) for a non-negative integer: its shortest decimal digit string. */
  function NatToString(n: nat): (s: string)
    ensures |s| > 0 && AllDigits(s)
    ensures n < 10 <==> |s| == 1
  {
    if n < 10 then [DigitChar(n)] else NatToString(n / 10) + [DigitChar(n % 10)]
  }

  lemma {:induction false} DigitsValueOfNatToString(n: nat)
    ensures DigitsValue(NatToString(n)) == n
  {
    var s := NatToString(n);
    if n >= 10 {
      DigitsValueOfNatToString(n / 10);
      assert s[..|s| - 1] == NatToString(n / 10);
    }
  }

  /** int(str(n)) == n. */
  lemma ParseIntOfNatToString(n: nat)
    ensures ParseInt(NatToString(n)) == Some(n)
  {
    DigitsValueOfNatToString(n);
  }

  /** int("-" + str(n)) == -n. */
  lemma ParseIntOfNegated(n: nat)
    ensures ParseInt("-" + NatToString(n)) == Some(0 - n)
  {
    var s := "-" + NatToString(n);
    assert s[1..] == NatToString(n);
    DigitsValueOfNatToString(n);
  }

  /** str is injective on naturals. */
  lemma NatToStringInjective(m: nat, n: nat)
    requires NatToString(m) == NatToString(n)
    ensures m == n
  {
    DigitsValueOfNatToString(m);
    DigitsValueOfNatToString(n);
  }

  /** str never writes a leading zero, a sign or an empty string. */
  lemma NatToStringCanonical(n: nat)
    ensures NatToString(n)[0] != '0' || n == 0
    ensures NatToString(n)[0] != '-' && NatToString(n)[0] != '+'
  {
    if n >= 10 {
      NatToStringCanonical(n / 10);
    }
  }
}
