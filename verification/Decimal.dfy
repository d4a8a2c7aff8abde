/** Printing a number in decimal, and the reading of it that `stoull` does. */
module Decimal {
  import opened Words

  predicate IsDigit(c: char) {
    '0' <= c <= '9'
  }

  predicate IsSpace(c: char) {
    c == ' ' || c == '\t' || c == '\n' || c == '\U{000B}' || c == '\U{000C}' || c == '\r'
  }

  function DigitOf(d: nat): (c: char)
    requires d < 10
    ensures IsDigit(c) && ValueOf(c) == d
  {
    '0' + d as char
  }

  function ValueOf(c: char): nat
    requires IsDigit(c)
  {
    (c - '0') as nat
  }

  function ToString(n: nat): (s: string)
    ensures s != [] && forall c :: c in s ==> IsDigit(c)
  {
    if n < 10 then [DigitOf(n)] else ToString(n / 10) + [DigitOf(n % 10)]
  }

  function Number(digits: string): nat
    requires forall c :: c in digits ==> IsDigit(c)
  {
    if digits == [] then 0
    else 10 * Number(digits[..|digits| - 1]) + ValueOf(digits[|digits| - 1])
  }

  /** The longest prefix of digits. */
  function Digits(s: string): (r: string)
    ensures r <= s && forall c :: c in r ==> IsDigit(c)
  {
    if s != [] && IsDigit(s[0]) then [s[0]] + Digits(s[1..]) else []
  }

  function DropSpaces(s: string): (r: string)
    ensures |r| <= |s| && (r != [] ==> !IsSpace(r[0]))
    ensures forall c :: c in r ==> c in s
  {
    if s != [] && IsSpace(s[0]) then DropSpaces(s[1..]) else s
  }

  /** A number beyond 64 bits is an exception, and a minus sign negates modulo 2^64. */
  function Fitted(n: nat, negative: bool): (r: Option<Word64>)
    ensures r == None <==> n >= TWO_64
    ensures r != None ==> r.value == if negative && n > 0 then TWO_64 - n else n
  {
    if n >= TWO_64 then None else if negative then Some((TWO_64 - n) % TWO_64) else Some(n)
  }

  /** An optional sign, then digits; no digits is an exception. */
  function Signed(t: string): Option<Word64> {
    var signed := t != [] && (t[0] == '+' || t[0] == '-');
    var digits := Digits(if signed then t[1..] else t);
    if digits == [] then None
    else Fitted(Number(digits), signed && t[0] == '-')
  }

  /** Leading blanks are skipped. */
  function Stoull(s: string): Option<Word64> {
    Signed(DropSpaces(s))
  }

  lemma {:induction false} NumberOfToString(n: nat)
    ensures Number(ToString(n)) == n
  {
    if n < 10 {
      assert ToString(n)[..0] == [];
    } else {
      var front := ToString(n / 10);
      assert ToString(n)[..|front|] == front;
      NumberOfToString(n / 10);
    }
  }

  lemma {:induction false} DigitsOfDigits(s: string)
    requires forall c :: c in s ==> IsDigit(c)
    ensures Digits(s) == s
  {
    if s != [] {
      DigitsOfDigits(s[1..]);
    }
  }

  /** Every 64-bit number survives printing and reading. */
  lemma StoullInvertsToString(n: Word64)
    ensures Stoull(ToString(n)) == Some(n)
  {
    var s := ToString(n);
    assert s[0] in s;
    DigitsOfDigits(s);
    NumberOfToString(n);
  }

  lemma {:induction false} DigitsAhead(digits: string, rest: string)
    requires (forall c :: c in digits ==> IsDigit(c)) && (rest == [] || !IsDigit(rest[0]))
    ensures Digits(digits + rest) == digits
  {
    if digits == [] {
      assert digits + rest == rest;
    } else {
      assert digits[0] in digits && (digits + rest)[1..] == digits[1..] + rest;
      DigitsAhead(digits[1..], rest);
    }
  }

  lemma {:induction false} BlanksDropped(blanks: string, t: string)
    requires (forall c :: c in blanks ==> IsSpace(c)) && t != [] && !IsSpace(t[0])
    ensures DropSpaces(blanks + t) == t
  {
    if blanks == [] {
      assert blanks + t == t;
    } else {
      assert blanks[0] in blanks && (blanks + t)[1..] == blanks[1..] + t;
      BlanksDropped(blanks[1..], t);
    }
  }

  lemma SignedNumber(sign: string, digits: string, rest: string)
    requires sign == "" || sign == "+" || sign == "-"
    requires digits != [] && forall c :: c in digits ==> IsDigit(c)
    requires rest == [] || !IsDigit(rest[0])
    ensures Signed(sign + (digits + rest)) == Fitted(Number(digits), sign == "-")
  {
    var more := digits + rest;
    var t := sign + more;
    DigitsAhead(digits, rest);
    assert more[0] == digits[0] && digits[0] in digits;
    assert t == more || (t[0] == sign[0] && t[1..] == more);
    assert Digits(if t != [] && (t[0] == '+' || t[0] == '-') then t[1..] else t) == digits;
  }

  /**
   What is read of blanks, a sign and digits, whatever follows them: the number, negated modulo
   2^64 behind a minus sign; a number beyond 64 bits is an exception.
   */
  lemma StoullOfNumber(blanks: string, sign: string, digits: string, rest: string)
    requires forall c :: c in blanks ==> IsSpace(c)
    requires sign == "" || sign == "+" || sign == "-"
    requires digits != [] && forall c :: c in digits ==> IsDigit(c)
    requires rest == [] || !IsDigit(rest[0])
    ensures var n := Number(digits);
      Stoull(blanks + (sign + (digits + rest)))
      == if n >= TWO_64 then None else if sign == "-" && n > 0 then Some(TWO_64 - n) else Some(n)
  {
    var t := sign + (digits + rest);
    assert digits[0] in digits && t[0] == if sign == "" then digits[0] else sign[0];
    BlanksDropped(blanks, t);
    SignedNumber(sign, digits, rest);
  }

  /** And nothing is read where no digit follows the blanks and the sign. */
  lemma NoNumber(blanks: string, sign: string, rest: string)
    requires forall c :: c in blanks ==> IsSpace(c)
    requires sign == "+" || sign == "-"
    requires rest == [] || !IsDigit(rest[0])
    ensures Stoull(blanks + (sign + rest)) == None
  {
    var t := sign + rest;
    BlanksDropped(blanks, t);
    assert t[1..] == rest;
  }
}
