/** The JavaScript string built-ins the core relies on: `String.prototype.trim`,
    the global `parseInt` called without a radix, and the decimal text of an
    integer (what `String(n)` yields for an integer-valued number). Their
    behaviour follows sections 22.1.3.32 (trim), 19.2.5 (parseInt) and 6.1.6.1.20
    (Number::toString) of ECMA-262. */
module JsText {
  import opened Types

  /** The code points ECMAScript counts as WhiteSpace or LineTerminator
      (sections 12.2 and 12.3 of ECMA-262): what trim removes and what parseInt
      skips before the number. */
  predicate IsSpace(c: char)
  {
    c == '\U{9}' || c == '\U{A}' || c == '\U{B}' || c == '\U{C}' || c == '\U{D}'
    || c == ' ' || c == '\U{A0}' || c == '\U{1680}'
    || ('\U{2000}' <= c <= '\U{200A}')
    || c == '\U{2028}' || c == '\U{2029}' || c == '\U{202F}' || c == '\U{205F}'
    || c == '\U{3000}' || c == '\U{FEFF}'
  }

  predicate AllSpace(s: string)
  {
    forall i :: 0 <= i < |s| ==> IsSpace(s[i])
  }

  /** `s` with its leading white space removed. */
  function TrimStart(s: string): string
  {
    if s != [] && IsSpace(s[0]) then TrimStart(s[1..]) else s
  }

  /** What TrimStart keeps is a suffix that does not start with white space,
      and what it drops is all white space. */
  lemma {:induction false} TrimStartShape(s: string)
    ensures |TrimStart(s)| <= |s| && TrimStart(s) == s[|s| - |TrimStart(s)|..]
    ensures AllSpace(s[..|s| - |TrimStart(s)|])
    ensures TrimStart(s) == [] || !IsSpace(TrimStart(s)[0])
  {
    if s != [] && IsSpace(s[0]) {
      var t := s[1..];
      TrimStartShape(t);
      var k := |t| - |TrimStart(t)|;
      assert s[..k + 1] == [s[0]] + t[..k];
      assert s[k + 1..] == t[k..];
    }
  }

  /** `s` with its trailing white space removed. */
  function TrimEnd(s: string): string
  {
    if s != [] && IsSpace(s[|s| - 1]) then TrimEnd(s[..|s| - 1]) else s
  }

  /** What TrimEnd keeps is a prefix that does not end with white space, and
      what it drops is all white space. */
  lemma {:induction false} TrimEndShape(s: string)
    ensures |TrimEnd(s)| <= |s| && TrimEnd(s) == s[..|TrimEnd(s)|]
    ensures AllSpace(s[|TrimEnd(s)|..])
    ensures TrimEnd(s) == [] || !IsSpace(TrimEnd(s)[|TrimEnd(s)| - 1])
  {
    if s != [] && IsSpace(s[|s| - 1]) {
      var t := s[..|s| - 1];
      TrimEndShape(t);
      var k := |TrimEnd(t)|;
      assert s[k..] == t[k..] + [s[|s| - 1]];
      assert s[..k] == t[..k];
    }
  }

  /** `s.trim()`. */
  function Trim(s: string): (r: string)
  {
    TrimEnd(TrimStart(s))
  }

  /** The trimmed text is a slice of the input with no white space at either
      end, and it is empty exactly when the input is all white space. */
  lemma TrimIsCore(s: string)
    ensures exists i, j :: 0 <= i <= j <= |s| && Trim(s) == s[i..j]
    ensures Trim(s) == [] || (!IsSpace(Trim(s)[0]) && !IsSpace(Trim(s)[|Trim(s)| - 1]))
    ensures Trim(s) == [] <==> AllSpace(s)
  {
    var t := TrimStart(s);
    var r := TrimEnd(t);
    TrimStartShape(s);
    TrimEndShape(t);
    var i := |s| - |t|;
    assert r == s[i..i + |r|];
    if r == [] {
      assert t[|r|..] == t;
      assert t == [];
      assert s[..i] == s;
    } else {
      assert r[0] == t[0];
      assert !IsSpace(s[i]);
    }
  }

  predicate IsDecimalDigit(c: char)
  {
    '0' <= c <= '9'
  }

  /** The value of `c` as a digit in the given radix, or -1 when it is not one
      (letters count from ten, in either case). */
  function DigitValue(c: char, radix: nat): (d: int)
    ensures -1 <= d < radix
  {
    var v :=
      if '0' <= c <= '9' then c as int - '0' as int
      else if 'a' <= c <= 'z' then c as int - 'a' as int + 10
      else if 'A' <= c <= 'Z' then c as int - 'A' as int + 10
      else -1;
    if v < radix then v else -1
  }

  predicate IsDigit(c: char, radix: nat)
  {
    DigitValue(c, radix) >= 0
  }

  /** The number the longest prefix of digits of `s` denotes, read most
      significant digit first onto `acc`. */
  function ReadDigits(s: string, radix: nat, acc: nat): nat
  {
    if s != [] && IsDigit(s[0], radix) then ReadDigits(s[1..], radix, acc * radix + DigitValue(s[0], radix)) else acc
  }

  /** The unsigned part of parseInt: a `0x` or `0X` prefix switches to radix 16,
      and the longest run of digits that follows is the number; None when there
      is no digit. */
  function ParseUnsigned(u: string): (r: Option<nat>)
  {
    var hex := |u| >= 2 && u[0] == '0' && (u[1] == 'x' || u[1] == 'X');
    var radix := if hex then 16 else 10;
    var v := if hex then u[2..] else u;
    if v == [] || !IsDigit(v[0], radix) then None else Some(ReadDigits(v, radix, 0))
  }

  /** `parseInt(s)` with no radix argument; None stands for NaN. White space is
      skipped and one sign is read before the unsigned part. Precision loss
      beyond 2^53 is not modelled. */
  function ParseInt(s: string): (r: Option<int>)
  {
    var t := TrimStart(s);
    var negative := t != [] && t[0] == '-';
    var u := if t != [] && (t[0] == '-' || t[0] == '+') then t[1..] else t;
    match ParseUnsigned(u)
    case None => None
    case Some(m) =>
      var v: int := m;
      Some(if negative then -v else v)
  }

  function DigitChar(d: nat): (c: char)
    requires d < 10
    ensures IsDecimalDigit(c) && DigitValue(c, 10) == d
  {
    ('0' as int + d) as char
  }

  /** The decimal digits of a natural number, without leading zeros. */
  function NatToString(n: nat): (s: string)
    ensures s != []
    ensures forall i :: 0 <= i < |s| ==> IsDecimalDigit(s[i])
  {
    if n < 10 then [DigitChar(n)] else NatToString(n / 10) + [DigitChar(n % 10)]
  }

  /** The text JavaScript gives an integer-valued number: a minus sign for a
      negative one, then its decimal digits. */
  function IntToString(n: int): (s: string)
  {
    if n < 0 then "-" + NatToString(-n) else NatToString(n)
  }

  /** Reading one more digit multiplies what was read by the radix and adds
      the digit. */
  lemma {:induction false} ReadDigitsSnoc(s: string, c: char, radix: nat, acc: nat)
    requires forall i :: 0 <= i < |s| ==> IsDigit(s[i], radix)
    requires IsDigit(c, radix)
    ensures ReadDigits(s + [c], radix, acc) == ReadDigits(s, radix, acc) * radix + DigitValue(c, radix)
  {
    if s == [] {
      assert ReadDigits([c][1..], radix, acc * radix + DigitValue(c, radix)) == acc * radix + DigitValue(c, radix);
    } else {
      assert (s + [c])[1..] == s[1..] + [c];
      ReadDigitsSnoc(s[1..], c, radix, acc * radix + DigitValue(s[0], radix));
    }
  }

  /** The decimal digits of a number read back as that number. */
  lemma {:induction false} NatToStringValue(n: nat)
    ensures ReadDigits(NatToString(n), 10, 0) == n
  {
    if n < 10 {
      var s := NatToString(n);
      assert s[1..] == [];
    } else {
      NatToStringValue(n / 10);
      ReadDigitsSnoc(NatToString(n / 10), DigitChar(n % 10), 10, 0);
    }
  }

  /** The decimal digits of a number are read back whole: they hold no
      hexadecimal prefix and every one of them is a digit. */
  lemma DigitsReadBack(n: nat)
    ensures ParseUnsigned(NatToString(n)) == Some(n)
  {
    var u := NatToString(n);
    NatToStringValue(n);
    assert !(|u| >= 2 && u[0] == '0' && (u[1] == 'x' || u[1] == 'X')) by {
      if |u| >= 2 { assert IsDecimalDigit(u[1]); }
    }
  }

  /** A string that starts with a digit is read by the unsigned part alone. */
  lemma ParseIntUnsigned(s: string)
    requires s != [] && IsDecimalDigit(s[0])
    ensures ParseInt(s) == match ParseUnsigned(s) case None => None case Some(m) => Some(m as int)
  {
    assert TrimStart(s) == s;
  }

  /** A minus sign followed by a digit reads as the negated unsigned part. */
  lemma ParseIntNegative(s: string, u: string)
    requires s == "-" + u && u != [] && IsDecimalDigit(u[0])
    ensures ParseInt(s) == match ParseUnsigned(u) case None => None case Some(m) => Some(-(m as int))
  {
    assert TrimStart(s) == s;
    assert s[1..] == u;
  }

  /** parseInt reads back the decimal text of every integer. */
  lemma ParseIntOfIntToString(n: int)
    ensures ParseInt(IntToString(n)) == Some(n)
  {
    if n < 0 {
      DigitsReadBack(-n);
      ParseIntNegative(IntToString(n), NatToString(-n));
    } else {
      DigitsReadBack(n);
      ParseIntUnsigned(IntToString(n));
    }
  }
}
