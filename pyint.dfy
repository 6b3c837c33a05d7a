/**
 * Decimal integers as Python writes them (`str(n)`, `"%0Nd" % n`) and reads
 * them back (`int(s)` on a string, base 10).
 */
module PyInt {
  import opened Wrappers
  import opened PyStr

  predicate IsDigit(c: char) {
    '0' <= c <= '9'
  }

  predicate AllDigits(s: string) {
    forall i :: 0 <= i < |s| ==> IsDigit(s[i])
  }

  function DigitChar(d: nat): (c: char)
    requires d < 10
    ensures IsDigit(c)
  {
    ('0' as int + d) as char
  }

  /** The value of a string of decimal digits, most significant first. */
  function DigitsValue(s: string): int {
    if s == [] then 0 else 10 * DigitsValue(s[..|s| - 1]) + (s[|s| - 1] as int - '0' as int)
  }

  /** `str(n)` for `n >= 0`: decimal digits with no leading zero, reading back as `n`. */
  function NatStr(n: nat): (r: string)
    ensures r != [] && AllDigits(r)
    ensures DigitsValue(r) == n
    ensures r[0] == '0' ==> r == "0"
  {
    if n < 10 then
      [DigitChar(n)]
    else
      var p := NatStr(n / 10);
      var r := p + [DigitChar(n % 10)];
      assert r[..|r| - 1] == p;
      r
  }

  /** `str(n)` for any int: a `-` exactly for a negative number, then its digits. */
  function IntStr(n: int): (r: string)
    ensures r != [] && (r[0] == '-' <==> n < 0)
  {
    if n < 0 then "-" + NatStr(-n) else NatStr(n)
  }

  function Zeros(k: nat): (r: string)
    ensures |r| == k && AllDigits(r)
  {
    if k == 0 then "" else Zeros(k - 1) + "0"
  }

  /** Leading zeros do not change the value of a digit string. */
  lemma {:induction false} ZerosValue(k: nat, s: string)
    requires AllDigits(s)
    ensures AllDigits(Zeros(k) + s) && DigitsValue(Zeros(k) + s) == DigitsValue(s)
    decreases |s|, k
  {
    var z := Zeros(k);
    if s == [] {
      if k > 0 {
        assert z + s == z;
        assert z[..k - 1] == Zeros(k - 1);
        ZerosValue(k - 1, s);
        assert Zeros(k - 1) + s == Zeros(k - 1);
      }
    } else {
      assert (z + s)[..|z + s| - 1] == z + s[..|s| - 1];
      ZerosValue(k, s[..|s| - 1]);
    }
  }

  /** `"%0*d" % (width, n)`: `str(n)` padded on the left with zeros to at least `width` characters. */
  function ZeroPad(n: nat, width: nat): (r: string)
    ensures |r| == if |NatStr(n)| < width then width else |NatStr(n)|
    ensures AllDigits(r) && DigitsValue(r) == n
  {
    var d := NatStr(n);
    var k := if |d| < width then width - |d| else 0;
    ZerosValue(k, d);
    Zeros(k) + d
  }

  /**
   * The body of an integer literal that `int()` accepts: decimal digits,
   * with single underscores allowed between two digits.
   */
  predicate IsDigitGroups(s: string) {
    && s != []
    && IsDigit(s[0])
    && IsDigit(s[|s| - 1])
    && DigitsOrUnderscores(s)
    && forall i :: 0 <= i < |s| && s[i] == '_' ==> i + 1 < |s| && IsDigit(s[i + 1])
  }

  predicate DigitsOrUnderscores(s: string) {
    forall i :: 0 <= i < |s| ==> IsDigit(s[i]) || s[i] == '_'
  }

  function DropUnderscores(s: string): (r: string)
    requires DigitsOrUnderscores(s)
    ensures AllDigits(r)
    ensures AllDigits(s) ==> r == s
  {
    if s == [] then []
    else if s[0] == '_' then DropUnderscores(s[1..])
    else [s[0]] + DropUnderscores(s[1..])
  }

  /**
   * The whitespace `int()` skips around a literal: ASCII space, tab, line
   * feed, vertical tab, form feed and carriage return, and any non-ASCII
   * character `str.isspace()` accepts (which `int()` first turns into a space).
   * The ASCII separators U+001C..U+001F are not among them.
   */
  predicate IsIntSpace(c: char) {
    var n := c as int;
    n == 32 || (9 <= n <= 13) || (n >= 128 && IsSpace(c))
  }

  /**
   * The whitespace `int()` skips is `str.isspace()` whitespace; the only
   * `isspace()` characters it does not skip are the separators U+001C..U+001F.
   */
  lemma {:induction false} IntSpaceIsSpace(c: char)
    ensures IsIntSpace(c) ==> IsSpace(c)
    ensures IsSpace(c) && !IsIntSpace(c) <==> 0x1C <= c as int <= 0x1F
  {
  }

  /** The text `int()` reads once the whitespace it skips is gone from both ends. */
  function IntStrip(s: string): (t: string)
    ensures t == [] || (!IsIntSpace(t[0]) && !IsIntSpace(t[|t| - 1]))
    decreases |s|
  {
    if s != [] && IsIntSpace(s[0]) then IntStrip(s[1..])
    else if s != [] && IsIntSpace(s[|s| - 1]) then IntStrip(s[..|s| - 1])
    else s
  }

  /** Trimming keeps only characters of the original text. */
  lemma {:induction false} IntStripKeeps(s: string, c: char)
    ensures c in IntStrip(s) ==> c in s
    decreases |s|
  {
    if s != [] && IsIntSpace(s[0]) {
      IntStripKeeps(s[1..], c);
    } else if s != [] && IsIntSpace(s[|s| - 1]) {
      IntStripKeeps(s[..|s| - 1], c);
    }
  }

  /**
   * `int(s)` on a string: surrounding whitespace, an optional sign, then digit
   * groups; `None` where Python raises `ValueError` (the limit on the number
   * of digits is not modelled).
   */
  function ParseInt(s: string): (r: Option<int>)
    ensures r.Some? ==>
      var t := IntStrip(s);
      && t != []
      && (IsDigit(t[0]) || t[0] == '+' || t[0] == '-')
      && IsDigit(t[|t| - 1])
  {
    var t := IntStrip(s);
    if t != [] && (t[0] == '+' || t[0] == '-') then
      var body := t[1..];
      if IsDigitGroups(body) then
        var v: int := DigitsValue(DropUnderscores(body));
        var n: int := if t[0] == '-' then -v else v;
        Some(n)
      else
        None
    else if IsDigitGroups(t) then
      Some(DigitsValue(DropUnderscores(t)))
    else
      None
  }

  /** `int(str(n)) == n`. */
  lemma {:induction false} ParseIntStr(n: int)
    ensures ParseInt(IntStr(n)) == Some(n)
  {
    if n < 0 {
      ParseIntNegative(n);
    } else {
      ParseIntNatural(n);
    }
  }

  /** A non-empty run of digits is a valid literal body, and has no underscores to drop. */
  lemma {:induction false} DigitsAreGroups(d: string)
    requires d != [] && AllDigits(d)
    ensures IsDigitGroups(d) && DropUnderscores(d) == d
  {
    assert forall i :: 0 <= i < |d| ==> d[i] != '_' by {
      forall i | 0 <= i < |d| ensures d[i] != '_' {
        assert IsDigit(d[i]);
      }
    }
  }

  lemma {:induction false} ParseIntNatural(n: nat)
    ensures ParseInt(IntStr(n)) == Some(n)
  {
    var d := NatStr(n);
    assert IntStr(n) == d;
    assert IsDigit(d[0]) && IsDigit(d[|d| - 1]);
    assert IntStrip(d) == d;
    DigitsAreGroups(d);
  }

  lemma {:induction false} ParseIntNegative(n: int)
    requires n < 0
    ensures ParseInt(IntStr(n)) == Some(n)
  {
    var d := NatStr(-n);
    var s := IntStr(n);
    assert s == "-" + d;
    assert IsDigit(d[|d| - 1]);
    assert s[0] == '-' && s[|s| - 1] == d[|d| - 1];
    assert IntStrip(s) == s;
    assert s[1..] == d;
    DigitsAreGroups(d);
  }

  /** `int()` skips ASCII whitespace but refuses the ASCII separator U+001C. */
  lemma {:induction false} ParseIntSkipsOnlyIntSpace()
    ensures ParseInt(" 5\n") == Some(5)
    ensures ParseInt("\U{1C}5") == None
  {
    assert IntStrip(" 5\n") == "5" by {
      assert " 5\n"[1..] == "5\n" && "5\n"[..1] == "5";
    }
    ParseIntNatural(5);
    assert IntStr(5) == "5";
    var s := "\U{1C}5";
    assert IntStrip(s) == s;
    assert !IsDigitGroups(s) by {
      assert !IsDigit(s[0]);
    }
  }

  /** A string with no digit at all is never accepted by `int()`. */
  lemma {:induction false} ParseIntNeedsDigit(s: string)
    requires forall i :: 0 <= i < |s| ==> !IsDigit(s[i])
    ensures ParseInt(s) == None
  {
    var t := IntStrip(s);
    assert forall k :: 0 <= k < |t| ==> !IsDigit(t[k]) by {
      forall k | 0 <= k < |t| ensures !IsDigit(t[k]) {
        IntStripKeeps(s, t[k]);
      }
    }
    if t != [] && |t| > 1 {
      assert t[1..][0] == t[1];
    }
  }
}
