/**
 * Decimal text of integers, as Java's String.valueOf(int) writes it and as
 * Python 2's int() reads it back (blanks, an optional sign, decimal digits).
 */
module Decimal {

  datatype Result<T> = Ok(value: T) | Err(error: string)

  predicate IsDigit(c: char) { '0' <= c <= '9' }

  function DigitChar(d: int): (c: char)
    requires 0 <= d < 10
    ensures IsDigit(c) && c as int - '0' as int == d
  {
    (d + '0' as int) as char
  }

  /** The digits of a natural number, most significant first, no leading zero. */
  function NatDigits(n: nat): (s: string)
    ensures |s| > 0 && forall i :: 0 <= i < |s| ==> IsDigit(s[i])
    ensures |s| > 1 ==> s[0] != '0'
    decreases n
  {
    if n < 10 then [DigitChar(n)] else NatDigits(n / 10) + [DigitChar(n % 10)]
  }

  /** String.valueOf(int). */
  function IntToString(n: int): (s: string)
    ensures |s| > 0
    ensures s[0] == '-' <==> n < 0
  {
    if n < 0 then "-" + NatDigits(-n) else NatDigits(n)
  }

  /** The value of a string of decimal digits. */
  function DigitsValue(s: string): nat
    requires forall i :: 0 <= i < |s| ==> IsDigit(s[i])
  {
    if |s| == 0 then 0
    else
      assert IsDigit(s[|s| - 1]);
      DigitsValue(s[..|s| - 1]) * 10 + (s[|s| - 1] as int - '0' as int)
  }

  /** The blanks C's isspace knows: space, tab, newline, carriage return,
    * vertical tab and form feed. */
  predicate IsBlank(c: char)
  {
    c == ' ' || c == '\t' || c == '\n' || c == '\r' || c == '\U{B}' || c == '\U{C}'
  }

  predicate AllBlank(s: string)
  {
    forall i :: 0 <= i < |s| ==> IsBlank(s[i])
  }

  predicate AllDigits(s: string)
  {
    forall i :: 0 <= i < |s| ==> IsDigit(s[i])
  }

  /** s without its leading blanks. */
  function SkipBlanks(s: string): (t: string)
    ensures |t| <= |s|
    ensures |t| > 0 ==> !IsBlank(t[0])
  {
    if |s| > 0 && IsBlank(s[0]) then SkipBlanks(s[1..]) else s
  }

  /** Skipping drops a run of blanks from the front. */
  lemma {:induction false} SkipBlanksSuffix(s: string)
    ensures var t := SkipBlanks(s); t == s[|s| - |t|..] && AllBlank(s[..|s| - |t|])
  {
    if |s| > 0 && IsBlank(s[0]) {
      SkipBlanksSuffix(s[1..]);
    }
  }

  /** s without its trailing blanks. */
  function DropTrailingBlanks(s: string): (t: string)
    ensures |t| <= |s|
    ensures |t| > 0 ==> !IsBlank(t[|t| - 1])
  {
    if |s| > 0 && IsBlank(s[|s| - 1]) then DropTrailingBlanks(s[..|s| - 1]) else s
  }

  /** Dropping removes a run of blanks from the end. */
  lemma {:induction false} DropTrailingPrefix(s: string)
    ensures var t := DropTrailingBlanks(s); t == s[..|t|] && AllBlank(s[|t|..])
  {
    if |s| > 0 && IsBlank(s[|s| - 1]) {
      var p := s[..|s| - 1];
      DropTrailingPrefix(p);
      var t := DropTrailingBlanks(p);
      assert DropTrailingBlanks(s) == t;
      assert s[..|t|] == p[..|t|];
      assert s[|t|..] == p[|t|..] + [s[|s| - 1]];
    }
  }

  /** s without its leading and trailing blanks. */
  function Trim(s: string): (t: string)
    ensures AllBlank(s) ==> t == ""
  {
    SkipBlanksSuffix(s);
    DropTrailingBlanks(SkipBlanks(s))
  }

  /** The digits of a trimmed numeral: what follows the sign and the blanks
    * after it, or the whole text when there is no sign. */
  function Unsigned(t: string): (d: string)
    ensures |d| <= |t|
    ensures |d| > 0 ==> d[0] in t
  {
    if |t| > 0 && (t[0] == '-' || t[0] == '+') then
      var d := SkipBlanks(t[1..]);
      SkipBlanksSuffix(t[1..]);
      assert |d| > 0 ==> d[0] == t[|t| - |d|];
      d
    else t
  }

  /**
   * Python 2's int() on a byte string in base 10: blanks are skipped before
   * the sign, between the sign and the digits, and after the digits; what
   * remains must be an optional sign and at least one decimal digit, and
   * anything else is a ValueError.
   */
  function ParseInt(s: string): Result<int>
  {
    var t := Trim(s);
    var d := Unsigned(t);
    if |d| > 0 && AllDigits(d) then
      var v: int := DigitsValue(d);
      Ok(if t[0] == '-' then -v else v)
    else
      Err("ValueError")
  }

  /** int() accepts only a text holding a decimal digit, so blanks alone are a ValueError. */
  lemma ParseIntNeedsDigit(s: string)
    ensures ParseInt(s).Ok? ==> exists i :: 0 <= i < |s| && IsDigit(s[i])
    ensures AllBlank(s) ==> ParseInt(s).Err?
  {
    var d := Unsigned(Trim(s));
    if |d| > 0 && AllDigits(d) {
      assert IsDigit(d[0]);
      TrimmedChar(s, d[0]);
      assert d[0] in s;
    }
  }

  /** A character of the trimmed text is a character of s. */
  lemma TrimmedChar(s: string, c: char)
    requires c in Trim(s)
    ensures c in s
  {
    var u := SkipBlanks(s);
    var t := Trim(s);
    SkipBlanksSuffix(s);
    DropTrailingPrefix(u);
    var k :| 0 <= k < |t| && t[k] == c;
    assert t[k] == u[k] == s[|s| - |u| + k];
  }

  /** Leading blanks are skipped. */
  lemma {:induction false} SkipPrefix(pre: string, x: string)
    requires AllBlank(pre)
    ensures SkipBlanks(pre + x) == SkipBlanks(x)
  {
    if |pre| > 0 {
      assert (pre + x)[1..] == pre[1..] + x;
      SkipPrefix(pre[1..], x);
    } else {
      assert pre + x == x;
    }
  }

  /** Trailing blanks are dropped. */
  lemma {:induction false} DropSuffix(x: string, post: string)
    requires AllBlank(post)
    ensures DropTrailingBlanks(x + post) == DropTrailingBlanks(x)
  {
    if |post| > 0 {
      var y := x + post;
      assert y[..|y| - 1] == x + post[..|post| - 1];
      DropSuffix(x, post[..|post| - 1]);
    } else {
      assert x + post == x;
    }
  }

  /** Blanks around a text that neither starts nor ends with a blank are
    * trimmed away. */
  lemma TrimPadded(pre: string, core: string, post: string)
    requires AllBlank(pre) && AllBlank(post)
    requires |core| > 0 && !IsBlank(core[0]) && !IsBlank(core[|core| - 1])
    ensures Trim(pre + core + post) == core
  {
    assert pre + core + post == pre + (core + post);
    SkipPrefix(pre, core + post);
    assert SkipBlanks(core + post) == core + post;
    DropSuffix(core, post);
  }

  /**
   * The forms int() accepts: blanks, an optional sign, blanks only after a
   * sign, a run of digits and blanks read as the digits' value, negated
   * after a minus sign.
   */
  lemma ParsePadded(pre: string, sign: string, mid: string, d: string, post: string)
    requires AllBlank(pre) && AllBlank(mid) && AllBlank(post)
    requires sign == "" || sign == "-" || sign == "+"
    requires sign == "" ==> mid == ""
    requires |d| > 0 && AllDigits(d)
    ensures ParseInt(pre + sign + mid + d + post) ==
      Ok(if sign == "-" then -(DigitsValue(d) as int) else DigitsValue(d))
  {
    var core := sign + mid + d;
    SignedCore(sign, mid, d);
    TrimPadded(pre, core, post);
    Regroup(pre, sign, mid, d, post);
    ParseTrimmed(pre + core + post, core, d);
  }

  lemma Regroup(a: string, b: string, c: string, d: string, e: string)
    ensures a + b + c + d + e == a + (b + c + d) + e
  {
  }

  /** A sign, blanks and digits neither start nor end with a blank, and
    * their digits are d. */
  lemma SignedCore(sign: string, mid: string, d: string)
    requires AllBlank(mid)
    requires sign == "" || sign == "-" || sign == "+"
    requires sign == "" ==> mid == ""
    requires |d| > 0 && AllDigits(d)
    ensures var core := sign + mid + d;
      |core| > 0 && !IsBlank(core[0]) && !IsBlank(core[|core| - 1]) &&
      Unsigned(core) == d && (core[0] == '-' <==> sign == "-")
  {
    var core := sign + mid + d;
    assert IsDigit(d[0]) && IsDigit(d[|d| - 1]);
    assert core[|core| - 1] == d[|d| - 1];
    assert SkipBlanks(d) == d;
    if sign != "" {
      assert core[0] == sign[0];
      assert core[1..] == mid + d;
      SkipPrefix(mid, d);
      assert Unsigned(core) == SkipBlanks(mid + d);
    } else {
      assert core == d;
    }
  }

  /** int() of a text whose trimmed form has the digits d. */
  lemma ParseTrimmed(x: string, core: string, d: string)
    requires Trim(x) == core && |core| > 0 && Unsigned(core) == d
    requires |d| > 0 && AllDigits(d)
    ensures ParseInt(x) == Ok(if core[0] == '-' then -(DigitsValue(d) as int) else DigitsValue(d))
  {
  }

  lemma {:induction false} NatDigitsValue(n: nat)
    ensures DigitsValue(NatDigits(n)) == n
    decreases n
  {
    if n >= 10 {
      NatDigitsValue(n / 10);
      var s := NatDigits(n / 10) + [DigitChar(n % 10)];
      assert s[..|s| - 1] == NatDigits(n / 10);
    }
  }

  /** Reading back what String.valueOf writes gives the number, also with
    * blanks around it such as a line's newline. */
  lemma ParsePaddedIntToString(n: int, pre: string, post: string)
    requires AllBlank(pre) && AllBlank(post)
    ensures ParseInt(pre + IntToString(n) + post) == Ok(n)
  {
    var sign := if n < 0 then "-" else "";
    var d := NatDigits(if n < 0 then -n else n);
    assert IntToString(n) == sign + d;
    ParsePadded(pre, sign, "", d, post);
    Glue(pre, sign, d, post);
    NatDigitsValue(if n < 0 then -n else n);
  }

  /** Reading back what String.valueOf writes gives the number. */
  lemma ParseIntToString(n: int)
    ensures ParseInt(IntToString(n)) == Ok(n)
  {
    ParsePaddedIntToString(n, "", "");
    Unpadded(IntToString(n));
  }

  lemma Glue(pre: string, sign: string, d: string, post: string)
    ensures pre + sign + "" + d + post == pre + (sign + d) + post
  {
    assert sign + "" == sign;
  }

  lemma Unpadded(x: string)
    ensures "" + x + "" == x
  {
  }
}
