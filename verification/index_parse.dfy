/**
 The comment index arrives as a path segment and is read with `parseInt`.
 This module models the decimal part of that parse: leading white space is
 skipped, one optional sign is taken, and then the longest run of decimal
 digits is read; no digit at all gives `None` (JavaScript's `NaN`).
 */
module IndexParse {
  import opened Models

  predicate IsDigit(c: char) {
    '0' <= c <= '9'
  }

  /** The ASCII white-space characters `parseInt` skips. */
  predicate IsSpace(c: char) {
    c == ' ' || c == '\t' || c == '\n' || c == '\r' || c == '\U{B}' || c == '\U{C}'
  }

  predicate AllDigits(d: string) {
    forall i :: 0 <= i < |d| ==> IsDigit(d[i])
  }

  /** `s` without its leading white space. */
  function TrimStart(s: string): (r: string)
    ensures |r| <= |s| && r == s[|s| - |r|..]
    ensures forall i :: 0 <= i < |s| - |r| ==> IsSpace(s[i])
    ensures |r| == 0 || !IsSpace(r[0])
  {
    if |s| > 0 && IsSpace(s[0]) then TrimStart(s[1..]) else s
  }

  /** The length of the longest prefix of `s` made of digits. */
  function DigitRun(s: string): (n: nat)
    ensures n <= |s|
    ensures AllDigits(s[..n])
    ensures n == |s| || !IsDigit(s[n])
  {
    if |s| > 0 && IsDigit(s[0]) then 1 + DigitRun(s[1..]) else 0
  }

  /** The value of a string of decimal digits, most significant first. */
  function DigitsValue(d: string): nat
    requires AllDigits(d)
  {
    if |d| == 0 then 0 else DigitsValue(d[..|d| - 1]) * 10 + (d[|d| - 1] as int - '0' as int)
  }

  /** The digits after an optional sign, and the sign they carry. */
  function Unsigned(t: string): (r: (bool, string))
    ensures |r.1| <= |t|
  {
    if |t| > 0 && t[0] == '-' then (true, t[1..])
    else if |t| > 0 && t[0] == '+' then (false, t[1..])
    else (false, t)
  }

  /** The decimal reading of `s`: `None` exactly when no digit follows the space and the sign. */
  function ParseIndex(s: string): (r: Option<int>)
    ensures r.None? <==> DigitRun(Unsigned(TrimStart(s)).1) == 0
  {
    var (negative, rest) := Unsigned(TrimStart(s));
    var n := DigitRun(rest);
    if n == 0 then None
    else
      var v: int := DigitsValue(rest[..n]);
      Some(if negative then -v else v)
  }

  /** The character of a single decimal digit. */
  function Digit(d: nat): (c: char)
    requires d < 10
    ensures IsDigit(c)
    ensures c as int - '0' as int == d
  {
    ('0' as int + d) as char
  }

  /** The shortest decimal spelling of `n`, as a client would put it in a path. */
  function Show(n: nat): (r: string)
    ensures |r| > 0
    ensures AllDigits(r)
  {
    if n < 10 then [Digit(n)] else Show(n / 10) + [Digit(n % 10)]
  }

  /** Reading back the digits of `n` gives `n`. */
  lemma {:induction false} DigitsValueShow(n: nat)
    ensures DigitsValue(Show(n)) == n
  {
    var d := Show(n);
    if n >= 10 {
      assert d[..|d| - 1] == Show(n / 10);
      DigitsValueShow(n / 10);
    }
  }

  /** The digit run of a digit string followed by a non-digit is exactly that string. */
  lemma {:induction false} DigitRunStops(d: string, t: string)
    requires AllDigits(d)
    requires |t| == 0 || !IsDigit(t[0])
    ensures DigitRun(d + t) == |d|
  {
    if |d| > 0 {
      assert (d + t)[1..] == d[1..] + t;
      DigitRunStops(d[1..], t);
    }
  }

  predicate AllSpaces(ws: string) {
    forall i :: 0 <= i < |ws| ==> IsSpace(ws[i])
  }

  /** Leading white space is skipped up to the first other character. */
  lemma {:induction false} TrimSpaces(ws: string, x: string)
    requires AllSpaces(ws)
    requires |x| == 0 || !IsSpace(x[0])
    ensures TrimStart(ws + x) == x
  {
    if |ws| > 0 {
      assert (ws + x)[1..] == ws[1..] + x;
      TrimSpaces(ws[1..], x);
    }
  }

  /** A sign in front of a digit string is taken off and remembered. */
  lemma UnsignedSpelled(sign: string, body: string)
    requires sign == "" || sign == "+" || sign == "-"
    requires |body| > 0 && IsDigit(body[0])
    ensures Unsigned(sign + body) == (sign == "-", body)
  {
    if sign != "" {
      assert (sign + body)[1..] == body;
    } else {
      assert sign + body == body;
    }
  }

  /**
   Once the space and the sign are off, the value is that of the digit run.
   This only states the unfolding of `ParseIndex` in named steps, so that
   `ParseSpelled` can use it without unfolding the definition itself.
   */
  lemma ParseSteps(s: string, x: string, negative: bool, body: string, k: nat, v: nat)
    requires TrimStart(s) == x
    requires Unsigned(x) == (negative, body)
    requires 0 < k && DigitRun(body) == k
    requires DigitsValue(body[..k]) == v
    ensures ParseIndex(s) == Some(if negative then -(v as int) else v)
  {
  }

  /** A signed spelling of `n`, cut off before any further digit, and what its parse sees. */
  lemma SignedSpelling(sign: string, n: nat, t: string)
    requires sign == "" || sign == "+" || sign == "-"
    requires |t| == 0 || !IsDigit(t[0])
    ensures |sign + (Show(n) + t)| > 0 && !IsSpace((sign + (Show(n) + t))[0])
    ensures Unsigned(sign + (Show(n) + t)) == (sign == "-", Show(n) + t)
    ensures DigitRun(Show(n) + t) == |Show(n)|
    ensures DigitsValue((Show(n) + t)[..|Show(n)|]) == n
  {
    var d := Show(n);
    var body := d + t;
    var x := sign + body;
    assert body[0] == d[0];
    assert x[0] == (if sign == "" then d[0] else sign[0]);
    UnsignedSpelled(sign, body);
    DigitRunStops(d, t);
    assert body[..|d|] == d;
    DigitsValueShow(n);
  }

  /**
   `parseInt` on a decimal spelling: white space, then an optional sign,
   then the digits of `n`, then any text that does not start with a digit,
   reads as `n` with that sign.
   */
  lemma ParseSpelled(ws: string, sign: string, n: nat, t: string)
    requires AllSpaces(ws)
    requires sign == "" || sign == "+" || sign == "-"
    requires |t| == 0 || !IsDigit(t[0])
    ensures ParseIndex(ws + (sign + (Show(n) + t))) == Some(if sign == "-" then -(n as int) else n)
  {
    var body := Show(n) + t;
    var x := sign + body;
    SignedSpelling(sign, n, t);
    TrimSpaces(ws, x);
    ParseSteps(ws + x, x, sign == "-", body, |Show(n)|, n);
  }

  /**
   `parseInt` reads a decimal prefix: the spelling of `n` followed by any
   text that does not start with a digit parses to `n`.
   */
  lemma ParseShowPrefix(n: nat, t: string)
    requires |t| == 0 || !IsDigit(t[0])
    ensures ParseIndex(Show(n) + t) == Some(n)
  {
    var s := Show(n) + t;
    assert "" + ("" + s) == s;
    ParseSpelled("", "", n, t);
  }

  /** The spelling of `n` parses back to `n`. */
  lemma ParseShow(n: nat)
    ensures ParseIndex(Show(n)) == Some(n)
  {
    ParseShowPrefix(n, "");
    assert Show(n) + "" == Show(n);
  }

  /** A minus sign in front of a positive spelling gives a negative index. */
  lemma ParseNegative(n: nat)
    requires n > 0
    ensures ParseIndex(['-'] + Show(n)) == Some(-(n as int))
  {
    var s := ['-'] + Show(n);
    assert "" + ("-" + (Show(n) + "")) == s;
    ParseSpelled("", "-", n, "");
  }
}
