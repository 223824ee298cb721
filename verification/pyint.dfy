/** Python's integer semantics that the modelled code relies on:
    floor division, `str(n)`, `int(text)` and `str.split`. */
module PyInt {
  import opened Wrappers

  /** Python `a // b`: the quotient rounded toward negative infinity. */
  function FloorDiv(a: int, b: int): (q: int)
    requires b != 0
    ensures b > 0 ==> q * b <= a < q * b + b
    ensures b < 0 ==> q * b >= a > q * b + b
  {
    if b > 0 then a / b else (-a) / (-b)
  }

  /** Python `a % b`: the remainder has the sign of the divisor. */
  function FloorMod(a: int, b: int): (r: int)
    requires b != 0
    ensures a == FloorDiv(a, b) * b + r
    ensures b > 0 ==> 0 <= r < b
    ensures b < 0 ==> b < r <= 0
  {
    a - FloorDiv(a, b) * b
  }

  // ---------------------------------------------------------------------
  // Decimal text

  predicate IsDigit(c: char) {
    '0' <= c <= '9'
  }

  function DigitValue(c: char): nat
    requires IsDigit(c)
  {
    (c as int) - ('0' as int)
  }

  function DigitChar(d: nat): (c: char)
    requires d < 10
    ensures IsDigit(c) && DigitValue(c) == d
  {
    (('0' as int) + d) as char
  }

  /** `str(n)` for a natural number: its shortest decimal rendering. */
  function ShowNat(n: nat): (s: string)
    ensures |s| > 0
    ensures forall i :: 0 <= i < |s| ==> IsDigit(s[i])
  {
    if n < 10 then [DigitChar(n)] else ShowNat(n / 10) + [DigitChar(n % 10)]
  }

  /** `str(n)` for any integer. */
  function ShowInt(n: int): string {
    if n < 0 then "-" + ShowNat(-n) else ShowNat(n)
  }

  /** Python's whitespace, what `str.strip()` removes and `int()` skips
      around a number: the characters of bidirectional class WS, B or S or
      of category Zs. */
  predicate IsSpace(c: char) {
    || '\U{9}' <= c <= '\U{D}' || '\U{1C}' <= c <= '\U{20}'
    || c == '\U{85}' || c == '\U{A0}' || c == '\U{1680}'
    || '\U{2000}' <= c <= '\U{200A}' || c == '\U{2028}' || c == '\U{2029}'
    || c == '\U{202F}' || c == '\U{205F}' || c == '\U{3000}'
  }

  function StripLeft(s: string): (t: string)
    ensures |t| <= |s|
    ensures |t| > 0 ==> !IsSpace(t[0])
    ensures t == s[|s| - |t|..]
  {
    if |s| > 0 && IsSpace(s[0]) then StripLeft(s[1..]) else s
  }

  function StripRight(s: string): (t: string)
    ensures |t| <= |s|
    ensures |t| > 0 ==> !IsSpace(t[|t| - 1])
    ensures t == s[..|t|]
  {
    if |s| > 0 && IsSpace(s[|s| - 1]) then StripRight(s[..|s| - 1]) else s
  }

  function Strip(s: string): string {
    StripRight(StripLeft(s))
  }

  /** The digit-group syntax `int()` accepts in base 10: digits, where a single
      underscore may separate two digits. */
  predicate WellFormedDigits(s: string) {
    && |s| > 0
    && IsDigit(s[0])
    && IsDigit(s[|s| - 1])
    && (forall i :: 0 <= i < |s| ==> IsDigit(s[i]) || s[i] == '_')
    && (forall i :: 0 <= i < |s| - 1 ==> IsDigit(s[i]) || IsDigit(s[i + 1]))
  }

  /** The value of a digit string, underscores ignored. */
  function DigitsValue(s: string): nat
    requires forall i :: 0 <= i < |s| ==> IsDigit(s[i]) || s[i] == '_'
  {
    if |s| == 0 then 0
    else if s[|s| - 1] == '_' then DigitsValue(s[..|s| - 1])
    else DigitsValue(s[..|s| - 1]) * 10 + DigitValue(s[|s| - 1])
  }

  /** Python `int(text)` in base 10: surrounding whitespace, one optional sign,
      then a well-formed digit string; anything else is a ValueError (None). */
  function ParseInt(text: string): Option<int> {
    var t := Strip(text);
    if |t| > 0 && (t[0] == '+' || t[0] == '-') then
      if WellFormedDigits(t[1..]) then
        var magnitude: int := DigitsValue(t[1..]);
        Some(if t[0] == '-' then -magnitude else magnitude)
      else None
    else if WellFormedDigits(t) then Some(DigitsValue(t))
    else None
  }

  lemma {:induction false} ShowNatValue(n: nat)
    ensures DigitsValue(ShowNat(n)) == n
    decreases n
  {
    var s := ShowNat(n);
    if n >= 10 {
      ShowNatValue(n / 10);
      assert s[..|s| - 1] == ShowNat(n / 10);
    }
  }

  /** `int(str(n)) == n` for every integer. */
  lemma ParseShowInt(n: int)
    ensures ParseInt(ShowInt(n)) == Some(n)
  {
    var m: nat := if n < 0 then -n else n;
    ShowNatValue(m);
    if n < 0 {
      ParseSigned(ShowNat(m));
    } else {
      ParseUnsigned(ShowNat(m));
    }
  }

  lemma ParseUnsigned(t: string)
    requires |t| > 0 && forall i :: 0 <= i < |t| ==> IsDigit(t[i])
    ensures ParseInt(t) == Some(DigitsValue(t))
  {
    StripClean(t);
  }

  lemma ParseSigned(t: string)
    requires |t| > 0 && forall i :: 0 <= i < |t| ==> IsDigit(t[i])
    ensures ParseInt("-" + t) == Some(-(DigitsValue(t) as int))
  {
    hide DigitsValue, WellFormedDigits, Strip, StripLeft, StripRight;
    var s := "-" + t;
    StripClean(s);
    assert s[1..] == t;
    DigitsWellFormed(t);
  }

  lemma DigitsWellFormed(t: string)
    requires |t| > 0 && forall i :: 0 <= i < |t| ==> IsDigit(t[i])
    ensures WellFormedDigits(t)
  {
  }

  /** `strip()` leaves a string alone whose ends are not whitespace. */
  lemma StripClean(s: string)
    requires |s| > 0 && !IsSpace(s[0]) && !IsSpace(s[|s| - 1])
    ensures Strip(s) == s
  {
    assert StripLeft(s) == s;
  }

  // ---------------------------------------------------------------------
  // str.split with a one-character separator

  /** Python `s.split(sep)` for a one-character separator. */
  function Split(s: string, sep: char): (pieces: seq<string>)
    ensures |pieces| >= 1
    ensures forall k, i :: 0 <= k < |pieces| && 0 <= i < |pieces[k]| ==> pieces[k][i] != sep
  {
    if |s| == 0 then [""]
    else
      var rest := Split(s[1..], sep);
      if s[0] == sep then [""] + rest
      else [[s[0]] + rest[0]] + rest[1..]
  }

  /** `sep.join(pieces)`. */
  function Join(pieces: seq<string>, sep: char): string
    requires |pieces| >= 1
  {
    if |pieces| == 1 then pieces[0] else pieces[0] + [sep] + Join(pieces[1..], sep)
  }

  /** Splitting loses nothing: joining the pieces back gives the text. */
  lemma {:induction false} JoinSplit(s: string, sep: char)
    ensures Join(Split(s, sep), sep) == s
  {
    if |s| > 0 {
      var rest := Split(s[1..], sep);
      JoinSplit(s[1..], sep);
      if s[0] != sep {
        var pieces := Split(s, sep);
        if |rest| == 1 {
          assert pieces == [[s[0]] + rest[0]];
        } else {
          assert pieces[1..] == rest[1..];
        }
      }
    }
  }

  /** A piece without the separator splits to itself. */
  lemma {:induction false} SplitPiece(a: string, sep: char)
    requires forall i :: 0 <= i < |a| ==> a[i] != sep
    ensures Split(a, sep) == [a]
    decreases |a|
  {
    if |a| > 0 {
      SplitPiece(a[1..], sep);
      assert [a[0]] + a[1..] == a;
    }
  }

  /** A piece without the separator, then the separator: the piece comes off
      first. */
  lemma {:induction false} SplitFirst(a: string, sep: char, rest: string)
    requires forall i :: 0 <= i < |a| ==> a[i] != sep
    ensures Split(a + [sep] + rest, sep) == [a] + Split(rest, sep)
    decreases |a|
  {
    var s := a + [sep] + rest;
    if |a| == 0 {
      assert s == [sep] + rest && s[1..] == rest;
    } else {
      assert s[1..] == a[1..] + [sep] + rest;
      SplitFirst(a[1..], sep, rest);
      assert [a[0]] + a[1..] == a;
    }
  }

  /** Joining pieces free of the separator and splitting again gives the
      pieces back. */
  lemma {:induction false} SplitJoin(pieces: seq<string>, sep: char)
    requires |pieces| >= 1
    requires forall k, i :: 0 <= k < |pieces| && 0 <= i < |pieces[k]| ==> pieces[k][i] != sep
    ensures Split(Join(pieces, sep), sep) == pieces
    decreases |pieces|
  {
    if |pieces| == 1 {
      SplitPiece(pieces[0], sep);
    } else {
      SplitJoin(pieces[1..], sep);
      SplitFirst(pieces[0], sep, Join(pieces[1..], sep));
    }
  }
}
