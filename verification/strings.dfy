/** The string primitives the resolvers rely on: JavaScript's `String.prototype.split`
    with a one-character separator, its inverse `join`, and `parseInt(s, 10)`. */
module Strings {
  import opened Wrappers

  /** Index of the first occurrence of `c` in `s`. */
  function IndexOf(s: string, c: char): (i: nat)
    requires c in s
    ensures i < |s| && s[i] == c
    ensures c !in s[..i]
  {
    if s[0] == c then 0
    else
      var j := IndexOf(s[1..], c);
      assert s[..j + 1] == [s[0]] + s[1..][..j];
      j + 1
  }

  /** `parts.join(sep)`. */
  function Join(parts: seq<string>, sep: char): string
  {
    if |parts| == 0 then ""
    else if |parts| == 1 then parts[0]
    else parts[0] + [sep] + Join(parts[1..], sep)
  }

  /** `s.split(sep)`: the maximal pieces of `s` between occurrences of `sep`. There is always
      at least one piece (the empty string splits into `[""]`), no piece holds the separator,
      and joining the pieces back gives `s`. */
  function Split(s: string, sep: char): (parts: seq<string>)
    ensures |parts| >= 1
    ensures forall k :: 0 <= k < |parts| ==> sep !in parts[k]
    ensures Join(parts, sep) == s
    decreases |s|
  {
    if sep !in s then [s]
    else
      var i := IndexOf(s, sep);
      var rest := Split(s[i + 1..], sep);
      assert s == s[..i] + [sep] + s[i + 1..];
      [s[..i]] + rest
  }

  /** Splitting a string that starts with a separator-free piece `a` followed by the
      separator yields `a` and then the pieces of the remainder. */
  lemma SplitCons(a: string, sep: char, b: string)
    requires sep !in a
    ensures Split(a + [sep] + b, sep) == [a] + Split(b, sep)
  {
    var s := a + [sep] + b;
    assert s[|a|] == sep;
    var i := IndexOf(s, sep);
    assert s[..i] == a;
    assert s[i + 1..] == b;
  }

  /** `split` inverts `join` on pieces that are free of the separator. */
  lemma {:induction false} SplitJoin(parts: seq<string>, sep: char)
    requires |parts| >= 1
    requires forall k :: 0 <= k < |parts| ==> sep !in parts[k]
    ensures Split(Join(parts, sep), sep) == parts
    decreases |parts|
  {
    if |parts| > 1 {
      SplitJoin(parts[1..], sep);
      SplitCons(parts[0], sep, Join(parts[1..], sep));
      assert parts == [parts[0]] + parts[1..];
    }
  }

  /** The text before the first `sep`, i.e. `s.split(sep)[0]`: it is a separator-free
      prefix of `s`, and is either all of `s` or followed by `sep`. */
  lemma FirstPiece(s: string, sep: char)
    ensures var p := Split(s, sep)[0];
      && sep !in p
      && p <= s
      && (p == s || (|p| < |s| && s[|p|] == sep))
  {
    if sep in s {
      var i := IndexOf(s, sep);
      SplitCons(s[..i], sep, s[i + 1..]);
      assert s == s[..i] + [sep] + s[i + 1..];
    }
  }

  predicate IsDigit(c: char) {
    '0' <= c <= '9'
  }

  function DigitChar(d: nat): (c: char)
    requires d < 10
    ensures IsDigit(c)
  {
    (('0' as int) + d) as char
  }

  function DigitValue(c: char): (d: nat)
    requires IsDigit(c)
    ensures d < 10
  {
    (c as int) - ('0' as int)
  }

  predicate AllDigits(s: string) {
    forall k :: 0 <= k < |s| ==> IsDigit(s[k])
  }

  /** The longest prefix of `s` made of decimal digits. */
  function LeadingDigits(s: string): (ds: string)
    ensures ds <= s && AllDigits(ds)
    ensures |ds| == |s| || !IsDigit(s[|ds|])
  {
    if |s| == 0 || !IsDigit(s[0]) then ""
    else
      var rest := LeadingDigits(s[1..]);
      assert [s[0]] + rest <= s by {
        assert s == [s[0]] + s[1..];
      }
      [s[0]] + rest
  }

  /** The number a string of decimal digits denotes, most significant digit first. */
  function DigitsValue(ds: string): nat
    requires AllDigits(ds)
  {
    if |ds| == 0 then 0
    else DigitsValue(ds[..|ds| - 1]) * 10 + DigitValue(ds[|ds| - 1])
  }

  /** The value of the longest run of decimal digits at the start of `body`, or `None`
      (JavaScript's `NaN`) when `body` does not start with a digit. */
  function ParseDigits(body: string): Option<nat>
  {
    var ds := LeadingDigits(body);
    if |ds| == 0 then None else Some(DigitsValue(ds))
  }

  /** `parseInt(s, 10)`: an optional sign, then the longest run of decimal digits; the
      characters after that run are ignored. `None` stands for `NaN`, the answer when no
      digit follows the sign. */
  function ParseInt(s: string): Option<int>
  {
    if |s| > 0 && s[0] == '-' then
      match ParseDigits(s[1..])
      case None => None
      case Some(m) => Some(-(m as int))
    else if |s| > 0 && s[0] == '+' then
      match ParseDigits(s[1..])
      case None => None
      case Some(m) => Some(m)
    else
      match ParseDigits(s)
      case None => None
      case Some(m) => Some(m)
  }

  /** Decimal digits of a natural number, without leading zeros. */
  function NatToDigits(n: nat): (ds: string)
    ensures |ds| >= 1 && AllDigits(ds)
  {
    if n < 10 then [DigitChar(n)]
    else NatToDigits(n / 10) + [DigitChar(n % 10)]
  }

  /** Decimal rendering of an integer, `String(n)` in JavaScript. */
  function IntToString(n: int): (s: string)
    ensures |s| >= 1
  {
    if n < 0 then "-" + NatToDigits(-n) else NatToDigits(n)
  }

  lemma {:induction false} DigitsValueOfNat(n: nat)
    ensures DigitsValue(NatToDigits(n)) == n
  {
    if n >= 10 {
      DigitsValueOfNat(n / 10);
      var ds := NatToDigits(n);
      assert ds[..|ds| - 1] == NatToDigits(n / 10);
    }
  }

  lemma {:induction false} LeadingDigitsOfDigits(ds: string, rest: string)
    requires AllDigits(ds)
    requires |rest| == 0 || !IsDigit(rest[0])
    ensures LeadingDigits(ds + rest) == ds
    decreases |ds|
  {
    if |ds| == 0 {
      assert ds + rest == rest;
    } else {
      LeadingDigitsOfDigits(ds[1..], rest);
      assert (ds + rest)[1..] == ds[1..] + rest;
      assert ds == [ds[0]] + ds[1..];
    }
  }

  lemma ParseDigitsOfDigits(ds: string, rest: string)
    requires |ds| >= 1 && AllDigits(ds)
    requires |rest| == 0 || !IsDigit(rest[0])
    ensures ParseDigits(ds + rest) == Some(DigitsValue(ds))
  {
    LeadingDigitsOfDigits(ds, rest);
  }

  lemma ParseIntOfNegatedDigits(ds: string, rest: string, t: string)
    requires |ds| >= 1 && AllDigits(ds)
    requires |rest| == 0 || !IsDigit(rest[0])
    requires t == ['-'] + (ds + rest)
    ensures ParseInt(t) == Some(-(DigitsValue(ds) as int))
  {
    ParseDigitsOfDigits(ds, rest);
    assert t[1..] == ds + rest;
  }

  lemma ParseIntOfPlainDigits(ds: string, rest: string, t: string)
    requires |ds| >= 1 && AllDigits(ds)
    requires |rest| == 0 || !IsDigit(rest[0])
    requires t == ds + rest
    ensures ParseInt(t) == Some(DigitsValue(ds))
  {
    ParseDigitsOfDigits(ds, rest);
    assert t[0] == ds[0];
  }

  /** `parseInt` reads back any rendered integer, whatever non-digit text follows it. */
  lemma ParseIntRender(n: int, rest: string)
    requires |rest| == 0 || !IsDigit(rest[0])
    ensures ParseInt(IntToString(n) + rest) == Some(n)
  {
    var m: nat := if n < 0 then -n else n;
    var ds := NatToDigits(m);
    DigitsValueOfNat(m);
    var t := IntToString(n) + rest;
    if n < 0 {
      assert t == ['-'] + (ds + rest);
      ParseIntOfNegatedDigits(ds, rest, t);
    } else {
      ParseIntOfPlainDigits(ds, rest, t);
    }
  }

  /** `parseInt` yields `NaN` exactly when no digit follows the optional sign. */
  lemma ParseIntNaN(s: string)
    ensures ParseInt(s).None? <==>
      !(|s| > 0 && IsDigit(s[0])) && !(|s| > 1 && (s[0] == '-' || s[0] == '+') && IsDigit(s[1]))
  {
  }

  /** A rendered integer holds only digits and, first, a minus sign. */
  lemma RenderedCharacters(n: int, c: char)
    requires c in IntToString(n)
    ensures IsDigit(c) || c == '-'
  {
  }
}
