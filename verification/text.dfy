/** Character classes and string operations as JavaScript defines them,
    restricted to what the forms and lists of the admin front-end use:
    regular-expression classes (`\d`, `\s`, `[A-Za-z]`), `toLowerCase`,
    `trim`, `includes`, `split` and `join`. */
module Text {
  import opened Base

  /** `\d` in a JavaScript regular expression. */
  predicate IsDigit(c: char)
  {
    '0' <= c <= '9'
  }

  predicate IsUpper(c: char)
  {
    'A' <= c <= 'Z'
  }

  predicate IsLower(c: char)
  {
    'a' <= c <= 'z'
  }

  /** `[A-Za-z]`. */
  predicate IsLetter(c: char)
  {
    IsUpper(c) || IsLower(c)
  }

  /** `[A-Za-z0-9]`. */
  predicate IsAlnum(c: char)
  {
    IsLetter(c) || IsDigit(c)
  }

  /** `\s` in a JavaScript regular expression; also the characters that
      `String.prototype.trim` removes (white space and line terminators). */
  predicate IsWhitespace(c: char)
  {
    || c == ' ' || c == '\t' || c == '\n' || c == '\U{000B}' || c == '\U{000C}' || c == '\r'
    || c == '\U{00A0}' || c == '\U{1680}' || ('\U{2000}' <= c <= '\U{200A}')
    || c == '\U{2028}' || c == '\U{2029}' || c == '\U{202F}' || c == '\U{205F}'
    || c == '\U{3000}' || c == '\U{FEFF}'
  }

  /** The characters the regular-expression `.` does not match. */
  predicate IsLineTerminator(c: char)
  {
    c == '\n' || c == '\r' || c == '\U{2028}' || c == '\U{2029}'
  }

  /** Every character of `s` is white space (so also the empty string). */
  predicate IsBlank(s: string)
  {
    forall i :: 0 <= i < |s| ==> IsWhitespace(s[i])
  }

  /** `toLowerCase` on one character, for the ASCII letters. */
  function LowerChar(c: char): (r: char)
    ensures !IsUpper(r)
    ensures IsLetter(c) <==> IsLetter(r)
    ensures IsWhitespace(c) <==> IsWhitespace(r)
    ensures !IsUpper(c) ==> r == c
  {
    if IsUpper(c) then (c as int + 32) as char else c
  }

  /** `toLowerCase`, mapping the ASCII capitals A-Z only. */
  function ToLower(s: string): (r: string)
    ensures |r| == |s|
    ensures forall i :: 0 <= i < |s| ==> r[i] == LowerChar(s[i])
  {
    seq(|s|, i requires 0 <= i < |s| => LowerChar(s[i]))
  }

  /** Lower-casing twice is lower-casing once. */
  lemma ToLowerIdempotent(s: string)
    ensures ToLower(ToLower(s)) == ToLower(s)
  {
  }

  /** `s` with its leading white space removed. */
  function TrimStart(s: string): (r: string)
    ensures |r| <= |s| && r == s[|s| - |r|..]
    ensures IsBlank(s[..|s| - |r|])
    ensures r == [] || !IsWhitespace(r[0])
    ensures |s| > 0 && IsWhitespace(s[0]) ==> |r| < |s|
    decreases |s|
  {
    if |s| > 0 && IsWhitespace(s[0]) then TrimStart(s[1..]) else s
  }

  /** `s` with its trailing white space removed. */
  function TrimEnd(s: string): (r: string)
    ensures |r| <= |s| && r == s[..|r|]
    ensures IsBlank(s[|r|..])
    ensures r == [] || !IsWhitespace(r[|r| - 1])
    decreases |s|
  {
    if |s| > 0 && IsWhitespace(s[|s| - 1]) then
      var init := s[..|s| - 1];
      var r := TrimEnd(init);
      assert s[|r|..] == init[|r|..] + [s[|s| - 1]];
      r
    else s
  }

  /** `String.prototype.trim`. */
  function Trim(s: string): (r: string)
    ensures r == "" <==> IsBlank(s)
    ensures r == "" || (!IsWhitespace(r[0]) && !IsWhitespace(r[|r| - 1]))
  {
    var t := TrimStart(s);
    var r := TrimEnd(t);
    assert r == "" ==> IsBlank(s) by {
      if r == "" {
        assert s == s[..|s| - |t|] + t;
        assert t == t[|r|..];
      }
    }
    r
  }

  /** `q` occurs in `s` starting at index `i`. */
  predicate OccursAt(q: string, s: string, i: nat)
  {
    i + |q| <= |s| && s[i..i + |q|] == q
  }

  /** `String.prototype.includes`: `q` occurs somewhere in `s`. */
  predicate Includes(s: string, q: string)
  {
    exists i: nat | i <= |s| :: OccursAt(q, s, i)
  }

  /** Every string includes the empty string. */
  lemma IncludesEmpty(s: string)
    ensures Includes(s, "")
  {
    assert OccursAt("", s, 0);
  }

  /** The index of the first `sep` in `s`, or `|s|` when there is none. */
  function IndexOf(s: string, sep: char): (k: nat)
    ensures k <= |s|
    ensures k < |s| ==> s[k] == sep
    ensures sep !in s[..k]
    decreases |s|
  {
    if |s| == 0 then 0
    else if s[0] == sep then 0
    else
      var k := IndexOf(s[1..], sep) + 1;
      assert s[..k] == [s[0]] + s[1..][..k - 1];
      k
  }

  /** `String.prototype.split` with a one-character separator. */
  function Split(s: string, sep: char): (r: seq<string>)
    ensures |r| >= 1
    ensures forall i :: 0 <= i < |r| ==> sep !in r[i]
    decreases |s|
  {
    var k := IndexOf(s, sep);
    if k == |s| then [s] else [s[..k]] + Split(s[k + 1..], sep)
  }

  /** `Array.prototype.join`: the parts with `sep` between neighbours. */
  function Join(parts: seq<string>, sep: string): string
    decreases |parts|
  {
    if |parts| == 0 then ""
    else if |parts| == 1 then parts[0]
    else parts[0] + sep + Join(parts[1..], sep)
  }

  /** Joining the pieces of a split with the separator gives back the string. */
  lemma {:induction false} JoinSplit(s: string, sep: char)
    ensures Join(Split(s, sep), [sep]) == s
    decreases |s|
  {
    var k := IndexOf(s, sep);
    if k < |s| {
      JoinSplit(s[k + 1..], sep);
      assert s == s[..k] + [sep] + s[k + 1..];
    }
  }

  /** Splitting a join of separator-free parts gives back the parts. */
  lemma {:induction false} SplitJoin(parts: seq<string>, sep: char)
    requires |parts| >= 1
    requires forall i :: 0 <= i < |parts| ==> sep !in parts[i]
    ensures Split(Join(parts, [sep]), sep) == parts
    decreases |parts|
  {
    if |parts| == 1 {
      assert IndexOf(parts[0], sep) == |parts[0]|;
    } else {
      var s := Join(parts, [sep]);
      var p := parts[0];
      assert s == p + [sep] + Join(parts[1..], [sep]);
      IndexOfPrefix(p, sep, Join(parts[1..], [sep]));
      assert s[..|p|] == p;
      assert s[|p| + 1..] == Join(parts[1..], [sep]);
      SplitJoin(parts[1..], sep);
      assert parts == [parts[0]] + parts[1..];
    }
  }

  /** The first separator of `p + [sep] + t` is the one after `p`. */
  lemma {:induction false} IndexOfPrefix(p: string, sep: char, t: string)
    requires sep !in p
    ensures IndexOf(p + [sep] + t, sep) == |p|
    decreases |p|
  {
    if |p| > 0 {
      assert (p + [sep] + t)[1..] == p[1..] + [sep] + t;
      IndexOfPrefix(p[1..], sep, t);
    }
  }

  /** The character of a decimal digit. */
  function Digit(d: nat): (c: char)
    requires d < 10
    ensures IsDigit(c) && c as int - '0' as int == d
  {
    ('0' as int + d) as char
  }

  /** The decimal numeral of a natural number, as `String(n)` writes it. */
  function DecimalString(n: nat): (r: string)
    ensures |r| >= 1
    ensures forall i :: 0 <= i < |r| ==> IsDigit(r[i])
    decreases n
  {
    var d := [Digit(n % 10)];
    if n < 10 then d else DecimalString(n / 10) + d
  }

  /** An integer as `String(n)` writes it. */
  function IntString(n: int): string
  {
    if n < 0 then "-" + DecimalString(-n) else DecimalString(n)
  }

  /** The value of a string of decimal digits (0 for the empty string). */
  function DigitsValue(s: string): nat
    requires forall i :: 0 <= i < |s| ==> IsDigit(s[i])
    decreases |s|
  {
    if |s| == 0 then 0
    else
      assert IsDigit(s[|s| - 1]);
      DigitsValue(s[..|s| - 1]) * 10 + (s[|s| - 1] as int - '0' as int)
  }

  /** Reading back a decimal numeral gives the number. */
  lemma {:induction false} DecimalStringValue(n: nat)
    ensures DigitsValue(DecimalString(n)) == n
    decreases n
  {
    if n >= 10 {
      DecimalStringValue(n / 10);
      var r := DecimalString(n);
      assert r[..|r| - 1] == DecimalString(n / 10);
    }
  }

  /** The number of decimal digits at the start of `s`. */
  function LeadingDigits(s: string): (k: nat)
    ensures k <= |s|
    ensures forall i :: 0 <= i < k ==> IsDigit(s[i])
    ensures k < |s| ==> !IsDigit(s[k])
    decreases |s|
  {
    if |s| == 0 || !IsDigit(s[0]) then 0 else 1 + LeadingDigits(s[1..])
  }

  /** `s` after its leading white space and one optional sign. */
  function Unsigned(s: string): string
  {
    var t := TrimStart(s);
    if |t| > 0 && (t[0] == '-' || t[0] == '+') then t[1..] else t
  }

  /** `parseInt(s)` in base ten: leading white space is skipped, one sign
      is allowed, and the longest run of digits after it is read; None
      stands for NaN (no digit there). */
  function ParseInt(s: string): (r: Option<int>)
    ensures r.Some? <==> |Unsigned(s)| > 0 && IsDigit(Unsigned(s)[0])
    ensures r.Some? ==>
      var u := Unsigned(s);
      (if r.value < 0 then -r.value else r.value) == DigitsValue(u[..LeadingDigits(u)])
    ensures r.Some? ==>
      var t := TrimStart(s);
      (r.value < 0 ==> t[0] == '-') && (t[0] == '-' ==> r.value <= 0)
  {
    var t := TrimStart(s);
    var neg := |t| > 0 && t[0] == '-';
    var u := Unsigned(s);
    var k := LeadingDigits(u);
    var v: int := DigitsValue(u[..k]);
    if k == 0 then None else Some(if neg then -v else v)
  }

  /** `parseInt` reads a non-empty string of digits as its decimal value. */
  lemma ParseIntDigits(s: string)
    requires |s| > 0 && forall i :: 0 <= i < |s| ==> IsDigit(s[i])
    ensures ParseInt(s) == Some(DigitsValue(s))
  {
    UnsignedDigits(s);
    LeadingDigitsAll(s);
    assert s[..|s|] == s;
  }

  /** `parseInt` reads back every integer that `String` writes. */
  lemma ParseIntString(n: int)
    ensures ParseInt(IntString(n)) == Some(n)
  {
    var m := if n < 0 then -n else n;
    var ds := DecimalString(m);
    DecimalStringValue(m);
    ParseIntDigits(ds);
    if n < 0 {
      var s := "-" + ds;
      assert !IsWhitespace(s[0]);
      assert TrimStart(s) == s;
      assert Unsigned(s) == ds;
      LeadingDigitsAll(ds);
      assert ds[..|ds|] == ds;
    }
  }

  /** A string that starts with a digit has no white space or sign to skip. */
  lemma UnsignedDigits(s: string)
    requires |s| > 0 && IsDigit(s[0])
    ensures TrimStart(s) == s && Unsigned(s) == s
  {
    assert !IsWhitespace(s[0]);
  }

  lemma {:induction false} LeadingDigitsAll(s: string)
    requires forall i :: 0 <= i < |s| ==> IsDigit(s[i])
    ensures LeadingDigits(s) == |s|
    decreases |s|
  {
    if |s| > 0 {
      LeadingDigitsAll(s[1..]);
    }
  }
}
