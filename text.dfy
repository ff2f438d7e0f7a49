/**
 * Text primitives used by the validator, the SQL filter and the client filter:
 * whitespace classes, trimming, ASCII lower-casing, substring search,
 * splitting on a separator and decimal digit strings.
 */
module Text {
  import opened Wrappers

  /** Python's `str.isspace` (the characters `str.strip()` removes), by code point. */
  predicate PyIsSpace(c: char) {
    var n := c as int;
    (0x09 <= n <= 0x0d) || (0x1c <= n <= 0x20) || n == 0x85 || n == 0xa0 || n == 0x1680 ||
    (0x2000 <= n <= 0x200a) || n == 0x2028 || n == 0x2029 || n == 0x202f || n == 0x205f ||
    n == 0x3000
  }

  /** The white space and line terminators that JavaScript's `String.prototype.trim` removes. */
  predicate JsIsSpace(c: char) {
    var n := c as int;
    (0x09 <= n <= 0x0d) || n == 0x20 || n == 0xa0 || n == 0x1680 || (0x2000 <= n <= 0x200a) ||
    n == 0x2028 || n == 0x2029 || n == 0x202f || n == 0x205f || n == 0x3000 || n == 0xfeff
  }

  ghost predicate AllBy(s: string, isSpace: char -> bool) {
    forall i :: 0 <= i < |s| ==> isSpace(s[i])
  }

  /** Number of leading characters of `s` that satisfy `isSpace`. */
  function LeadingBy(s: string, isSpace: char -> bool): (n: nat)
    ensures n <= |s|
    ensures AllBy(s[..n], isSpace)
    ensures n < |s| ==> !isSpace(s[n])
  {
    if s == [] || !isSpace(s[0]) then 0
    else
      var n := 1 + LeadingBy(s[1..], isSpace);
      assert forall i :: 1 <= i < n ==> s[..n][i] == s[1..][..n - 1][i - 1];
      n
  }

  /** Number of trailing characters of `s` that satisfy `isSpace`. */
  function TrailingBy(s: string, isSpace: char -> bool): (n: nat)
    ensures n <= |s|
    ensures AllBy(s[|s| - n..], isSpace)
    ensures n < |s| ==> !isSpace(s[|s| - 1 - n])
  {
    if s == [] || !isSpace(s[|s| - 1]) then 0
    else
      var t := s[..|s| - 1];
      var n := 1 + TrailingBy(t, isSpace);
      assert s[|s| - n..] == t[|t| - (n - 1)..] + [s[|s| - 1]];
      n
  }

  /** `r` is the slice of `s` at `i`, with only spaces before and after it. */
  ghost predicate TrimmedAt(s: string, r: string, i: int, isSpace: char -> bool) {
    0 <= i <= |s| - |r| && s[i..i + |r|] == r && AllBy(s[..i], isSpace) && AllBy(s[i + |r|..], isSpace)
  }

  /**
   * Removes leading and trailing characters satisfying `isSpace`. The result is the
   * slice of `s` between a run of spaces on each side, and it neither starts nor ends
   * with a space.
   */
  function TrimBy(s: string, isSpace: char -> bool): (r: string)
    ensures r == [] || (!isSpace(r[0]) && !isSpace(r[|r| - 1]))
    ensures exists i :: TrimmedAt(s, r, i, isSpace)
  {
    var i := LeadingBy(s, isSpace);
    if i == |s| then
      assert s[..0] == [] && s[0..] == s;
      assert TrimmedAt(s, [], 0, isSpace);
      []
    else
      var t := TrailingBy(s, isSpace);
      assert !isSpace(s[i]);
      assert forall k :: |s| - t <= k < |s| ==> isSpace(s[k]) by {
        forall k | |s| - t <= k < |s| ensures isSpace(s[k]) { assert s[|s| - t..][k - (|s| - t)] == s[k]; }
      }
      var j := |s| - t;
      assert TrimmedAt(s, s[i..j], i, isSpace);
      s[i..j]
  }

  /** Python `str.strip()` with no argument. */
  function PyStrip(s: string): (r: string)
    ensures |r| <= |s|
    ensures r == [] || (!PyIsSpace(r[0]) && !PyIsSpace(r[|r| - 1]))
  {
    TrimBy(s, PyIsSpace)
  }

  /** JavaScript `String.prototype.trim()`. */
  function JsTrim(s: string): (r: string)
    ensures |r| <= |s|
    ensures r == [] || (!JsIsSpace(r[0]) && !JsIsSpace(r[|r| - 1]))
  {
    TrimBy(s, JsIsSpace)
  }

  /** A trimmed string is empty exactly when every character is a space. */
  lemma TrimEmptyIff(s: string, isSpace: char -> bool)
    ensures TrimBy(s, isSpace) == [] <==> AllBy(s, isSpace)
  {
    var r := TrimBy(s, isSpace);
    var i :| TrimmedAt(s, r, i, isSpace);
    if r == [] {
      forall k | 0 <= k < |s| ensures isSpace(s[k]) {
        if k < i { assert s[..i][k] == s[k]; } else { assert s[i..][k - i] == s[k]; }
      }
    } else {
      assert s[i] == r[0];
    }
  }

  /** Trimming is idempotent: a trimmed string has nothing more to trim. */
  lemma TrimIdempotent(s: string, isSpace: char -> bool)
    ensures TrimBy(TrimBy(s, isSpace), isSpace) == TrimBy(s, isSpace)
  {
    var r := TrimBy(s, isSpace);
    var l := LeadingBy(r, isSpace);
    if r != [] {
      assert l == 0;
      var t := TrailingBy(r, isSpace);
      assert t == 0;
      assert r[0..|r|] == r;
    }
  }

  /** ASCII lower-casing of one character (other characters are left as they are). */
  function LowerChar(c: char): char {
    if 'A' <= c <= 'Z' then (c as int - 'A' as int + 'a' as int) as char else c
  }

  /** Lower-cases `s` character by character. */
  function Lower(s: string): (r: string)
    ensures |r| == |s|
    ensures forall i :: 0 <= i < |s| ==> r[i] == LowerChar(s[i])
  {
    if s == [] then [] else [LowerChar(s[0])] + Lower(s[1..])
  }

  /** `t` occurs in `s` as a contiguous block starting at `i`. */
  ghost predicate OccursAt(s: string, t: string, i: int) {
    0 <= i <= |s| - |t| && s[i..i + |t|] == t
  }

  /** Substring search (`str.includes`, SQL `LIKE '%t%'` without wildcards). */
  function Contains(s: string, t: string): (r: bool)
    ensures r ==> |t| <= |s|
    ensures t == [] ==> r
  {
    if |t| > |s| then false
    else if s[..|t|] == t then true
    else Contains(s[1..], t)
  }

  /** `Contains` finds `t` exactly when `t` occurs somewhere in `s`. */
  lemma {:induction false} ContainsIff(s: string, t: string)
    ensures Contains(s, t) <==> exists i :: OccursAt(s, t, i)
  {
    if |t| > |s| {
    } else if s[..|t|] == t {
      assert OccursAt(s, t, 0);
    } else {
      ContainsIff(s[1..], t);
      ContainsShift(s, t);
    }
  }

  /** When `t` is not a prefix of `s`, it occurs in `s` iff it occurs in `s[1..]`. */
  lemma ContainsShift(s: string, t: string)
    requires |t| <= |s| && s[..|t|] != t
    ensures (exists i :: OccursAt(s, t, i)) <==> (exists i :: OccursAt(s[1..], t, i))
  {
    if exists i :: OccursAt(s, t, i) {
      var i :| OccursAt(s, t, i);
      assert i != 0;
      assert s[1..][i - 1..i - 1 + |t|] == s[i..i + |t|];
      assert OccursAt(s[1..], t, i - 1);
    }
    if exists i :: OccursAt(s[1..], t, i) {
      var i :| OccursAt(s[1..], t, i);
      assert s[1..][i..i + |t|] == s[i + 1..i + 1 + |t|];
      assert OccursAt(s, t, i + 1);
    }
  }

  /** Joins `parts` with the separator `sep` between consecutive parts. */
  function Join(parts: seq<string>, sep: char): string
    requires |parts| >= 1
  {
    if |parts| == 1 then parts[0] else parts[0] + [sep] + Join(parts[1..], sep)
  }

  /**
   * Python `s.split(sep)` for a one-character separator: the pieces between
   * separators, always at least one. Joining them back gives `s`, and no piece
   * holds the separator.
   */
  function Split(s: string, sep: char): (parts: seq<string>)
    ensures |parts| >= 1
    ensures Join(parts, sep) == s
    ensures forall i :: 0 <= i < |parts| ==> sep !in parts[i]
  {
    if s == [] then [[]]
    else
      var rest := Split(s[1..], sep);
      if s[0] == sep then [[]] + rest
      else
        var parts := [[s[0]] + rest[0]] + rest[1..];
        assert parts[1..] == rest[1..];
        parts
  }

  /** Splitting the join of separator-free parts gives the parts back. */
  lemma {:induction false} SplitJoin(parts: seq<string>, sep: char)
    requires |parts| >= 1
    requires forall i :: 0 <= i < |parts| ==> sep !in parts[i]
    ensures Split(Join(parts, sep), sep) == parts
  {
    if |parts| == 1 {
      SplitNoSep(parts[0], sep);
    } else {
      SplitJoin(parts[1..], sep);
      SplitPrefix(parts[0], Join(parts[1..], sep), sep);
      assert [parts[0]] + parts[1..] == parts;
    }
  }

  lemma {:induction false} SplitNoSep(s: string, sep: char)
    requires sep !in s
    ensures Split(s, sep) == [s]
  {
    if s != [] {
      assert sep !in s[1..] by { assert forall k :: 0 <= k < |s[1..]| ==> s[1..][k] == s[k + 1]; }
      SplitNoSep(s[1..], sep);
    }
  }

  lemma {:induction false} SplitPrefix(p: string, rest: string, sep: char)
    requires sep !in p
    ensures Split(p + [sep] + rest, sep) == [p] + Split(rest, sep)
  {
    var s := p + [sep] + rest;
    if p == [] {
      assert s[0] == sep && s[1..] == rest;
    } else {
      assert s[0] == p[0] && s[1..] == p[1..] + [sep] + rest;
      assert sep !in p[1..] by { assert forall k :: 0 <= k < |p[1..]| ==> p[1..][k] == p[k + 1]; }
      SplitPrefix(p[1..], rest, sep);
      var r1 := Split(s[1..], sep);
      assert r1[0] == p[1..] && r1[1..] == Split(rest, sep);
      assert [p[0]] + p[1..] == p;
    }
  }

  predicate IsDigit(c: char) { '0' <= c <= '9' }

  predicate AllDigits(s: string) { forall i :: 0 <= i < |s| ==> IsDigit(s[i]) }

  /** The number a string of decimal digits denotes (most significant digit first). */
  function DigitsValue(s: string): (n: nat)
    requires AllDigits(s)
  {
    if s == [] then 0
    else DigitsValue(s[..|s| - 1]) * 10 + (s[|s| - 1] as int - '0' as int)
  }

  function Pow10(n: nat): (p: nat)
    ensures p >= 1
  {
    if n == 0 then 1 else 10 * Pow10(n - 1)
  }

  /** The value of a concatenation of digit strings is positional. */
  lemma {:induction false} DigitsValueAppend(a: string, b: string)
    requires AllDigits(a) && AllDigits(b)
    ensures AllDigits(a + b)
    ensures DigitsValue(a + b) == DigitsValue(a) * Pow10(|b|) + DigitsValue(b)
  {
    if b == [] {
      assert a + b == a;
    } else {
      var b' := b[..|b| - 1];
      var d := b[|b| - 1] as int - '0' as int;
      assert (a + b)[..|a + b| - 1] == a + b';
      assert (a + b)[|a + b| - 1] == b[|b| - 1];
      DigitsValueAppend(a, b');
      Distribute(DigitsValue(a), DigitsValue(b'), Pow10(|b'|), d);
    }
  }

  lemma Distribute(x: int, y: int, p: int, d: int)
    ensures (x * p + y) * 10 + d == x * (p * 10) + (y * 10 + d)
  {
  }

  /** Decimal digits of `n`, without leading zeros ("0" for zero). */
  function NatDigits(n: nat): (s: string)
    ensures |s| >= 1 && AllDigits(s) && DigitsValue(s) == n
    ensures n < 10 <==> |s| == 1
  {
    if n < 10 then [('0' as int + n) as char]
    else
      var s := NatDigits(n / 10) + [('0' as int + n % 10) as char];
      assert s[..|s| - 1] == NatDigits(n / 10);
      s
  }

  function Zeros(k: nat): (s: string)
    ensures |s| == k && AllDigits(s) && DigitsValue(s) == 0
  {
    if k == 0 then []
    else
      var s := Zeros(k - 1) + ['0'];
      assert s[..|s| - 1] == Zeros(k - 1);
      s
  }

  /** `n` in decimal, left-padded with zeros to at least `width` digits (`%0<width>d`). */
  function ZeroPad(n: nat, width: nat): (s: string)
    ensures AllDigits(s) && DigitsValue(s) == n
    ensures |s| >= 1 && |s| >= width
    ensures n < Pow10(width) && width >= 1 ==> |s| == width
  {
    var d := NatDigits(n);
    var z := if |d| < width then Zeros(width - |d|) else [];
    PadValue(z, d);
    DigitsBound(n, width);
    z + d
  }

  /** Leading zeros do not change the value of a digit string. */
  lemma PadValue(z: string, d: string)
    requires AllDigits(z) && DigitsValue(z) == 0 && AllDigits(d)
    ensures AllDigits(z + d) && DigitsValue(z + d) == DigitsValue(d)
  {
    DigitsValueAppend(z, d);
    assert DigitsValue(z) * Pow10(|d|) == 0;
  }

  lemma {:induction false} DigitsBound(n: nat, width: nat)
    ensures n < Pow10(width) && width >= 1 ==> |NatDigits(n)| <= width
  {
    if n < Pow10(width) && width >= 1 {
      DigitsBoundAt(n, width);
    }
  }

  lemma {:induction false} DigitsBoundAt(n: nat, width: nat)
    requires n < Pow10(width) && width >= 1
    ensures |NatDigits(n)| <= width
  {
    if n >= 10 {
      assert width >= 2;
      assert n / 10 < Pow10(width - 1);
      DigitsBoundAt(n / 10, width - 1);
    }
  }

  /** An optional `+` or `-` followed by at least one ASCII digit. */
  ghost predicate IsIntLiteral(t: string) {
    exists sign, digits :: t == sign + digits && |sign| <= 1 && (sign == [] || sign[0] in "+-") &&
                           digits != [] && AllDigits(digits)
  }

  /** Reads `t` whole as an optionally signed decimal integer, with no surrounding space. */
  function SignedDigits(t: string): Option<int>
  {
    var sign := if t != [] && t[0] in "+-" then t[..1] else [];
    var digits := t[|sign|..];
    if digits != [] && AllDigits(digits) then
      var v: int := DigitsValue(digits);
      Some(if sign == "-" then -v else v)
    else
      None
  }

  /** `SignedDigits` accepts exactly the integer literals. */
  lemma SignedDigitsIff(t: string)
    ensures SignedDigits(t).Some? <==> IsIntLiteral(t)
  {
    var sign := if t != [] && t[0] in "+-" then t[..1] else [];
    var digits := t[|sign|..];
    assert t == sign + digits;
    if digits != [] && AllDigits(digits) {
      assert sign == [] || sign[0] in "+-";
    } else {
      SignedDigitsReject(t, sign, digits);
    }
  }

  lemma SignedDigitsReject(t: string, sign: string, digits: string)
    requires sign == (if t != [] && t[0] in "+-" then t[..1] else [])
    requires digits == t[|sign|..]
    requires !(digits != [] && AllDigits(digits))
    ensures !IsIntLiteral(t)
  {
  }

  /** An unsigned digit string reads back as its value. */
  lemma SignedDigitsOfDigits(s: string)
    requires |s| >= 1 && AllDigits(s)
    ensures SignedDigits(s) == Some(DigitsValue(s))
  {
    assert !(s[0] in "+-") by { assert IsDigit(s[0]); }
    assert s[0..] == s;
  }

  /**
   * Python `int(s)` on a `str`: surrounding white space, one optional sign and at least
   * one ASCII digit; anything else raises `ValueError`, modelled as `None`.
   */
  function ParseInt(s: string): (r: Option<int>)
    ensures r.Some? ==> PyStrip(s) != []
  {
    SignedDigits(PyStrip(s))
  }

  /** `int(s)` succeeds exactly when the stripped text is an integer literal. */
  lemma ParseIntIff(s: string)
    ensures ParseInt(s).Some? <==> IsIntLiteral(PyStrip(s))
  {
    SignedDigitsIff(PyStrip(s));
  }

  /** Python `int` reads back a zero-padded decimal. */
  lemma ParseIntZeroPad(n: nat, width: nat)
    ensures ParseInt(ZeroPad(n, width)) == Some(n)
  {
    var s := ZeroPad(n, width);
    assert IsDigit(s[0]) && IsDigit(s[|s| - 1]);
    NoSpaceEnds(s);
    SignedDigitsOfDigits(s);
  }

  /** A string that neither starts nor ends with white space is its own `strip()`. */
  lemma NoSpaceEnds(s: string)
    requires |s| >= 1 && !PyIsSpace(s[0]) && !PyIsSpace(s[|s| - 1])
    ensures PyStrip(s) == s
  {
    var r := PyStrip(s);
    var i :| TrimmedAt(s, r, i, PyIsSpace);
    assert s[0..|s|] == s;
  }
}
