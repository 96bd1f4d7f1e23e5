/**
 * The JavaScript string primitives the validators use: the whitespace class
 * `\s`, `String.prototype.trim`, `replace(/\s+/g, "")`, `toLowerCase` on the
 * characters a file extension can contain, `split(".").pop()` and `length`
 * counted in UTF-16 code units.
 */
module Text {

  /** ECMAScript WhiteSpace and LineTerminator code points: exactly what `\s`
      matches and what `trim` removes. All of them lie in the Basic
      Multilingual Plane, so one Dafny char is one code unit here. */
  predicate IsSpace(c: char) {
    || c == '\t' || c == '\n' || c == '\U{000B}' || c == '\U{000C}' || c == '\r'
    || c == ' ' || c == '\U{00A0}' || c == '\U{1680}'
    || ('\U{2000}' <= c <= '\U{200A}')
    || c == '\U{2028}' || c == '\U{2029}' || c == '\U{202F}' || c == '\U{205F}'
    || c == '\U{3000}' || c == '\U{FEFF}'
  }

  predicate IsAsciiLetter(c: char) {
    ('a' <= c <= 'z') || ('A' <= c <= 'Z')
  }

  /** The class `\d` without the `u` flag. */
  predicate IsDigit(c: char) {
    '0' <= c <= '9'
  }

  predicate NoSpace(s: string) {
    forall i :: 0 <= i < |s| ==> !IsSpace(s[i])
  }

  predicate AllSpace(s: string) {
    forall i :: 0 <= i < |s| ==> IsSpace(s[i])
  }

  /** Number of UTF-16 code units of one code point: JavaScript's `length`
      counts a code point above U+FFFF twice. */
  function CodeUnits(c: char): nat {
    if c as int > 0xFFFF then 2 else 1
  }

  /** JavaScript's `s.length`. */
  function Utf16Length(s: string): (n: nat)
    ensures |s| <= n <= 2 * |s|
  {
    if |s| == 0 then 0 else CodeUnits(s[0]) + Utf16Length(s[1..])
  }

  /** Below U+10000 every code point is one code unit. */
  lemma {:induction false} Utf16LengthOfBmp(s: string)
    requires forall i :: 0 <= i < |s| ==> s[i] as int <= 0xFFFF
    ensures Utf16Length(s) == |s|
  {
    if |s| > 0 {
      Utf16LengthOfBmp(s[1..]);
    }
  }

  /** `trimStart`: `s` without its leading whitespace. */
  function TrimStart(s: string): string {
    if |s| > 0 && IsSpace(s[0]) then TrimStart(s[1..]) else s
  }

  /** What `trimStart` leaves is a suffix that does not start with
      whitespace, and what it removes is all whitespace. */
  lemma {:induction false} TrimStartSpec(s: string)
    ensures var r := TrimStart(s);
      && |r| <= |s| && r == s[|s| - |r|..]
      && AllSpace(s[..|s| - |r|])
      && (|r| > 0 ==> !IsSpace(r[0]))
  {
    if |s| > 0 && IsSpace(s[0]) {
      TrimStartSpec(s[1..]);
    }
  }

  /** `trimEnd`: `s` without its trailing whitespace. */
  function TrimEnd(s: string): string {
    if |s| > 0 && IsSpace(s[|s| - 1]) then TrimEnd(s[..|s| - 1]) else s
  }

  /** What `trimEnd` leaves is a prefix that does not end with whitespace,
      and what it removes is all whitespace. */
  lemma {:induction false} TrimEndSpec(s: string)
    ensures var r := TrimEnd(s);
      && |r| <= |s| && r == s[..|r|]
      && AllSpace(s[|r|..])
      && (|r| > 0 ==> !IsSpace(r[|r| - 1]))
  {
    if |s| > 0 && IsSpace(s[|s| - 1]) {
      TrimEndSpec(s[..|s| - 1]);
    }
  }

  /** `String.prototype.trim`: `s` without its leading and trailing whitespace. */
  function Trim(s: string): string {
    TrimEnd(TrimStart(s))
  }

  /** `trim` removes whitespace only, and only from the two ends, and leaves
      no whitespace at either end. */
  lemma TrimSpec(s: string)
    ensures exists a, b :: 0 <= a <= b <= |s| && Trim(s) == s[a..b] && AllSpace(s[..a]) && AllSpace(s[b..])
    ensures var r := Trim(s); |r| > 0 ==> !IsSpace(r[0]) && !IsSpace(r[|r| - 1])
  {
    var t := TrimStart(s);
    var r := TrimEnd(t);
    TrimStartSpec(s);
    TrimEndSpec(t);
    var a := |s| - |t|;
    assert r == s[a..a + |r|];
    assert s[a + |r|..] == t[|r|..];
    if |r| > 0 {
      assert r[0] == t[0];
    }
  }

  /** A string that neither starts nor ends with whitespace is its own trim. */
  lemma TrimUntouched(s: string)
    requires |s| > 0 ==> !IsSpace(s[0]) && !IsSpace(s[|s| - 1])
    ensures Trim(s) == s
  {
  }

  /** `replace(/\s+/g, "")`: `s` with every whitespace character deleted. */
  function StripSpaces(s: string): (r: string)
    ensures NoSpace(r)
    ensures |r| <= |s|
  {
    if |s| == 0 then []
    else if IsSpace(s[0]) then StripSpaces(s[1..])
    else [s[0]] + StripSpaces(s[1..])
  }

  lemma {:induction false} StripSpacesAppend(a: string, b: string)
    ensures StripSpaces(a + b) == StripSpaces(a) + StripSpaces(b)
  {
    if |a| > 0 {
      assert (a + b)[1..] == a[1..] + b;
      StripSpacesAppend(a[1..], b);
    } else {
      assert a + b == b;
    }
  }

  lemma {:induction false} StripAllSpace(s: string)
    requires AllSpace(s)
    ensures StripSpaces(s) == []
  {
    if |s| > 0 {
      StripAllSpace(s[1..]);
    }
  }

  /** Trimming before deleting all whitespace changes nothing, so the phone
      normalisation `trim().replace(/\s+/g, "")` is `StripSpaces` alone. */
  lemma StripSpacesOfTrim(s: string)
    ensures StripSpaces(Trim(s)) == StripSpaces(s)
  {
    TrimSpec(s);
    var a, b :| 0 <= a <= b <= |s| && Trim(s) == s[a..b] && AllSpace(s[..a]) && AllSpace(s[b..]);
    StripSpacesOfSlices(s, a, b);
  }

  lemma StripSpacesOfSlices(s: string, a: nat, b: nat)
    requires a <= b <= |s| && AllSpace(s[..a]) && AllSpace(s[b..])
    ensures StripSpaces(s[a..b]) == StripSpaces(s)
  {
    var x, y, z := s[..a], s[a..b], s[b..];
    assert s == x + y + z;
    StripSpacesAppend(x + y, z);
    StripSpacesAppend(x, y);
    StripAllSpace(x);
    StripAllSpace(z);
  }

  /** A string without whitespace is left as it is. */
  lemma {:induction false} StripSpacesUntouched(s: string)
    requires NoSpace(s)
    ensures StripSpaces(s) == s
  {
    if |s| > 0 {
      StripSpacesUntouched(s[1..]);
    }
  }

  /** Deleting whitespace twice is deleting it once. */
  lemma StripSpacesIdempotent(s: string)
    ensures StripSpaces(StripSpaces(s)) == StripSpaces(s)
  {
    StripSpacesUntouched(StripSpaces(s));
  }

  /** ASCII `toLowerCase`. No code point outside ASCII lower-cases to one of
      the letters of "csv", "xls" or "xlsx", so for the extension check this
      agrees with JavaScript's full Unicode mapping. */
  function LowerChar(c: char): (d: char)
    ensures 'A' <= c <= 'Z' ==> d as int == c as int + 32
    ensures !('A' <= c <= 'Z') ==> d == c
  {
    if 'A' <= c <= 'Z' then (c as int + 32) as char else c
  }

  function ToLowerAscii(s: string): (r: string)
    ensures |r| == |s|
    ensures forall i :: 0 <= i < |s| ==> r[i] == LowerChar(s[i])
  {
    seq(|s|, i requires 0 <= i < |s| => LowerChar(s[i]))
  }

  /** Index of the last '.' in `s`, or -1 when there is none. */
  function LastDot(s: string): (k: int)
    ensures -1 <= k < |s|
    ensures k >= 0 ==> s[k] == '.'
    ensures forall j :: k < j < |s| ==> s[j] != '.'
  {
    if |s| == 0 then -1
    else if s[|s| - 1] == '.' then |s| - 1
    else LastDot(s[..|s| - 1])
  }

  /** The last dot is the only dot position with no dot after it. */
  lemma LastDotUnique(s: string, k: int)
    requires -1 <= k < |s|
    requires k >= 0 ==> s[k] == '.'
    requires forall j :: k < j < |s| ==> s[j] != '.'
    ensures LastDot(s) == k
  {
  }

  /** `s.split(".").pop()`: the text after the last '.', or all of `s` when it
      has no '.'. */
  function AfterLastDot(s: string): (r: string)
    ensures '.' !in r
    ensures |r| <= |s| && r == s[|s| - |r|..]
    ensures |r| < |s| ==> s[|s| - |r| - 1] == '.'
  {
    var r := s[LastDot(s) + 1..];
    assert forall i :: 0 <= i < |r| ==> r[i] == s[LastDot(s) + 1 + i];
    r
  }

  /** `s` is the extension `e` itself or ends in "." + `e`. */
  predicate EndsWithExtension(s: string, e: string) {
    s == e || (|s| > |e| && s[|s| - |e| - 1..] == "." + e)
  }

  /** The text after the last dot is `e` exactly when `s` is `e` or ends in
      "." + `e`. */
  lemma {:induction false} AfterLastDotIs(s: string, e: string)
    requires '.' !in e
    ensures AfterLastDot(s) == e <==> EndsWithExtension(s, e)
  {
    if s == e {
      LastDotUnique(s, -1);
    } else if |s| > |e| && s[|s| - |e| - 1..] == "." + e {
      var k := |s| - |e| - 1;
      assert s[k] == ("." + e)[0];
      forall j | k < j < |s|
        ensures s[j] != '.'
      {
        assert s[j] == ("." + e)[j - k];
        assert s[j] == e[j - k - 1];
      }
      LastDotUnique(s, k);
      assert s[k + 1..] == ("." + e)[1..];
    }
  }

  /** Lower-casing moves no dot, so it commutes with taking the text after
      the last dot. */
  lemma LowerAfterLastDot(s: string)
    ensures ToLowerAscii(AfterLastDot(s)) == AfterLastDot(ToLowerAscii(s))
  {
    var l := ToLowerAscii(s);
    LastDotUnique(l, LastDot(s));
  }
}
