/** String primitives of JavaScript that the contact form and the search box rely on:
    the white-space set shared by `\s` and `String.prototype.trim`, trimming,
    lower-casing, UTF-16 length and substring search. */
module Text {

  /** ECMAScript WhiteSpace and LineTerminator code points: exactly the characters
      matched by the regular-expression class `\s` and removed by `trim`. */
  predicate IsWs(c: char) {
    || c == '\t' || c == '\n' || c == '\U{000B}' || c == '\U{000C}' || c == '\r'
    || c == ' ' || c == '\U{00A0}' || c == '\U{1680}'
    || ('\U{2000}' <= c <= '\U{200A}')
    || c == '\U{2028}' || c == '\U{2029}' || c == '\U{202F}' || c == '\U{205F}'
    || c == '\U{3000}' || c == '\U{FEFF}'
  }

  predicate AllWs(s: string) {
    forall i :: 0 <= i < |s| ==> IsWs(s[i])
  }

  predicate NoWs(s: string) {
    forall i :: 0 <= i < |s| ==> !IsWs(s[i])
  }

  /** Drops the longest white-space prefix. */
  function TrimStart(s: string): (r: string)
    ensures |r| <= |s| && r == s[|s| - |r|..]
    ensures AllWs(s[..|s| - |r|])
    ensures r == [] || !IsWs(r[0])
  {
    if |s| > 0 && IsWs(s[0]) then
      var r := TrimStart(s[1..]);
      assert s[..|s| - |r|] == [s[0]] + s[1..][..|s| - 1 - |r|];
      r
    else
      s
  }

  /** Drops the longest white-space suffix. */
  function TrimEnd(s: string): (r: string)
    ensures |r| <= |s| && r == s[..|r|]
    ensures AllWs(s[|r|..])
    ensures r == [] || !IsWs(r[|r| - 1])
  {
    if |s| > 0 && IsWs(s[|s| - 1]) then
      var r := TrimEnd(s[..|s| - 1]);
      assert s[|r|..] == s[..|s| - 1][|r|..] + [s[|s| - 1]];
      r
    else
      s
  }

  /** `String.prototype.trim`. */
  function Trim(s: string): string {
    TrimEnd(TrimStart(s))
  }

  /** The trimmed string is the infix of `s` left after cutting white space from both ends,
      and it neither starts nor ends with white space. */
  lemma TrimBounds(s: string) returns (lo: nat, hi: nat)
    ensures lo <= hi <= |s| && Trim(s) == s[lo..hi]
    ensures AllWs(s[..lo]) && AllWs(s[hi..])
    ensures Trim(s) == [] || (!IsWs(Trim(s)[0]) && !IsWs(Trim(s)[|Trim(s)| - 1]))
  {
    var t := TrimStart(s);
    lo := |s| - |t|;
    hi := lo + |TrimEnd(t)|;
    assert t[|TrimEnd(t)|..] == s[hi..];
    if Trim(s) != [] {
      assert Trim(s)[0] == t[0];
    }
  }

  /** The trimmed string is empty exactly when the input is all white space
      (the test `value.trim() === ''`). */
  lemma TrimEmptyIffAllWs(s: string)
    ensures Trim(s) == [] <==> AllWs(s)
  {
    var lo, hi := TrimBounds(s);
    if Trim(s) == [] {
      assert s == s[..lo] + s[hi..];
      forall i | 0 <= i < |s| ensures IsWs(s[i]) {
        if i < lo { assert s[i] == s[..lo][i]; } else { assert s[i] == s[hi..][i - hi]; }
      }
    } else {
      assert s[lo] == Trim(s)[0];
    }
  }

  /** Trimming a string without white space changes nothing. */
  lemma TrimNoWs(s: string)
    requires NoWs(s)
    ensures Trim(s) == s
  {
  }

  /** ASCII lower-casing of one character (non-ASCII letters are left as they are). */
  function Lower(c: char): (r: char)
    ensures 'A' <= c <= 'Z' ==> r as int == c as int + 32
    ensures !('A' <= c <= 'Z') ==> r == c
  {
    if 'A' <= c <= 'Z' then (c as int + 32) as char else c
  }

  function LowerStr(s: string): (r: string)
    ensures |r| == |s|
    ensures forall i :: 0 <= i < |s| ==> r[i] == Lower(s[i])
  {
    seq(|s|, i requires 0 <= i < |s| => Lower(s[i]))
  }

  /** Lower-casing twice is lower-casing once. */
  lemma LowerStrIdempotent(s: string)
    ensures LowerStr(LowerStr(s)) == LowerStr(s)
  {
    assert forall i :: 0 <= i < |s| ==> Lower(Lower(s[i])) == Lower(s[i]);
  }

  /** `String.prototype.length`: code points above U+FFFF take two UTF-16 code units. */
  function Utf16Length(s: string): (n: nat)
    ensures |s| <= n <= 2 * |s|
  {
    if |s| == 0 then 0 else (if s[0] as int > 0xFFFF then 2 else 1) + Utf16Length(s[1..])
  }

  /** Lower-casing keeps the UTF-16 length, since it only maps ASCII letters to ASCII letters. */
  lemma {:induction false} LowerKeepsUtf16Length(s: string)
    ensures Utf16Length(LowerStr(s)) == Utf16Length(s)
  {
    if |s| > 0 {
      LowerKeepsUtf16Length(s[1..]);
      assert LowerStr(s)[1..] == LowerStr(s[1..]);
    }
  }

  /** `hay.includes(needle)`. */
  predicate Contains(hay: string, needle: string) {
    exists i | 0 <= i <= |hay| - |needle| :: OccursAt(hay, needle, i)
  }

  predicate OccursAt(hay: string, needle: string, i: int) {
    0 <= i <= |hay| - |needle| && hay[i..i + |needle|] == needle
  }

  /** Number of occurrences of `c` in `s`. */
  function Count(s: string, c: char): nat {
    if |s| == 0 then 0 else (if s[0] == c then 1 else 0) + Count(s[1..], c)
  }

  lemma {:induction false} CountAppend(a: string, b: string, c: char)
    ensures Count(a + b, c) == Count(a, c) + Count(b, c)
  {
    if |a| > 0 {
      assert (a + b)[1..] == a[1..] + b;
      CountAppend(a[1..], b, c);
    } else {
      assert a + b == b;
    }
  }

  /** `c` does not occur in `s` exactly when it is counted zero times. */
  lemma {:induction false} CountZero(s: string, c: char)
    ensures Count(s, c) == 0 <==> forall i :: 0 <= i < |s| ==> s[i] != c
  {
    if |s| > 0 {
      CountZero(s[1..], c);
      assert forall i :: 1 <= i < |s| ==> s[i] == s[1..][i - 1];
    }
  }

}
