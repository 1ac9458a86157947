/** Character classes and string primitives the package borrows from Go's
    `strings` package, restricted to what sanitizing and key handling need. */
module Text {
  import opened Outcomes

  predicate IsAsciiUpper(c: char) { 'A' <= c <= 'Z' }
  predicate IsAsciiLower(c: char) { 'a' <= c <= 'z' }
  predicate IsDigit(c: char) { '0' <= c <= '9' }

  /** "A letter or number" in the sense of the sanitizer's comment: the result
      is lower-cased, so only lower-case letters occur. */
  predicate IsLowerAlnum(c: char) { IsAsciiLower(c) || IsDigit(c) }

  predicate IsAscii(c: char) { c as int < 0x80 }

  /** No ASCII upper-case letter anywhere in `s`. */
  predicate NoAsciiUpper(s: string) {
    forall i :: 0 <= i < |s| ==> !IsAsciiUpper(s[i])
  }

  predicate EndsWith(s: string, suffix: string) {
    |suffix| <= |s| && s[|s| - |suffix|..] == suffix
  }

  /** ASCII lower-casing of one character; every other character is kept. */
  function Lower(c: char): (d: char)
    ensures !IsAsciiUpper(d)
    ensures IsAsciiUpper(c) ==> IsAsciiLower(d) && d as int == c as int + 32
    ensures !IsAsciiUpper(c) ==> d == c
  {
    if IsAsciiUpper(c) then (c as int + 32) as char else c
  }

  /** strings.ToLower on the ASCII range. */
  function ToLower(s: string): (r: string)
    ensures |r| == |s|
    ensures NoAsciiUpper(r)
    ensures forall i :: 0 <= i < |s| ==> r[i] == Lower(s[i])
  {
    seq(|s|, i requires 0 <= i < |s| => Lower(s[i]))
  }

  /** Lower-casing leaves exactly the strings without upper-case letters alone. */
  lemma ToLowerFixedPoints(s: string)
    ensures ToLower(s) == s <==> NoAsciiUpper(s)
  {
    if NoAsciiUpper(s) {
      assert forall i :: 0 <= i < |s| ==> ToLower(s)[i] == s[i];
    } else {
      var i :| 0 <= i < |s| && IsAsciiUpper(s[i]);
      assert ToLower(s)[i] != s[i];
    }
  }

  /** Lower-casing commutes with taking a suffix. */
  lemma ToLowerSuffix(s: string, k: nat)
    requires k <= |s|
    ensures ToLower(s)[k..] == ToLower(s[k..])
  {
    var l := ToLower(s);
    var r := ToLower(s[k..]);
    assert |l[k..]| == |r|;
    forall j | 0 <= j < |r|
      ensures l[k..][j] == r[j]
    {
      assert l[k..][j] == l[k + j] == Lower(s[k + j]);
      assert s[k..][j] == s[k + j];
    }
  }

  /** strings.LastIndex(s, string(c)) for a single-character separator:
      None stands for Go's -1. */
  function LastIndexOf(s: string, c: char): (r: Option<nat>)
    ensures r.None? <==> c !in s
    ensures r.Some? ==> r.value < |s| && s[r.value] == c && c !in s[r.value + 1..]
  {
    if |s| == 0 then None
    else if s[|s| - 1] == c then Some(|s| - 1)
    else
      var r := LastIndexOf(s[..|s| - 1], c);
      assert s == s[..|s| - 1] + [s[|s| - 1]];
      assert r.Some? ==> s[r.value + 1..] == s[..|s| - 1][r.value + 1..] + [s[|s| - 1]];
      r
  }

  /** Any position holding `c` with no `c` after it is the last index. */
  lemma LastIndexUnique(s: string, c: char, i: nat)
    requires i < |s| && s[i] == c && c !in s[i + 1..]
    ensures LastIndexOf(s, c) == Some(i)
  {
    var j := LastIndexOf(s, c).value;
    assert forall k :: i < k < |s| ==> s[k] == s[i + 1..][k - i - 1];
    assert forall k :: j < k < |s| ==> s[k] == s[j + 1..][k - j - 1];
  }

  /** Number of bytes `c` takes in UTF-8, i.e. what Go's len counts. */
  function Utf8Width(c: char): (n: nat)
    ensures 1 <= n <= 4
    ensures n == 1 <==> IsAscii(c)
  {
    if c as int < 0x80 then 1
    else if c as int < 0x800 then 2
    else if c as int < 0x10000 then 3
    else 4
  }

  /** Go's len of a string: its UTF-8 byte count. */
  function Utf8Len(s: string): (n: nat)
    ensures n >= |s|
  {
    if s == [] then 0 else Utf8Width(s[0]) + Utf8Len(s[1..])
  }

  lemma {:induction false} Utf8LenAppend(a: string, b: string)
    ensures Utf8Len(a + b) == Utf8Len(a) + Utf8Len(b)
    decreases |a|
  {
    if a != [] {
      assert (a + b)[1..] == a[1..] + b;
      Utf8LenAppend(a[1..], b);
    } else {
      assert a + b == b;
    }
  }

  /** On ASCII text Go's byte length is the character count. */
  lemma {:induction false} Utf8LenAscii(s: string)
    requires forall i :: 0 <= i < |s| ==> IsAscii(s[i])
    ensures Utf8Len(s) == |s|
    decreases |s|
  {
    if s != [] {
      Utf8LenAscii(s[1..]);
    }
  }
}
