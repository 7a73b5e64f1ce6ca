/** Character-level string helpers: searching, ASCII case folding, prefixes. */
module Strings {
  import opened Wrappers

  /** The first position of `ch` in `s` (`str.find`). */
  function IndexOf(s: string, ch: char): (r: Option<nat>)
    ensures r.Some? ==> r.value < |s| && s[r.value] == ch && ch !in s[..r.value]
    ensures r.None? ==> ch !in s
    decreases |s|
  {
    if |s| == 0 then None
    else if s[0] == ch then Some(0)
    else
      match IndexOf(s[1..], ch)
      case None => None
      case Some(i) =>
        assert s[..i + 1] == [s[0]] + s[1..][..i];
        Some(i + 1)
  }

  /** The last position of `ch` in `s` (`str.rfind`). */
  function LastIndexOf(s: string, ch: char): (r: Option<nat>)
    ensures r.Some? ==> r.value < |s| && s[r.value] == ch && ch !in s[r.value + 1..]
    ensures r.None? ==> ch !in s
    decreases |s|
  {
    if |s| == 0 then None
    else if s[|s| - 1] == ch then Some(|s| - 1)
    else
      match LastIndexOf(s[..|s| - 1], ch)
      case None => None
      case Some(i) =>
        assert s[i + 1..] == s[..|s| - 1][i + 1..] + [s[|s| - 1]];
        Some(i)
  }

  /** The position found by `LastIndexOf` is the only one it can be. */
  lemma LastIndexOfUnique(s: string, ch: char, i: nat)
    requires i < |s| && s[i] == ch && ch !in s[i + 1..]
    ensures LastIndexOf(s, ch) == Some(i)
  {
    assert s[i] in s;
  }

  /** ASCII lower-casing of one character (`str.lower` on ASCII letters). */
  function LowerChar(ch: char): char {
    if 'A' <= ch <= 'Z' then (ch as int + 32) as char else ch
  }

  /** ASCII lower-casing of a string, character by character. */
  function LowerAscii(s: string): (r: string)
    ensures |r| == |s|
    ensures forall i :: 0 <= i < |s| ==> r[i] == LowerChar(s[i])
  {
    seq(|s|, i requires 0 <= i < |s| => LowerChar(s[i]))
  }

  /** Lower-casing maps a character to `ch` exactly when it already was `ch`,
      for every character that is not an upper- or lower-case ASCII letter. */
  lemma LowerCharKeepsNonLetters(c: char, ch: char)
    requires !('A' <= ch <= 'Z') && !('a' <= ch <= 'z')
    ensures LowerChar(c) == ch <==> c == ch
  {
  }

  /** Lower-casing commutes with slicing. */
  lemma LowerAsciiSlice(s: string, i: nat, j: nat)
    requires i <= j <= |s|
    ensures LowerAscii(s[i..j]) == LowerAscii(s)[i..j]
  {
  }

  /** Lower-casing twice is lower-casing once. */
  lemma LowerAsciiIdempotent(s: string)
    ensures LowerAscii(LowerAscii(s)) == LowerAscii(s)
  {
  }

  /** Searching for a separator that is not a letter gives the same answer
      before and after lower-casing. */
  lemma LastIndexOfLower(s: string, ch: char)
    requires !('A' <= ch <= 'Z') && !('a' <= ch <= 'z')
    ensures LastIndexOf(LowerAscii(s), ch) == LastIndexOf(s, ch)
  {
    var l := LowerAscii(s);
    forall c | true
      ensures LowerChar(c) == ch <==> c == ch
    {
      LowerCharKeepsNonLetters(c, ch);
    }
    match LastIndexOf(s, ch)
    case Some(i) =>
      assert ch !in l[i + 1..] by {
        forall k | i + 1 <= k < |s|
          ensures l[k] != ch
        {
          assert s[k] in s[i + 1..] by {
            assert s[i + 1..][k - i - 1] == s[k];
          }
        }
      }
      LastIndexOfUnique(l, ch, i);
    case None =>
      assert ch !in l by {
        forall k | 0 <= k < |s|
          ensures l[k] != ch
        {
          assert s[k] in s;
        }
      }
  }

  predicate StartsWith(s: string, prefix: string) {
    |prefix| <= |s| && s[..|prefix|] == prefix
  }

  predicate EndsWith(s: string, suffix: string) {
    |suffix| <= |s| && s[|s| - |suffix|..] == suffix
  }
}
