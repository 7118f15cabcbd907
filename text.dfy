/** The string operations the grab relies on: white space, Trim and the line terminator. */
module Text {

  /** What StringBuilder.AppendLine appends: Environment.NewLine on Windows. */
  const NewLine: string := "\r\n"

  /** char.IsWhiteSpace: the characters Unicode marks White_Space. */
  predicate IsWhiteSpace(c: char) {
    var n := c as int;
    (0x09 <= n <= 0x0D) || n == 0x20 || n == 0x85 || n == 0xA0 || n == 0x1680
    || (0x2000 <= n <= 0x200A) || n == 0x2028 || n == 0x2029 || n == 0x202F
    || n == 0x205F || n == 0x3000
  }

  /** string.IsNullOrWhiteSpace of a non-null string (true of the empty string). */
  predicate AllWhiteSpace(s: string) {
    forall i :: 0 <= i < |s| ==> IsWhiteSpace(s[i])
  }

  /** Every character of s from index lo up to (not including) hi is white space. */
  predicate WhiteSpaceBetween(s: string, lo: int, hi: int)
    requires 0 <= lo <= hi <= |s|
  {
    forall i :: lo <= i < hi ==> IsWhiteSpace(s[i])
  }

  /** Neither starts nor ends with white space. */
  predicate IsTrimmed(s: string) {
    s == [] || (!IsWhiteSpace(s[0]) && !IsWhiteSpace(s[|s| - 1]))
  }

  /** Trim's forward scan: the first index at or after i that does not hold white space, or |s|. */
  function FirstNonWhiteSpace(s: string, i: nat): (j: nat)
    requires i <= |s|
    ensures i <= j <= |s| && WhiteSpaceBetween(s, i, j)
    ensures j < |s| ==> !IsWhiteSpace(s[j])
    decreases |s| - i
  {
    if i < |s| && IsWhiteSpace(s[i]) then FirstNonWhiteSpace(s, i + 1) else i
  }

  /**
   * Trim's backward scan from e, never going below lo: the end of the last character
   * before e that is not white space, or lo.
   */
  function EndOfNonWhiteSpace(s: string, lo: nat, e: nat): (j: nat)
    requires lo <= e <= |s|
    ensures lo <= j <= e && WhiteSpaceBetween(s, j, e)
    ensures j > lo ==> !IsWhiteSpace(s[j - 1])
    decreases e
  {
    if e > lo && IsWhiteSpace(s[e - 1]) then EndOfNonWhiteSpace(s, lo, e - 1) else e
  }

  /**
   * string.Trim(): the characters between the two scans. The result is empty exactly
   * when s is blank, and otherwise starts and ends with a character that is not white space.
   */
  function Trim(s: string): (r: string)
    ensures r == [] <==> AllWhiteSpace(s)
    ensures IsTrimmed(r)
  {
    var a := FirstNonWhiteSpace(s, 0);
    var b := EndOfNonWhiteSpace(s, a, |s|);
    assert b == a ==> a == |s|;
    s[a..b]
  }

  /**
   * Trim is the one slice of s that is trimmed and has only white space before and after
   * it in s: any such slice is what Trim returns.
   */
  lemma TrimIsTheTrimmedMiddle(s: string, a: int, b: int)
    requires 0 <= a <= b <= |s|
    requires WhiteSpaceBetween(s, 0, a) && WhiteSpaceBetween(s, b, |s|)
    requires IsTrimmed(s[a..b])
    ensures Trim(s) == s[a..b]
  {
    var a' := FirstNonWhiteSpace(s, 0);
    if a < b {
      assert s[a] == s[a..b][0] && s[b - 1] == s[a..b][b - a - 1];
      assert !IsWhiteSpace(s[a]) && !IsWhiteSpace(s[b - 1]);
      assert a' == a;
      var b' := EndOfNonWhiteSpace(s, a, |s|);
      assert b' == b;
    } else {
      assert AllWhiteSpace(s) by {
        forall i | 0 <= i < |s| ensures IsWhiteSpace(s[i]) {
          if i >= a {
            assert b <= i < |s|;
          }
        }
      }
    }
  }

  /** A string that neither starts nor ends with white space survives Trim even when white space follows it. */
  lemma TrimDropsWhiteSpaceTail(s: string, w: string)
    requires IsTrimmed(s)
    requires AllWhiteSpace(w)
    ensures Trim(s + w) == s
  {
    var t := s + w;
    assert t[..|s|] == s;
    assert WhiteSpaceBetween(t, |s|, |t|) by {
      forall i | |s| <= i < |t| ensures IsWhiteSpace(t[i]) {
        assert t[i] == w[i - |s|];
      }
    }
    TrimIsTheTrimmedMiddle(t, 0, |s|);
  }
}
