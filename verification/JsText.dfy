/** The pieces of JavaScript string handling that several parts share. */
module JsText {

  /** White space and line terminators: `\s`, and what `trim` removes. */
  predicate IsSpace(c: char) {
    || c in "\t\n\r \U{000b}\U{000c}"
    || c in "\U{00a0}\U{1680}\U{2028}\U{2029}\U{202f}\U{205f}\U{3000}\U{feff}"
    || '\U{2000}' <= c <= '\U{200a}'
  }

  function TrimStart(s: string): (t: string)
    ensures t != "" ==> !IsSpace(t[0])
  {
    if s != "" && IsSpace(s[0]) then TrimStart(s[1..]) else s
  }

  function TrimEnd(s: string): (t: string)
    ensures t <= s
    ensures t != "" ==> !IsSpace(t[|t| - 1])
  {
    if s != "" && IsSpace(s[|s| - 1]) then TrimEnd(s[..|s| - 1]) else s
  }

  function Trim(s: string): string {
    TrimEnd(TrimStart(s))
  }

  /** The code points of ECMAScript's WhiteSpace and LineTerminator. */
  lemma {:induction false} SpaceExactly(c: char)
    ensures var n := c as int;
      IsSpace(c) <==> || 9 <= n <= 13 || n == 0x20 || n == 0xa0 || n == 0x1680 || 0x2000 <= n <= 0x200a
                      || n == 0x2028 || n == 0x2029 || n == 0x202f || n == 0x205f || n == 0x3000 || n == 0xfeff
  {
    var below := "\t\n\r \U{000b}\U{000c}";
    var above := "\U{00a0}\U{1680}\U{2028}\U{2029}\U{202f}\U{205f}\U{3000}\U{feff}";
    assert below[0] == 9 as char && below[1] == 10 as char && below[2] == 13 as char && below[3] == 32 as char
        && below[4] == 11 as char && below[5] == 12 as char;
    assert above[0] == 0xa0 as char && above[1] == 0x1680 as char && above[2] == 0x2028 as char
        && above[3] == 0x2029 as char && above[4] == 0x202f as char && above[5] == 0x205f as char
        && above[6] == 0x3000 as char && above[7] == 0xfeff as char;
  }

  /** Trimming leaves what stands between the first and the last character that are no white space. */
  lemma {:induction false} TrimExactly(s: string) returns (i: nat, j: nat)
    ensures i <= j <= |s| && Trim(s) == s[i..j]
    ensures forall k :: 0 <= k < i || j <= k < |s| ==> IsSpace(s[k])
    ensures i < j ==> !IsSpace(s[i]) && !IsSpace(s[j - 1])
  {
    i := StartTrimmed(s);
    var n := EndLeft(s[i..]);
    j := i + n;
    assert s[i..j] == s[i..][..n];
    forall k | j <= k < |s|
      ensures IsSpace(s[k])
    {
      assert s[i..][k - i] == s[k];
    }
  }

  lemma {:induction false} EndLeft(t: string) returns (n: nat)
    ensures n <= |t| && TrimEnd(t) == t[..n] && (forall k :: n <= k < |t| ==> IsSpace(t[k]))
    ensures n > 0 ==> !IsSpace(t[n - 1])
  {
    n := |TrimEnd(t)|;
    forall k | n <= k < |t|
      ensures IsSpace(t[k])
    {
      EndTrimmed(t, k);
    }
  }

  lemma {:induction false} StartTrimmed(s: string) returns (i: nat)
    ensures i <= |s| && TrimStart(s) == s[i..] && forall k :: 0 <= k < i ==> IsSpace(s[k])
  {
    i := 0;
    if s != "" && IsSpace(s[0]) {
      i := StartTrimmed(s[1..]);
      assert s[1..][i..] == s[i + 1..];
      forall k | 0 <= k < i + 1
        ensures IsSpace(s[k])
      {
        assert k > 0 ==> s[k] == s[1..][k - 1];
      }
      i := i + 1;
    }
  }

  lemma {:induction false} EndTrimmed(s: string, k: nat)
    requires |TrimEnd(s)| <= k < |s|
    ensures IsSpace(s[k])
    decreases |s|
  {
    if k < |s| - 1 {
      EndTrimmed(s[..|s| - 1], k);
    }
  }
}
