/**
  The string primitives the spreadsheet viewer relies on: lower-casing,
  substring containment (`includes` / `indexOf(q) !== -1`), `trim` and
  `Array.prototype.indexOf` on a header row.

  Lower-casing is ASCII-only: it keeps the length of a string, which is what
  the filter and highlight code implicitly assume.
*/
module Text {
  import opened Common

  /** 'A'..'Z' become 'a'..'z'; every other character is left alone. */
  function LowerChar(c: char): char {
    if 'A' <= c <= 'Z' then (c as int + 32) as char else c
  }

  function Lower(s: string): (r: string)
    ensures |r| == |s|
  {
    seq(|s|, i requires 0 <= i < |s| => LowerChar(s[i]))
  }

  /** `p` occurs in `t` starting at index `i`. */
  predicate OccursAt(t: string, p: string, i: int) {
    0 <= i && i + |p| <= |t| && t[i..i + |p|] == p
  }

  /** JavaScript's `t.includes(p)`, equivalently `t.indexOf(p) !== -1`. */
  predicate Contains(t: string, p: string) {
    exists i | 0 <= i <= |t| - |p| :: OccursAt(t, p, i)
  }

  /** The characters `String.prototype.trim` removes: ECMAScript WhiteSpace and LineTerminator. */
  predicate IsSpace(c: char) {
    || c == ' ' || c == '\t' || c == '\n' || c == '\r'
    || c == '\U{000B}' || c == '\U{000C}' || c == '\U{00A0}' || c == '\U{FEFF}'
    || c == '\U{1680}' || ('\U{2000}' <= c <= '\U{200A}')
    || c == '\U{2028}' || c == '\U{2029}' || c == '\U{202F}' || c == '\U{205F}' || c == '\U{3000}'
  }

  function TrimStart(s: string): (r: string)
    ensures |r| <= |s| && r == s[|s| - |r|..]
    ensures forall i :: 0 <= i < |s| - |r| ==> IsSpace(s[i])
    ensures r != "" ==> !IsSpace(r[0])
  {
    if s != "" && IsSpace(s[0]) then
      var r := TrimStart(s[1..]);
      assert s[1..][|s| - 1 - |r|..] == s[|s| - |r|..];
      assert forall i :: 1 <= i < |s| ==> s[1..][i - 1] == s[i];
      r
    else s
  }

  function TrimEnd(s: string): (r: string)
    ensures |r| <= |s| && r == s[..|r|]
    ensures forall i :: |r| <= i < |s| ==> IsSpace(s[i])
    ensures r != "" ==> !IsSpace(r[|r| - 1])
  {
    if s != "" && IsSpace(s[|s| - 1]) then TrimEnd(s[..|s| - 1]) else s
  }

  /** `r` is `s[i..j]` with only white space before `i` and from `j` on. */
  predicate TrimmedTo(s: string, r: string, i: int, j: int) {
    && 0 <= i <= j <= |s| && r == s[i..j]
    && (forall k :: 0 <= k < i ==> IsSpace(s[k]))
    && (forall k :: j <= k < |s| ==> IsSpace(s[k]))
  }

  /** `s.trim()`: `s` without its leading and trailing white space, that is
      the piece of `s` between white space that neither starts nor ends with
      white space. */
  function Trim(s: string): (r: string)
    ensures exists i, j :: TrimmedTo(s, r, i, j)
    ensures r != "" ==> !IsSpace(r[0]) && !IsSpace(r[|r| - 1])
  {
    var t := TrimStart(s);
    var r := TrimEnd(t);
    TrimSpan(s, t, r);
    assert r != "" ==> r[0] == t[0];
    r
  }

  /** Trimming both ends leaves `s[i..j]` for the `i` where the leading white
      space ends and the `j` where the trailing white space starts. */
  lemma TrimSpan(s: string, t: string, r: string)
    requires t == TrimStart(s) && r == TrimEnd(t)
    ensures TrimmedTo(s, r, |s| - |t|, |s| - |t| + |r|)
  {
    SuffixThenPrefix(s, t, r);
  }

  /** A prefix `r` of a suffix `t` of `s`, with white space cut on both sides. */
  lemma SuffixThenPrefix(s: string, t: string, r: string)
    requires |t| <= |s| && t == s[|s| - |t|..] && forall k :: 0 <= k < |s| - |t| ==> IsSpace(s[k])
    requires |r| <= |t| && r == t[..|r|] && forall k :: |r| <= k < |t| ==> IsSpace(t[k])
    ensures TrimmedTo(s, r, |s| - |t|, |s| - |t| + |r|)
  {
    var i := |s| - |t|;
    forall k | i + |r| <= k < |s| ensures IsSpace(s[k]) {
      assert s[k] == t[k - i];
    }
    SliceOfSuffix(s, i, 0, |r|);
  }

  /** `trim()` gives the empty string exactly for input that is white space
      throughout, and otherwise a piece that occurs in the input. */
  lemma TrimBlank(s: string)
    ensures Trim(s) == "" <==> forall k :: 0 <= k < |s| ==> IsSpace(s[k])
    ensures Contains(s, Trim(s))
  {
    var r := Trim(s);
    var i, j :| TrimmedTo(s, r, i, j);
    assert OccursAt(s, r, i);
    if r != "" {
      assert r[0] == s[i];
    } else {
      forall k | 0 <= k < |s| ensures IsSpace(s[k]) {
        assert k < i || j <= k;
      }
    }
  }

  /** `xs.indexOf(x)`: the first position holding `x`, or -1 when there is none. */
  function IndexOf(xs: seq<string>, x: string): (r: int)
    ensures -1 <= r < |xs|
    ensures r == -1 <==> x !in xs
    ensures 0 <= r ==> xs[r] == x && x !in xs[..r]
  {
    if xs == [] then -1
    else if xs[0] == x then 0
    else
      var k := IndexOf(xs[1..], x);
      if k == -1 then -1 else k + 1
  }

  /** Appending an element other than `x` does not move the first `x`. */
  lemma {:induction false} IndexOfAppend(xs: seq<string>, y: string, x: string)
    requires x != y
    ensures IndexOf(xs + [y], x) == IndexOf(xs, x)
    decreases |xs|
  {
    if xs != [] {
      assert (xs + [y])[1..] == xs[1..] + [y];
      IndexOfAppend(xs[1..], y, x);
    }
  }
}
