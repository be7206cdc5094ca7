/**
 * The two `java.lang.String` operations the configuration parser and the
 * permission checks rely on, modelled exactly for the inputs they receive:
 * `split` with a one-character literal delimiter and limit 0, and
 * `toLowerCase` with ASCII case folding.
 */
module JavaString {

  /** Index of the first occurrence of `d` in `s`. */
  function IndexOf(s: string, d: char): (i: nat)
    requires d in s
    ensures i < |s| && s[i] == d && d !in s[..i]
  {
    if s[0] == d then 0
    else
      var j := IndexOf(s[1..], d);
      assert s[..1 + j] == [s[0]] + s[1..][..j];
      1 + j
  }

  /** The first-occurrence property determines the index. */
  lemma IndexOfUnique(s: string, d: char, i: nat)
    requires i < |s| && s[i] == d && d !in s[..i]
    ensures IndexOf(s, d) == i
  {
    var j := IndexOf(s, d);
  }

  /**
   * Every piece between consecutive delimiters, empty pieces included:
   * a string with n delimiters yields n + 1 pieces.
   */
  function SplitAll(s: string, d: char): (r: seq<string>)
    ensures |r| >= 1
    ensures forall k :: 0 <= k < |r| ==> d !in r[k]
    decreases |s|
  {
    if d !in s then [s]
    else
      var i := IndexOf(s, d);
      [s[..i]] + SplitAll(s[i + 1..], d)
  }

  /** `String.join`: the pieces with one delimiter between each neighbour. */
  function Join(p: seq<string>, d: char): string
  {
    if |p| == 0 then ""
    else if |p| == 1 then p[0]
    else p[0] + [d] + Join(p[1..], d)
  }

  /**
   * The trailing empty pieces removed, as `split` does when its limit is 0.
   * The result is the longest prefix of `p` that does not end in "".
   */
  function DropTrailingEmpty(p: seq<string>): (r: seq<string>)
    ensures r <= p
    ensures |r| > 0 ==> r[|r| - 1] != ""
    ensures forall k :: |r| <= k < |p| ==> p[k] == ""
  {
    if |p| == 0 || p[|p| - 1] != "" then p
    else DropTrailingEmpty(p[..|p| - 1])
  }

  /**
   * `s.split(String.valueOf(d))`: a string without the delimiter comes back
   * as the one-element array `[s]` (even when `s` is empty); otherwise it is
   * split fully and the trailing empty pieces are dropped.
   */
  function Split(s: string, d: char): (r: seq<string>)
    ensures d !in s ==> r == [s]
    ensures forall k :: 0 <= k < |r| ==> d !in r[k]
    ensures d in s && |r| > 0 ==> r[|r| - 1] != ""
    ensures r <= SplitAll(s, d)
    ensures forall k :: |r| <= k < |SplitAll(s, d)| ==> SplitAll(s, d)[k] == ""
  {
    if d !in s then [s] else DropTrailingEmpty(SplitAll(s, d))
  }

  /** ASCII lower-casing of one character. */
  function ToLowerChar(c: char): char
  {
    if 'A' <= c <= 'Z' then (c as int + 32) as char else c
  }

  /** `toLowerCase`, folding ASCII letters only. */
  function ToLowerCase(s: string): string
  {
    seq(|s|, k requires 0 <= k < |s| => ToLowerChar(s[k]))
  }

  /** A lower-case letter occurs in the lower-cased string iff it occurs in either case. */
  lemma LowerContains(s: string, c: char)
    requires 'a' <= c <= 'z'
    ensures c in ToLowerCase(s) <==> c in s || (c as int - 32) as char in s
  {
    var u := (c as int - 32) as char;
    var l := ToLowerCase(s);
    if c in l {
      var k :| 0 <= k < |l| && l[k] == c;
      assert s[k] == c || s[k] == u;
    }
    if c in s {
      var k :| 0 <= k < |s| && s[k] == c;
      assert l[k] == c;
    }
    if u in s {
      var k :| 0 <= k < |s| && s[k] == u;
      assert l[k] == c;
    }
  }

  /** Splitting and joining again gives back the string. */
  lemma {:induction false} JoinSplitAll(s: string, d: char)
    ensures Join(SplitAll(s, d), d) == s
    decreases |s|
  {
    if d in s {
      var i := IndexOf(s, d);
      JoinSplitAll(s[i + 1..], d);
      assert s == s[..i] + [d] + s[i + 1..];
    }
  }

  /** A delimiter appended at the end adds one empty piece. */
  lemma {:induction false} SplitAllAppendDelimiter(s: string, d: char)
    ensures SplitAll(s + [d], d) == SplitAll(s, d) + [""]
    decreases |s|
  {
    var t := s + [d];
    if d !in s {
      IndexOfUnique(t, d, |s|);
      assert t[..|s|] == s;
      assert t[|s| + 1..] == "";
    } else {
      var i := IndexOf(s, d);
      assert t[..i] == s[..i];
      IndexOfUnique(t, d, i);
      assert t[i + 1..] == s[i + 1..] + [d];
      SplitAllAppendDelimiter(s[i + 1..], d);
    }
  }

  /** A character that is no delimiter and occurs in no piece does not occur in the join. */
  lemma {:induction false} JoinExcludes(p: seq<string>, d: char, c: char)
    requires c != d
    requires forall k :: 0 <= k < |p| ==> c !in p[k]
    ensures c !in Join(p, d)
  {
    if |p| > 1 {
      JoinExcludes(p[1..], d, c);
    }
  }

  /** Joining pieces that are free of the delimiter and splitting fully gives them back. */
  lemma {:induction false} SplitAllJoin(p: seq<string>, d: char)
    requires |p| >= 1
    requires forall k :: 0 <= k < |p| ==> d !in p[k]
    ensures SplitAll(Join(p, d), d) == p
  {
    if |p| > 1 {
      var rest := Join(p[1..], d);
      var s := p[0] + [d] + rest;
      assert s[..|p[0]|] == p[0];
      IndexOfUnique(s, d, |p[0]|);
      assert s[|p[0]| + 1..] == rest;
      SplitAllJoin(p[1..], d);
    }
  }

  /**
   * `split` inverts `join` on pieces free of the delimiter, provided the last
   * piece is not empty (or there is just one piece).
   */
  lemma SplitJoin(p: seq<string>, d: char)
    requires |p| >= 1
    requires forall k :: 0 <= k < |p| ==> d !in p[k]
    requires |p| == 1 || p[|p| - 1] != ""
    ensures Split(Join(p, d), d) == p
  {
    SplitAllJoin(p, d);
    if |p| == 1 {
      assert Join(p, d) == p[0];
    } else {
      assert Join(p, d)[|p[0]|] == d;
    }
  }

  /** The join of at least one piece is not empty when its first piece is not. */
  lemma JoinNonEmpty(p: seq<string>, d: char)
    requires |p| >= 1 && p[0] != ""
    ensures Join(p, d) != ""
  {
  }
}
