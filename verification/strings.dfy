/** The JavaScript string operations the bookmark controller relies on:
    `trim`, `split(",")`, `toLowerCase` and `includes`.
    Strings are sequences of Unicode scalar values. */
module Strings {

  /** The code points `String.prototype.trim` strips: ECMAScript WhiteSpace
      (tab, vertical tab, form feed, space, no-break space, byte order mark
      and the Space_Separator category) and LineTerminator. */
  predicate IsWhitespace(c: char) {
    || c == '\t' || c == '\n' || c == '\U{000B}' || c == '\U{000C}' || c == '\r'
    || c == ' ' || c == '\U{00A0}' || c == '\U{1680}'
    || ('\U{2000}' <= c <= '\U{200A}')
    || c == '\U{2028}' || c == '\U{2029}' || c == '\U{202F}' || c == '\U{205F}'
    || c == '\U{3000}' || c == '\U{FEFF}'
  }

  predicate AllWhitespace(s: string) {
    forall i :: 0 <= i < |s| ==> IsWhitespace(s[i])
  }

  /** Neither end of `s` is whitespace (vacuously true of the empty string). */
  predicate Trimmed(s: string) {
    |s| == 0 || (!IsWhitespace(s[0]) && !IsWhitespace(s[|s| - 1]))
  }

  /** Length of the whitespace run at the start of `s`. */
  function LeadingWhitespace(s: string): (n: nat)
    ensures n <= |s|
    ensures forall i :: 0 <= i < n ==> IsWhitespace(s[i])
    ensures n == |s| || !IsWhitespace(s[n])
  {
    if |s| == 0 || !IsWhitespace(s[0]) then 0
    else
      var n := 1 + LeadingWhitespace(s[1..]);
      assert forall i :: 1 <= i < |s| ==> s[i] == s[1..][i - 1];
      n
  }

  /** Length of the whitespace run at the end of `s`. */
  function TrailingWhitespace(s: string): (n: nat)
    ensures n <= |s|
    ensures forall i :: |s| - n <= i < |s| ==> IsWhitespace(s[i])
    ensures n == |s| || !IsWhitespace(s[|s| - 1 - n])
  {
    if |s| == 0 || !IsWhitespace(s[|s| - 1]) then 0
    else
      var init := s[..|s| - 1];
      assert forall i :: 0 <= i < |init| ==> s[i] == init[i];
      1 + TrailingWhitespace(init)
  }

  /** `String.prototype.trim`: `s` with the whitespace at both ends removed. */
  function Trim(s: string): (r: string)
    ensures |r| <= |s|
    ensures Trimmed(r)
    ensures forall k :: 0 <= k < |r| ==> r[k] in s
    ensures exists i :: 0 <= i <= |s| - |r| && AllWhitespace(s[..i]) && r <= s[i..]
                                            && AllWhitespace(s[i + |r|..])
  {
    var (a, e) := TrimBounds(s);
    TrimCut(s, a, e);
    s[a..e]
  }

  /** Where `Trim` cuts: after the leading whitespace run and before the
      trailing run of what is left. */
  function TrimBounds(s: string): (ae: (nat, nat))
    ensures ae.0 <= ae.1 <= |s|
    ensures forall i :: 0 <= i < ae.0 ==> IsWhitespace(s[i])
    ensures forall i :: ae.1 <= i < |s| ==> IsWhitespace(s[i])
    ensures ae.0 < ae.1 ==> !IsWhitespace(s[ae.0]) && !IsWhitespace(s[ae.1 - 1])
  {
    var a := LeadingWhitespace(s);
    var t := s[a..];
    var b := TrailingWhitespace(t);
    assert forall i :: a <= i < |s| ==> s[i] == t[i - a];
    (a, |s| - b)
  }

  /** Cutting a whitespace run off each end of `s`, at `a` and `e`, where the
      kept part starts and ends with non-whitespace, gives a result with
      every property `Trim` promises. */
  lemma TrimCut(s: string, a: nat, e: nat)
    requires a <= e <= |s|
    requires forall i :: 0 <= i < a ==> IsWhitespace(s[i])
    requires forall i :: e <= i < |s| ==> IsWhitespace(s[i])
    requires a < e ==> !IsWhitespace(s[a]) && !IsWhitespace(s[e - 1])
    ensures Trimmed(s[a..e])
    ensures forall k :: 0 <= k < e - a ==> s[a..e][k] in s
    ensures exists i :: 0 <= i <= |s| - (e - a) && AllWhitespace(s[..i]) && s[a..e] <= s[i..]
                                                && AllWhitespace(s[i + (e - a)..])
  {
    var r := s[a..e];
    assert forall k :: 0 <= k < |r| ==> r[k] == s[a + k];
    assert s[a..][..|r|] == r;
    assert forall k :: 0 <= k < a ==> s[..a][k] == s[k];
    assert forall k :: 0 <= k < |s| - e ==> s[e..][k] == s[e + k];
    assert AllWhitespace(s[..a]) && AllWhitespace(s[a + |r|..]);
  }

  /** Trimming is determined by its contract: whenever `s` is whitespace, then a
      trimmed middle part, then whitespace, `Trim(s)` is that middle part. */
  lemma TrimUnique(w1: string, m: string, w2: string)
    requires AllWhitespace(w1) && AllWhitespace(w2) && Trimmed(m)
    ensures Trim(w1 + m + w2) == m
  {
    var s := w1 + m + w2;
    var (a, e) := TrimBounds(s);
    assert forall i :: 0 <= i < |w1| ==> s[i] == w1[i];
    assert forall i :: |w1| + |m| <= i < |s| ==> s[i] == w2[i - |w1| - |m|];
    if |m| > 0 {
      assert s[|w1|] == m[0] && s[|w1| + |m| - 1] == m[|m| - 1];
      assert a == |w1| && e == |w1| + |m|;
      assert s[a..e] == m;
    }
  }

  /** Number of occurrences of `c` in `s`. */
  function CountChar(s: string, c: char): nat {
    if |s| == 0 then 0 else (if s[0] == c then 1 else 0) + CountChar(s[1..], c)
  }

  /** The pieces of a split glued back together with the separator between them. */
  function Join(pieces: seq<string>, sep: char): string {
    if |pieces| == 0 then ""
    else if |pieces| == 1 then pieces[0]
    else pieces[0] + [sep] + Join(pieces[1..], sep)
  }

  /** `String.prototype.split` with a one-character separator: the maximal
      separator-free pieces of `s`, one more than there are separators, empty
      pieces included. */
  function Split(s: string, sep: char): (r: seq<string>)
    ensures |r| == CountChar(s, sep) + 1
    ensures forall i :: 0 <= i < |r| ==> sep !in r[i]
    ensures Join(r, sep) == s
  {
    if |s| == 0 then [""]
    else
      var rest := Split(s[1..], sep);
      if s[0] == sep then
        assert s == [sep] + Join(rest, sep);
        [""] + rest
      else
        var r := [[s[0]] + rest[0]] + rest[1..];
        assert Join(r, sep) == [s[0]] + Join(rest, sep) by {
          if |rest| > 1 {
            assert r[1..] == rest[1..];
            assert Join(rest, sep) == rest[0] + [sep] + Join(rest[1..], sep);
          }
        }
        assert s == [s[0]] + s[1..];
        r
  }

  lemma {:induction false} SplitNoSeparator(a: string, sep: char)
    requires sep !in a
    ensures Split(a, sep) == [a]
  {
    if |a| > 0 {
      SplitNoSeparator(a[1..], sep);
      assert a == [a[0]] + a[1..];
    }
  }

  lemma {:induction false} SplitFirstPiece(a: string, sep: char, b: string)
    requires sep !in a
    ensures Split(a + [sep] + b, sep) == [a] + Split(b, sep)
  {
    var s := a + [sep] + b;
    if |a| == 0 {
      assert s[1..] == b;
    } else {
      assert s[1..] == a[1..] + [sep] + b;
      SplitFirstPiece(a[1..], sep, b);
      assert [a[0]] + a[1..] == a;
    }
  }

  /** Splitting undoes joining: separator-free pieces come back unchanged. */
  lemma {:induction false} SplitJoin(pieces: seq<string>, sep: char)
    requires |pieces| >= 1
    requires forall i :: 0 <= i < |pieces| ==> sep !in pieces[i]
    ensures Split(Join(pieces, sep), sep) == pieces
  {
    if |pieces| == 1 {
      SplitNoSeparator(pieces[0], sep);
    } else {
      SplitJoin(pieces[1..], sep);
      SplitFirstPiece(pieces[0], sep, Join(pieces[1..], sep));
      assert [pieces[0]] + pieces[1..] == pieces;
    }
  }

  /** ASCII case folding of one character. */
  function LowerChar(c: char): (d: char)
    ensures !('A' <= d <= 'Z')
    ensures 'A' <= c <= 'Z' ==> d as int == c as int + 32
    ensures !('A' <= c <= 'Z') ==> d == c
  {
    if 'A' <= c <= 'Z' then (c as int + 32) as char else c
  }

  /** `String.prototype.toLowerCase`, restricted to ASCII letters. */
  function Lower(s: string): (r: string)
    ensures |r| == |s|
    ensures forall i :: 0 <= i < |r| ==> !('A' <= r[i] <= 'Z')
    ensures forall i :: 0 <= i < |s| && 'A' <= s[i] <= 'Z' ==> r[i] as int == s[i] as int + 32
    ensures forall i :: 0 <= i < |s| && !('A' <= s[i] <= 'Z') ==> r[i] == s[i]
    ensures forall i :: 0 <= i < |s| ==> r[i] == LowerChar(s[i])
  {
    seq(|s|, i requires 0 <= i < |s| => LowerChar(s[i]))
  }

  /** A string without upper-case ASCII letters lowers to itself; in
      particular lowering is idempotent. */
  lemma LowerKeepsLowercase(s: string)
    requires forall i :: 0 <= i < |s| ==> !('A' <= s[i] <= 'Z')
    ensures Lower(s) == s
  {
  }

  /** `s.includes(q)`: `q` occurs in `s` at some position. */
  predicate IsSubstring(q: string, s: string) {
    exists i :: 0 <= i <= |s| && q <= s[i..]
  }

  /** The left-to-right scan `includes` performs. */
  method Includes(s: string, q: string) returns (found: bool)
    ensures found <==> IsSubstring(q, s)
  {
    var i := 0;
    while i + |q| <= |s|
      invariant 0 <= i
      invariant forall j :: 0 <= j < i && j <= |s| ==> !(q <= s[j..])
    {
      if q <= s[i..] {
        return true;
      }
      i := i + 1;
    }
    return false;
  }

  /** The empty string occurs in every string, so an empty query matches anything. */
  lemma EmptyIsSubstring(s: string)
    ensures IsSubstring("", s)
  {
    assert "" <= s[0..];
  }

  /** A string containing a character that `s` lacks does not occur in `s`. */
  lemma MissingCharNotSubstring(q: string, s: string, k: nat)
    requires k < |q| && q[k] !in s
    ensures !IsSubstring(q, s)
  {
  }
}
