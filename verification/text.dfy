/**
 The two Kotlin string operations the feed screen relies on: `trim()` and
 `replace(oldValue, newValue)`.
 */
module Text {

  /**
   `Char.isWhitespace()`: Java's `Character.isWhitespace` together with
   `Character.isSpaceChar`, i.e. the ASCII controls TAB, LF, VT, FF, CR and
   FS..US, and every Unicode space, line or paragraph separator.
   */
  predicate IsWhitespace(c: char) {
    || c == '\t' || c == '\n' || c == '\U{000B}' || c == '\U{000C}' || c == '\r'
    || ('\U{001C}' <= c <= '\U{001F}')
    || c == ' ' || c == '\U{00A0}' || c == '\U{1680}'
    || ('\U{2000}' <= c <= '\U{200A}')
    || c == '\U{2028}' || c == '\U{2029}' || c == '\U{202F}' || c == '\U{205F}' || c == '\U{3000}'
  }

  predicate AllWhitespace(s: string) {
    forall i :: 0 <= i < |s| ==> IsWhitespace(s[i])
  }

  /** The length of the leading white space of `s`. */
  function LeadingSpace(s: string): (n: nat)
    ensures n <= |s| && AllWhitespace(s[..n])
    ensures n < |s| ==> !IsWhitespace(s[n])
  {
    if s == [] || !IsWhitespace(s[0]) then 0
    else
      var n := 1 + LeadingSpace(s[1..]);
      assert forall i :: 1 <= i < n ==> s[..n][i] == s[1..][..n - 1][i - 1];
      n
  }

  /** The length of the trailing white space of `s`. */
  function TrailingSpace(s: string): (n: nat)
    ensures n <= |s| && AllWhitespace(s[|s| - n..])
    ensures n < |s| ==> !IsWhitespace(s[|s| - n - 1])
  {
    if s == [] || !IsWhitespace(s[|s| - 1]) then 0
    else
      var init := s[..|s| - 1];
      var n := 1 + TrailingSpace(init);
      assert s[|s| - n..] == init[|init| - (n - 1)..] + [s[|s| - 1]];
      n
  }

  /** `String.trim()`: `s` without its leading and trailing white space. */
  function Trim(s: string): (r: string)
    ensures exists i, j :: 0 <= i <= j <= |s| && r == s[i..j]
                           && AllWhitespace(s[..i]) && AllWhitespace(s[j..])
    ensures r == [] || (!IsWhitespace(r[0]) && !IsWhitespace(r[|r| - 1]))
  {
    var front := s[LeadingSpace(s)..];
    var r := front[..|front| - TrailingSpace(front)];
    assert r == s[LeadingSpace(s)..|s| - TrailingSpace(front)];
    assert s[|s| - TrailingSpace(front)..] == front[|front| - TrailingSpace(front)..];
    r
  }

  /** Trimming twice trims nothing more. */
  lemma TrimIdempotent(s: string)
    ensures Trim(Trim(s)) == Trim(s)
  {
    var t := Trim(s);
    if t != [] {
      assert LeadingSpace(t) == 0;
      assert TrailingSpace(t) == 0;
      assert t[0..] == t;
    }
  }

  /** Text that neither starts nor ends with white space is its own trim. */
  lemma TrimUnspaced(s: string)
    requires s != [] && !IsWhitespace(s[0]) && !IsWhitespace(s[|s| - 1])
    ensures Trim(s) == s
  {
    assert LeadingSpace(s) == 0;
    assert s[0..] == s;
    assert TrailingSpace(s) == 0;
  }

  /** Exactly the all-white-space strings, and the empty one among them, trim to `""`. */
  lemma TrimEmpty(s: string)
    ensures Trim(s) == [] <==> AllWhitespace(s)
  {
    var i, j :| 0 <= i <= j <= |s| && Trim(s) == s[i..j] && AllWhitespace(s[..i]) && AllWhitespace(s[j..]);
    if Trim(s) == [] {
      forall k | 0 <= k < |s| ensures IsWhitespace(s[k]) {
        if k < i {
          assert s[k] == s[..i][k];
        } else {
          assert s[k] == s[j..][k - j];
        }
      }
    } else {
      assert s[i] == Trim(s)[0];
    }
  }

  // ---------------------------------------------------------------------------
  // String.replace

  /** `p` occurs in `s` at index `i`. */
  predicate OccursAt(s: string, p: string, i: nat) {
    i + |p| <= |s| && s[i..i + |p|] == p
  }

  /** `p` occurs nowhere in `s`. */
  predicate Free(s: string, p: string) {
    forall i :: 0 <= i <= |s| ==> !OccursAt(s, p, i)
  }

  /**
   `s.replace(p, r)` for a non-empty `p`: scan from the left, replace each
   occurrence, continue after it.
   */
  function ReplaceAll(s: string, p: string, r: string): string
    requires |p| > 0
    decreases |s|
  {
    if |s| < |p| then s
    else if s[..|p|] == p then r + ReplaceAll(s[|p|..], p, r)
    else [s[0]] + ReplaceAll(s[1..], p, r)
  }

  /** The pieces joined with `sep` between neighbours. */
  function Join(pieces: seq<string>, sep: string): string
    requires |pieces| > 0
  {
    if |pieces| == 1 then pieces[0] else pieces[0] + sep + Join(pieces[1..], sep)
  }

  /** Two pieces joined: the separator between them. */
  lemma JoinPair(a: string, b: string, sep: string)
    ensures Join([a, b], sep) == a + sep + b
  {
    assert [a, b][1..] == [b];
  }

  /** Three pieces joined: the separator between each two. */
  lemma JoinTriple(a: string, b: string, c: string, sep: string)
    ensures Join([a, b, c], sep) == a + sep + b + sep + c
  {
    assert [a, b, c][1..] == [b, c];
    JoinPair(b, c, sep);
  }

  /** Whether a proper prefix of `p` of length `|p| - k` is also its suffix. */
  predicate BorderAt(p: string, k: nat)
    requires 0 < k < |p|
  {
    p[k..] == p[..|p| - k]
  }

  /**
   A pattern no proper prefix of which is also a suffix, such as `{user}`:
   two of its occurrences can never overlap.
   */
  predicate Unbordered(p: string) {
    forall k :: 0 < k < |p| ==> !BorderAt(p, k)
  }

  lemma FreeTail(s: string, p: string)
    requires s != [] && Free(s, p)
    ensures Free(s[1..], p)
  {
    forall i | 0 <= i <= |s[1..]| ensures !OccursAt(s[1..], p, i) {
      assert !OccursAt(s, p, i + 1);
      if i + |p| <= |s[1..]| {
        assert s[1..][i..i + |p|] == s[i + 1..i + 1 + |p|];
      }
    }
  }

  /** Non-empty text free of an unbordered pattern and followed by it does not start with it. */
  lemma NoStraddle(a: string, p: string, rest: string)
    requires |p| > 0 && Unbordered(p) && Free(a, p) && a != []
    ensures (a + p + rest)[..|p|] != p
  {
    var s := a + p + rest;
    if |a| >= |p| {
      assert !OccursAt(a, p, 0);
      assert s[..|p|] == a[0..|p|];
    } else {
      // The first |p| characters end with a proper prefix of p, which is no suffix of p.
      assert !BorderAt(p, |a|);
      assert s[..|p|][|a|..] == p[..|p| - |a|];
    }
  }

  /** Text with no occurrence of the pattern is left as it is. */
  lemma {:induction false} ReplaceFree(s: string, p: string, r: string)
    requires |p| > 0 && Free(s, p)
    ensures ReplaceAll(s, p, r) == s
    decreases |s|
  {
    if |s| >= |p| {
      assert !OccursAt(s, p, 0);
      assert s[0..|p|] == s[..|p|];
      FreeTail(s, p);
      ReplaceFree(s[1..], p, r);
    }
  }

  /**
   The first occurrence of an unbordered pattern after text free of it is the
   one that text is followed by: no occurrence can straddle the boundary.
   */
  lemma {:induction false} ReplaceAfterFree(a: string, p: string, rest: string, r: string)
    requires |p| > 0 && Unbordered(p) && Free(a, p)
    ensures ReplaceAll(a + p + rest, p, r) == a + r + ReplaceAll(rest, p, r)
    decreases |a|
  {
    var s := a + p + rest;
    if a == [] {
      assert s[..|p|] == p && s[|p|..] == rest;
    } else {
      NoStraddle(a, p, rest);
      FreeTail(a, p);
      assert s[1..] == a[1..] + p + rest;
      calc {
        ReplaceAll(s, p, r);
        [a[0]] + ReplaceAll(a[1..] + p + rest, p, r);
        { ReplaceAfterFree(a[1..], p, rest, r); }
        [a[0]] + (a[1..] + r + ReplaceAll(rest, p, r));
        { assert [a[0]] + a[1..] == a; }
        a + r + ReplaceAll(rest, p, r);
      }
    }
  }

  /**
   Replacement is substitution: text made of pieces free of an unbordered
   pattern, separated by that pattern, becomes the same pieces separated by
   the replacement. So every occurrence is replaced and nothing else changes.
   */
  lemma {:induction false} ReplaceJoin(pieces: seq<string>, p: string, r: string)
    requires |p| > 0 && Unbordered(p) && |pieces| > 0
    requires forall k :: 0 <= k < |pieces| ==> Free(pieces[k], p)
    ensures ReplaceAll(Join(pieces, p), p, r) == Join(pieces, r)
    decreases |pieces|
  {
    if |pieces| == 1 {
      ReplaceFree(pieces[0], p, r);
    } else {
      ReplaceAfterFree(pieces[0], p, Join(pieces[1..], p), r);
      ReplaceJoin(pieces[1..], p, r);
    }
  }

  /** Replacing a pattern by itself changes nothing. */
  lemma {:induction false} ReplaceBySelf(s: string, p: string)
    requires |p| > 0
    ensures ReplaceAll(s, p, p) == s
    decreases |s|
  {
    if |s| >= |p| {
      if s[..|p|] == p {
        ReplaceBySelf(s[|p|..], p);
        assert s == p + s[|p|..];
      } else {
        ReplaceBySelf(s[1..], p);
        assert s == [s[0]] + s[1..];
      }
    }
  }

  lemma FreeCons(c: char, x: string, p: string)
    requires |p| > 0 && Free(x, p) && !OccursAt([c] + x, p, 0)
    ensures Free([c] + x, p)
  {
    var y := [c] + x;
    forall i | 1 <= i <= |y| ensures !OccursAt(y, p, i) {
      assert !OccursAt(x, p, i - 1);
      if i + |p| <= |y| {
        assert y[i..i + |p|] == x[i - 1..i - 1 + |p|];
      }
    }
  }

  /**
   `s` cut at the occurrences of `p` the left-to-right scan finds: the
   pieces between them, none of which contains `p`.
   */
  function Split(s: string, p: string): (pieces: seq<string>)
    requires |p| > 0
    ensures |pieces| > 0 && Join(pieces, p) == s
    ensures forall k :: 0 <= k < |pieces| ==> Free(pieces[k], p)
    decreases |s|
  {
    if |s| < |p| then
      assert Free(s, p);
      [s]
    else if s[..|p|] == p then
      var t := Split(s[|p|..], p);
      assert Free([], p);
      assert s == [] + p + Join(t, p);
      [[]] + t
    else
      var t := Split(s[1..], p);
      var first := [s[0]] + t[0];
      assert s == first + (if |t| == 1 then [] else p + Join(t[1..], p));
      assert !OccursAt(first, p, 0) by {
        if |p| <= |first| {
          assert first[0..|p|] == s[..|p|];
        }
      }
      FreeCons(s[0], t[0], p);
      [first] + t[1..]
  }

  /**
   For a pattern such as `{user}` the replacement puts `r` exactly where the
   scan finds the pattern: every occurrence is replaced, nothing else changes.
   */
  lemma ReplaceAllIsSubstitution(s: string, p: string, r: string)
    requires |p| > 0 && Unbordered(p)
    ensures ReplaceAll(s, p, r) == Join(Split(s, p), r)
  {
    ReplaceJoin(Split(s, p), p, r);
  }
}
