/** String primitives shared by the chat components: the JavaScript whitespace
    class (one predicate for both the regex class `\s` and `String.prototype.trim`),
    trimming, prefix tests and substring search. */
module Text {

  /** ECMAScript WhiteSpace and LineTerminator code points. */
  predicate IsSpace(c: char) {
    || c == '\t' || c == '\n' || c == '\U{B}' || c == '\U{C}' || c == '\r' || c == ' '
    || c == '\U{A0}' || c == '\U{1680}' || ('\U{2000}' <= c <= '\U{200A}')
    || c == '\U{2028}' || c == '\U{2029}' || c == '\U{202F}' || c == '\U{205F}'
    || c == '\U{3000}' || c == '\U{FEFF}'
  }

  predicate AllSpace(s: string) {
    forall i :: 0 <= i < |s| ==> IsSpace(s[i])
  }

  /** Drops the maximal run of leading whitespace (also the greedy regex `\s*`). */
  function TrimStart(s: string): string
    decreases |s|
  {
    if s != [] && IsSpace(s[0]) then TrimStart(s[1..]) else s
  }

  /** Drops the maximal run of trailing whitespace. */
  function TrimEnd(s: string): string
    decreases |s|
  {
    if s != [] && IsSpace(s[|s| - 1]) then TrimEnd(s[..|s| - 1]) else s
  }

  /** `String.prototype.trim`. */
  function Trim(s: string): string {
    TrimEnd(TrimStart(s))
  }

  /** `s.startsWith(p)`. */
  predicate StartsWith(s: string, p: string) {
    |p| <= |s| && s[..|p|] == p
  }

  /** `s.includes(t)`: some position of `s` starts with `t`. */
  predicate Contains(s: string, t: string)
    decreases |s|
  {
    StartsWith(s, t) || (s != [] && Contains(s[1..], t))
  }

  /** `trimStart` keeps a suffix, cuts only whitespace, and leaves no whitespace in front. */
  lemma {:induction false} TrimStartSpec(s: string)
    ensures var r := TrimStart(s);
      && |r| <= |s| && r == s[|s| - |r|..]
      && (forall i :: 0 <= i < |s| - |r| ==> IsSpace(s[i]))
      && (r == [] || !IsSpace(r[0]))
    decreases |s|
  {
    if s != [] && IsSpace(s[0]) {
      TrimStartSpec(s[1..]);
      var r := TrimStart(s[1..]);
      assert s[1..][|s| - 1 - |r|..] == s[|s| - |r|..];
      assert forall i :: 1 <= i < |s| - |r| ==> s[i] == s[1..][i - 1];
    } else {
      assert s[0..] == s;
    }
  }

  /** `trimEnd` keeps a prefix, cuts only whitespace, and leaves no whitespace at the end. */
  lemma {:induction false} TrimEndSpec(s: string)
    ensures var r := TrimEnd(s);
      && |r| <= |s| && r == s[..|r|]
      && (forall i :: |r| <= i < |s| ==> IsSpace(s[i]))
      && (r == [] || !IsSpace(r[|r| - 1]))
    decreases |s|
  {
    if s != [] && IsSpace(s[|s| - 1]) {
      TrimEndSpec(s[..|s| - 1]);
      var r := TrimEnd(s[..|s| - 1]);
      assert s[..|s| - 1][..|r|] == s[..|r|];
    } else {
      assert s[..|s|] == s;
    }
  }

  /** The trimmed string is a slice of the input with only whitespace cut off
      either side. */
  lemma TrimIsSlice(s: string)
    ensures exists i, j :: 0 <= i <= j <= |s| && Trim(s) == s[i..j]
                          && AllSpace(s[..i]) && AllSpace(s[j..])
  {
    var a := TrimStart(s);
    TrimStartSpec(s);
    var i := |s| - |a|;
    var b := TrimEnd(a);
    TrimEndSpec(a);
    var j := i + |b|;
    assert a == s[i..] && b == a[..|b|];
    assert b == s[i..j];
    assert forall k :: 0 <= k < i ==> s[..i][k] == s[k];
    assert forall k :: 0 <= k < |s| - j ==> s[j..][k] == a[|b| + k];
  }

  /** The trimmed string neither starts nor ends with whitespace. */
  lemma TrimEnds(s: string)
    ensures Trim(s) == [] || (!IsSpace(Trim(s)[0]) && !IsSpace(Trim(s)[|Trim(s)| - 1]))
  {
    var a := TrimStart(s);
    TrimStartSpec(s);
    var b := TrimEnd(a);
    TrimEndSpec(a);
    if b != [] {
      assert b[0] == a[0];
    }
  }

  /** Trimming a string that is only whitespace gives the empty string, and only then. */
  lemma TrimEmptyIff(s: string)
    ensures Trim(s) == [] <==> AllSpace(s)
  {
    var a := TrimStart(s);
    TrimStartSpec(s);
    TrimEndSpec(a);
    if a != [] {
      assert a[0] == s[|s| - |a|];
    }
  }

  /** Whitespace padding on both sides of a string with non-space ends is exactly
      what `trim` removes. */
  lemma TrimPadded(pre: string, x: string, post: string)
    requires AllSpace(pre) && AllSpace(post)
    requires x != [] && !IsSpace(x[0]) && !IsSpace(x[|x| - 1])
    ensures Trim(pre + x + post) == x
  {
    var s := pre + x + post;
    TrimStartSkips(pre, x + post);
    assert s == pre + (x + post);
    TrimEndSkips(x, post);
  }

  lemma {:induction false} TrimStartSkips(ws: string, t: string)
    requires AllSpace(ws) && (t == [] || !IsSpace(t[0]))
    ensures TrimStart(ws + t) == t
    decreases |ws|
  {
    if ws == [] {
      assert ws + t == t;
    } else {
      assert (ws + t)[1..] == ws[1..] + t;
      TrimStartSkips(ws[1..], t);
    }
  }

  lemma {:induction false} TrimEndSkips(t: string, ws: string)
    requires AllSpace(ws) && (t == [] || !IsSpace(t[|t| - 1]))
    ensures TrimEnd(t + ws) == t
    decreases |ws|
  {
    if ws == [] {
      assert t + ws == t;
    } else {
      var s := t + ws;
      assert s[|s| - 1] == ws[|ws| - 1];
      assert s[..|s| - 1] == t + ws[..|ws| - 1];
      TrimEndSkips(t, ws[..|ws| - 1]);
    }
  }

  /** Leading whitespace is trimmed from the front piece only, once the second piece starts with a non-space. */
  lemma {:induction false} TrimStartConcat(a: string, y: string)
    requires y != [] && !IsSpace(y[0])
    ensures TrimStart(a + y) == TrimStart(a) + y
    decreases |a|
  {
    if a == [] {
      assert a + y == y;
    } else if IsSpace(a[0]) {
      assert (a + y)[1..] == a[1..] + y;
      TrimStartConcat(a[1..], y);
    }
  }

  /** Trailing whitespace is trimmed from the back piece only, once the first piece ends with a non-space. */
  lemma {:induction false} TrimEndConcat(y: string, a: string)
    requires y != [] && !IsSpace(y[|y| - 1])
    ensures TrimEnd(y + a) == y + TrimEnd(a)
    decreases |a|
  {
    if a == [] {
      assert y + a == y;
    } else if IsSpace(a[|a| - 1]) {
      assert (y + a)[..|y + a| - 1] == y + a[..|a| - 1];
      TrimEndConcat(y, a[..|a| - 1]);
    }
  }

  /** Trimming text around a core with non-space ends trims the two sides separately. */
  lemma TrimAround(before: string, x: string, after: string)
    requires x != [] && !IsSpace(x[0]) && !IsSpace(x[|x| - 1])
    ensures Trim(before + x + after) == TrimStart(before) + x + TrimEnd(after)
  {
    assert before + x + after == before + (x + after);
    TrimStartConcat(before, x + after);
    var y := TrimStart(before) + x;
    assert TrimStart(before) + (x + after) == y + after;
    assert y[|y| - 1] == x[|x| - 1];
    TrimEndConcat(y, after);
  }

  /** A string that begins with a non-space character keeps that first character. */
  lemma TrimKeepsHead(s: string)
    requires s != [] && !IsSpace(s[0])
    ensures Trim(s) != [] && Trim(s)[0] == s[0]
  {
    assert TrimStart(s) == s;
    TrimEndSpec(s);
  }

  /** `t` occurs in `s` starting at position `i`. */
  predicate OccursAt(s: string, t: string, i: int) {
    0 <= i && i + |t| <= |s| && s[i..i + |t|] == t
  }

  /** `includes` agrees with the positional definition of a substring. */
  lemma {:induction false} ContainsAt(s: string, t: string)
    ensures Contains(s, t) <==> exists i :: OccursAt(s, t, i)
  {
    assert StartsWith(s, t) <==> OccursAt(s, t, 0);
    if s != [] {
      ContainsAt(s[1..], t);
      forall i | OccursAt(s[1..], t, i)
        ensures OccursAt(s, t, i + 1)
      {
        assert s[i + 1..i + 1 + |t|] == s[1..][i..i + |t|];
      }
      forall i | OccursAt(s, t, i) && i > 0
        ensures OccursAt(s[1..], t, i - 1)
      {
        assert s[1..][i - 1..i - 1 + |t|] == s[i..i + |t|];
      }
    }
  }

  /** A substring of the middle piece is a substring of the whole. */
  lemma ContainsWithin(a: string, x: string, b: string, t: string)
    requires Contains(x, t)
    ensures Contains(a + x + b, t)
  {
    ContainsAt(x, t);
    var i :| OccursAt(x, t, i);
    assert (a + x + b)[|a| + i..|a| + i + |t|] == x[i..i + |t|];
    assert OccursAt(a + x + b, t, |a| + i);
    ContainsAt(a + x + b, t);
  }

  lemma ContainsSelf(t: string)
    ensures Contains(t, t)
  {
    assert t[..|t|] == t;
  }

  /** A text lacking one of `t`'s characters does not contain `t`. */
  lemma MissingCharNotContained(s: string, t: string, k: nat)
    requires k < |t| && t[k] !in s
    ensures !Contains(s, t)
  {
    ContainsAt(s, t);
    forall i | 0 <= i && i + |t| <= |s| ensures !OccursAt(s, t, i) {
      assert s[i..i + |t|][k] == s[i + k];
      assert s[i + k] in s;
    }
  }
}
