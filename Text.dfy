/**
 * The string primitives the source relies on: Python's notion of whitespace
 * (shared by `str.isspace`, `str.strip` and the regex class `\s`), stripping,
 * substring search and upper-casing of letters.
 */
module Text {
  import opened Wrappers

  /** Python's `str.isspace()` on one character; the regex `\s` of a str
      pattern matches exactly the same characters. */
  predicate IsSpace(c: char) {
    || '\t' <= c <= '\r'
    || '\U{1C}' <= c <= ' '
    || c == '\U{85}' || c == '\U{A0}' || c == '\U{1680}'
    || '\U{2000}' <= c <= '\U{200A}'
    || c == '\U{2028}' || c == '\U{2029}' || c == '\U{202F}' || c == '\U{205F}' || c == '\U{3000}'
  }

  predicate AllSpace(s: string) {
    forall i :: 0 <= i < |s| ==> IsSpace(s[i])
  }

  /** Neither the first nor the last character is whitespace. */
  predicate NoSurroundingSpace(s: string) {
    s == [] || (!IsSpace(s[0]) && !IsSpace(s[|s| - 1]))
  }

  /** `s.lstrip()`: the longest suffix of `s` that does not start with whitespace. */
  function StripLeft(s: string): (r: string)
    ensures |r| <= |s| && r == s[|s| - |r|..]
    ensures r == [] || !IsSpace(r[0])
  {
    if s != [] && IsSpace(s[0]) then
      var r := StripLeft(s[1..]);
      assert s[1..][|s| - 1 - |r|..] == s[|s| - |r|..];
      r
    else
      s
  }

  /** `s.rstrip()`: the longest prefix of `s` that does not end with whitespace. */
  function StripRight(s: string): (r: string)
    ensures |r| <= |s| && r == s[..|r|]
    ensures r == [] || !IsSpace(r[|r| - 1])
  {
    if s != [] && IsSpace(s[|s| - 1]) then
      var r := StripRight(s[..|s| - 1]);
      assert s[..|s| - 1][..|r|] == s[..|r|];
      r
    else
      s
  }

  /** `s.strip()`. */
  function Strip(s: string): (r: string)
    ensures |r| <= |s|
    ensures NoSurroundingSpace(r)
    ensures NoSurroundingSpace(s) ==> r == s
  {
    var l := StripLeft(s);
    var r := StripRight(l);
    assert r != [] ==> r[0] == l[0];
    r
  }

  /** `s.strip()` is the slice of `s` left once its leading and trailing
      whitespace is removed. */
  lemma StripIsSlice(s: string)
    ensures exists a, b :: 0 <= a <= b <= |s| && Strip(s) == s[a..b] && AllSpace(s[..a]) && AllSpace(s[b..])
  {
    var l := StripLeft(s);
    var r := StripRight(l);
    StripLeftRemovesSpace(s);
    StripRightRemovesSpace(l);
    var a, b := |s| - |l|, |s| - |l| + |r|;
    assert r == s[a..b];
    assert AllSpace(s[..a]);
    assert forall i :: 0 <= i < |s| - b ==> s[b..][i] == l[|r| + i];
  }

  /** What `lstrip` removes is whitespace. */
  lemma {:induction false} StripLeftRemovesSpace(s: string)
    ensures forall i :: 0 <= i < |s| - |StripLeft(s)| ==> IsSpace(s[i])
  {
    if s != [] && IsSpace(s[0]) {
      StripLeftRemovesSpace(s[1..]);
    }
  }

  /** What `rstrip` removes is whitespace. */
  lemma {:induction false} StripRightRemovesSpace(s: string)
    ensures forall i :: |StripRight(s)| <= i < |s| ==> IsSpace(s[i])
  {
    if s != [] && IsSpace(s[|s| - 1]) {
      StripRightRemovesSpace(s[..|s| - 1]);
    }
  }

  /** `s.strip()` is empty exactly when `s` is all whitespace. */
  lemma StripEmpty(s: string)
    ensures Strip(s) == [] <==> AllSpace(s)
  {
    var l := StripLeft(s);
    StripLeftRemovesSpace(s);
    StripRightRemovesSpace(l);
    if l != [] {
      assert l[0] == s[|s| - |l|] && !IsSpace(s[|s| - |l|]);
    }
  }

  /** Stripping a text that is `x` padded by one line break on each side gives
      back `x`, provided `x` carries no surrounding whitespace itself. */
  lemma StripPadded(x: string)
    requires NoSurroundingSpace(x)
    ensures Strip("\n" + x + "\n") == x
  {
    var u := x + "\n";
    LeftPadRemoved(x);
    if x == [] {
      LineBreakStripsLeft();
      assert u == "\n";
    } else {
      RightPadRemoved(x);
    }
  }

  lemma LeftPadRemoved(x: string)
    ensures StripLeft("\n" + x + "\n") == StripLeft(x + "\n")
  {
    var s := "\n" + x + "\n";
    assert s[1..] == x + "\n";
    assert s != [] && IsSpace(s[0]);
  }

  lemma LineBreakStripsLeft()
    ensures StripLeft("\n") == []
  {
    var u := "\n";
    assert u[1..] == [];
    assert IsSpace(u[0]);
  }

  lemma RightPadRemoved(x: string)
    requires x != [] && NoSurroundingSpace(x)
    ensures StripRight(StripLeft(x + "\n")) == x
  {
    assert (x + "\n")[0] == x[0];
    StripLeftKeeps(x + "\n");
    LineBreakStripsRight(x);
  }

  lemma StripLeftKeeps(u: string)
    requires u != [] && !IsSpace(u[0])
    ensures StripLeft(u) == u
  {
  }

  lemma LineBreakStripsRight(x: string)
    requires x != [] && !IsSpace(x[|x| - 1])
    ensures StripRight(x + "\n") == x
  {
    var u := x + "\n";
    assert u[..|u| - 1] == x;
    assert IsSpace(u[|u| - 1]);
  }

  /** `pat` occurs in `text` starting at index `i`. */
  predicate OccursAt(text: string, pat: string, i: int) {
    0 <= i && i + |pat| <= |text| && text[i..i + |pat|] == pat
  }

  /** `pat` occurs nowhere in `s`. */
  ghost predicate NoOcc(s: string, pat: string) {
    forall i :: !OccursAt(s, pat, i)
  }

  /** `text.find(pat, from)`: the first index at or after `from` where `pat`
      occurs, or None. */
  function IndexOf(text: string, pat: string, from: nat): (r: Option<nat>)
    requires from <= |text|
    ensures r.Some? ==> from <= r.value && OccursAt(text, pat, r.value)
    ensures forall i :: from <= i && (r.None? || i < r.value) ==> !OccursAt(text, pat, i)
    decreases |text| - from
  {
    if from + |pat| > |text| then None
    else if text[from..from + |pat|] == pat then Some(from)
    else if from == |text| then None
    else IndexOf(text, pat, from + 1)
  }

  /** `text.find(pat, from)` is `k` when `pat` occurs at `k` and nowhere
      between `from` and `k`. */
  lemma IndexOfFirst(text: string, pat: string, from: nat, k: nat)
    requires from <= k && OccursAt(text, pat, k)
    requires forall i :: from <= i < k ==> !OccursAt(text, pat, i)
    ensures IndexOf(text, pat, from) == Some(k)
  {
    var r := IndexOf(text, pat, from);
    assert r.Some?;
    assert !(r.value < k) && !(k < r.value);
  }

  /** Python's `pat in text`. */
  predicate Contains(text: string, pat: string) {
    IndexOf(text, pat, 0).Some?
  }

  /** Upper-cases an ASCII letter and leaves every other character alone. */
  function UpperChar(c: char): char {
    if 'a' <= c <= 'z' then (c as int - 32) as char else c
  }

  /** `s.upper()` on ASCII letters. */
  function Upper(s: string): (r: string)
    ensures |r| == |s|
    ensures forall i :: 0 <= i < |s| ==> r[i] == UpperChar(s[i])
  {
    if s == [] then [] else [UpperChar(s[0])] + Upper(s[1..])
  }

  // Facts about occurrences used by the parser's round-trip proof.

  /** A pattern longer than `s` cannot occur in it. */
  lemma NoOccShorter(s: string, pat: string)
    requires |s| < |pat|
    ensures NoOcc(s, pat)
  {
  }

  /** A pattern whose first character appears at no possible start index does
      not occur. */
  lemma NoOccByFirstChar(s: string, pat: string)
    requires |pat| > 0
    requires forall i :: 0 <= i <= |s| - |pat| ==> s[i] != pat[0]
    ensures NoOcc(s, pat)
  {
    forall i ensures !OccursAt(s, pat, i) {
      if 0 <= i && i + |pat| <= |s| {
        assert s[i..i + |pat|][0] == s[i];
      }
    }
  }

  /** Joining two texts with a line break creates no new occurrence of a
      pattern that has no line break in it. */
  lemma {:induction false} NoOccJoin(a: string, b: string, pat: string)
    requires '\n' !in pat
    requires NoOcc(a, pat) && NoOcc(b, pat)
    ensures NoOcc(a + "\n" + b, pat)
  {
    var s := a + "\n" + b;
    forall i ensures !OccursAt(s, pat, i) {
      if 0 <= i && i + |pat| <= |s| {
        if i + |pat| <= |a| {
          assert s[i..i + |pat|] == a[i..i + |pat|];
          assert !OccursAt(a, pat, i);
        } else if i > |a| {
          assert s[i..i + |pat|] == b[i - |a| - 1..i - |a| - 1 + |pat|];
          assert !OccursAt(b, pat, i - |a| - 1);
        } else {
          assert s[i..i + |pat|][|a| - i] == '\n';
        }
      }
    }
  }

  /** In `skip + region + pat + post`, where `region` ends with a line break (or
      is empty) and contains no occurrence of `pat`, the first occurrence of
      `pat` from the end of `skip` on is the one right after `region`. */
  lemma FirstOccurrence(t: string, skip: string, region: string, pat: string, post: string)
    requires t == skip + region + pat + post
    requires '\n' !in pat && |pat| > 0
    requires region == [] || region[|region| - 1] == '\n'
    requires NoOcc(region, pat)
    ensures IndexOf(t, pat, |skip|) == Some(|skip| + |region|)
  {
    var k := |skip| + |region|;
    assert t[k..k + |pat|] == pat;
    assert OccursAt(t, pat, k);
    forall i | |skip| <= i < k ensures !OccursAt(t, pat, i) {
      NoOccBefore(skip, region, pat, post, i);
    }
    var r := IndexOf(t, pat, |skip|);
    assert r.Some? && r.value <= k;
    assert !OccursAt(t, pat, r.value - 0) || r.value >= k;
  }

  /** Helper of FirstOccurrence: no occurrence starts inside `region`. */
  lemma NoOccBefore(skip: string, region: string, pat: string, post: string, i: int)
    requires '\n' !in pat && |pat| > 0
    requires region == [] || region[|region| - 1] == '\n'
    requires NoOcc(region, pat)
    requires |skip| <= i < |skip| + |region|
    ensures !OccursAt(skip + region + pat + post, pat, i)
  {
    var t := skip + region + pat + post;
    var k := |skip| + |region|;
    var j := i - |skip|;
    if i + |pat| <= k {
      assert t[i..i + |pat|] == region[j..j + |pat|];
      assert !OccursAt(region, pat, j);
    } else if i + |pat| <= |t| {
      assert t[k - 1] == region[|region| - 1];
      assert t[i..i + |pat|][k - 1 - i] == '\n';
    }
  }

  /** A slice of a text without occurrences has none either. */
  lemma NoOccSlice(s: string, a: int, b: int, pat: string)
    requires 0 <= a <= b <= |s|
    requires NoOcc(s, pat)
    ensures NoOcc(s[a..b], pat)
  {
    forall i ensures !OccursAt(s[a..b], pat, i) {
      if 0 <= i && i + |pat| <= b - a {
        var w, v := s[a..b][i..i + |pat|], s[a + i..a + i + |pat|];
        assert forall k :: 0 <= k < |pat| ==> w[k] == v[k];
        assert !OccursAt(s, pat, a + i);
      }
    }
  }

  /** The part of `text` between `a` and `q` holds no occurrence of `pat` when
      none starts in `[a, q)`. */
  lemma NoOccWindow(text: string, pat: string, a: int, q: int)
    requires 0 <= a <= q <= |text| && |pat| > 0
    requires forall i :: a <= i < q ==> !OccursAt(text, pat, i)
    ensures NoOcc(text[a..q], pat)
  {
    forall i ensures !OccursAt(text[a..q], pat, i) {
      if 0 <= i && i + |pat| <= q - a {
        var w, v := text[a..q][i..i + |pat|], text[a + i..a + i + |pat|];
        assert forall k :: 0 <= k < |pat| ==> w[k] == v[k];
        assert !OccursAt(text, pat, a + i);
      }
    }
  }

  /** Stripping creates no occurrence. */
  lemma NoOccStrip(s: string, pat: string)
    requires NoOcc(s, pat)
    ensures NoOcc(Strip(s), pat)
  {
    var l := StripLeft(s);
    NoOccSlice(s, |s| - |l|, |s|, pat);
    assert s[|s| - |l|..|s|] == l;
    NoOccSlice(l, 0, |Strip(s)|, pat);
  }
}
