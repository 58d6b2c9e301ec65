/**
 The two Python string operations the converter relies on, with their
 CPython meaning spelled out: `str.strip()` with no argument and
 `str.replace(old, new)` with a non-empty `old`, plus the `in` test on
 strings that guards one of the replacements.
 */
module PyStr {

  /** Python's `str.isspace()` character class, which is what `strip()` with
      no argument trims: U+0009..U+000D, U+001C..U+0020, U+0085, U+00A0,
      U+1680, U+2000..U+200A, U+2028, U+2029, U+202F, U+205F and U+3000. */
  predicate IsWs(c: char) {
    || ('\t' <= c <= '\r')
    || ('\U{1C}' <= c <= ' ')
    || c == '\U{85}' || c == '\U{A0}' || c == '\U{1680}'
    || ('\U{2000}' <= c <= '\U{200A}')
    || c == '\U{2028}' || c == '\U{2029}' || c == '\U{202F}'
    || c == '\U{205F}' || c == '\U{3000}'
  }

  /** `s[lo..hi]` is a run of whitespace. */
  predicate WsSpan(s: string, lo: int, hi: int) {
    0 <= lo <= hi <= |s| && forall k :: lo <= k < hi ==> IsWs(s[k])
  }

  /** Neither end of `s` is whitespace. */
  predicate Trimmed(s: string) {
    s == [] || (!IsWs(s[0]) && !IsWs(s[|s| - 1]))
  }

  /** `r` is the slice of `s` starting at `i` that is left once the leading
      and trailing whitespace runs are cut off. */
  predicate StripAt(s: string, r: string, i: int) {
    && 0 <= i <= |s| - |r| && s[i..i + |r|] == r
    && WsSpan(s, 0, i) && WsSpan(s, i + |r|, |s|) && Trimmed(r)
  }

  /** `r` is what remains of `s` once its leading and trailing whitespace
      runs are cut off: a trimmed slice of `s` with only whitespace around it. */
  ghost predicate IsStripOf(s: string, r: string) {
    exists i :: StripAt(s, r, i)
  }

  /** `str.lstrip()`: drop the leading whitespace run. */
  function LStrip(s: string): string {
    if |s| > 0 && IsWs(s[0]) then LStrip(s[1..]) else s
  }

  /** `str.rstrip()`: drop the trailing whitespace run. */
  function RStrip(s: string): string {
    if |s| > 0 && IsWs(s[|s| - 1]) then RStrip(s[..|s| - 1]) else s
  }

  /** `str.strip()`. */
  function Strip(s: string): string {
    LStrip(RStrip(s))
  }

  /** `LStrip` keeps a suffix, cuts only whitespace, and stops at the first
      character that is not whitespace. */
  lemma {:induction false} LStripSpec(s: string)
    ensures |LStrip(s)| <= |s| && LStrip(s) == s[|s| - |LStrip(s)|..]
    ensures WsSpan(s, 0, |s| - |LStrip(s)|)
    ensures LStrip(s) == [] || !IsWs(LStrip(s)[0])
    decreases |s|
  {
    if |s| > 0 && IsWs(s[0]) {
      LStripSpec(s[1..]);
      var r := LStrip(s[1..]);
      assert s[1..][|s| - 1 - |r|..] == s[|s| - |r|..];
      forall k | 0 <= k < |s| - |r| ensures IsWs(s[k]) {
        if k > 0 { assert s[k] == s[1..][k - 1]; }
      }
    } else {
      assert s[0..] == s;
    }
  }

  /** `RStrip` keeps a prefix, cuts only whitespace, and stops at the last
      character that is not whitespace. */
  lemma {:induction false} RStripSpec(s: string)
    ensures |RStrip(s)| <= |s| && RStrip(s) == s[..|RStrip(s)|]
    ensures WsSpan(s, |RStrip(s)|, |s|)
    ensures RStrip(s) == [] || !IsWs(RStrip(s)[|RStrip(s)| - 1])
    decreases |s|
  {
    if |s| > 0 && IsWs(s[|s| - 1]) {
      var u := s[..|s| - 1];
      RStripSpec(u);
      var r := RStrip(u);
      assert u[..|r|] == s[..|r|];
      forall k | |r| <= k < |s| ensures IsWs(s[k]) {
        if k < |s| - 1 { assert s[k] == u[k]; }
      }
    } else {
      assert s[..|s|] == s;
    }
  }

  /** `Strip` cuts off exactly the leading and trailing whitespace runs. */
  lemma StripSpec(s: string)
    ensures Trimmed(Strip(s))
    ensures IsStripOf(s, Strip(s))
  {
    var t := RStrip(s);
    var r := LStrip(t);
    RStripSpec(s);
    LStripSpec(t);
    var i := |t| - |r|;
    assert s[i..i + |r|] == r by { assert t == s[..|t|] && r == t[i..]; }
    assert WsSpan(s, 0, i) by {
      forall k | 0 <= k < i ensures IsWs(s[k]) { assert s[k] == t[k]; }
    }
    assert Trimmed(r) by {
      if r != [] { assert r[|r| - 1] == t[|t| - 1]; }
    }
    assert StripAt(s, r, i);
  }

  lemma StripAtEmpty(s: string, i: int)
    requires StripAt(s, [], i)
    ensures WsSpan(s, 0, |s|)
  {
  }

  lemma StripAtAllWs(s: string, r: string, i: int)
    requires StripAt(s, r, i) && WsSpan(s, 0, |s|)
    ensures r == []
  {
  }

  /** A non-empty strip result starts at the first non-whitespace character
      and ends after the last one. */
  lemma StripAtBounds(s: string, r: string, q: string, i: int, j: int)
    requires StripAt(s, r, i) && StripAt(s, q, j) && r != [] && q != []
    ensures r == q
  {
    assert s[i] == r[0] && s[j] == q[0];
    var e, f := i + |r| - 1, j + |q| - 1;
    assert s[e] == r[|r| - 1] && s[f] == q[|q| - 1];
    assert i == j && |r| == |q|;
  }

  /** The whitespace-trimmed slice of a string is unique, so `Strip` is the
      only function with the property `StripSpec` states. */
  lemma StripUnique(s: string, r: string)
    requires IsStripOf(s, r)
    ensures r == Strip(s)
  {
    var q := Strip(s);
    StripSpec(s);
    var i :| StripAt(s, r, i);
    var j :| StripAt(s, q, j);
    if r == [] {
      StripAtEmpty(s, i);
      StripAtAllWs(s, q, j);
    } else if q == [] {
      StripAtEmpty(s, j);
      StripAtAllWs(s, r, i);
    } else {
      StripAtBounds(s, r, q, i, j);
    }
  }

  /** Stripping twice is stripping once. */
  lemma StripIdempotent(s: string)
    ensures Strip(Strip(s)) == Strip(s)
  {
    var r := Strip(s);
    StripSpec(s);
    assert StripAt(r, r, 0) by { assert r[0..|r|] == r; }
    StripUnique(r, r);
  }

  /** A string with no whitespace at either end strips to itself. */
  lemma StripTrimmed(s: string)
    requires Trimmed(s)
    ensures Strip(s) == s
  {
    assert StripAt(s, s, 0) by { assert s[0..|s|] == s; }
    StripUnique(s, s);
  }

  /** `t` is a suffix of `s`. */
  predicate EndsWith(s: string, t: string) {
    |t| <= |s| && s[|s| - |t|..] == t
  }

  /** Stripping never cuts into a tail that holds no whitespace at all. */
  lemma StripKeepsSolidTail(a: string, b: string)
    requires forall k :: 0 <= k < |b| ==> !IsWs(b[k])
    ensures EndsWith(Strip(a + b), b)
  {
    var s := a + b;
    var r := Strip(s);
    StripSpec(s);
    var i :| StripAt(s, r, i);
    if b != [] {
      assert s[|s| - 1] == b[|b| - 1] && !IsWs(s[|s| - 1]);
      assert s[|a|] == b[0] && !IsWs(s[|a|]);
      assert r == s[i..];
      assert r[|r| - |b|..] == s[|a|..] == b;
    }
  }

  /** `pat` occurs in `s` starting at index `k`. */
  predicate OccursAt(s: string, pat: string, k: int) {
    0 <= k <= |s| && pat <= s[k..]
  }

  /** Python's `pat in s`. */
  predicate Contains(s: string, pat: string) {
    exists k | 0 <= k <= |s| :: OccursAt(s, pat, k)
  }

  /** Python's `s.replace(pat, rep)` for a non-empty `pat`: one left-to-right
      scan that replaces the leftmost occurrence, resumes right after it, and
      never looks at the replacement text again. */
  function Replace(s: string, pat: string, rep: string): string
    requires pat != []
    decreases |s|
  {
    if s == [] then []
    else if pat <= s then rep + Replace(s[|pat|..], pat, rep)
    else [s[0]] + Replace(s[1..], pat, rep)
  }

  lemma OccursAtShift(s: string, pat: string, k: int)
    requires s != [] && 0 <= k
    ensures OccursAt(s[1..], pat, k) <==> OccursAt(s, pat, k + 1)
  {
    if k <= |s| - 1 { assert s[1..][k..] == s[k + 1..]; }
  }

  lemma OccursAtStart(s: string, pat: string)
    ensures OccursAt(s, pat, 0) <==> pat <= s
  {
    assert s[0..] == s;
  }

  lemma ContainsShift(s: string, pat: string)
    requires s != [] && !(pat <= s)
    ensures Contains(s, pat) <==> Contains(s[1..], pat)
  {
    OccursAtStart(s, pat);
    if Contains(s, pat) {
      var k :| 0 <= k <= |s| && OccursAt(s, pat, k);
      OccursAtShift(s, pat, k - 1);
    }
    if Contains(s[1..], pat) {
      var k :| 0 <= k <= |s[1..]| && OccursAt(s[1..], pat, k);
      OccursAtShift(s, pat, k);
    }
  }

  /** A pattern cannot occur in a string shorter than itself. */
  lemma ShortNoMatch(s: string, pat: string)
    requires |s| < |pat|
    ensures !Contains(s, pat)
  {
  }

  /** A pattern cannot occur in a string that lacks one of its characters. */
  lemma MissingCharNoMatch(s: string, pat: string, c: char)
    requires c in pat && c !in s
    ensures !Contains(s, pat)
  {
  }

  /** Without an occurrence of `pat`, replacing it changes nothing. */
  lemma {:induction false} ReplaceNoMatch(s: string, pat: string, rep: string)
    requires pat != [] && !Contains(s, pat)
    ensures Replace(s, pat, rep) == s
    decreases |s|
  {
    if s != [] {
      OccursAtStart(s, pat);
      ContainsShift(s, pat);
      ReplaceNoMatch(s[1..], pat, rep);
    }
  }

  /** The scan semantics: everything before the leftmost occurrence is copied
      verbatim, that occurrence becomes `rep`, and scanning resumes right
      after it. Together with `ReplaceNoMatch` this pins `Replace` down. */
  lemma {:induction false} ReplaceLeftmost(s: string, pat: string, rep: string, k: nat)
    requires pat != [] && OccursAt(s, pat, k)
    requires forall j :: 0 <= j < k ==> !OccursAt(s, pat, j)
    ensures Replace(s, pat, rep) == s[..k] + (rep + Replace(s[k + |pat|..], pat, rep))
    decreases k
  {
    if k == 0 {
      OccursAtStart(s, pat);
      assert s[..0] == [];
    } else {
      var t := s[1..];
      var rest := rep + Replace(s[k + |pat|..], pat, rep);
      calc {
        Replace(s, pat, rep);
        { EarliestShift(s, pat, k); ReplaceSkip(s, pat, rep); }
        [s[0]] + Replace(t, pat, rep);
        { EarliestShift(s, pat, k); ReplaceLeftmost(t, pat, rep, k - 1); }
        [s[0]] + (t[..k - 1] + (rep + Replace(t[k - 1 + |pat|..], pat, rep)));
        { SliceShift(s, k, |pat|); }
        [s[0]] + (t[..k - 1] + rest);
        { ConcatAssoc([s[0]], t[..k - 1], rest); }
        ([s[0]] + t[..k - 1]) + rest;
        { SliceShift(s, k, |pat|); }
        s[..k] + rest;
      }
    }
  }

  lemma SliceShift<T>(s: seq<T>, k: nat, n: nat)
    requires 0 < k && k + n <= |s|
    ensures s[1..][k - 1 + n..] == s[k + n..]
    ensures s[..k] == [s[0]] + s[1..][..k - 1]
  {
  }

  /** One step of the scan where no occurrence starts at the front. */
  lemma ReplaceSkip(s: string, pat: string, rep: string)
    requires pat != [] && s != [] && !(pat <= s)
    ensures Replace(s, pat, rep) == [s[0]] + Replace(s[1..], pat, rep)
  {
  }

  lemma ConcatAssoc<T>(a: seq<T>, b: seq<T>, c: seq<T>)
    ensures a + (b + c) == (a + b) + c
  {
  }

  lemma EarliestShift(s: string, pat: string, k: nat)
    requires pat != [] && 0 < k && OccursAt(s, pat, k)
    requires forall j :: 0 <= j < k ==> !OccursAt(s, pat, j)
    ensures s != [] && !(pat <= s)
    ensures OccursAt(s[1..], pat, k - 1)
    ensures forall j :: 0 <= j < k - 1 ==> !OccursAt(s[1..], pat, j)
  {
    assert !OccursAt(s, pat, 0);
    OccursAtStart(s, pat);
    OccursAtShift(s, pat, k - 1);
    forall j | 0 <= j < k - 1
      ensures !OccursAt(s[1..], pat, j)
    {
      OccursAtShift(s, pat, j);
    }
  }

  /** Deleting a pattern never lengthens a string; it shortens it by at least
      one whole pattern exactly when the pattern occurs. */
  lemma {:induction false} RemoveShrinks(s: string, pat: string)
    requires pat != []
    ensures |Replace(s, pat, [])| <= |s|
    ensures Contains(s, pat) ==> |Replace(s, pat, [])| <= |s| - |pat|
    decreases |s|
  {
    if s != [] {
      if pat <= s {
        RemoveShrinks(s[|pat|..], pat);
      } else {
        ContainsShift(s, pat);
        RemoveShrinks(s[1..], pat);
      }
    }
  }

  /** Deleting a pattern is the identity exactly on strings that do not
      contain it. */
  lemma RemoveIdentityIff(s: string, pat: string)
    requires pat != []
    ensures Replace(s, pat, []) == s <==> !Contains(s, pat)
  {
    RemoveShrinks(s, pat);
    if !Contains(s, pat) {
      ReplaceNoMatch(s, pat, []);
    }
  }
}
